/** Option and Result values used for the error paths of the model. */
module Outcomes {

  datatype Option<+T> = None | Some(value: T)

  /** A computation that either produces a value or fails with an error,
      standing in for a raised exception. */
  datatype Result<+T, +E> = Ok(value: T) | Err(error: E)
}
