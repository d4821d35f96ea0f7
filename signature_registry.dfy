/**
 * build_function_sig_db: every declaration header found in the `.sol` files
 * of a directory tree is normalised, hashed to its 4-byte selector, and added
 * to the set of signatures kept under that selector; the database is then
 * written with each selector as eight hexadecimal digits.
 *
 * The directory walk and the reading of the files are given as a sequence of
 * (path, text) pairs in walk order; Keccak-256 is a parameter.
 */
module SignatureRegistry {
  import opened Outcomes
  import opened FunctionSignature
  import opened SignatureNormalizer
  import opened Selectors

  /** One file the directory walk produced. */
  datatype SourceFile = SourceFile(path: string, text: string)

  /** hash_sigs: each selector maps to the set of signatures that hash to it. */
  type Registry = map<Selector, set<string>>

  /** The JSON object written at the end: hexadecimal key to signatures. */
  type SerializedRegistry = map<string, set<string>>

  const SolidityExtension: string := ".sol"

  /** str.endswith. */
  predicate EndsWith(s: string, suffix: string) {
    |suffix| <= |s| && s[|s| - |suffix|..] == suffix
  }

  /** The declarations of one file the builder visits: those of a `.sol` file, none of
      any other file (yield_file does not yield it). */
  function FileDeclarations(f: SourceFile): seq<string> {
    if EndsWith(f.path, SolidityExtension) then ExtractFunctionSignatures(f.text) else []
  }

  /** The declarations the builder visits, file after file, each file's in order. */
  function Declarations(files: seq<SourceFile>): seq<string>
  {
    if files == [] then []
    else Declarations(files[..|files| - 1]) + FileDeclarations(files[|files| - 1])
  }

  /* ---- One step of the loop ------------------------------------------------- */

  /** hash_sigs.setdefault(k, set()) followed by hash_sigs[k].add(sig): the key is
      created when absent, sig joins its set, and no other key changes. */
  function AddSignature(db: Registry, k: Selector, sig: string): (r: Registry)
    ensures r.Keys == db.Keys + {k}
    ensures k in db ==> r[k] == db[k] + {sig}
    ensures k !in db ==> r[k] == {sig}
    ensures forall j | j in db && j != k :: r[j] == db[j]
  {
    db[k := (if k in db then db[k] else {}) + {sig}]
  }

  /** The body of the inner loop for one declaration: a "Bad function name" error skips
      it, any other error is raised again, and a normalised signature is added under its
      selector. */
  function AddDeclaration(keccak: seq<byte> -> Digest, db: Registry, decl: string): Result<Registry, SignatureError>
  {
    match NormalizeFunctionSignature(decl)
    case Err(e) => if e == BadFunctionName then Ok(db) else Err(e)
    case Ok(sig) => Ok(AddSignature(db, Make4ByteSignature(keccak, sig), sig))
  }

  /** The loop over a sequence of declarations, starting from db; the first error that
      is raised ends it. */
  function AddDeclarations(keccak: seq<byte> -> Digest, db: Registry, decls: seq<string>): Result<Registry, SignatureError>
    decreases |decls|
  {
    if decls == [] then Ok(db)
    else
      match AddDeclarations(keccak, db, decls[..|decls| - 1])
      case Err(e) => Err(e)
      case Ok(d) => AddDeclaration(keccak, d, decls[|decls| - 1])
  }

  /** The database build_function_sig_db collects from the files. */
  function BuildRegistry(keccak: seq<byte> -> Digest, files: seq<SourceFile>): Result<Registry, SignatureError>
  {
    AddDeclarations(keccak, map[], Declarations(files))
  }

  /* ---- Serialisation -------------------------------------------------------- */

  /** out holds the selectors ks of db: its keys are their hexadecimal texts, each
      holding its selector's set. */
  predicate WritesSelectors(out: SerializedRegistry, db: Registry, ks: set<Selector>)
    requires ks <= db.Keys
  {
    && out.Keys == HexImage(ks)
    && forall k | k in ks :: out[Hex(k)] == db[k]
  }

  /** out is hash_sigs_json_serializable for db: every selector of db written. */
  predicate IsSerialization(out: SerializedRegistry, db: Registry) {
    WritesSelectors(out, db, db.Keys)
  }

  /** Every key written is eight lower-case hexadecimal digits that read back as a
      selector of the database. */
  lemma SerializedKeys(out: SerializedRegistry, db: Registry)
    requires IsSerialization(out, db)
    ensures forall key | key in out ::
      && UnHex(key) in db
      && Hex(UnHex(key)) == key
      && out[key] == db[UnHex(key)]
      && |key| == 8
      && (forall c | c in key :: c in HexDigits)
  {
    forall key | key in out
      ensures UnHex(key) in db && Hex(UnHex(key)) == key && out[key] == db[UnHex(key)]
      ensures |key| == 8 && forall c | c in key :: c in HexDigits
    {
      var k :| k in db && Hex(k) == key;
      HexRoundTrip(k);
      SelectorHex(k);
    }
  }

  /** The serialisation of a database is unique. */
  lemma SerializationUnique(out1: SerializedRegistry, out2: SerializedRegistry, db: Registry)
    requires IsSerialization(out1, db) && IsSerialization(out2, db)
    ensures out1 == out2
  {
    forall key | key in out1
      ensures out1[key] == out2[key]
    {
      var k :| k in db && Hex(k) == key;
    }
  }

  /** The number of keys written is the number of distinct selectors. */
  lemma {:induction false} SerializedCount(out: SerializedRegistry, db: Registry)
    requires IsSerialization(out, db)
    ensures |out| == |db|
  {
    HexKeysCount(db.Keys);
  }

  /** The keys written for the selectors ks. */
  function HexImage(ks: set<Selector>): set<string> {
    set k | k in ks :: Hex(k)
  }

  /** Distinct selectors give distinct keys, so there are as many keys as selectors. */
  lemma {:induction false} HexKeysCount(ks: set<Selector>)
    ensures |HexImage(ks)| == |ks|
    decreases |ks|
  {
    if ks != {} {
      var k :| k in ks;
      var rest := ks - {k};
      HexKeysCount(rest);
      assert HexImage(ks) == HexImage(rest) + {Hex(k)};
      if Hex(k) in HexImage(rest) {
        var j :| j in rest && Hex(j) == Hex(k);
        HexInjective(j, k);
      }
    }
  }

  /* ---- The builder ---------------------------------------------------------- */

  /** The inner loop of build_function_sig_db over the declarations of one file: each
      is added in turn, and the first error raised again ends it. */
  method AddFileSignatures(keccak: seq<byte> -> Digest, db: Registry, sigs: seq<string>)
    returns (r: Result<Registry, SignatureError>)
    ensures r == AddDeclarations(keccak, db, sigs)
  {
    var hashSigs := db;
    var j := 0;
    while j < |sigs|
      invariant j <= |sigs|
      invariant AddDeclarations(keccak, db, sigs[..j]) == Ok(hashSigs)
    {
      NextDeclaration(keccak, db, sigs, j, hashSigs);
      var added := AddFunctionSignature(keccak, hashSigs, sigs[j]);
      if added.Err? {
        AbortAt(keccak, db, sigs, j);
        return added;
      }
      hashSigs := added.value;
      j := j + 1;
    }
    assert sigs[..j] == sigs;
    return Ok(hashSigs);
  }

  /** The body of the inner loop for one declaration: it is normalised, hashed, and added
      to its selector's set; "Bad function name" skips it and any other error is raised
      again. */
  method AddFunctionSignature(keccak: seq<byte> -> Digest, hashSigs: Registry, funcSig: string)
    returns (r: Result<Registry, SignatureError>)
    ensures r == AddDeclaration(keccak, hashSigs, funcSig)
  {
    var normalized := NormalizeFunctionSignature(funcSig);
    match normalized {
      case Err(e) =>
        if e != BadFunctionName {
          return Err(e);
        }
        return Ok(hashSigs);
      case Ok(normSig) =>
        var fhash := Make4ByteSignature(keccak, normSig);
        var db := hashSigs;
        if fhash !in db {
          db := db[fhash := {}];
        }
        ghost var created := db;
        db := db[fhash := db[fhash] + {normSig}];
        SetDefaultThenAdd(hashSigs, fhash, normSig, created, db);
        return Ok(db);
    }
  }

  /** The loop of build_function_sig_db over the files the walk yields, each file's
      declarations added in turn; the first error raised ends it. */
  method CollectSignatures(keccak: seq<byte> -> Digest, files: seq<SourceFile>)
    returns (r: Result<Registry, SignatureError>)
    ensures r == BuildRegistry(keccak, files)
  {
    var hashSigs: Registry := map[];
    var i := 0;
    while i < |files|
      invariant i <= |files|
      invariant AddDeclarations(keccak, map[], Declarations(files[..i])) == Ok(hashSigs)
    {
      NextFile(keccak, files, i, hashSigs);
      var added := AddFile(keccak, hashSigs, files[i]);
      if added.Err? {
        AbortInFile(keccak, files, i, hashSigs);
        return added;
      }
      hashSigs := added.value;
      i := i + 1;
    }
    assert files[..i] == files;
    return Ok(hashSigs);
  }

  /** One file the walk produced: yield_file passes on only the `.sol` files, whose
      declaration headers are then added. */
  method AddFile(keccak: seq<byte> -> Digest, db: Registry, f: SourceFile)
    returns (r: Result<Registry, SignatureError>)
    ensures r == AddDeclarations(keccak, db, FileDeclarations(f))
  {
    if EndsWith(f.path, SolidityExtension) {
      r := AddFileSignatures(keccak, db, ExtractFunctionSignatures(f.text));
    } else {
      r := Ok(db);
    }
  }

  /** build_function_sig_db without its output file: the database collected from the
      `.sol` files, serialised, or the error that aborted the build. */
  method BuildFunctionSigDb(keccak: seq<byte> -> Digest, files: seq<SourceFile>)
    returns (r: Result<SerializedRegistry, SignatureError>)
    ensures BuildRegistry(keccak, files).Ok? ==> r.Ok? && IsSerialization(r.value, BuildRegistry(keccak, files).value)
    ensures BuildRegistry(keccak, files).Err? ==> r == Err(BuildRegistry(keccak, files).error)
  {
    var hashSigs := CollectSignatures(keccak, files);
    if hashSigs.Err? {
      return Err(hashSigs.error);
    }
    var out := SerializeRegistry(hashSigs.value);
    return Ok(out);
  }

  /** The last loop of build_function_sig_db: each selector's set is written under the
      selector's hexadecimal text. */
  method SerializeRegistry(hashSigs: Registry) returns (out: SerializedRegistry)
    ensures IsSerialization(out, hashSigs)
  {
    out := map[];
    var todo := hashSigs.Keys;
    while todo != {}
      invariant todo <= hashSigs.Keys
      invariant WritesSelectors(out, hashSigs, hashSigs.Keys - todo)
      decreases |todo|
    {
      var k :| k in todo;
      SerializationStep(out, hashSigs, hashSigs.Keys - todo, k);
      DoneGrows(hashSigs.Keys, todo, k);
      out := out[Hex(k) := hashSigs[k]];
      todo := todo - {k};
    }
    assert hashSigs.Keys - {} == hashSigs.Keys;
  }

  /** Taking k off the selectors still to write adds it to those written. */
  lemma DoneGrows(all: set<Selector>, todo: set<Selector>, k: Selector)
    requires todo <= all && k in todo
    ensures all - (todo - {k}) == (all - todo) + {k}
  {
  }

  /** Writing one more selector extends what is written. */
  lemma SerializationStep(out: SerializedRegistry, db: Registry, ks: set<Selector>, k: Selector)
    requires ks <= db.Keys && k in db && k !in ks
    requires WritesSelectors(out, db, ks)
    ensures WritesSelectors(out[Hex(k) := db[k]], db, ks + {k})
  {
    KeysStep(out, ks, k, db[k]);
    ValuesStep(out, db, ks, k);
  }

  lemma KeysStep(out: SerializedRegistry, ks: set<Selector>, k: Selector, v: set<string>)
    requires out.Keys == HexImage(ks)
    ensures out[Hex(k) := v].Keys == HexImage(ks + {k})
  {
    assert HexImage(ks + {k}) == HexImage(ks) + {Hex(k)};
  }

  lemma ValuesStep(out: SerializedRegistry, db: Registry, ks: set<Selector>, k: Selector)
    requires ks <= db.Keys && k in db && k !in ks
    requires WritesSelectors(out, db, ks)
    ensures forall j | j in ks + {k} :: out[Hex(k) := db[k]][Hex(j)] == db[j]
  {
    forall j | j in ks + {k}
      ensures out[Hex(k) := db[k]][Hex(j)] == db[j]
    {
      if j != k && Hex(j) == Hex(k) {
        HexInjective(j, k);
      }
    }
  }

  /** setdefault(k, set()) and then add(sig) is AddSignature. */
  lemma SetDefaultThenAdd(db: Registry, k: Selector, sig: string, created: Registry, added: Registry)
    requires created == if k in db then db else db[k := {}]
    requires k in created && added == created[k := created[k] + {sig}]
    ensures added == AddSignature(db, k, sig)
  {
  }

  /** The loop's next step is the next declaration's step. */
  lemma NextDeclaration(keccak: seq<byte> -> Digest, db: Registry, sigs: seq<string>, j: nat, d: Registry)
    requires j < |sigs|
    requires AddDeclarations(keccak, db, sigs[..j]) == Ok(d)
    ensures AddDeclarations(keccak, db, sigs[..j + 1]) == AddDeclaration(keccak, d, sigs[j])
  {
    assert sigs[..j + 1][..j] == sigs[..j];
  }

  /** An error at declaration j is the result of the whole loop. */
  lemma AbortAt(keccak: seq<byte> -> Digest, db: Registry, sigs: seq<string>, j: nat)
    requires j < |sigs|
    requires AddDeclarations(keccak, db, sigs[..j + 1]).Err?
    ensures AddDeclarations(keccak, db, sigs) == AddDeclarations(keccak, db, sigs[..j + 1])
  {
    AbortStops(keccak, db, sigs[..j + 1], sigs[j + 1..]);
    assert sigs[..j + 1] + sigs[j + 1..] == sigs;
  }

  /** The loop over the files goes on with the declarations of file i. */
  lemma NextFile(keccak: seq<byte> -> Digest, files: seq<SourceFile>, i: nat, db: Registry)
    requires i < |files|
    requires AddDeclarations(keccak, map[], Declarations(files[..i])) == Ok(db)
    ensures AddDeclarations(keccak, map[], Declarations(files[..i + 1]))
      == AddDeclarations(keccak, db, FileDeclarations(files[i]))
  {
    assert files[..i + 1][..i] == files[..i];
    AddDeclarationsThen(keccak, map[], Declarations(files[..i]), FileDeclarations(files[i]));
  }

  /** An error raised while the declarations of file i are processed is the result of
      the whole build. */
  lemma AbortInFile(keccak: seq<byte> -> Digest, files: seq<SourceFile>, i: nat, db: Registry)
    requires i < |files|
    requires AddDeclarations(keccak, map[], Declarations(files[..i])) == Ok(db)
    requires AddDeclarations(keccak, db, FileDeclarations(files[i])).Err?
    ensures BuildRegistry(keccak, files) == AddDeclarations(keccak, db, FileDeclarations(files[i]))
  {
    NextFile(keccak, files, i, db);
    DeclarationsSplit(files, i + 1);
    AbortStops(keccak, map[], Declarations(files[..i + 1]), Declarations(files[i + 1..]));
  }

  /** The declarations of the files are those of the first n files, then the rest's. */
  lemma DeclarationsSplit(files: seq<SourceFile>, n: nat)
    requires n <= |files|
    ensures Declarations(files) == Declarations(files[..n]) + Declarations(files[n..])
  {
    TakeDrop(files, n);
    DeclarationsAppend(files[..n], files[n..]);
  }

  /** Cutting the files at n and joining the halves gives them back. */
  lemma TakeDrop(files: seq<SourceFile>, n: nat)
    requires n <= |files|
    ensures files[..n] + files[n..] == files
  {
  }

  /** The declarations of two runs of files one after the other. */
  lemma {:induction false} DeclarationsAppend(a: seq<SourceFile>, b: seq<SourceFile>)
    ensures Declarations(a + b) == Declarations(a) + Declarations(b)
    decreases |b|
  {
    if b != [] {
      var b' := b[..|b| - 1];
      assert (a + b)[..|a + b| - 1] == a + b';
      DeclarationsAppend(a, b');
      assert Declarations(b) == Declarations(b') + FileDeclarations(b[|b| - 1]);
    } else {
      assert a + b == a;
    }
  }

  /* ---- Error policy ---------------------------------------------------------- */

  /** Any error other than "Bad function name" aborts the build: nothing after it is
      processed and the error is the result. */
  lemma {:induction false} AbortStops(keccak: seq<byte> -> Digest, db: Registry, p: seq<string>, q: seq<string>)
    requires AddDeclarations(keccak, db, p).Err?
    ensures AddDeclarations(keccak, db, p + q) == AddDeclarations(keccak, db, p)
    decreases |q|
  {
    if q == [] {
      assert p + q == p;
    } else {
      var q' := q[..|q| - 1];
      assert (p + q)[..|p + q| - 1] == p + q';
      AbortStops(keccak, db, p, q');
    }
  }

  /** A declaration whose name is `function` is skipped: the build goes on as though it
      were not there. */
  lemma {:induction false} BadNameSkipped(keccak: seq<byte> -> Digest, db: Registry, p: seq<string>, d: string, q: seq<string>)
    requires NormalizeFunctionSignature(d) == Err(BadFunctionName)
    ensures AddDeclarations(keccak, db, p + [d] + q) == AddDeclarations(keccak, db, p + q)
    decreases |q|
  {
    if q == [] {
      assert (p + [d] + q)[..|p + [d] + q| - 1] == p;
      assert p + q == p;
    } else {
      var q' := q[..|q| - 1];
      assert (p + [d] + q)[..|p + [d] + q| - 1] == p + [d] + q';
      assert (p + q)[..|p + q| - 1] == p + q';
      assert (p + [d] + q)[|p + [d] + q| - 1] == (p + q)[|p + q| - 1];
      BadNameSkipped(keccak, db, p, d, q');
    }
  }

  /** A declaration that does not even match extract_function_name's pattern aborts the
      build with that error. */
  lemma {:induction false} UnmatchedAborts(keccak: seq<byte> -> Digest, db: Registry, decls: seq<string>, n: nat)
    requires n < |decls|
    requires ExtractFunctionName(decls[n]) == Err(DidNotMatchFunctionName)
    ensures AddDeclarations(keccak, db, decls).Err?
  {
    var p := decls[..n + 1];
    UnmatchedPrefixAborts(keccak, db, decls, n);
    AbortStops(keccak, db, p, decls[n + 1..]);
    assert p + decls[n + 1..] == decls;
  }

  /** The declarations up to and including one the name pattern rejects end in an
      error. */
  lemma UnmatchedPrefixAborts(keccak: seq<byte> -> Digest, db: Registry, decls: seq<string>, n: nat)
    requires n < |decls|
    requires ExtractFunctionName(decls[n]) == Err(DidNotMatchFunctionName)
    ensures AddDeclarations(keccak, db, decls[..n + 1]).Err?
  {
    match AddDeclarations(keccak, db, decls[..n]) {
      case Ok(d) =>
        NextDeclaration(keccak, db, decls, n, d);
        UnmatchedDeclarationAborts(keccak, d, decls[n]);
      case Err(_) =>
        AbortStops(keccak, db, decls[..n], [decls[n]]);
        assert decls[..n] + [decls[n]] == decls[..n + 1];
    }
  }

  /** A declaration extract_function_name rejects raises its error again. */
  lemma UnmatchedDeclarationAborts(keccak: seq<byte> -> Digest, db: Registry, decl: string)
    requires ExtractFunctionName(decl) == Err(DidNotMatchFunctionName)
    ensures AddDeclaration(keccak, db, decl) == Err(DidNotMatchFunctionName)
  {
    assert NormalizeFunctionSignature(decl) == Err(DidNotMatchFunctionName);
  }

  /** Every declaration the builder visits is a header extract_function_signatures
      found, so it matches extract_function_name's pattern. */
  lemma {:induction false} DeclarationsMatch(files: seq<SourceFile>)
    ensures forall d | d in Declarations(files) :: ExtractFunctionName(d) != Err(DidNotMatchFunctionName)
    decreases |files|
  {
    if files != [] {
      DeclarationsMatch(files[..|files| - 1]);
      ExtractedAreHeaders(files[|files| - 1].text);
    }
  }

  /** With only "Bad function name" errors possible, the loop never aborts. */
  lemma {:induction false} MatchingDeclarationsNeverAbort(keccak: seq<byte> -> Digest, db: Registry, decls: seq<string>)
    requires forall d | d in decls :: ExtractFunctionName(d) != Err(DidNotMatchFunctionName)
    ensures AddDeclarations(keccak, db, decls).Ok?
    decreases |decls|
  {
    if decls != [] {
      var p := decls[..|decls| - 1];
      assert forall d | d in p :: d in decls;
      MatchingDeclarationsNeverAbort(keccak, db, p);
      assert decls[|decls| - 1] in decls;
    }
  }

  /** The re-raise in build_function_sig_db is never reached: the headers
      extract_function_signatures finds always match extract_function_name's pattern, so
      the only error left is the skipped "Bad function name". */
  lemma BuildNeverAborts(keccak: seq<byte> -> Digest, files: seq<SourceFile>)
    ensures BuildRegistry(keccak, files).Ok?
  {
    DeclarationsMatch(files);
    MatchingDeclarationsNeverAbort(keccak, map[], Declarations(files));
  }

  /* ---- Invariants of the database -------------------------------------------- */

  /** Every stored signature is canonical and is stored under its own selector. */
  predicate Consistent(keccak: seq<byte> -> Digest, db: Registry) {
    forall k | k in db :: forall s | s in db[k] :: Make4ByteSignature(keccak, s) == k && IsCanonicalFunctionSignature(s)
  }

  /** Keys are never removed and sets only grow. */
  predicate Grows(db: Registry, r: Registry) {
    db.Keys <= r.Keys && forall k | k in db :: db[k] <= r[k]
  }

  /** Each step of the loop keeps the database consistent and only adds to it. */
  lemma AddDeclarationKeeps(keccak: seq<byte> -> Digest, db: Registry, decl: string)
    requires Consistent(keccak, db)
    requires AddDeclaration(keccak, db, decl).Ok?
    ensures Consistent(keccak, AddDeclaration(keccak, db, decl).value)
    ensures Grows(db, AddDeclaration(keccak, db, decl).value)
  {
    if NormalizeFunctionSignature(decl).Ok? {
      NormalizedIsCanonical(decl);
    }
  }

  /** The loop keeps the database consistent and only adds to it. */
  lemma {:induction false} AddDeclarationsKeep(keccak: seq<byte> -> Digest, db: Registry, decls: seq<string>)
    requires Consistent(keccak, db)
    requires AddDeclarations(keccak, db, decls).Ok?
    ensures Consistent(keccak, AddDeclarations(keccak, db, decls).value)
    ensures Grows(db, AddDeclarations(keccak, db, decls).value)
    decreases |decls|
  {
    if decls != [] {
      var p := decls[..|decls| - 1];
      AddDeclarationsKeep(keccak, db, p);
      var d := AddDeclarations(keccak, db, p).value;
      AddDeclarationKeeps(keccak, d, decls[|decls| - 1]);
    }
  }

  /** Every signature in the built database is canonical and hashes to its key. */
  lemma RegistryConsistent(keccak: seq<byte> -> Digest, files: seq<SourceFile>)
    ensures BuildRegistry(keccak, files).Ok?
    ensures Consistent(keccak, BuildRegistry(keccak, files).value)
  {
    BuildNeverAborts(keccak, files);
    AddDeclarationsKeep(keccak, map[], Declarations(files));
  }

  /** The database after more files contains the database after fewer. */
  lemma RegistryGrows(keccak: seq<byte> -> Digest, files: seq<SourceFile>, more: seq<SourceFile>)
    ensures BuildRegistry(keccak, files).Ok? && BuildRegistry(keccak, files + more).Ok?
    ensures Grows(BuildRegistry(keccak, files).value, BuildRegistry(keccak, files + more).value)
  {
    BuildNeverAborts(keccak, files);
    BuildNeverAborts(keccak, files + more);
    RegistryConsistent(keccak, files);
    DeclarationsAppend(files, more);
    var db := BuildRegistry(keccak, files).value;
    AddDeclarationsThen(keccak, map[], Declarations(files), Declarations(more));
    AddDeclarationsKeep(keccak, db, Declarations(more));
  }

  /** Processing p and then q is processing p + q. */
  lemma {:induction false} AddDeclarationsThen(keccak: seq<byte> -> Digest, db: Registry, p: seq<string>, q: seq<string>)
    requires AddDeclarations(keccak, db, p).Ok?
    ensures AddDeclarations(keccak, db, p + q) == AddDeclarations(keccak, AddDeclarations(keccak, db, p).value, q)
    decreases |q|
  {
    if q == [] {
      assert p + q == p;
    } else {
      var q' := q[..|q| - 1];
      assert (p + q)[..|p + q| - 1] == p + q';
      AddDeclarationsThen(keccak, db, p, q');
    }
  }

  /** Adding a signature already stored under its key changes nothing. */
  lemma ReAddUnchanged(db: Registry, k: Selector, sig: string)
    requires k in db && sig in db[k]
    ensures AddSignature(db, k, sig) == db
  {
    assert db[k] + {sig} == db[k];
  }

  /** A declaration whose signature is already stored leaves the database unchanged. */
  lemma ReAddDeclarationUnchanged(keccak: seq<byte> -> Digest, db: Registry, decl: string)
    requires NormalizeFunctionSignature(decl).Ok?
    requires var sig := NormalizeFunctionSignature(decl).value;
      Make4ByteSignature(keccak, sig) in db && sig in db[Make4ByteSignature(keccak, sig)]
    ensures AddDeclaration(keccak, db, decl) == Ok(db)
  {
    var sig := NormalizeFunctionSignature(decl).value;
    ReAddUnchanged(db, Make4ByteSignature(keccak, sig), sig);
  }

  /* ---- What the database holds ------------------------------------------------- */

  /** Declaration d puts signature s under key k. */
  predicate Contributes(keccak: seq<byte> -> Digest, d: string, k: Selector, s: string) {
    NormalizeFunctionSignature(d) == Ok(s) && Make4ByteSignature(keccak, s) == k
  }

  /** After the loop, s is stored under k exactly when it was there before or one of the
      declarations contributes it. */
  lemma {:induction false} AddDeclarationsContents(keccak: seq<byte> -> Digest, db: Registry, decls: seq<string>, k: Selector, s: string)
    requires AddDeclarations(keccak, db, decls).Ok?
    ensures var r := AddDeclarations(keccak, db, decls).value;
      (k in r && s in r[k]) <==> ((k in db && s in db[k]) || exists d | d in decls :: Contributes(keccak, d, k, s))
    decreases |decls|
  {
    if decls != [] {
      var p := decls[..|decls| - 1];
      var last := decls[|decls| - 1];
      AddDeclarationsContents(keccak, db, p, k, s);
      var d := AddDeclarations(keccak, db, p).value;
      AddDeclarationContents(keccak, d, last, k, s);
      ContributorSplit(keccak, decls, k, s);
    }
  }

  /** One step stores s under k exactly when it was there or the declaration
      contributes it. */
  lemma AddDeclarationContents(keccak: seq<byte> -> Digest, db: Registry, decl: string, k: Selector, s: string)
    requires AddDeclaration(keccak, db, decl).Ok?
    ensures var r := AddDeclaration(keccak, db, decl).value;
      (k in r && s in r[k]) <==> ((k in db && s in db[k]) || Contributes(keccak, decl, k, s))
  {
  }

  /** A contributor among decls is one among all but the last, or the last. */
  lemma ContributorSplit(keccak: seq<byte> -> Digest, decls: seq<string>, k: Selector, s: string)
    requires decls != []
    ensures (exists d | d in decls :: Contributes(keccak, d, k, s)) <==>
      ((exists d | d in decls[..|decls| - 1] :: Contributes(keccak, d, k, s))
        || Contributes(keccak, decls[|decls| - 1], k, s))
  {
    var p := decls[..|decls| - 1];
    assert decls == p + [decls[|decls| - 1]];
    assert forall d | d in p :: d in decls;
  }

  /** The built database stores s under k exactly when some declaration of the `.sol`
      files normalises to s and s hashes to k. */
  lemma RegistryContents(keccak: seq<byte> -> Digest, files: seq<SourceFile>, k: Selector, s: string)
    ensures BuildRegistry(keccak, files).Ok?
    ensures var db := BuildRegistry(keccak, files).value;
      (k in db && s in db[k]) <==> exists d | d in Declarations(files) :: Contributes(keccak, d, k, s)
  {
    BuildNeverAborts(keccak, files);
    AddDeclarationsContents(keccak, map[], Declarations(files), k, s);
  }

  /* ---- Order independence -------------------------------------------------------- */

  /** No selector is kept with an empty set: setdefault is always followed by add. */
  predicate NoEmptySets(db: Registry) {
    forall k | k in db :: db[k] != {}
  }

  /** The loop never leaves a selector with an empty set. */
  lemma {:induction false} AddDeclarationsNonEmpty(keccak: seq<byte> -> Digest, db: Registry, decls: seq<string>)
    requires NoEmptySets(db)
    requires AddDeclarations(keccak, db, decls).Ok?
    ensures NoEmptySets(AddDeclarations(keccak, db, decls).value)
    decreases |decls|
  {
    if decls != [] {
      AddDeclarationsNonEmpty(keccak, db, decls[..|decls| - 1]);
    }
  }

  /** Every selector of the built database holds at least one signature. */
  lemma RegistryNonEmpty(keccak: seq<byte> -> Digest, files: seq<SourceFile>)
    ensures BuildRegistry(keccak, files).Ok?
    ensures NoEmptySets(BuildRegistry(keccak, files).value)
  {
    BuildNeverAborts(keccak, files);
    AddDeclarationsNonEmpty(keccak, map[], Declarations(files));
  }

  /** A pair stored by one walk is stored by any walk that visits the same declarations. */
  lemma StoredByBoth(keccak: seq<byte> -> Digest, f1: seq<SourceFile>, f2: seq<SourceFile>, k: Selector, s: string)
    requires forall d :: d in Declarations(f1) <==> d in Declarations(f2)
    ensures BuildRegistry(keccak, f1).Ok? && BuildRegistry(keccak, f2).Ok?
    ensures var db1, db2 := BuildRegistry(keccak, f1).value, BuildRegistry(keccak, f2).value;
      (k in db1 && s in db1[k]) ==> (k in db2 && s in db2[k])
  {
    RegistryContents(keccak, f1, k, s);
    RegistryContents(keccak, f2, k, s);
  }

  /** The database does not depend on the order in which the walk visits the files or
      the declarations: two walks that visit the same declarations build the same map. */
  lemma RegistryOrderIndependent(keccak: seq<byte> -> Digest, f1: seq<SourceFile>, f2: seq<SourceFile>)
    requires forall d :: d in Declarations(f1) <==> d in Declarations(f2)
    ensures BuildRegistry(keccak, f1).Ok? && BuildRegistry(keccak, f2).Ok?
    ensures BuildRegistry(keccak, f1) == BuildRegistry(keccak, f2)
  {
    RegistryNonEmpty(keccak, f1);
    RegistryNonEmpty(keccak, f2);
    var db1, db2 := BuildRegistry(keccak, f1).value, BuildRegistry(keccak, f2).value;
    forall k | k in db1
      ensures k in db2 && db1[k] == db2[k]
    {
      var s :| s in db1[k];
      StoredByBoth(keccak, f1, f2, k, s);
      forall t ensures t in db1[k] <==> t in db2[k] {
        StoredByBoth(keccak, f1, f2, k, t);
        StoredByBoth(keccak, f2, f1, k, t);
      }
    }
    forall k | k in db2
      ensures k in db1
    {
      var s :| s in db2[k];
      StoredByBoth(keccak, f2, f1, k, s);
    }
    assert db1 == db2;
  }
}
