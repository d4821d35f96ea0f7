/**
 * The elementary Solidity type names the signature tool recognises, the two
 * regular-expression alternations built from them, and alias resolution.
 *
 * The tool lists the sized families with `'uint{0}'.format(i) for i in
 * range(8, 257, 8)` and the like; here such a family is one entry of the
 * list, a pattern standing for the words `prefix + str(i)` with i in that range.
 */
module SolidityTypes {
  import opened Outcomes
  import opened SolidityLexer

  /** A number as str() writes it: digits, no leading zero unless the number is 0. */
  predicate IsDecimal(d: string) {
    |d| > 0 && AllIn(d, 0, |d|, Digit) && (|d| == 1 || d[0] != '0')
  }

  /** The value of a string of decimal digits. */
  function DecimalValue(d: string): int
  {
    if d == [] then 0
    else 10 * DecimalValue(d[..|d| - 1]) + (d[|d| - 1] as int - '0' as int)
  }

  /** An entry of a type list: one word, or the family `prefix + str(i)` for i in
      range(step, max + 1, step). */
  datatype TypePattern = Word(word: string) | Sized(prefix: string, step: nat, max: nat)

  predicate MatchesPattern(w: string, p: TypePattern) {
    match p
    case Word(x) => w == x
    case Sized(prefix, step, max) =>
      && |w| > |prefix| && w[..|prefix|] == prefix
      && var d := w[|prefix|..];
         step > 0 && IsDecimal(d) && step <= DecimalValue(d) <= max && DecimalValue(d) % step == 0
  }

  /** w is one of the words a type list describes. */
  predicate InPatterns(w: string, ps: seq<TypePattern>)
    decreases |ps|, w  // w keeps the verifier from unrolling a literal list eagerly
  {
    |ps| > 0 && (MatchesPattern(w, ps[0]) || InPatterns(w, ps[1..]))
  }

  /** The alternation succeeds exactly when one of its entries does. */
  lemma {:induction false} InPatternsMember(w: string, ps: seq<TypePattern>)
    ensures InPatterns(w, ps) <==> exists p | p in ps :: MatchesPattern(w, p)
    decreases |ps|
  {
    if |ps| > 0 {
      InPatternsMember(w, ps[1..]);
      assert ps == [ps[0]] + ps[1..];
    }
  }

  /** DYNAMIC_TYPES */
  const DynamicTypes: seq<TypePattern> := [Word("bytes"), Word("string")]

  /** STATIC_TYPE_ALIASES */
  const StaticTypeAliases: seq<TypePattern> := [Word("uint"), Word("int"), Word("byte")]

  /** STATIC_TYPES: address, bool, uint8..uint256, int8..int256, bytes1..bytes32. */
  const StaticTypes: seq<TypePattern> :=
    [Word("address"), Word("bool"), Sized("uint", 8, 256), Sized("int", 8, 256), Sized("bytes", 1, 32)]

  /** The two alternations built from the type lists. */
  datatype Vocabulary =
    | AnyType        // TYPE_REGEX: static types, aliases and dynamic types
    | CanonicalType  // CANONICAL_TYPE_REGEX: dynamic and static types, no aliases

  function Patterns(v: Vocabulary): seq<TypePattern> {
    match v
    case AnyType => StaticTypes + StaticTypeAliases + DynamicTypes
    case CanonicalType => DynamicTypes + StaticTypes
  }

  predicate InVocabulary(w: string, v: Vocabulary) {
    InPatterns(w, Patterns(v))
  }

  /** The entry denotes non-empty words made of `[a-z0-9]` only. */
  predicate LowerAlnumPattern(p: TypePattern) {
    match p
    case Word(x) => |x| > 0 && forall i | 0 <= i < |x| :: IsLowerAlnum(x[i])
    case Sized(prefix, _, _) => forall i | 0 <= i < |prefix| :: IsLowerAlnum(prefix[i])
  }

  lemma PatternWordLowerAlnum(w: string, p: TypePattern)
    requires MatchesPattern(w, p) && LowerAlnumPattern(p)
    ensures |w| > 0 && forall i | 0 <= i < |w| :: IsLowerAlnum(w[i])
  {
    if p.Sized? {
      var d := w[|p.prefix|..];
      forall i | |p.prefix| <= i < |w|
        ensures IsLowerAlnum(w[i])
      {
        AllInIndex(d, 0, |d|, Digit, i - |p.prefix|);
      }
    }
  }

  lemma TypeListsLowerAlnum(v: Vocabulary)
    ensures forall p | p in Patterns(v) :: LowerAlnumPattern(p)
  {
    assert forall i | 0 <= i < |StaticTypes| :: LowerAlnumPattern(StaticTypes[i]);
    assert forall i | 0 <= i < |StaticTypeAliases| :: LowerAlnumPattern(StaticTypeAliases[i]);
    assert forall i | 0 <= i < |DynamicTypes| :: LowerAlnumPattern(DynamicTypes[i]);
  }

  lemma VocabularyCharacters(w: string, v: Vocabulary)
    requires InVocabulary(w, v)
    ensures |w| > 0 && forall i | 0 <= i < |w| :: IsLowerAlnum(w[i])
  {
    TypeListsLowerAlnum(v);
    InPatternsMember(w, Patterns(v));
    var p :| p in Patterns(v) && MatchesPattern(w, p);
    PatternWordLowerAlnum(w, p);
  }

  /** Every type word is a non-empty run of `[a-z0-9]`. */
  lemma VocabularyIsLowerAlnum(w: string, v: Vocabulary)
    requires InVocabulary(w, v)
    ensures |w| > 0 && AllIn(w, 0, |w|, LowerAlnum)
  {
    VocabularyCharacters(w, v);
    AllInOfEach(w, 0, |w|, LowerAlnum);
  }

  /** Every canonical word is a type word. */
  lemma CanonicalIsType(w: string)
    requires InVocabulary(w, CanonicalType)
    ensures InVocabulary(w, AnyType)
  {
    InPatternsMember(w, Patterns(CanonicalType));
    InPatternsMember(w, Patterns(AnyType));
    var p :| p in Patterns(CanonicalType) && MatchesPattern(w, p);
    assert p in Patterns(AnyType);
  }

  /** The regex semantics of one alternative `t(?![a-z0-9])` at position i of s: t is
      there and the character after it, if any, is not in `[a-z0-9]`. */
  predicate AlternativeMatches(s: string, i: nat, t: string) {
    i + |t| <= |s| && s[i..i + |t|] == t && (i + |t| == |s| || !IsLowerAlnum(s[i + |t|]))
  }

  /** The type alternation at position i: the longest `[a-z0-9]` run there, when that run
      is one of the words. */
  function MatchType(s: string, i: nat, v: Vocabulary): (r: Option<string>)
    requires i <= |s|
    ensures r.Some? ==> InVocabulary(r.value, v) && AlternativeMatches(s, i, r.value)
    ensures r.Some? ==> 0 < |r.value| && i + |r.value| == RunEnd(s, i, LowerAlnum)
    ensures r.Some? ==> AllIn(s, i, i + |r.value|, LowerAlnum)
  {
    var j := RunEnd(s, i, LowerAlnum);
    if j > i && InVocabulary(s[i..j], v) then Some(s[i..j]) else None
  }

  /** Because each alternative carries the look-ahead `(?![a-z0-9])` and every word is
      made of `[a-z0-9]`, at most one alternative can match at a position, so the order
      of the alternation does not matter: MatchType finds a word exactly when some
      alternative matches, and then it finds that one. */
  lemma MatchTypeIsAlternation(s: string, i: nat, t: string, v: Vocabulary)
    requires i <= |s|
    ensures MatchType(s, i, v) == Some(t) <==> InVocabulary(t, v) && AlternativeMatches(s, i, t)
  {
    if InVocabulary(t, v) && AlternativeMatches(s, i, t) {
      AlternativeFound(s, i, t, v);
    }
  }

  /** A word of the vocabulary whose alternative matches at i is the word found there. */
  lemma AlternativeFound(s: string, i: nat, t: string, v: Vocabulary)
    requires InVocabulary(t, v) && AlternativeMatches(s, i, t)
    ensures MatchType(s, i, v) == Some(t)
  {
    VocabularyIsLowerAlnum(t, v);
    AgreeOfSlices(t, 0, s, i, |t|);
    AllInTransfer(t, 0, s, i, |t|, LowerAlnum);
    RunEndOf(s, i, i + |t|, LowerAlnum);
    assert s[i..i + |t|] == t;
  }

  /** to_canonical_type: resolves the three aliases, returns anything else unchanged. */
  function ToCanonicalType(value: string): string
  {
    if value == "int" then "int256"
    else if value == "uint" then "uint256"
    else if value == "byte" then "bytes1"
    else value
  }

  predicate IsTypeAlias(w: string) { InPatterns(w, StaticTypeAliases) }

  lemma Value256()
    ensures IsDecimal("256") && DecimalValue("256") == 256
  {
    assert "256"[..2] == "25" && "25"[..1] == "2" && "2"[..0] == "";
    AllInOfEach("256", 0, 3, Digit);
  }

  lemma Uint256Canonical()
    ensures InVocabulary("uint256", CanonicalType)
  {
    Value256();
    assert "uint256"[4..] == "256";
    assert MatchesPattern("uint256", StaticTypes[2]) && StaticTypes[2] in Patterns(CanonicalType);
  }

  lemma Int256Canonical()
    ensures InVocabulary("int256", CanonicalType)
  {
    Value256();
    assert "int256"[3..] == "256";
    assert MatchesPattern("int256", StaticTypes[3]) && StaticTypes[3] in Patterns(CanonicalType);
  }

  lemma Bytes1Canonical()
    ensures InVocabulary("bytes1", CanonicalType)
  {
    assert "1"[..0] == "";
    AllInOfEach("1", 0, 1, Digit);
    assert "bytes1"[5..] == "1";
    assert MatchesPattern("bytes1", StaticTypes[4]) && StaticTypes[4] in Patterns(CanonicalType);
  }

  /** The alias targets are canonical words. */
  lemma AliasTargetsCanonical()
    ensures InVocabulary("uint256", CanonicalType) && InVocabulary("int256", CanonicalType)
    ensures InVocabulary("bytes1", CanonicalType)
  {
    Uint256Canonical();
    Int256Canonical();
    Bytes1Canonical();
  }

  /** The three alias words. */
  lemma AliasWords(w: string)
    ensures IsTypeAlias(w) <==> w == "uint" || w == "int" || w == "byte"
  {
    InPatternsMember(w, StaticTypeAliases);
    if w == "uint" || w == "int" || w == "byte" {
      assert MatchesPattern(w, Word(w)) && Word(w) in StaticTypeAliases;
    }
  }

  lemma {:induction false} NoPatternMatches(w: string, ps: seq<TypePattern>)
    requires forall i | 0 <= i < |ps| :: !MatchesPattern(w, ps[i])
    ensures !InPatterns(w, ps)
    decreases |ps|
  {
    if |ps| > 0 {
      assert !MatchesPattern(w, ps[0]);
      assert forall i | 0 <= i < |ps[1..]| :: ps[1..][i] == ps[i + 1];
      NoPatternMatches(w, ps[1..]);
    }
  }

  /** No alias is a canonical word: every canonical alternative differs from each alias
      in length or in its first characters. */
  lemma AliasesNotCanonical(a: string)
    requires IsTypeAlias(a)
    ensures !InVocabulary(a, CanonicalType)
  {
    AliasWords(a);
    if a == "uint" {
      AliasNotCanonical("uint");
    } else if a == "int" {
      AliasNotCanonical("int");
    } else {
      AliasNotCanonical("byte");
    }
  }

  lemma AliasNotCanonical(a: string)
    requires a == "uint" || a == "int" || a == "byte"
    ensures !InVocabulary(a, CanonicalType)
  {
    var ps := Patterns(CanonicalType);
    assert forall i | 0 <= i < |ps| :: !MatchesPattern(a, ps[i]);
    NoPatternMatches(a, ps);
  }

  /** Alias resolution maps the type vocabulary into the canonical vocabulary. */
  lemma ToCanonicalTypeIntoCanonical(t: string)
    requires InVocabulary(t, AnyType)
    ensures InVocabulary(ToCanonicalType(t), CanonicalType)
  {
    AliasWords(t);
    if IsTypeAlias(t) {
      AliasTargetsCanonical();
    } else {
      NonAliasCanonical(t);
    }
  }

  /** A word of the type vocabulary that is not an alias is a canonical word. */
  lemma NonAliasCanonical(t: string)
    requires InVocabulary(t, AnyType) && !IsTypeAlias(t)
    ensures InVocabulary(t, CanonicalType)
  {
    InPatternsMember(t, Patterns(AnyType));
    InPatternsMember(t, Patterns(CanonicalType));
    InPatternsMember(t, StaticTypeAliases);
    var p :| p in Patterns(AnyType) && MatchesPattern(t, p);
    assert p in Patterns(CanonicalType);
  }

  /** to_canonical_type changes exactly the aliases, never returns an alias, is therefore
      idempotent, and leaves canonical words alone. */
  lemma ToCanonicalTypeFacts(v: string)
    ensures ToCanonicalType(v) != v <==> IsTypeAlias(v)
    ensures !IsTypeAlias(ToCanonicalType(v))
    ensures ToCanonicalType(ToCanonicalType(v)) == ToCanonicalType(v)
    ensures InVocabulary(v, CanonicalType) ==> ToCanonicalType(v) == v
  {
    AliasWords(v);
    AliasWords(ToCanonicalType(v));
    if InVocabulary(v, CanonicalType) && IsTypeAlias(v) {
      AliasesNotCanonical(v);
    }
  }
}
