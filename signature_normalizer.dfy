/**
 * normalize_function_signature and is_canonical_function_signature: a
 * declaration header is rewritten into the ABI selector signature
 * `name(type,type,...)`, with the aliases `uint`, `int` and `byte` resolved,
 * and the canonical grammar NORM_FUNCTION_REGEX decides which texts are in
 * that form.
 */
module SignatureNormalizer {
  import opened Outcomes
  import opened SolidityLexer
  import opened SolidityTypes
  import opened FunctionSignature

  /* ---- FUNCTION_ARGUMENT_TYPES_REGEX and the normaliser ------------------- */

  /** re.findall(FUNCTION_ARGUMENT_TYPES_REGEX, s): the type alternation is tried where
      the scan stands; on a match the array suffixes after the type and the spaces after
      those are consumed and the pair (type, suffixes) kept, otherwise the scan moves one
      character on. The pattern never looks behind, so going on from a position is
      scanning the rest of the text. */
  function ScanArgumentTypes(s: string): (r: seq<RawArgument>)
    ensures forall n | 0 <= n < |r| :: InVocabulary(r[n].typ, AnyType) && IsSubTypes(r[n].sub)
    decreases |s|
  {
    if s == [] then []
    else
      match MatchType(s, 0, AnyType)
      case None => ScanArgumentTypes(s[1..])
      case Some(t) =>
        var g := SubTypesEnd(s, |t|);
        SubTypesSliceIsSubTypes(s, |t|);
        [RawArgument(t, s[|t|..g])] + ScanArgumentTypes(s[RunEnd(s, g, Space)..])
  }

  /** to_canonical_type applied to the type of every pair. */
  function CanonicalArguments(args: seq<RawArgument>): seq<RawArgument>
  {
    if args == [] then []
    else [RawArgument(ToCanonicalType(args[0].typ), args[0].sub)] + CanonicalArguments(args[1..])
  }

  /** `"".join((t, sub))` */
  function ArgumentText(a: RawArgument): string {
    a.typ + a.sub
  }

  /** `','.join(...)` of the argument texts. */
  function JoinArguments(args: seq<RawArgument>): string
  {
    if args == [] then ""
    else if |args| == 1 then ArgumentText(args[0])
    else ArgumentText(args[0]) + "," + JoinArguments(args[1..])
  }

  /** normalize_function_signature: the name and argument text extract_function_name
      finds, the argument types scanned out of that text and made canonical, written as
      `name(type,type,...)`; the errors of extract_function_name pass through. */
  function NormalizeFunctionSignature(raw: string): Result<string, SignatureError>
  {
    match ExtractFunctionName(raw)
    case Err(e) => Err(e)
    case Ok(m) =>
      Ok(m.name + "(" + JoinArguments(CanonicalArguments(ScanArgumentTypes(m.arglist))) + ")")
  }

  /* ---- NORM_FUNCTION_REGEX ------------------------------------------------- */

  /** `(TYPE)(SUB)*(,(TYPE)(SUB)*)*` over the whole of l, TYPE from the canonical
      alternation; the greedy SUB* is the only choice that can be followed by `,` or
      the end. */
  predicate IsCanonicalArgumentList(l: string)
    decreases |l|
  {
    match MatchType(l, 0, CanonicalType)
    case None => false
    case Some(t) =>
      var g := SubTypesEnd(l, |t|);
      g == |l| || (l[g] == ',' && IsCanonicalArgumentList(l[g + 1..]))
  }

  /** is_canonical_function_signature: NORM_FUNCTION_REGEX matches the whole text. The
      name runs up to `(`; between it and the final `)` lies nothing or a canonical
      argument list, which never holds `)`, so that final `)` is the one the regex
      ends with. */
  predicate IsCanonicalFunctionSignature(x: string) {
    && 0 < |x| && IsNameStart(x[0])
    && var n := RunEnd(x, 0, NameChar);
       && n + 1 < |x| && x[n] == '(' && x[|x| - 1] == ')'
       && var l := x[n + 1..|x| - 1]; l == [] || IsCanonicalArgumentList(l)
  }

  /** The characters an argument list in canonical form is made of. */
  predicate IsArgumentChar(c: char) {
    IsLowerAlnum(c) || c == '[' || c == ']' || c == ','
  }

  /** The characters a canonical signature is made of: ASCII, and no white space. */
  predicate IsSignatureChar(c: char) {
    IsNameChar(c) || c == '(' || c == ')' || IsArgumentChar(c)
  }

  /** A pair whose type is a canonical word and whose suffixes are array suffixes. */
  predicate IsCanonicalArgument(a: RawArgument) {
    InVocabulary(a.typ, CanonicalType) && IsSubTypes(a.sub)
  }

  /* ---- Lemmas ---------------------------------------------------------------- */

  /** Canonicalising turns scanned type words into canonical words and keeps the suffixes. */
  lemma {:induction false} CanonicalArgumentsAreCanonical(args: seq<RawArgument>)
    requires forall n | 0 <= n < |args| :: InVocabulary(args[n].typ, AnyType) && IsSubTypes(args[n].sub)
    ensures forall x | x in CanonicalArguments(args) :: IsCanonicalArgument(x)
  {
    if args != [] {
      var b := RawArgument(ToCanonicalType(args[0].typ), args[0].sub);
      ToCanonicalTypeIntoCanonical(args[0].typ);
      assert IsCanonicalArgument(b);
      CanonicalArgumentsAreCanonical(args[1..]);
      assert CanonicalArguments(args) == [b] + CanonicalArguments(args[1..]);
    }
  }

  lemma HeadTail<T>(xs: seq<T>)
    requires xs != []
    ensures xs[0] in xs && forall x | x in xs[1..] :: x in xs
  {
  }

  /** Canonicalising leaves canonical pairs alone. */
  lemma {:induction false} CanonicalArgumentsFixed(args: seq<RawArgument>)
    requires forall x | x in args :: IsCanonicalArgument(x)
    ensures CanonicalArguments(args) == args
  {
    if args != [] {
      HeadTail(args);
      ToCanonicalTypeFacts(args[0].typ);
      assert RawArgument(ToCanonicalType(args[0].typ), args[0].sub) == args[0];
      CanonicalArgumentsFixed(args[1..]);
      HeadAndTail(args);
    }
  }

  /** A non-empty sequence is its head followed by its tail. */
  lemma HeadAndTail<T>(xs: seq<T>)
    requires xs != []
    ensures [xs[0]] + xs[1..] == xs
  {
  }

  /** Joined canonical pairs are made of argument characters. */
  lemma {:induction false} JoinCharacters(args: seq<RawArgument>)
    requires forall x | x in args :: IsCanonicalArgument(x)
    ensures forall c | c in JoinArguments(args) :: IsArgumentChar(c)
  {
    if args != [] {
      HeadTail(args);
      var a := args[0];
      VocabularyCharacters(a.typ, CanonicalType);
      SubTypesCharacters(a.sub, 0);
      assert forall c | c in ArgumentText(a) :: IsArgumentChar(c);
      if |args| > 1 {
        JoinCharacters(args[1..]);
      }
    }
  }

  /** A pair written at the start of u, followed by `,`, `)` or nothing, is read back by
      the type alternation and the suffix scan. */
  lemma ArgumentAt(u: string, a: RawArgument, rest: string, v: Vocabulary)
    requires InVocabulary(a.typ, v) && IsSubTypes(a.sub) && u == a.typ + a.sub + rest
    requires rest == [] || rest[0] == ',' || rest[0] == ')'
    ensures MatchType(u, 0, v) == Some(a.typ)
    ensures SubTypesEnd(u, |a.typ|) == |a.typ| + |a.sub|
  {
    var t, sub := a.typ, a.sub;
    assert u[..|t|] == t;
    assert u[|t|..|t| + |sub|] == sub;
    if sub != [] {
      assert u[|t|] == sub[0] == '[';
    } else if rest != [] {
      assert u[|t|] == rest[0];
    }
    MatchTypeIsAlternation(u, 0, t, v);
    if |t| + |sub| < |u| {
      assert u[|t| + |sub|] == rest[0];
    }
    SubTypesEmbedded(sub, u, |t|);
  }

  /** The join of canonical pairs is a canonical argument list. */
  lemma {:induction false} JoinIsCanonicalList(args: seq<RawArgument>)
    requires |args| > 0 && forall x | x in args :: IsCanonicalArgument(x)
    ensures IsCanonicalArgumentList(JoinArguments(args))
    decreases |args|
  {
    HeadTail(args);
    if |args| == 1 {
      JoinOneIsList(args[0]);
      assert args == [args[0]];
    } else {
      JoinIsCanonicalList(args[1..]);
      assert args == [args[0]] + args[1..];
      JoinCons(args[0], args[1..]);
      JoinConsIsList(args[0], JoinArguments(args[1..]), JoinArguments(args));
    }
  }

  lemma JoinOneIsList(a: RawArgument)
    requires IsCanonicalArgument(a)
    ensures IsCanonicalArgumentList(JoinArguments([a]))
  {
    var j := JoinArguments([a]);
    assert j == a.typ + a.sub + [];
    ArgumentAt(j, a, [], CanonicalType);
    ListLast(j, a.typ);
  }

  lemma JoinConsIsList(a: RawArgument, tail: string, j: string)
    requires IsCanonicalArgument(a) && IsCanonicalArgumentList(tail)
    requires j == a.typ + a.sub + ("," + tail)
    ensures IsCanonicalArgumentList(j)
  {
    var x := a.typ + a.sub;
    ArgumentAt(j, a, "," + tail, CanonicalType);
    CommaSplit(j, x, tail);
    assert SubTypesEnd(j, |a.typ|) == |x|;
    ListCons(j, a.typ, |x|);
  }

  lemma ListLast(l: string, t: string)
    requires MatchType(l, 0, CanonicalType) == Some(t) && SubTypesEnd(l, |t|) == |l|
    ensures IsCanonicalArgumentList(l)
  {
  }

  lemma ListCons(l: string, t: string, g: nat)
    requires MatchType(l, 0, CanonicalType) == Some(t) && SubTypesEnd(l, |t|) == g
    requires g < |l| && l[g] == ',' && IsCanonicalArgumentList(l[g + 1..])
    ensures IsCanonicalArgumentList(l)
  {
  }

  lemma CommaSplit(l: string, x: string, tail: string)
    requires l == x + ("," + tail)
    ensures |x| < |l| && l[|x|] == ',' && l[|x| + 1..] == tail
  {
    assert l[|x| + 1..] == tail;
  }

  lemma Split3(l: string, i: nat, g: nat)
    requires i <= g < |l|
    ensures l == l[..i] + l[i..g] + ([l[g]] + l[g + 1..])
  {
  }

  /** `,`.join of one pair and at least one more. */
  lemma JoinCons(a: RawArgument, r: seq<RawArgument>)
    requires |r| > 0
    ensures JoinArguments([a] + r) == ArgumentText(a) + ("," + JoinArguments(r))
  {
    assert ([a] + r)[1..] == r;
  }

  /** A scan standing on `,` moves one character on. */
  lemma ScanComma(l: string, rest: string)
    requires |l| > 0 && l[0] == ',' && rest == l[1..]
    ensures ScanArgumentTypes(l) == ScanArgumentTypes(rest)
  {
    assert RunEnd(l, 0, LowerAlnum) == 0;
  }

  /** Scanning l reads back canonical pairs whose join is l itself. */
  predicate ScansBack(l: string) {
    var r := ScanArgumentTypes(l);
    0 < |r| && JoinArguments(r) == l && forall x | x in r :: IsCanonicalArgument(x)
  }

  /** Scanning a canonical argument list reads back canonical pairs whose join is the
      list itself. */
  lemma {:induction false} ScanCanonicalList(l: string)
    requires IsCanonicalArgumentList(l)
    ensures ScansBack(l)
    decreases |l|
  {
    var t := MatchType(l, 0, CanonicalType).value;
    var g := SubTypesEnd(l, |t|);
    if g == |l| {
      ScanLastArgument(l, t);
    } else {
      ScanCanonicalList(l[g + 1..]);
      ScanNextArgument(l, t, g);
    }
  }

  lemma ScanLastArgument(l: string, t: string)
    requires MatchType(l, 0, CanonicalType) == Some(t) && SubTypesEnd(l, |t|) == |l|
    ensures ScansBack(l)
  {
    var a := RawArgument(t, l[|t|..|l|]);
    CanonicalMatchIsTypeMatch(l, t);
    SubTypesSliceIsSubTypes(l, |t|);
    ScanStep(l, t, |l|, |l|);
    ScanEnd(l);
    Split2(l, |t|);
    ScansBackOne(l, a);
  }

  lemma ScanEnd(l: string)
    ensures ScanArgumentTypes(l[|l|..]) == []
  {
    assert l[|l|..] == [];
  }

  lemma Split2(l: string, i: nat)
    requires i <= |l|
    ensures l == l[..i] + l[i..|l|]
  {
  }

  lemma ScansBackOne(l: string, a: RawArgument)
    requires ScanArgumentTypes(l) == [a] + [] && IsCanonicalArgument(a) && l == a.typ + a.sub
    ensures ScansBack(l)
  {
    assert [a] + [] == [a];
  }

  lemma ScanNextArgument(l: string, t: string, g: nat)
    requires MatchType(l, 0, CanonicalType) == Some(t) && SubTypesEnd(l, |t|) == g
    requires g < |l| && l[g] == ',' && ScansBack(l[g + 1..])
    ensures ScansBack(l)
  {
    var a := RawArgument(t, l[|t|..g]);
    var rest := l[g + 1..];
    CanonicalMatchIsTypeMatch(l, t);
    SubTypesSliceIsSubTypes(l, |t|);
    assert IsCanonicalArgument(a);
    RunEndOf(l, g, g, Space);
    ScanStep(l, t, g, g);
    ScanComma(l[g..], rest);
    Split3(l, |t|, g);
    JoinCons(a, ScanArgumentTypes(rest));
  }

  lemma CanonicalMatchIsTypeMatch(l: string, t: string)
    requires MatchType(l, 0, CanonicalType) == Some(t)
    ensures MatchType(l, 0, AnyType) == Some(t) && l[..|t|] == t
  {
    CanonicalIsType(t);
    MatchTypeIsAlternation(l, 0, t, CanonicalType);
    MatchTypeIsAlternation(l, 0, t, AnyType);
  }

  /** Where a type matches, the scan keeps it with its suffixes and goes on after the
      spaces that follow. */
  lemma ScanStep(l: string, t: string, g: nat, e: nat)
    requires MatchType(l, 0, AnyType) == Some(t)
    requires g == SubTypesEnd(l, |t|) && e == RunEnd(l, g, Space)
    ensures ScanArgumentTypes(l) == [RawArgument(t, l[|t|..g])] + ScanArgumentTypes(l[e..])
  {
  }

  /* ---- The normaliser's output is canonical, and canonical text is left alone -- */

  /** The name scan stops at the end of a name written at the start of x. */
  lemma NameRunIn(x: string, name: string)
    requires IsName(name) && |name| < |x| && x[0..|name|] == name && !IsNameChar(x[|name|])
    ensures IsNameStart(x[0]) && RunEnd(x, 0, NameChar) == |name|
  {
    AgreeOfSlices(name, 0, x, 0, |name|);
    AllInTransfer(name, 0, x, 0, |name|, NameChar);
    RunEndOf(x, 0, |name|, NameChar);
  }

  /** `name(l)` is canonical when l is empty or a canonical argument list; its name scan
      reads back the name. */
  lemma SignatureShape(name: string, l: string)
    requires IsName(name) && (l == [] || IsCanonicalArgumentList(l))
    ensures var x := name + "(" + l + ")";
      && IsCanonicalFunctionSignature(x)
      && RunEnd(x, 0, NameChar) == |name| && x[0..|name|] == name
  {
    var x := name + "(" + l + ")";
    assert x[0..|name|] == name;
    assert x[|name|] == '(' && x[|x| - 1] == ')';
    NameRunIn(x, name);
    assert x[|name| + 1..|x| - 1] == l;
  }

  /** normalize_function_signature always produces a text NORM_FUNCTION_REGEX accepts,
      and its name is the one extract_function_name found. */
  lemma NormalizedIsCanonical(raw: string)
    requires NormalizeFunctionSignature(raw).Ok?
    ensures var x := NormalizeFunctionSignature(raw).value;
      && IsCanonicalFunctionSignature(x)
      && x[0..RunEnd(x, 0, NameChar)] == ExtractFunctionName(raw).value.name
  {
    var m := ExtractFunctionName(raw).value;
    var scanned := ScanArgumentTypes(m.arglist);
    var args := CanonicalArguments(scanned);
    CanonicalArgumentsAreCanonical(scanned);
    if args != [] {
      JoinIsCanonicalList(args);
    } else {
      assert JoinArguments(args) == [];
    }
    SignatureShape(m.name, JoinArguments(args));
  }

  /** A canonical argument list is made of argument characters. */
  lemma ArgumentListCharacters(l: string)
    requires IsCanonicalArgumentList(l)
    ensures forall c | c in l :: IsArgumentChar(c)
  {
    ScanCanonicalList(l);
    JoinCharacters(ScanArgumentTypes(l));
  }

  /** A canonical signature is made of name characters, parentheses and argument
      characters: it is ASCII and holds no white space. */
  lemma CanonicalCharacters(x: string)
    requires IsCanonicalFunctionSignature(x)
    ensures forall k | 0 <= k < |x| :: IsSignatureChar(x[k]) && !IsSpace(x[k]) && x[k] < 128 as char
  {
    var n := RunEnd(x, 0, NameChar);
    var l := x[n + 1..|x| - 1];
    if l != [] {
      ArgumentListCharacters(l);
    }
    SignatureCharacters(x, n);
  }

  /** A name, `(`, argument characters and `)` are all ASCII and none is white space. */
  lemma SignatureCharacters(x: string, n: nat)
    requires n + 1 < |x| && AllIn(x, 0, n, NameChar) && x[n] == '(' && x[|x| - 1] == ')'
    requires forall c | c in x[n + 1..|x| - 1] :: IsArgumentChar(c)
    ensures forall k | 0 <= k < |x| :: IsSignatureChar(x[k]) && !IsSpace(x[k]) && x[k] < 128 as char
  {
    var l := x[n + 1..|x| - 1];
    forall k | 0 <= k < |x|
      ensures IsSignatureChar(x[k]) && !IsSpace(x[k]) && x[k] < 128 as char
    {
      if k < n {
        AllInIndex(x, 0, n, NameChar, k);
      } else if n < k < |x| - 1 {
        assert x[k] == l[k - n - 1];
      }
    }
  }

  /** The argument text of a canonical signature holds no `(`. */
  lemma CanonicalArgumentsNoParen(x: string)
    requires IsCanonicalFunctionSignature(x)
    ensures var n := RunEnd(x, 0, NameChar);
      forall m | n < m < |x| - 1 :: x[m] != '('
  {
    var n := RunEnd(x, 0, NameChar);
    var l := x[n + 1..|x| - 1];
    if l != [] {
      ArgumentListCharacters(l);
    }
    SliceNoParen(x, n, l);
  }

  lemma SliceNoParen(x: string, n: nat, l: string)
    requires n + 1 <= |x| - 1 && l == x[n + 1..|x| - 1]
    requires forall c | c in l :: IsArgumentChar(c)
    ensures forall m | n < m < |x| - 1 :: x[m] != '('
  {
    forall m | n < m < |x| - 1
      ensures x[m] != '('
    {
      assert x[m] == l[m - n - 1] && l[m - n - 1] in l;
    }
  }

  /** A text with `(` at n and `)` at its end is the part before, the parentheses and
      the part between them. */
  lemma SignatureSplit(x: string, n: nat)
    requires n + 1 < |x| && x[n] == '(' && x[|x| - 1] == ')'
    ensures x == x[0..n] + "(" + x[n + 1..|x| - 1] + ")"
  {
  }

  /** On a canonical signature extract_function_name reads the name before `(` and the
      text between the parentheses. */
  lemma ExtractOnCanonical(x: string)
    requires IsCanonicalFunctionSignature(x)
    ensures var n := RunEnd(x, 0, NameChar);
      MatchNamePattern(x) == Some(NameMatch(x[0..n], x[n + 1..|x| - 1]))
  {
    var n := RunEnd(x, 0, NameChar);
    assert !KeywordAt(x, 0) by {
      CanonicalCharacters(x);
    }
    CanonicalArgumentsNoParen(x);
    NamePatternFromStart(x, n);
  }

  /** A text that starts with a name followed by `(`, ends with `)` and has no `(` in
      between, and does not start with the keyword, splits at that `(`. */
  lemma NamePatternFromStart(x: string, n: nat)
    requires 0 < |x| && IsNameStart(x[0]) && !KeywordAt(x, 0)
    requires n == RunEnd(x, 0, NameChar) && n + 1 < |x| && x[n] == '(' && x[|x| - 1] == ')'
    requires forall m | n < m < |x| - 1 :: x[m] != '('
    ensures MatchNamePattern(x) == Some(NameMatch(x[0..n], x[n + 1..|x| - 1]))
  {
    RunEndOf(x, 0, 0, Space);
    NameMatchFromStart(x, n);
  }

  /** The name pattern from the start of a signature that has no `(` after the first. */
  lemma NameMatchFromStart(x: string, n: nat)
    requires 0 < |x| && IsNameStart(x[0])
    requires n == RunEnd(x, 0, NameChar) && n + 1 < |x| && x[n] == '(' && x[|x| - 1] == ')'
    requires forall m | n < m < |x| - 1 :: x[m] != '('
    ensures MatchFromName(x, 0) == Some(NameMatch(x[0..n], x[n + 1..|x| - 1]))
  {
    assert LastIndexOf(x, ')', n, |x|) == Some(|x| - 1);
    LastIndexOfIs(x, '(', n, |x| - 1, n);
    MatchFromNameAt(x, 0, n, n, |x| - 1);
  }

  /** The name pattern from q, once both parentheses it settles on are known. */
  lemma MatchFromNameAt(s: string, q: nat, n: nat, i: nat, j: nat)
    requires q < |s| && IsNameStart(s[q]) && n == RunEnd(s, q, NameChar) && n <= i < j <= |s|
    requires LastIndexOf(s, ')', n, |s|) == Some(j) && LastIndexOf(s, '(', n, j) == Some(i)
    ensures MatchFromName(s, q) == Some(NameMatch(s[q..n], s[i + 1..j]))
  {
  }

  /** normalize_function_signature leaves a canonical signature as it is, unless its name
      is `function`, which extract_function_name rejects. */
  lemma CanonicalFixpoint(x: string)
    requires IsCanonicalFunctionSignature(x)
    ensures var n := RunEnd(x, 0, NameChar);
      NormalizeFunctionSignature(x) ==
        if x[0..n] == FunctionKeyword then Err(BadFunctionName) else Ok(x)
  {
    var n := RunEnd(x, 0, NameChar);
    var l := x[n + 1..|x| - 1];
    ExtractOnCanonical(x);
    if x[0..n] != FunctionKeyword {
      RejoinArguments(l);
      SignatureSplit(x, n);
    }
  }

  /** The arguments scanned out of an empty or canonical argument list, made canonical
      and joined, give the list back. */
  lemma RejoinArguments(l: string)
    requires l == [] || IsCanonicalArgumentList(l)
    ensures JoinArguments(CanonicalArguments(ScanArgumentTypes(l))) == l
  {
    if l != [] {
      ScanCanonicalList(l);
      CanonicalArgumentsFixed(ScanArgumentTypes(l));
    }
  }

  /** Normalising twice is normalising once. */
  lemma NormalizeIdempotent(raw: string)
    requires NormalizeFunctionSignature(raw).Ok?
    ensures NormalizeFunctionSignature(NormalizeFunctionSignature(raw).value) == NormalizeFunctionSignature(raw)
  {
    NormalizedIsCanonical(raw);
    CanonicalFixpoint(NormalizeFunctionSignature(raw).value);
  }
}
