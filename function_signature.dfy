/**
 * The Solidity function-signature tool: recognising declaration headers in
 * source text, extracting the function name and argument text, the canonical
 * signature grammar, and the normaliser that rewrites a declaration into the
 * ABI selector signature `name(type,type,...)`.
 *
 * Each regular expression of the tool is written out as a recogniser that
 * starts at a position of the text. All of them are deterministic: at every
 * point at most one way forward can lead to a match, so the greedy choices
 * below are the only ones the regex engine can succeed with.
 */
module FunctionSignature {
  import opened Outcomes
  import opened SolidityLexer
  import opened SolidityTypes

  /** The two ValueError messages extract_function_name can raise. */
  datatype SignatureError = DidNotMatchFunctionName | BadFunctionName

  /** The `fn_name` and `arglist` groups of extract_function_name's pattern. */
  datatype NameMatch = NameMatch(name: string, arglist: string)

  /** One `(type, sub_type)` pair found by the argument-type scan. */
  datatype RawArgument = RawArgument(typ: string, sub: string)

  const FunctionKeyword: string := "function"

  /** The last index of c in s[lo..hi], if any. */
  function LastIndexOf(s: string, c: char, lo: nat, hi: nat): (r: Option<nat>)
    requires lo <= hi <= |s|
    ensures r.Some? ==> lo <= r.value < hi && s[r.value] == c
    ensures r.Some? ==> forall k | r.value < k < hi :: s[k] != c
    ensures r.None? ==> forall k | lo <= k < hi :: s[k] != c
    decreases hi - lo
  {
    if lo == hi then None
    else if s[hi - 1] == c then Some(hi - 1)
    else LastIndexOf(s, c, lo, hi - 1)
  }

  /* ---- extract_function_name ---------------------------------------------- */

  /** `(?P<fn_name>[a-zA-Z_][a-zA-Z0-9_]*).*\((?P<arglist>.*)\).*` from position q, DOTALL.
      The greedy `.*` before `\(` and inside the group settle on the last `)` of the text
      and on the last `(` between the name and that `)`. */
  function MatchFromName(s: string, q: nat): (r: Option<NameMatch>)
    requires q < |s| && IsNameStart(s[q])
    ensures r.Some? ==> IsName(r.value.name) && '(' !in r.value.arglist
  {
    var n := RunEnd(s, q, NameChar);
    match LastIndexOf(s, ')', n, |s|)
    case None => None
    case Some(j) =>
      match LastIndexOf(s, '(', n, j)
      case None => None
      case Some(i) =>
        NameSlice(s, q, n);
        Some(NameMatch(s[q..n], s[i + 1..j]))
  }

  /** `function\s+` at position i. */
  predicate KeywordAt(s: string, i: nat) {
    i + 8 < |s| && s[i..i + 8] == FunctionKeyword && IsSpace(s[i + 8])
  }

  /** The pattern `^(?:function\s+)?\s*(?P<fn_name>...).*\((?P<arglist>.*)\).*$` of
      extract_function_name: the optional keyword is tried first; when the rest cannot
      match after it, the engine falls back to reading the name after the leading spaces. */
  function MatchNamePattern(s: string): Option<NameMatch>
  {
    var afterKeyword :=
      if KeywordAt(s, 0) then
        var q := RunEnd(s, 8, Space);
        if q < |s| && IsNameStart(s[q]) then MatchFromName(s, q) else None
      else None;
    if afterKeyword.Some? then afterKeyword
    else
      var q := RunEnd(s, 0, Space);
      if q < |s| && IsNameStart(s[q]) then MatchFromName(s, q) else None
  }

  /** extract_function_name: fails when the pattern does not match, rejects the name
      `function` itself, and otherwise yields the name and the raw argument text. */
  function ExtractFunctionName(s: string): (r: Result<NameMatch, SignatureError>)
    ensures r.Ok? ==> IsName(r.value.name) && r.value.name != FunctionKeyword
    ensures r.Ok? ==> '(' !in r.value.arglist
  {
    match MatchNamePattern(s)
    case None => Err(DidNotMatchFunctionName)
    case Some(m) =>
      if m.name == FunctionKeyword then Err(BadFunctionName) else Ok(m)
  }

  /* ---- RAW_FUNCTION_REGEX ------------------------------------------------ */

  lemma ArgumentNotParen(s: string, i: nat, a: nat, g: nat, h: nat, e: nat)
    requires i <= a <= g <= h <= e <= |s|
    requires AllIn(s, i, a, LowerAlnum) && g == SubTypesEnd(s, a)
    requires AllIn(s, g, h, Space) && AllIn(s, h, e, NameChar)
    ensures AllIn(s, i, e, NotParen)
  {
    AllInWiden(s, i, a, LowerAlnum, NotParen);
    SubTypesNotParen(s, a);
    AllInWiden(s, g, h, Space, NotParen);
    AllInWiden(s, h, e, NameChar, NotParen);
    AllInJoin(s, i, a, g, NotParen);
    AllInJoin(s, i, g, h, NotParen);
    AllInJoin(s, i, h, e, NotParen);
  }

  /** ARGUMENT_REGEX `(?:TYPE)(?:(?:SUB)*)?\s+NAME` at position i: a type word, array
      suffixes, at least one space and a parameter name; the position after it. */
  function MatchArgument(s: string, i: nat): (r: Option<nat>)
    requires i <= |s|
    ensures r.Some? ==> i < r.value <= |s| && AllIn(s, i, r.value, NotParen)
  {
    match MatchType(s, i, AnyType)
    case None => None
    case Some(t) =>
      var g := SubTypesEnd(s, i + |t|);
      var h := RunEnd(s, g, Space);
      if h == g || h == |s| || !IsNameStart(s[h]) then None
      else
        var e := RunEnd(s, h, NameChar);
        ArgumentNotParen(s, i, i + |t|, g, h, e);
        Some(e)
  }

  /** `(?:\s*,\s*ARG\s*)*\s*\)` at position i: further arguments, each after a comma,
      then the closing parenthesis; the position of that parenthesis. */
  function MatchArgumentTail(s: string, i: nat): (r: Option<nat>)
    requires i <= |s|
    ensures r.Some? ==> i <= r.value < |s| && s[r.value] == ')'
    decreases |s| - i
  {
    var p := RunEnd(s, i, Space);
    if p < |s| && s[p] == ',' then
      var q := RunEnd(s, p + 1, Space);
      match MatchArgument(s, q)
      case None => None
      case Some(a) => MatchArgumentTail(s, a)
    else if p < |s| && s[p] == ')' then Some(p)
    else None
  }

  /** The text between two arguments, or between the last one and `)`, is free of
      parentheses. */
  lemma SeparatorNotParen(s: string, i: nat, p: nat, q: nat, y: nat)
    requires i <= p < q <= y <= |s| && s[p] == ','
    requires AllIn(s, i, p, Space) && AllIn(s, p + 1, q, Space) && AllIn(s, q, y, NotParen)
    ensures AllIn(s, i, y, NotParen)
  {
    AllInWiden(s, i, p, Space, NotParen);
    AllInOfEach(s, p, p + 1, NotParen);
    AllInWiden(s, p + 1, q, Space, NotParen);
    AllInJoin(s, i, p, p + 1, NotParen);
    AllInJoin(s, i, p + 1, q, NotParen);
    AllInJoin(s, i, q, y, NotParen);
  }

  /** Everything before the closing parenthesis of the argument tail is free of parentheses. */
  lemma {:induction false} MatchArgumentTailNotParen(s: string, i: nat, c: nat)
    requires i <= |s| && MatchArgumentTail(s, i) == Some(c)
    ensures AllIn(s, i, c, NotParen)
    decreases |s| - i
  {
    var p := RunEnd(s, i, Space);
    if p < |s| && s[p] == ',' {
      var q := RunEnd(s, p + 1, Space);
      var a := MatchArgument(s, q).value;
      assert MatchArgumentTail(s, a) == Some(c);
      MatchArgumentTailNotParen(s, a, c);
      AllInJoin(s, q, a, c, NotParen);
      SeparatorNotParen(s, i, p, q, c);
    } else {
      AllInWiden(s, i, p, Space, NotParen);
    }
  }

  /** `\s*(?:ARG(?:(?:\s*,\s*ARG\s*)*)?)?\s*\)` from position o, just after an opening
      parenthesis: an empty list or comma-separated arguments, then `)`; the position of
      that parenthesis. */
  function MatchArgumentList(s: string, o: nat): (r: Option<nat>)
    requires o <= |s|
    ensures r.Some? ==> o <= r.value < |s| && s[r.value] == ')'
    ensures r.Some? ==> AllIn(s, o, r.value, NotParen)
  {
    var e := RunEnd(s, o, Space);
    if e < |s| && s[e] == ')' then
      AllInWiden(s, o, e, Space, NotParen);
      Some(e)
    else
      match MatchArgument(s, e)
      case None => None
      case Some(a) =>
        match MatchArgumentTail(s, a)
        case None => None
        case Some(c) =>
          MatchArgumentTailNotParen(s, a, c);
          AllInWiden(s, o, e, Space, NotParen);
          AllInJoin(s, o, e, a, NotParen);
          AllInJoin(s, o, a, c, NotParen);
          Some(c)
  }

  /** Where the parts of a declaration header lie in the text; the header ends just
      after closeParen. */
  datatype RawHeader = RawHeader(start: nat, nameStart: nat, nameEnd: nat, openParen: nat, closeParen: nat)

  /** What a match of RAW_FUNCTION_REGEX guarantees: `function`, spaces, a name, spaces,
      `(`, argument text free of parentheses, and `)` ending the match. */
  predicate HeaderFacts(s: string, h: RawHeader)
  {
    && h.start + 8 < h.nameStart < h.nameEnd <= h.openParen < h.closeParen < |s|
    && s[h.start..h.start + 8] == FunctionKeyword
    && AllIn(s, h.start + 8, h.nameStart, Space)
    && IsNameStart(s[h.nameStart]) && AllIn(s, h.nameStart, h.nameEnd, NameChar)
    && !IsNameChar(s[h.nameEnd])
    && AllIn(s, h.nameEnd, h.openParen, Space)
    && s[h.openParen] == '(' && s[h.closeParen] == ')'
    && AllIn(s, h.openParen + 1, h.closeParen, NotParen)
  }

  lemma HeaderFactsIntro(s: string, i: nat, b: nat, c: nat, d: nat, z: nat)
    requires i + 8 < b < c <= d < z < |s|
    requires s[i..i + 8] == FunctionKeyword
    requires AllIn(s, i + 8, b, Space)
    requires IsNameStart(s[b])
    requires AllIn(s, b, c, NameChar)
    requires !IsNameChar(s[c])
    requires AllIn(s, c, d, Space)
    requires s[d] == '('
    requires s[z] == ')'
    requires AllIn(s, d + 1, z, NotParen)
    ensures HeaderFacts(s, RawHeader(i, b, c, d, z))
  {
  }

  /** RAW_FUNCTION_REGEX
      `function\s+NAME\s*\(\s*(?:ARG(?:(?:\s*,\s*ARG\s*)*)?)?\s*\)` at position i. */
  function MatchRawFunction(s: string, i: nat): (r: Option<RawHeader>)
    requires i <= |s|
    ensures r.Some? ==> r.value.start == i && HeaderFacts(s, r.value)
  {
    if !(i + 8 <= |s| && s[i..i + 8] == FunctionKeyword) then None
    else
      var b := RunEnd(s, i + 8, Space);
      if b == i + 8 || b == |s| || !IsNameStart(s[b]) then None
      else
        var c := RunEnd(s, b, NameChar);
        var d := RunEnd(s, c, Space);
        if d == |s| || s[d] != '(' then None
        else
          match MatchArgumentList(s, d + 1)
          case None => None
          case Some(z) =>
            HeaderFactsIntro(s, i, b, c, d, z);
            Some(RawHeader(i, b, c, d, z))
  }

  /* ---- is_raw_function_signature and extract_function_signatures ---------- */

  /** x is exactly one declaration header, h telling where its parts lie. */
  predicate IsHeaderText(x: string, h: RawHeader) {
    h.start == 0 && h.closeParen + 1 == |x| && HeaderFacts(x, h)
  }

  /** is_raw_function_signature: the whole text matches RAW_FUNCTION_REGEX and
      extract_function_name accepts it. */
  predicate IsRawFunctionSignature(x: string) {
    match MatchRawFunction(x, 0)
    case None => false
    case Some(h) => h.closeParen + 1 == |x| && ExtractFunctionName(x).Ok?
  }

  lemma {:induction false} LastIndexOfIs(s: string, c: char, lo: nat, hi: nat, k: nat)
    requires lo <= k < hi <= |s| && s[k] == c
    requires forall m | k < m < hi :: s[m] != c
    ensures LastIndexOf(s, c, lo, hi) == Some(k)
    decreases hi
  {
    if hi - 1 != k {
      LastIndexOfIs(s, c, lo, hi - 1, k);
    }
  }

  lemma NoParenBetween(s: string, i: nat, j: nat)
    requires i <= j <= |s| && AllIn(s, i, j, NotParen)
    ensures forall m | i <= m < j :: s[m] != '(' && s[m] != ')'
  {
    forall m | i <= m < j
      ensures s[m] != '(' && s[m] != ')'
    {
      AllInIndex(s, i, j, NotParen, m);
    }
  }

  /** On a declaration header, extract_function_name reads the header's own name and
      argument text, and fails only when that name is `function`. */
  lemma ExtractOnHeader(x: string, h: RawHeader)
    requires IsHeaderText(x, h)
    ensures ExtractFunctionName(x) ==
      if x[h.nameStart..h.nameEnd] == FunctionKeyword then Err(BadFunctionName)
      else Ok(NameMatch(x[h.nameStart..h.nameEnd], x[h.openParen + 1..h.closeParen]))
  {
    HeaderKeyword(x, h);
    HeaderGroups(x, h);
  }

  lemma HeaderKeyword(x: string, h: RawHeader)
    requires IsHeaderText(x, h)
    ensures KeywordAt(x, 0) && RunEnd(x, 8, Space) == h.nameStart
  {
    AllInIndex(x, 8, h.nameStart, Space, 8);
    RunEndOf(x, 8, h.nameStart, Space);
  }

  lemma HeaderGroups(x: string, h: RawHeader)
    requires IsHeaderText(x, h)
    ensures MatchFromName(x, h.nameStart) ==
      Some(NameMatch(x[h.nameStart..h.nameEnd], x[h.openParen + 1..h.closeParen]))
  {
    RunEndOf(x, h.nameStart, h.nameEnd, NameChar);
    assert LastIndexOf(x, ')', h.nameEnd, |x|) == Some(h.closeParen);
    NoParenBetween(x, h.openParen + 1, h.closeParen);
    LastIndexOfIs(x, '(', h.nameEnd, h.closeParen, h.openParen);
  }

  /** A text is a raw function signature exactly when it is one whole declaration header
      whose name is not `function`. */
  lemma RawSignatureIsHeader(x: string)
    ensures IsRawFunctionSignature(x) <==>
      && MatchRawFunction(x, 0).Some?
      && IsHeaderText(x, MatchRawFunction(x, 0).value)
      && var h := MatchRawFunction(x, 0).value; x[h.nameStart..h.nameEnd] != FunctionKeyword
  {
    if MatchRawFunction(x, 0).Some? {
      var h := MatchRawFunction(x, 0).value;
      if h.closeParen + 1 == |x| {
        ExtractOnHeader(x, h);
      }
    }
  }

  /** The positions of a header's parts, counted from the header's own start. */
  function Rebase(h: RawHeader): (r: RawHeader)
    requires h.start <= h.nameStart <= h.nameEnd <= h.openParen <= h.closeParen
    ensures r.start == 0 && r.closeParen == h.closeParen - h.start
  {
    RawHeader(0, h.nameStart - h.start, h.nameEnd - h.start, h.openParen - h.start, h.closeParen - h.start)
  }

  /** A header found inside a text, cut out of it, is a header text on its own. */
  lemma HeaderCut(s: string, h: RawHeader)
    requires HeaderFacts(s, h)
    ensures IsHeaderText(s[h.start..h.closeParen + 1], Rebase(h))
  {
    HeaderCutAt(s, h.start, h.nameStart, h.nameEnd, h.openParen, h.closeParen);
  }

  lemma HeaderCutAt(s: string, a: nat, b: nat, c: nat, d: nat, z: nat)
    requires a + 8 < b < c <= d < z < |s|
    requires s[a..a + 8] == FunctionKeyword
    requires AllIn(s, a + 8, b, Space)
    requires IsNameStart(s[b])
    requires AllIn(s, b, c, NameChar)
    requires !IsNameChar(s[c])
    requires AllIn(s, c, d, Space)
    requires s[d] == '('
    requires s[z] == ')'
    requires AllIn(s, d + 1, z, NotParen)
    ensures HeaderFacts(s[a..z + 1], RawHeader(0, b - a, c - a, d - a, z - a))
  {
    var x := s[a..z + 1];
    KeywordCut(s, a, z + 1);
    AllInCut(s, a, z + 1, a + 8, b, Space);
    AllInCut(s, a, z + 1, b, c, NameChar);
    AllInCut(s, a, z + 1, c, d, Space);
    AllInCut(s, a, z + 1, d + 1, z, NotParen);
    assert x[b - a] == s[b] && x[c - a] == s[c];
    assert x[d - a] == s[d] && x[z - a] == s[z];
    HeaderFactsIntro(x, 0, b - a, c - a, d - a, z - a);
  }

  lemma KeywordCut(s: string, a: nat, e: nat)
    requires a + 8 <= e <= |s| && s[a..a + 8] == FunctionKeyword
    ensures s[a..e][0..8] == FunctionKeyword
  {
    assert s[a..e][0..8] == s[a..a + 8];
  }

  /** re.findall(RAW_FUNCTION_REGEX, code) from position i: at each position the header
      matcher is tried; a match is taken whole and the scan resumes after it, otherwise the
      scan moves one character on. */
  function FindHeaders(s: string, i: nat): (r: seq<RawHeader>)
    requires i <= |s|
    ensures forall n | 0 <= n < |r| :: i <= r[n].start && HeaderFacts(s, r[n])
    ensures forall n | 0 <= n && n + 1 < |r| :: r[n].closeParen < r[n + 1].start
    decreases |s| - i
  {
    if i == |s| then []
    else
      match MatchRawFunction(s, i)
      case Some(h) => [h] + FindHeaders(s, h.closeParen + 1)
      case None => FindHeaders(s, i + 1)
  }

  /** The text of each header found. */
  function HeaderTexts(s: string, hs: seq<RawHeader>): (r: seq<string>)
    requires forall n | 0 <= n < |hs| :: hs[n].start <= hs[n].closeParen < |s|
    ensures |r| == |hs|
    ensures forall n | 0 <= n < |hs| :: r[n] == s[hs[n].start..hs[n].closeParen + 1]
  {
    if hs == [] then [] else [s[hs[0].start..hs[0].closeParen + 1]] + HeaderTexts(s, hs[1..])
  }

  /** extract_function_signatures: the declaration headers of the code, in order. */
  function ExtractFunctionSignatures(code: string): seq<string>
  {
    HeaderTexts(code, FindHeaders(code, 0))
  }

  /** Every signature the extraction finds is a header text, so extract_function_name can
      reject it only for the name `function`, never for not matching. */
  lemma ExtractedAreHeaders(code: string)
    ensures forall x | x in ExtractFunctionSignatures(code) ::
      ExtractFunctionName(x) != Err(DidNotMatchFunctionName)
  {
    var xs := ExtractFunctionSignatures(code);
    forall x | x in xs
      ensures ExtractFunctionName(x) != Err(DidNotMatchFunctionName)
    {
      var n :| 0 <= n < |xs| && xs[n] == x;
      ExtractedMatchesNamePattern(code, n);
    }
  }

  lemma ExtractedMatchesNamePattern(code: string, n: nat)
    requires n < |ExtractFunctionSignatures(code)|
    ensures ExtractFunctionName(ExtractFunctionSignatures(code)[n]) != Err(DidNotMatchFunctionName)
  {
    var h := FindHeaders(code, 0)[n];
    var x := ExtractFunctionSignatures(code)[n];
    assert x == code[h.start..h.closeParen + 1];
    HeaderCut(code, h);
    HeaderMatchesNamePattern(x, Rebase(h));
  }

  /** A header text always matches extract_function_name's pattern. */
  lemma HeaderMatchesNamePattern(x: string, h: RawHeader)
    requires IsHeaderText(x, h)
    ensures ExtractFunctionName(x) != Err(DidNotMatchFunctionName)
  {
    ExtractOnHeader(x, h);
  }
}
