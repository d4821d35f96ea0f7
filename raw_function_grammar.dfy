/**
 * RAW_FUNCTION_REGEX and ARGUMENT_REGEX read declaratively: each part of a
 * declaration header is described by where it lies in the text, and the
 * recognisers of FunctionSignature are proved to find a match exactly when
 * the parts are there. The scan of extract_function_signatures is proved to
 * return every match re.findall returns: each header it reports is the match
 * at its start, and every position where a header matches lies inside one
 * that was reported.
 */
module RawFunctionGrammar {
  import opened Outcomes
  import opened SolidityLexer
  import opened SolidityTypes
  import opened FunctionSignature

  /* ---- ARGUMENT_REGEX -------------------------------------------------------- */

  /** `(?:TYPE)(?:(?:SUB)*)?\s+NAME` from i to e: a type word s[i..a], array suffixes
      s[a..g], at least one space s[g..h] and a parameter name s[h..e], which the next
      character does not continue. */
  predicate ArgumentParts(s: string, i: nat, a: nat, g: nat, h: nat, e: nat) {
    && i < a <= g < h < e <= |s|
    && InVocabulary(s[i..a], AnyType)
    && IsSubTypes(s[a..g])
    && AllIn(s, g, h, Space)
    && IsNameStart(s[h]) && AllIn(s, h, e, NameChar)
    && (e == |s| || !IsNameChar(s[e]))
  }

  /** An argument spans s[i..e]. */
  ghost predicate IsArgument(s: string, i: nat, e: nat) {
    exists a, g, h :: ArgumentParts(s, i, a, g, h, e)
  }

  /** The argument recogniser ends at e exactly when an argument spans s[i..e]. */
  lemma MatchArgumentIsArgument(s: string, i: nat, e: nat)
    requires i <= |s|
    ensures MatchArgument(s, i) == Some(e) <==> IsArgument(s, i, e)
  {
    if MatchArgument(s, i) == Some(e) {
      var t := MatchType(s, i, AnyType).value;
      var a := i + |t|;
      var g := SubTypesEnd(s, a);
      var h := RunEnd(s, g, Space);
      SubTypesSliceIsSubTypes(s, a);
      assert s[i..a] == t;
      assert ArgumentParts(s, i, a, g, h, e);
    }
    if IsArgument(s, i, e) {
      var a, g, h :| ArgumentParts(s, i, a, g, h, e);
      ArgumentFound(s, i, a, g, h, e);
    }
  }

  lemma ArgumentFound(s: string, i: nat, a: nat, g: nat, h: nat, e: nat)
    requires ArgumentParts(s, i, a, g, h, e)
    ensures MatchArgument(s, i) == Some(e)
  {
    assert IsSpace(s[g]);
    SubTypesEmbedded(s[a..g], s, a);
    if a < g {
      assert SubTypeEnd(s, a) > a;
    }
    AlternativeFound(s, i, s[i..a], AnyType);
    RunEndOf(s, g, h, Space);
    RunEndOf(s, h, e, NameChar);
    ArgumentRead(s, i, a, g, h, e);
  }

  /** MatchArgument read off from the ends of its pieces. */
  lemma ArgumentRead(s: string, i: nat, a: nat, g: nat, h: nat, e: nat)
    requires i <= a <= |s| && MatchType(s, i, AnyType).Some? && i + |MatchType(s, i, AnyType).value| == a
    requires SubTypesEnd(s, a) == g
    requires g < h < |s| && RunEnd(s, g, Space) == h && IsNameStart(s[h]) && RunEnd(s, h, NameChar) == e
    ensures MatchArgument(s, i) == Some(e)
  {
  }

  /** An argument starts with a letter or digit of its type word. */
  lemma ArgumentStart(s: string, i: nat, e: nat)
    requires i <= |s| && MatchArgument(s, i) == Some(e)
    ensures i < |s| && IsLowerAlnum(s[i])
  {
    var t := MatchType(s, i, AnyType).value;
    AllInIndex(s, i, i + |t|, LowerAlnum, i);
  }

  /* ---- The argument list ------------------------------------------------------ */

  /** `\s*,\s*` from x to y: spaces, one comma at p, spaces. */
  predicate SeparatorAt(s: string, x: nat, p: nat, y: nat) {
    x <= p < y <= |s| && AllIn(s, x, p, Space) && s[p] == ',' && AllIn(s, p + 1, y, Space)
  }

  /** The closing `\s*\)` from x: spaces, then `)` at c. */
  predicate ClosingAt(s: string, x: nat, c: nat) {
    x <= c < |s| && AllIn(s, x, c, Space) && s[c] == ')'
  }

  /** One further argument of the list, after its comma. */
  datatype Further = Further(comma: nat, start: nat, end: nat)

  /** `(?:\s*,\s*ARG\s*)*\s*\)` from x: the further arguments, each after its comma, then
      the closing parenthesis at c. */
  ghost predicate TailParts(s: string, x: nat, more: seq<Further>, c: nat)
    decreases |more|
  {
    if more == [] then ClosingAt(s, x, c)
    else
      && SeparatorAt(s, x, more[0].comma, more[0].start)
      && IsArgument(s, more[0].start, more[0].end)
      && TailParts(s, more[0].end, more[1..], c)
  }

  /** `\s*(?:ARG(?:(?:\s*,\s*ARG\s*)*)?)?\s*\)` from o: either no argument and `)` at c, or
      spaces, a first argument s[b..e] and the further ones. */
  ghost predicate ListParts(s: string, o: nat, b: nat, e: nat, more: seq<Further>, c: nat) {
    if b == e then more == [] && ClosingAt(s, o, c)
    else o <= b && AllIn(s, o, b, Space) && IsArgument(s, b, e) && TailParts(s, e, more, c)
  }

  /** The argument list starting at o closes at c. */
  ghost predicate IsArgumentList(s: string, o: nat, c: nat) {
    exists b, e, more :: ListParts(s, o, b, e, more, c)
  }

  /** The further arguments and `)` from x close at c. */
  ghost predicate IsTail(s: string, x: nat, c: nat) {
    exists more :: TailParts(s, x, more, c)
  }

  /** The tail recogniser ends at c exactly when the further arguments and `)` are there. */
  lemma MatchArgumentTailIsTail(s: string, x: nat, c: nat)
    requires x <= |s|
    ensures MatchArgumentTail(s, x) == Some(c) <==> IsTail(s, x, c)
  {
    if MatchArgumentTail(s, x) == Some(c) {
      var more := TailFound(s, x, c);
    } else {
      forall more
        ensures !TailParts(s, x, more, c)
      {
        if TailParts(s, x, more, c) {
          TailMatched(s, x, more, c);
        }
      }
    }
  }

  lemma {:induction false} TailFound(s: string, x: nat, c: nat) returns (more: seq<Further>)
    requires x <= |s| && MatchArgumentTail(s, x) == Some(c)
    ensures TailParts(s, x, more, c)
    decreases |s| - x
  {
    var p := RunEnd(s, x, Space);
    if p < |s| && s[p] == ',' {
      var q := RunEnd(s, p + 1, Space);
      var a := MatchArgument(s, q).value;
      assert MatchArgumentTail(s, a) == Some(c);
      var rest := TailFound(s, a, c);
      MatchArgumentIsArgument(s, q, a);
      more := [Further(p, q, a)] + rest;
      assert more[1..] == rest;
    } else {
      more := [];
    }
  }

  lemma {:induction false} TailMatched(s: string, x: nat, more: seq<Further>, c: nat)
    requires x <= |s| && TailParts(s, x, more, c)
    ensures MatchArgumentTail(s, x) == Some(c)
    decreases |more|
  {
    if more == [] {
      RunEndOf(s, x, c, Space);
      TailCloses(s, x, c);
    } else {
      var f := more[0];
      MatchArgumentIsArgument(s, f.start, f.end);
      TailMatched(s, f.end, more[1..], c);
      SeparatorRead(s, x, f.comma, f.start, f.end, c);
    }
  }

  /** The tail recogniser reads a separator and the argument after it, then goes on. */
  lemma SeparatorRead(s: string, x: nat, p: nat, q: nat, a: nat, c: nat)
    requires SeparatorAt(s, x, p, q) && MatchArgument(s, q) == Some(a)
    requires MatchArgumentTail(s, a) == Some(c)
    ensures MatchArgumentTail(s, x) == Some(c)
  {
    ArgumentStart(s, q, a);
    RunEndOf(s, x, p, Space);
    RunEndOf(s, p + 1, q, Space);
    TailGoesOn(s, x, p, q, a, c);
  }

  lemma TailGoesOn(s: string, x: nat, p: nat, q: nat, a: nat, c: nat)
    requires x <= p < |s| && RunEnd(s, x, Space) == p && s[p] == ','
    requires RunEnd(s, p + 1, Space) == q && MatchArgument(s, q) == Some(a)
    requires MatchArgumentTail(s, a) == Some(c)
    ensures MatchArgumentTail(s, x) == Some(c)
  {
    match MatchArgument(s, q)
    case Some(found) =>
      assert found == a;
  }

  lemma TailCloses(s: string, x: nat, c: nat)
    requires x <= c < |s| && RunEnd(s, x, Space) == c && s[c] == ')'
    ensures MatchArgumentTail(s, x) == Some(c)
  {
  }

  /** The list recogniser ends at c exactly when an argument list closing at c is there. */
  lemma MatchArgumentListIsList(s: string, o: nat, c: nat)
    requires o <= |s|
    ensures MatchArgumentList(s, o) == Some(c) <==> IsArgumentList(s, o, c)
  {
    if MatchArgumentList(s, o) == Some(c) {
      ListFound(s, o, c);
    }
    if IsArgumentList(s, o, c) {
      var b, e, more :| ListParts(s, o, b, e, more, c);
      ListMatched(s, o, b, e, more, c);
    }
  }

  lemma ListFound(s: string, o: nat, c: nat)
    requires o <= |s| && MatchArgumentList(s, o) == Some(c)
    ensures IsArgumentList(s, o, c)
  {
    var b := RunEnd(s, o, Space);
    if b < |s| && s[b] == ')' {
      assert ListParts(s, o, b, b, [], c);
    } else {
      var e := MatchArgument(s, b).value;
      MatchArgumentIsArgument(s, b, e);
      assert MatchArgumentTail(s, e) == Some(c);
      var more := TailFound(s, e, c);
      assert ListParts(s, o, b, e, more, c);
    }
  }

  lemma ListMatched(s: string, o: nat, b: nat, e: nat, more: seq<Further>, c: nat)
    requires o <= |s| && ListParts(s, o, b, e, more, c)
    ensures MatchArgumentList(s, o) == Some(c)
  {
    if b == e {
      RunEndOf(s, o, c, Space);
      ListEmpty(s, o, c);
    } else {
      MatchArgumentIsArgument(s, b, e);
      ListMatchedFrom(s, o, b, e, more, c);
    }
  }

  lemma ListMatchedFrom(s: string, o: nat, b: nat, e: nat, more: seq<Further>, c: nat)
    requires o <= b <= |s| && AllIn(s, o, b, Space)
    requires MatchArgument(s, b) == Some(e) && TailParts(s, e, more, c)
    ensures MatchArgumentList(s, o) == Some(c)
  {
    ArgumentStart(s, b, e);
    RunEndOf(s, o, b, Space);
    TailMatched(s, e, more, c);
    ListGoesOn(s, o, b, e, c);
  }

  lemma ListEmpty(s: string, o: nat, c: nat)
    requires o <= c < |s| && RunEnd(s, o, Space) == c && s[c] == ')'
    ensures MatchArgumentList(s, o) == Some(c)
  {
  }

  lemma ListGoesOn(s: string, o: nat, b: nat, e: nat, c: nat)
    requires o <= b < |s| && RunEnd(s, o, Space) == b && s[b] != ')'
    requires MatchArgument(s, b) == Some(e) && MatchArgumentTail(s, e) == Some(c)
    ensures MatchArgumentList(s, o) == Some(c)
  {
  }

  /* ---- RAW_FUNCTION_REGEX ----------------------------------------------------- */

  /** `function\s+NAME\s*\(` ARGUMENTS `\)` laid out as h says: the keyword at h.start, at
      least one space, a name the next character does not continue, spaces, `(` and an
      argument list closing at h.closeParen. */
  ghost predicate HeaderParts(s: string, h: RawHeader) {
    && h.start + 8 < h.nameStart < h.nameEnd <= h.openParen < |s|
    && s[h.start..h.start + 8] == FunctionKeyword
    && AllIn(s, h.start + 8, h.nameStart, Space)
    && IsNameStart(s[h.nameStart]) && AllIn(s, h.nameStart, h.nameEnd, NameChar)
    && !IsNameChar(s[h.nameEnd])
    && AllIn(s, h.nameEnd, h.openParen, Space)
    && s[h.openParen] == '('
    && IsArgumentList(s, h.openParen + 1, h.closeParen)
  }

  /** The header recogniser at i finds h exactly when a header laid out as h starts at i. */
  lemma MatchRawFunctionIsHeader(s: string, i: nat, h: RawHeader)
    requires i <= |s|
    ensures MatchRawFunction(s, i) == Some(h) ==> h.start == i && HeaderParts(s, h)
    ensures h.start == i && HeaderParts(s, h) ==> MatchRawFunction(s, i) == Some(h)
  {
    if MatchRawFunction(s, i) == Some(h) {
      MatchArgumentListIsList(s, h.openParen + 1, h.closeParen);
    }
    if h.start == i && HeaderParts(s, h) {
      HeaderFound(s, h);
    }
  }

  lemma HeaderFound(s: string, h: RawHeader)
    requires HeaderParts(s, h)
    ensures MatchRawFunction(s, h.start) == Some(h)
  {
    HeaderList(s, h);
    HeaderReadParts(s, h.start, h.nameStart, h.nameEnd, h.openParen, h.closeParen);
  }

  lemma HeaderReadParts(s: string, i: nat, b: nat, c: nat, d: nat, z: nat)
    requires i + 8 < b < c <= d < |s| && s[i..i + 8] == FunctionKeyword
    requires AllIn(s, i + 8, b, Space) && IsNameStart(s[b]) && AllIn(s, b, c, NameChar)
    requires !IsNameChar(s[c]) && AllIn(s, c, d, Space) && s[d] == '('
    requires MatchArgumentList(s, d + 1) == Some(z)
    ensures MatchRawFunction(s, i) == Some(RawHeader(i, b, c, d, z))
  {
    RunEndOf(s, i + 8, b, Space);
    RunEndOf(s, b, c, NameChar);
    RunEndOf(s, c, d, Space);
    HeaderRead(s, i, b, c, d, z);
  }

  lemma HeaderList(s: string, h: RawHeader)
    requires HeaderParts(s, h)
    ensures MatchArgumentList(s, h.openParen + 1) == Some(h.closeParen)
  {
    ListRecognised(s, h.openParen + 1, h.closeParen);
  }

  lemma ListRecognised(s: string, o: nat, c: nat)
    requires o <= |s| && IsArgumentList(s, o, c)
    ensures MatchArgumentList(s, o) == Some(c)
  {
    var b, e, more :| ListParts(s, o, b, e, more, c);
    ListMatched(s, o, b, e, more, c);
  }

  lemma HeaderRead(s: string, i: nat, b: nat, c: nat, d: nat, z: nat)
    requires i + 8 < b < |s| && s[i..i + 8] == FunctionKeyword && IsNameStart(s[b])
    requires RunEnd(s, i + 8, Space) == b && RunEnd(s, b, NameChar) == c
    requires RunEnd(s, c, Space) == d && d < |s| && s[d] == '('
    requires MatchArgumentList(s, d + 1) == Some(z)
    ensures MatchRawFunction(s, i) == Some(RawHeader(i, b, c, d, z))
  {
  }

  /* ---- re.findall --------------------------------------------------------------- */

  /** The header match at each position of s, None past its end. */
  ghost function MatchAt(s: string): nat -> Option<RawHeader>
  {
    (p: nat) => if p <= |s| then MatchRawFunction(s, p) else None
  }

  /** Each header of r is the match at its own start. */
  ghost predicate Reports(m: nat -> Option<RawHeader>, r: seq<RawHeader>) {
    forall n | 0 <= n < |r| :: m(r[n].start) == Some(r[n])
  }

  /** Every position from i on where a header matches lies inside a header of r. */
  ghost predicate Covers(m: nat -> Option<RawHeader>, r: seq<RawHeader>, i: nat) {
    forall p: nat | i <= p && m(p).Some? :: exists n | 0 <= n < |r| :: r[n].start <= p <= r[n].closeParen
  }

  /** The headers the scan from i reports are exactly the findall matches: each is the
      match at its own start, and every position from i on where a header matches lies
      inside a reported one. With FindHeaders' order and disjointness this makes the
      first report the leftmost match, and each later one the leftmost after the one
      before it. */
  lemma {:induction false} FindHeadersIsFindall(s: string, i: nat)
    requires i <= |s|
    ensures Reports(MatchAt(s), FindHeaders(s, i)) && Covers(MatchAt(s), FindHeaders(s, i), i)
    decreases |s| - i, 1
  {
    if i == |s| {
      NothingAtEnd(s);
    } else {
      match MatchRawFunction(s, i)
      case Some(h) => FoundAt(s, i, h);
      case None => NoneAt(s, i);
    }
  }

  lemma NothingAtEnd(s: string)
    ensures Reports(MatchAt(s), FindHeaders(s, |s|)) && Covers(MatchAt(s), FindHeaders(s, |s|), |s|)
  {
    var m := MatchAt(s);
    assert forall p: nat | |s| <= p :: m(p).None?;
  }

  /** A match at i is reported, and the scan goes on after it. */
  lemma {:induction false} FoundAt(s: string, i: nat, h: RawHeader)
    requires i < |s| && MatchRawFunction(s, i) == Some(h)
    ensures Reports(MatchAt(s), FindHeaders(s, i)) && Covers(MatchAt(s), FindHeaders(s, i), i)
    decreases |s| - i, 0
  {
    FindHeadersIsFindall(s, h.closeParen + 1);
    FindHeadersCons(s, i, h);
    assert MatchAt(s)(i) == Some(h);
    FoundHeaderStep(MatchAt(s), i, h, FindHeaders(s, h.closeParen + 1));
  }

  lemma FindHeadersCons(s: string, i: nat, h: RawHeader)
    requires i < |s| && MatchRawFunction(s, i) == Some(h)
    ensures FindHeaders(s, i) == [h] + FindHeaders(s, h.closeParen + 1)
  {
    match MatchRawFunction(s, i)
    case Some(found) =>
      assert found == h;
  }

  /** Without a match at i the scan moves one character on. */
  lemma {:induction false} NoneAt(s: string, i: nat)
    requires i < |s| && MatchRawFunction(s, i).None?
    ensures Reports(MatchAt(s), FindHeaders(s, i)) && Covers(MatchAt(s), FindHeaders(s, i), i)
    decreases |s| - i, 0
  {
    FindHeadersIsFindall(s, i + 1);
    assert FindHeaders(s, i) == FindHeaders(s, i + 1);
    NoMatchStep(MatchAt(s), i, FindHeaders(s, i));
  }

  /** A position without a match adds nothing to cover. */
  lemma NoMatchStep(m: nat -> Option<RawHeader>, i: nat, r: seq<RawHeader>)
    requires m(i).None? && Covers(m, r, i + 1)
    ensures Covers(m, r, i)
  {
  }

  /** A match at i, followed by the findall result after it, is the findall result from i. */
  lemma FoundHeaderStep(m: nat -> Option<RawHeader>, i: nat, h: RawHeader, rest: seq<RawHeader>)
    requires m(i) == Some(h) && h.start == i <= h.closeParen
    requires Reports(m, rest) && Covers(m, rest, h.closeParen + 1)
    ensures Reports(m, [h] + rest) && Covers(m, [h] + rest, i)
  {
    var r := [h] + rest;
    forall p: nat | i <= p && m(p).Some?
      ensures exists n | 0 <= n < |r| :: r[n].start <= p <= r[n].closeParen
    {
      if p <= h.closeParen {
        assert r[0].start <= p <= r[0].closeParen;
      } else {
        var k :| 0 <= k < |rest| && rest[k].start <= p <= rest[k].closeParen;
        assert r[k + 1] == rest[k];
      }
    }
  }
}
