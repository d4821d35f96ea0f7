/**
 * re.findall(FUNCTION_ARGUMENT_TYPES_REGEX, arglist) read declaratively. The
 * search resumes one character on wherever no type word starts, and on a
 * parameter list written as ARGUMENT_REGEX describes it (a type word, array
 * suffixes, white space and a name, then a separator) it returns exactly the
 * declared (type, suffixes) pairs, provided no type word starts inside a
 * parameter name. Where one does, the scan also picks it up (see
 * SignatureExamples.ScanFindsTypeInsideName).
 */
module ArgumentScan {
  import opened Outcomes
  import opened SolidityLexer
  import opened SolidityTypes
  import opened FunctionSignature
  import opened SignatureNormalizer

  /* ---- Where the search moves on ------------------------------------------------ */

  /** Positions before k where no type alternative matches add nothing: the scan of s is
      the scan of what follows them. */
  lemma {:induction false} ScanSkips(s: string, k: nat)
    requires k <= |s| && forall p | 0 <= p < k :: MatchType(s[p..], 0, AnyType).None?
    ensures ScanArgumentTypes(s) == ScanArgumentTypes(s[k..])
    decreases k
  {
    if k > 0 {
      assert s[0..] == s;
      var t := s[1..];
      forall p | 0 <= p < k - 1
        ensures MatchType(t[p..], 0, AnyType).None?
      {
        assert t[p..] == s[p + 1..];
      }
      ScanSkips(t, k - 1);
      assert t[k - 1..] == s[k..];
    }
  }

  /** No type word starts at a character outside `[a-z0-9]`. */
  lemma NoTypeAtSeparator(x: string)
    requires |x| > 0 && !IsLowerAlnum(x[0])
    ensures MatchType(x, 0, AnyType).None?
  {
    RunEndOf(x, 0, 0, LowerAlnum);
  }

  /** The look-ahead `(?![a-z0-9])` reads one character past the word: text after the
      word that starts outside `[a-z0-9]` does not change the match. */
  lemma MatchTypeExtend(y: string, rest: string)
    requires rest == [] || !IsLowerAlnum(rest[0])
    ensures MatchType(y + rest, 0, AnyType) == MatchType(y, 0, AnyType)
  {
    var u := y + rest;
    var j := RunEnd(y, 0, LowerAlnum);
    assert u[0..j] == y[0..j];
    AgreeOfSlices(y, 0, u, 0, j);
    AllInTransfer(y, 0, u, 0, j, LowerAlnum);
    if j < |y| {
      assert u[j] == y[j];
    } else if rest != [] {
      assert u[j] == rest[0];
    }
    RunEndOf(u, 0, j, LowerAlnum);
  }

  /* ---- A declared parameter list ------------------------------------------------- */

  /** One declared parameter `type[suffixes] name` and the text after it up to the next
      parameter: a separator such as `, `, or trailing white space. */
  datatype Parameter = Parameter(typ: string, sub: string, gap: string, name: string, after: string)

  function ParameterText(p: Parameter): string {
    p.typ + p.sub + p.gap + p.name + p.after
  }

  /** The argument text of a declaration with these parameters. */
  function DeclaredText(ps: seq<Parameter>): string {
    if ps == [] then "" else ParameterText(ps[0]) + DeclaredText(ps[1..])
  }

  /** No type word starts anywhere inside the name. */
  predicate NameHoldsNoType(name: string) {
    forall k | 0 <= k < |name| :: MatchType(name[k..], 0, AnyType).None?
  }

  /** ARGUMENT_REGEX's parts: a type word, array suffixes, at least one space and a name;
      the name holds no type word and the text after it has no `[a-z0-9]`. */
  predicate WellDeclared(p: Parameter) {
    && InVocabulary(p.typ, AnyType) && IsSubTypes(p.sub)
    && |p.gap| > 0 && AllIn(p.gap, 0, |p.gap|, Space)
    && IsName(p.name) && NameHoldsNoType(p.name)
    && forall k | 0 <= k < |p.after| :: !IsLowerAlnum(p.after[k])
  }

  /** On a declared list, findall returns each parameter's type and suffixes, in order. */
  lemma {:induction false} ScanDeclared(ps: seq<Parameter>)
    requires forall n | 0 <= n < |ps| :: WellDeclared(ps[n])
    requires forall n | 0 <= n < |ps| - 1 :: |ps[n].after| > 0
    ensures |ScanArgumentTypes(DeclaredText(ps))| == |ps|
    ensures forall n | 0 <= n < |ps| :: ScanArgumentTypes(DeclaredText(ps))[n] == RawArgument(ps[n].typ, ps[n].sub)
    decreases |ps|
  {
    if ps != [] {
      var tail := ps[1..];
      TailDeclared(ps);
      ScanDeclared(tail);
      assert |ps[0].after| > 0 || DeclaredText(tail) == [] by {
        if |ps| == 1 {
          assert tail == [];
        }
      }
      ScanParameter(ps[0], DeclaredText(tail));
      PairsCons(ps, ScanArgumentTypes(DeclaredText(ps)), ScanArgumentTypes(DeclaredText(tail)));
    }
  }

  /** The parameters after the first are declared as well. */
  lemma TailDeclared(ps: seq<Parameter>)
    requires ps != [] && forall n | 0 <= n < |ps| :: WellDeclared(ps[n])
    requires forall n | 0 <= n < |ps| - 1 :: |ps[n].after| > 0
    ensures forall n | 0 <= n < |ps| - 1 :: WellDeclared(ps[1..][n])
    ensures forall n | 0 <= n < |ps| - 2 :: |ps[1..][n].after| > 0
  {
    assert forall n | 0 <= n < |ps| - 1 :: ps[1..][n] == ps[n + 1];
  }

  /** The first pair in front of the pairs of the rest. */
  lemma PairsCons(ps: seq<Parameter>, all: seq<RawArgument>, rest: seq<RawArgument>)
    requires ps != [] && all == [RawArgument(ps[0].typ, ps[0].sub)] + rest && |rest| == |ps| - 1
    requires forall n | 0 <= n < |ps| - 1 :: rest[n] == RawArgument(ps[1..][n].typ, ps[1..][n].sub)
    ensures |all| == |ps| && forall n | 0 <= n < |ps| :: all[n] == RawArgument(ps[n].typ, ps[n].sub)
  {
    forall n | 0 <= n < |ps|
      ensures all[n] == RawArgument(ps[n].typ, ps[n].sub)
    {
      if n > 0 {
        assert all[n] == rest[n - 1];
        assert ps[1..][n - 1] == ps[n];
      }
    }
  }

  /** One parameter: its pair, then the scan of what follows it. */
  lemma ScanParameter(p: Parameter, rest: string)
    requires WellDeclared(p) && (|p.after| > 0 || rest == [])
    ensures ScanArgumentTypes(ParameterText(p) + rest)
         == [RawArgument(p.typ, p.sub)] + ScanArgumentTypes(rest)
  {
    var w := p.name + p.after + rest;
    TextLayout(p, rest);
    assert w[0] == p.name[0];
    ParameterHead(p.typ, p.sub, p.gap, w);
    SkipNameAndSeparator(p, rest, w);
  }

  lemma TextLayout(p: Parameter, rest: string)
    ensures ParameterText(p) + rest == p.typ + p.sub + (p.gap + (p.name + p.after + rest))
  {
  }

  /** A type word, array suffixes and white space in front of w: the scan keeps the pair
      and goes on at w. */
  lemma ParameterHead(t: string, sub: string, gap: string, w: string)
    requires InVocabulary(t, AnyType) && IsSubTypes(sub)
    requires |gap| > 0 && AllIn(gap, 0, |gap|, Space) && |w| > 0 && IsNameStart(w[0])
    ensures ScanArgumentTypes(t + sub + (gap + w)) == [RawArgument(t, sub)] + ScanArgumentTypes(w)
  {
    var u := t + sub + (gap + w);
    var g := |t| + |sub|;
    var e := g + |gap|;
    AllInIndex(gap, 0, |gap|, Space, 0);
    HeadLayout(t, sub, gap, w, u);
    TypeWordAt(u, t);
    SubTypesEmbedded(sub, u, |t|);
    SpacesAt(u, g, gap);
    HeadStep(u, t, sub, w, g, e);
  }

  /** Where the pieces lie in t + sub + (gap + w), and the characters at their borders. */
  lemma HeadLayout(t: string, sub: string, gap: string, w: string, u: string)
    requires IsSubTypes(sub) && |gap| > 0 && IsSpace(gap[0]) && |w| > 0 && IsNameStart(w[0])
    requires u == t + sub + (gap + w)
    ensures var g := |t| + |sub|; var e := g + |gap|;
      && e < |u| && u[..|t|] == t && !IsLowerAlnum(u[|t|]) && u[|t|..g] == sub
      && u[g] == gap[0] && u[g..e] == gap && !IsSpace(u[e]) && u[e..] == w
  {
    var g := |t| + |sub|;
    var e := g + |gap|;
    assert u[..|t|] == t;
    assert u[|t|..g] == sub;
    assert u[g..] == gap + w;
    assert u[g..e] == gap;
    assert u[e..] == w;
    if sub != [] {
      SubTypesStart(sub);
      assert u[|t|] == sub[0];
    }
  }

  /** The scan step, read off from the ends of the pieces. */
  lemma HeadStep(u: string, t: string, sub: string, w: string, g: nat, e: nat)
    requires MatchType(u, 0, AnyType) == Some(t) && SubTypesEnd(u, |t|) == g && RunEnd(u, g, Space) == e
    requires |t| <= g <= e <= |u| && u[|t|..g] == sub && u[e..] == w
    ensures ScanArgumentTypes(u) == [RawArgument(t, sub)] + ScanArgumentTypes(w)
  {
    ScanStep(u, t, g, e);
  }

  /** A type word followed by a character outside `[a-z0-9]` is what the alternation finds. */
  lemma TypeWordAt(u: string, t: string)
    requires InVocabulary(t, AnyType) && |t| < |u| && u[..|t|] == t && !IsLowerAlnum(u[|t|])
    ensures MatchType(u, 0, AnyType) == Some(t)
  {
    assert u[0..0 + |t|] == t;
    MatchTypeIsAlternation(u, 0, t, AnyType);
  }

  /** White space from g up to a character that is not white space is one `\s*` run. */
  lemma SpacesAt(u: string, g: nat, gap: string)
    requires g + |gap| < |u| && u[g..g + |gap|] == gap && AllIn(gap, 0, |gap|, Space)
    requires !IsSpace(u[g + |gap|])
    ensures RunEnd(u, g, Space) == g + |gap|
  {
    AgreeOfSlices(gap, 0, u, g, |gap|);
    AllInTransfer(gap, 0, u, g, |gap|, Space);
    RunEndOf(u, g, g + |gap|, Space);
  }

  /** Non-empty array suffixes start with `[`. */
  lemma SubTypesStart(sub: string)
    requires IsSubTypes(sub) && sub != []
    ensures sub[0] == '['
  {
    assert SubTypeEnd(sub, 0) > 0;
  }

  /** The scan passes over the name and the separator after it. */
  lemma SkipNameAndSeparator(p: Parameter, rest: string, w: string)
    requires WellDeclared(p) && (|p.after| > 0 || rest == []) && w == p.name + p.after + rest
    ensures ScanArgumentTypes(w) == ScanArgumentTypes(rest)
  {
    forall k | 0 <= k < |p.name| + |p.after|
      ensures MatchType(w[k..], 0, AnyType).None?
    {
      NoTypeInParameter(p, rest, w, k);
    }
    ScanSkips(w, |p.name| + |p.after|);
    assert w[|p.name| + |p.after|..] == rest;
  }

  /** No type word starts inside the name or the separator. */
  lemma NoTypeInParameter(p: Parameter, rest: string, w: string, k: nat)
    requires WellDeclared(p) && (|p.after| > 0 || rest == []) && w == p.name + p.after + rest
    requires k < |p.name| + |p.after|
    ensures MatchType(w[k..], 0, AnyType).None?
  {
    var name, after := p.name, p.after;
    if k < |name| {
      assert w[k..] == name[k..] + (after + rest);
      if after != [] {
        assert (after + rest)[0] == after[0];
      }
      MatchTypeExtend(name[k..], after + rest);
    } else {
      assert w[k] == after[k - |name|];
      NoTypeAtSeparator(w[k..]);
    }
  }
}
