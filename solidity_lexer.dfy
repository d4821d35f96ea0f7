/**
 * Character classes and maximal-run scanners shared by the regular expressions
 * of the function-signature tool. Every scanner starts at a position of the
 * text and returns the position where it stops; the grammars only ever look
 * ahead, never behind.
 */
module SolidityLexer {

  /** Python's `\s` on str patterns: the characters for which str.isspace holds. */
  predicate IsSpace(c: char) {
    var n := c as int;
    n == 0x20 || 0x09 <= n <= 0x0D || 0x1C <= n <= 0x1F || n == 0x85 || n == 0xA0
    || n == 0x1680 || 0x2000 <= n <= 0x200A || n == 0x2028 || n == 0x2029
    || n == 0x202F || n == 0x205F || n == 0x3000
  }

  predicate IsDigit(c: char) { '0' <= c <= '9' }

  /** `[a-z0-9]`, the class excluded by the negative look-ahead after a type. */
  predicate IsLowerAlnum(c: char) { 'a' <= c <= 'z' || IsDigit(c) }

  /** `[a-zA-Z_]`, the first character of a name. */
  predicate IsNameStart(c: char) { 'a' <= c <= 'z' || 'A' <= c <= 'Z' || c == '_' }

  /** `[a-zA-Z0-9_]` */
  predicate IsNameChar(c: char) { IsNameStart(c) || IsDigit(c) }

  /** The character classes the grammars repeat. */
  datatype CharClass = Space | Digit | LowerAlnum | NameChar | NotParen

  predicate InClass(c: char, k: CharClass) {
    match k
    case Space => IsSpace(c)
    case Digit => IsDigit(c)
    case LowerAlnum => IsLowerAlnum(c)
    case NameChar => IsNameChar(c)
    case NotParen => c != '(' && c != ')'
  }

  /** Positions i..j-1 of s exist and hold characters of class k. */
  predicate AllIn(s: string, i: nat, j: nat, k: CharClass)
    decreases j - i
  {
    i >= j || (i < |s| && InClass(s[i], k) && AllIn(s, i + 1, j, k))
  }

  /** `[a-zA-Z_][a-zA-Z0-9_]*` matched by the whole string. */
  predicate IsName(x: string) {
    |x| > 0 && IsNameStart(x[0]) && AllIn(x, 0, |x|, NameChar)
  }

  /** Where the longest run of class k starting at i ends (`\s*`, `[0-9]*`, ... greedy). */
  function RunEnd(s: string, i: nat, k: CharClass): (j: nat)
    requires i <= |s|
    ensures i <= j <= |s| && AllIn(s, i, j, k)
    ensures j == |s| || !InClass(s[j], k)
    decreases |s| - i
  {
    if i == |s| || !InClass(s[i], k) then i else RunEnd(s, i + 1, k)
  }

  lemma {:induction false} AllInIndex(s: string, i: nat, j: nat, k: CharClass, p: nat)
    requires AllIn(s, i, j, k) && i <= p < j
    ensures p < |s| && InClass(s[p], k)
    decreases p - i
  {
    if p > i {
      AllInIndex(s, i + 1, j, k, p);
    }
  }

  lemma {:induction false} AllInOfEach(s: string, i: nat, j: nat, k: CharClass)
    requires j <= |s| && forall p | i <= p < j :: InClass(s[p], k)
    ensures AllIn(s, i, j, k)
    decreases j - i
  {
    if i < j {
      AllInOfEach(s, i + 1, j, k);
    }
  }

  /** Two adjacent ranges in class k make one. */
  lemma {:induction false} AllInJoin(s: string, i: nat, j: nat, l: nat, k: CharClass)
    requires i <= j <= l && AllIn(s, i, j, k) && AllIn(s, j, l, k)
    ensures AllIn(s, i, l, k)
    decreases j - i
  {
    if i < j {
      AllInJoin(s, i + 1, j, l, k);
    }
  }

  /** A range in class k splits into ranges in class k. */
  lemma {:induction false} AllInSplit(s: string, i: nat, j: nat, l: nat, k: CharClass)
    requires i <= j <= l && AllIn(s, i, l, k)
    ensures AllIn(s, i, j, k) && AllIn(s, j, l, k)
    decreases j - i
  {
    if i < j {
      AllInSplit(s, i + 1, j, l, k);
    }
  }

  /** A range in a class is in every wider class. */
  lemma {:induction false} AllInWiden(s: string, i: nat, j: nat, k: CharClass, wider: CharClass)
    requires AllIn(s, i, j, k) && forall c :: InClass(c, k) ==> InClass(c, wider)
    ensures AllIn(s, i, j, wider)
    decreases j - i
  {
    if i < j {
      AllInWiden(s, i + 1, j, k, wider);
    }
  }

  /** Positions i..i+n-1 of s hold the same characters as positions j..j+n-1 of t. */
  predicate Agree(s: string, i: nat, t: string, j: nat, n: nat) {
    i + n <= |s| && j + n <= |t| && forall p | i <= p < i + n :: s[p] == t[p - i + j]
  }

  /** Agreement holds on every stretch inside an agreeing stretch. */
  lemma AgreeWithin(s: string, i: nat, t: string, j: nat, n: nat, o: nat, m: nat)
    requires Agree(s, i, t, j, n) && o + m <= n
    ensures Agree(s, i + o, t, j + o, m)
  {
    forall p | i + o <= p < i + o + m
      ensures s[p] == t[p - (i + o) + (j + o)]
    {
      assert s[p] == t[p - i + j];
    }
  }

  lemma AgreeOfSlices(s: string, i: nat, t: string, j: nat, n: nat)
    requires i + n <= |s| && j + n <= |t| && s[i..i + n] == t[j..j + n]
    ensures Agree(s, i, t, j, n)
  {
    forall p | i <= p < i + n
      ensures s[p] == t[p - i + j]
    {
      assert s[p] == s[i..i + n][p - i];
    }
  }

  /** Class membership depends on the characters only: agreeing stretches are alike. */
  lemma {:induction false} AllInTransfer(s: string, i: nat, t: string, j: nat, n: nat, k: CharClass)
    requires Agree(s, i, t, j, n) && AllIn(s, i, i + n, k)
    ensures AllIn(t, j, j + n, k)
    decreases n
  {
    if n > 0 {
      AllInTransfer(s, i + 1, t, j + 1, n - 1, k);
    }
  }

  /** A range in class k inside s[a..e] is in class k in the cut-out text. */
  lemma {:induction false} AllInCut(s: string, a: nat, e: nat, i: nat, j: nat, k: CharClass)
    requires a <= i <= j <= e <= |s| && AllIn(s, i, j, k)
    ensures AllIn(s[a..e], i - a, j - a, k)
    decreases j - i
  {
    if i < j {
      assert s[a..e][i - a] == s[i];
      AllInCut(s, a, e, i + 1, j, k);
    }
  }

  /** A range in class k, cut out of the text, is in class k. */
  lemma AllInSlice(s: string, i: nat, j: nat, k: CharClass)
    requires i <= j <= |s| && AllIn(s, i, j, k)
    ensures AllIn(s[i..j], 0, j - i, k)
  {
    AgreeOfSlices(s, i, s[i..j], 0, j - i);
    AllInTransfer(s, i, s[i..j], 0, j - i, k);
  }

  /** The name a scan finds, cut out of the text, is a name. */
  lemma NameSlice(s: string, i: nat, j: nat)
    requires i < j <= |s| && IsNameStart(s[i]) && AllIn(s, i, j, NameChar)
    ensures IsName(s[i..j])
  {
    AllInSlice(s, i, j, NameChar);
  }

  /** The greedy scan stops exactly where a run ends. */
  lemma {:induction false} RunEndOf(s: string, i: nat, j: nat, k: CharClass)
    requires i <= j <= |s| && AllIn(s, i, j, k) && (j == |s| || !InClass(s[j], k))
    ensures RunEnd(s, i, k) == j
    decreases j - i
  {
    if i < j {
      RunEndOf(s, i + 1, j, k);
    }
  }

  /** One array suffix `\[[0-9]*\]` starting at i: the position after it, or i when
      there is none. */
  function SubTypeEnd(s: string, i: nat): (r: nat)
    requires i <= |s|
    ensures i <= r <= |s|
    ensures r > i ==> r >= i + 2 && s[i] == '[' && s[r - 1] == ']' && AllIn(s, i + 1, r - 1, Digit)
  {
    if i < |s| && s[i] == '[' then
      var d := RunEnd(s, i + 1, Digit);
      if d < |s| && s[d] == ']' then d + 1 else i
    else i
  }

  /** A complete array suffix `[digits]` at i is consumed whole: with SubTypeEnd's own
      contract, the scan finds a suffix exactly when one is there. */
  lemma SubTypeEndFinds(s: string, i: nat, j: nat)
    requires i + 2 <= j <= |s| && s[i] == '[' && s[j - 1] == ']' && AllIn(s, i + 1, j - 1, Digit)
    ensures SubTypeEnd(s, i) == j
  {
    RunEndOf(s, i + 1, j - 1, Digit);
  }

  /** `(?:\[[0-9]*\])*` starting at i: as many complete array suffixes as follow one
      another; the position after the last. */
  function SubTypesEnd(s: string, i: nat): (r: nat)
    requires i <= |s|
    ensures i <= r <= |s|
    decreases |s| - i
  {
    var k := SubTypeEnd(s, i);
    if k == i then i else SubTypesEnd(s, k)
  }

  /** A (possibly empty) sequence of array suffixes such as `[3][]`: the greedy scan
      consumes it whole. */
  predicate IsSubTypes(x: string) {
    SubTypesEnd(x, 0) == |x|
  }

  /** The scan stops only where no further array suffix starts. */
  lemma {:induction false} SubTypesEndMaximal(s: string, i: nat)
    requires i <= |s|
    ensures SubTypeEnd(s, SubTypesEnd(s, i)) == SubTypesEnd(s, i)
    decreases |s| - i
  {
    var k := SubTypeEnd(s, i);
    if k > i {
      SubTypesEndMaximal(s, k);
    }
  }

  /** Array suffixes hold no parenthesis. */
  lemma {:induction false} SubTypesNotParen(s: string, i: nat)
    requires i <= |s|
    ensures AllIn(s, i, SubTypesEnd(s, i), NotParen)
    decreases |s| - i
  {
    var k := SubTypeEnd(s, i);
    if k > i {
      SubTypesNotParen(s, k);
      AllInWiden(s, i + 1, k - 1, Digit, NotParen);
      AllInOfEach(s, k - 1, k, NotParen);
      AllInJoin(s, i + 1, k - 1, k, NotParen);
      AllInOfEach(s, i, i + 1, NotParen);
      AllInJoin(s, i, i + 1, k, NotParen);
      AllInJoin(s, i, k, SubTypesEnd(s, k), NotParen);
    }
  }

  /** Array suffixes are made of brackets and digits. */
  lemma {:induction false} SubTypesCharacters(s: string, i: nat)
    requires i <= |s|
    ensures forall k | i <= k < SubTypesEnd(s, i) :: s[k] == '[' || s[k] == ']' || IsDigit(s[k])
    decreases |s| - i
  {
    var k := SubTypeEnd(s, i);
    if k > i {
      SubTypesCharacters(s, k);
      forall m | i < m < k - 1
        ensures IsDigit(s[m])
      {
        AllInIndex(s, i + 1, k - 1, Digit, m);
      }
    }
  }

  /** One array suffix read from agreeing text has the same length. */
  lemma SubTypeTransfer(s: string, i: nat, t: string, j: nat, n: nat)
    requires Agree(s, i, t, j, n) && SubTypeEnd(s, i) == i + n > i
    ensures SubTypeEnd(t, j) == j + n
  {
    assert t[j] == s[i] && t[j + n - 1] == s[i + n - 1];
    AllInTransfer(s, i + 1, t, j + 1, n - 2, Digit);
    RunEndOf(t, j + 1, j + n - 1, Digit);
  }

  /** The array suffixes read from agreeing text are the same, provided the second text
      does not go on with a further suffix where the first scan stopped. */
  lemma {:induction false} SubTypesTransfer(s: string, i: nat, t: string, j: nat, n: nat)
    requires i <= |s| && n == SubTypesEnd(s, i) - i && Agree(s, i, t, j, n)
    requires SubTypeEnd(t, j + n) == j + n
    ensures SubTypesEnd(t, j) == j + n
    decreases |s| - i
  {
    var k := SubTypeEnd(s, i);
    if k > i {
      SubTypeTransfer(s, i, t, j, k - i);
      SubTypesTransfer(s, k, t, j + (k - i), n - (k - i));
    }
  }

  /** The array suffixes the scan consumes form a sequence of array suffixes on their own. */
  lemma SubTypesSliceIsSubTypes(s: string, i: nat)
    requires i <= |s|
    ensures IsSubTypes(s[i..SubTypesEnd(s, i)])
  {
    var x := s[i..SubTypesEnd(s, i)];
    AgreeOfSlices(s, i, x, 0, |x|);
    SubTypesTransfer(s, i, x, 0, |x|);
  }

  /** A sequence of array suffixes placed in a text, followed by anything but `[`, is
      consumed whole. */
  lemma SubTypesEmbedded(sub: string, t: string, j: nat)
    requires IsSubTypes(sub) && j + |sub| <= |t| && t[j..j + |sub|] == sub
    requires j + |sub| == |t| || t[j + |sub|] != '['
    ensures SubTypesEnd(t, j) == j + |sub|
  {
    AgreeOfSlices(sub, 0, t, j, |sub|);
    SubTypesTransfer(sub, 0, t, j, |sub|);
  }
}
