/**
 * The JavaScript string operations the statistics script relies on:
 * String.prototype.split with a one-character separator, trim, padStart to
 * two characters, and the relational operators on strings. A Dafny string is a
 * sequence of code points, while JavaScript measures and compares UTF-16 code
 * units; the two readings agree on texts without characters above U+FFFF.
 */
module JsStrings {

  /* ---- split ---------------------------------------------------------------- */

  /** s.split(c): the pieces between occurrences of c; there is always at least one,
      and an empty text gives one empty piece. */
  function Split(s: string, c: char): (r: seq<string>)
    ensures |r| > 0
    ensures forall k | 0 <= k < |r| :: c !in r[k]
    decreases |s|
  {
    if s == [] then [""]
    else
      var rest := Split(s[1..], c);
      if s[0] == c then [""] + rest
      else [[s[0]] + rest[0]] + rest[1..]
  }

  /** pieces.join(c). */
  function Join(pieces: seq<string>, c: char): string
    requires |pieces| > 0
  {
    if |pieces| == 1 then pieces[0] else pieces[0] + [c] + Join(pieces[1..], c)
  }

  /** Joining the pieces with the separator gives the text back. */
  lemma {:induction false} JoinSplit(s: string, c: char)
    ensures Join(Split(s, c), c) == s
    decreases |s|
  {
    if s != [] {
      var rest := Split(s[1..], c);
      JoinSplit(s[1..], c);
      if s[0] != c {
        var r := Split(s, c);
        assert r[1..] == rest[1..];
        if |rest| > 1 {
          assert Join(rest, c) == rest[0] + [c] + Join(rest[1..], c);
        }
      } else {
        assert Split(s, c)[1..] == rest;
      }
    }
  }

  /** Pieces free of the separator are what splitting their join gives. */
  lemma {:induction false} SplitJoin(pieces: seq<string>, c: char)
    requires |pieces| > 0
    requires forall k | 0 <= k < |pieces| :: c !in pieces[k]
    ensures Split(Join(pieces, c), c) == pieces
    decreases |pieces|, |pieces[0]|, 1
  {
    if pieces[0] != [] {
      SplitJoinFirstChar(pieces, c);
    } else if |pieces| > 1 {
      SplitJoin(pieces[1..], c);
      assert Join(pieces, c) == [c] + Join(pieces[1..], c);
      assert Join(pieces, c)[1..] == Join(pieces[1..], c);
      assert pieces == [""] + pieces[1..];
    }
  }

  /** The step of SplitJoin that moves the first character out of a non-empty first piece. */
  lemma {:induction false} SplitJoinFirstChar(pieces: seq<string>, c: char)
    requires |pieces| > 0 && pieces[0] != []
    requires forall k | 0 <= k < |pieces| :: c !in pieces[k]
    ensures Split(Join(pieces, c), c) == pieces
    decreases |pieces|, |pieces[0]|, 0
  {
    var p := pieces[0];
    var shorter := [p[1..]] + pieces[1..];
    var s := Join(pieces, c);
    assert s == [p[0]] + Join(shorter, c) by {
      if |pieces| > 1 {
        assert Join(shorter, c) == p[1..] + [c] + Join(pieces[1..], c);
      }
    }
    SplitJoin(shorter, c);
    assert p[0] != c by { assert p[0] in pieces[0]; }
    assert s[1..] == Join(shorter, c);
    assert Split(s, c) == [[p[0]] + shorter[0]] + shorter[1..];
    assert [p[0]] + p[1..] == p;
    assert shorter[1..] == pieces[1..];
  }

  /* ---- trim ------------------------------------------------------------------ */

  /** The white space and line terminators String.prototype.trim removes (ECMAScript
      WhiteSpace and LineTerminator). */
  predicate IsWhiteSpace(c: char) {
    || c == '\t' || c == '\n' || c == '\U{000B}' || c == '\U{000C}' || c == '\r' || c == ' '
    || c == '\U{00A0}' || c == '\U{1680}' || '\U{2000}' <= c <= '\U{200A}'
    || c == '\U{2028}' || c == '\U{2029}' || c == '\U{202F}' || c == '\U{205F}' || c == '\U{3000}'
    || c == '\U{FEFF}'
  }

  /** The number of white space characters s starts with. */
  function LeadingSpace(s: string): (n: nat)
    ensures n <= |s|
    decreases |s|
  {
    if s != [] && IsWhiteSpace(s[0]) then 1 + LeadingSpace(s[1..]) else 0
  }

  /** The number of white space characters s ends with. */
  function TrailingSpace(s: string): (n: nat)
    ensures n <= |s|
    decreases |s|
  {
    if s != [] && IsWhiteSpace(s[|s| - 1]) then 1 + TrailingSpace(s[..|s| - 1]) else 0
  }

  /** s.trim(): s without its leading and trailing white space. */
  function Trim(s: string): string {
    var i := LeadingSpace(s);
    var t := s[i..];
    t[..|t| - TrailingSpace(t)]
  }

  lemma {:induction false} LeadingSpaceFacts(s: string)
    ensures forall k | 0 <= k < LeadingSpace(s) :: IsWhiteSpace(s[k])
    ensures LeadingSpace(s) < |s| ==> !IsWhiteSpace(s[LeadingSpace(s)])
    decreases |s|
  {
    if s != [] && IsWhiteSpace(s[0]) {
      LeadingSpaceFacts(s[1..]);
      forall k | 1 <= k < LeadingSpace(s)
        ensures IsWhiteSpace(s[k])
      {
        assert s[k] == s[1..][k - 1];
      }
    }
  }

  lemma {:induction false} TrailingSpaceFacts(s: string)
    ensures forall k | |s| - TrailingSpace(s) <= k < |s| :: IsWhiteSpace(s[k])
    ensures TrailingSpace(s) < |s| ==> !IsWhiteSpace(s[|s| - 1 - TrailingSpace(s)])
    decreases |s|
  {
    if s != [] && IsWhiteSpace(s[|s| - 1]) {
      var u := s[..|s| - 1];
      TrailingSpaceFacts(u);
      forall k | |s| - TrailingSpace(s) <= k < |s| - 1
        ensures IsWhiteSpace(s[k])
      {
        assert s[k] == u[k];
      }
    }
  }

  /** trim cuts white space, and only white space, from both ends: what is left is a
      slice of s that is empty or starts and ends with other characters. */
  lemma TrimFacts(s: string)
    ensures exists i, j | 0 <= i <= j <= |s| ::
      && Trim(s) == s[i..j]
      && (forall k | 0 <= k < i :: IsWhiteSpace(s[k]))
      && (forall k | j <= k < |s| :: IsWhiteSpace(s[k]))
    ensures Trim(s) != [] ==> !IsWhiteSpace(Trim(s)[0]) && !IsWhiteSpace(Trim(s)[|Trim(s)| - 1])
  {
    var i := LeadingSpace(s);
    var t := s[i..];
    var j := i + |t| - TrailingSpace(t);
    LeadingSpaceFacts(s);
    TrailingSpaceFacts(t);
    assert Trim(s) == s[i..j];
    forall k | j <= k < |s|
      ensures IsWhiteSpace(s[k])
    {
      assert s[k] == t[k - i];
    }
    if Trim(s) != [] {
      assert Trim(s)[0] == t[0];
    }
  }

  /** A text with nothing to cut at either end is its own trim. */
  lemma TrimOfTrimmed(s: string)
    requires s != [] ==> !IsWhiteSpace(s[0]) && !IsWhiteSpace(s[|s| - 1])
    ensures Trim(s) == s
  {
    assert s[0..] == s;
    assert s[..|s|] == s;
  }

  /** trim is idempotent. */
  lemma TrimIdempotent(s: string)
    ensures Trim(Trim(s)) == Trim(s)
  {
    TrimFacts(s);
    TrimOfTrimmed(Trim(s));
  }

  /* ---- padStart(2, "0") ----------------------------------------------------- */

  /** s.padStart(2, "0"): zeros in front up to two characters; longer texts are kept. */
  function PadStart2(s: string): (r: string)
    ensures |r| == if |s| < 2 then 2 else |s|
    ensures r[|r| - |s|..] == s
    ensures forall k | 0 <= k < |r| - |s| :: r[k] == '0'
  {
    if |s| >= 2 then s else if |s| == 1 then "0" + s else "00"
  }

  /* ---- < and > on strings ------------------------------------------------------ */

  /** a < b for strings: the first differing character decides, and a proper prefix
      is smaller. */
  predicate Less(a: string, b: string)
    decreases |a|
  {
    if a == [] then b != []
    else if b == [] then false
    else a[0] < b[0] || (a[0] == b[0] && Less(a[1..], b[1..]))
  }

  /** The order is strict. */
  lemma {:induction false} LessIrreflexive(a: string)
    ensures !Less(a, a)
    decreases |a|
  {
    if a != [] {
      LessIrreflexive(a[1..]);
    }
  }

  /** Any two different strings are ordered one way. */
  lemma {:induction false} LessTotal(a: string, b: string)
    ensures a == b || Less(a, b) || Less(b, a)
    decreases |a|
  {
    if a != [] && b != [] && a[0] == b[0] {
      LessTotal(a[1..], b[1..]);
      if a[1..] == b[1..] {
        assert a == [a[0]] + a[1..] && b == [b[0]] + b[1..];
      }
    }
  }

  /** The order never holds both ways. */
  lemma {:induction false} LessAsymmetric(a: string, b: string)
    ensures !(Less(a, b) && Less(b, a))
    decreases |a|
  {
    if a != [] && b != [] && a[0] == b[0] {
      LessAsymmetric(a[1..], b[1..]);
    }
  }

  /** The order is transitive. */
  lemma {:induction false} LessTransitive(a: string, b: string, c: string)
    requires Less(a, b) && Less(b, c)
    ensures Less(a, c)
    decreases |a|
  {
    if a != [] && a[0] == b[0] && b[0] == c[0] {
      LessTransitive(a[1..], b[1..], c[1..]);
    }
  }

  /** "Not greater" is transitive. */
  lemma {:induction false} NotLessTransitive(a: string, b: string, c: string)
    requires !Less(b, a) && !Less(c, b)
    ensures !Less(c, a)
    decreases |a|
  {
    if a != [] && a[0] == b[0] && b[0] == c[0] {
      NotLessTransitive(a[1..], b[1..], c[1..]);
    }
  }

  /** Texts whose first parts have the same length compare by those parts first and,
      when those are equal, by the rest. */
  lemma LessByParts(p: string, q: string, a: string, b: string)
    requires |p| == |q|
    ensures Less(p + a, q + b) <==> Less(p, q) || (p == q && Less(a, b))
  {
    if p == q {
      LessAfterCommon(p, a, b);
      LessIrreflexive(p);
    } else {
      LessDecidedEarly(p, q, a, b);
    }
  }

  /** Comparing texts that share a first part of the same length compares the rest. */
  lemma {:induction false} LessAfterCommon(p: string, a: string, b: string)
    ensures Less(p + a, p + b) <==> Less(a, b)
    decreases |p|
  {
    if p != [] {
      assert (p + a)[1..] == p[1..] + a;
      assert (p + b)[1..] == p[1..] + b;
      LessAfterCommon(p[1..], a, b);
    } else {
      assert p + a == a && p + b == b;
    }
  }

  /** Texts of the same length whose first parts of equal length differ are ordered by
      those parts. */
  lemma {:induction false} LessDecidedEarly(p: string, q: string, a: string, b: string)
    requires |p| == |q| && p != q
    ensures Less(p + a, q + b) <==> Less(p, q)
    decreases |p|
  {
    assert p != [];
    if p[0] == q[0] {
      assert (p + a)[1..] == p[1..] + a;
      assert (q + b)[1..] == q[1..] + b;
      assert p == [p[0]] + p[1..] && q == [q[0]] + q[1..];
      LessDecidedEarly(p[1..], q[1..], a, b);
    }
  }
}
