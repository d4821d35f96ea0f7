/**
 * sortDateArray: sorts an array of m/d/yyyy date texts in place by the key
 * year, zero-padded month, zero-padded day, compared as strings.
 *
 * The comparator reads the second part of each text unguarded, so a text
 * without a '/' raises a TypeError as soon as it is compared.  The engine's
 * sort is modelled as an insertion sort by adjacent exchanges that computes
 * every key before it moves anything, so a throwing comparator leaves the
 * array as it was.
 */
module DateSort {
  import opened Outcomes
  import opened JsStrings

  /** The TypeError of reading padStart of the missing day part. */
  datatype SortError = MissingDay(date: string)

  /** The date has a second part (a day) once split at '/'. */
  predicate HasDay(s: string) {
    |Split(s, '/')| >= 2
  }

  /** The comparator's key: the third part (or nothing when there is none), then the
      first and second parts padded to two digits; later parts are ignored. */
  function DateKey(s: string): string
    requires HasDay(s)
  {
    var t := Split(s, '/');
    (if |t| > 2 then t[2] else "") + PadStart2(t[0]) + PadStart2(t[1])
  }

  /** The comparator does not put b before a. */
  predicate InOrder(a: string, b: string)
    requires HasDay(a) && HasDay(b)
  {
    !Less(DateKey(b), DateKey(a))
  }

  /** Every pair of texts is in order. */
  predicate SortedByDate(s: seq<string>) {
    forall i, j | 0 <= i < j < |s| :: HasDay(s[i]) && HasDay(s[j]) && InOrder(s[i], s[j])
  }

  /** The key of month/day/year is year, padded month, padded day. */
  lemma DateKeyOfDate(m: string, d: string, y: string)
    requires '/' !in m && '/' !in d && '/' !in y
    ensures HasDay(m + "/" + d + "/" + y)
    ensures DateKey(m + "/" + d + "/" + y) == y + PadStart2(m) + PadStart2(d)
  {
    var pieces := [m, d, y];
    assert Join(pieces, '/') == m + "/" + d + "/" + y by {
      assert Join(pieces[2..], '/') == y;
      assert Join(pieces[1..], '/') == d + "/" + y;
    }
    SplitJoin(pieces, '/');
  }

  /** A month and a day without year sort as if the year were empty. */
  lemma DateKeyWithoutYear(m: string, d: string)
    requires '/' !in m && '/' !in d
    ensures HasDay(m + "/" + d)
    ensures DateKey(m + "/" + d) == PadStart2(m) + PadStart2(d)
  {
    var pieces := [m, d];
    assert Join(pieces, '/') == m + "/" + d by {
      assert Join(pieces[1..], '/') == d;
    }
    SplitJoin(pieces, '/');
  }

  /** A text without '/' has no day: comparing it throws. */
  lemma NoSlashNoDay(s: string)
    requires '/' !in s
    ensures !HasDay(s)
  {
    SplitJoin([s], '/');
  }

  /** Texts made of a part of equal length and two padded two-character fields compare
      part first, then the first field, then the second. */
  lemma KeyOrder(y1: string, m1: string, d1: string, y2: string, m2: string, d2: string)
    requires |y1| == |y2| && |m1| == |m2| == 2 && |d1| == |d2| == 2
    ensures Less(y1 + m1 + d1, y2 + m2 + d2)
      <==> || Less(y1, y2)
           || (y1 == y2 && Less(m1, m2))
           || (y1 == y2 && m1 == m2 && Less(d1, d2))
  {
    var r1, r2 := m1 + d1, m2 + d2;
    assert y1 + m1 + d1 == y1 + r1;
    assert y2 + m2 + d2 == y2 + r2;
    LessByParts(y1, y2, r1, r2);
    LessByParts(m1, m2, d1, d2);
  }

  /** Dates whose years have the same number of digits and whose months and days have at
      most two are ordered by year, then month, then day, each compared as text after
      padding. */
  lemma DateOrder(m1: string, d1: string, y1: string, m2: string, d2: string, y2: string)
    requires '/' !in m1 && '/' !in d1 && '/' !in y1
    requires '/' !in m2 && '/' !in d2 && '/' !in y2
    requires |y1| == |y2| && |m1| <= 2 && |d1| <= 2 && |m2| <= 2 && |d2| <= 2
    ensures HasDay(m1 + "/" + d1 + "/" + y1) && HasDay(m2 + "/" + d2 + "/" + y2)
    ensures Less(DateKey(m1 + "/" + d1 + "/" + y1), DateKey(m2 + "/" + d2 + "/" + y2))
      <==> || Less(y1, y2)
           || (y1 == y2 && Less(PadStart2(m1), PadStart2(m2)))
           || (y1 == y2 && PadStart2(m1) == PadStart2(m2) && Less(PadStart2(d1), PadStart2(d2)))
  {
    DateKeyOfDate(m1, d1, y1);
    DateKeyOfDate(m2, d2, y2);
    KeyOrder(y1, PadStart2(m1), PadStart2(d1), y2, PadStart2(m2), PadStart2(d2));
  }

  /** The key of 4/30/2021 is 20210430. */
  lemma AprilKey(a: string)
    requires a == "4/30/2021"
    ensures HasDay(a) && DateKey(a) == "20210430"
  {
    var m, d, y := "4", "30", "2021";
    assert a == m + "/" + d + "/" + y;
    DateKeyOfDate(m, d, y);
    assert PadStart2(m) == "04" && PadStart2(d) == d;
    assert y + "04" + d == "20210430";
  }

  /** The key of 12/1/2021 is 20211201. */
  lemma DecemberKey(b: string)
    requires b == "12/1/2021"
    ensures HasDay(b) && DateKey(b) == "20211201"
  {
    var m, d, y := "12", "1", "2021";
    assert b == m + "/" + d + "/" + y;
    DateKeyOfDate(m, d, y);
    assert PadStart2(m) == m && PadStart2(d) == "01";
    assert y + m + "01" == "20211201";
  }

  /** The example the comparator was written for: 4/30/2021 sorts before 12/1/2021. */
  lemma AprilBeforeDecember(a: string, b: string)
    requires a == "4/30/2021" && b == "12/1/2021"
    ensures HasDay(a) && HasDay(b)
    ensures Less(DateKey(a), DateKey(b)) && !Less(DateKey(b), DateKey(a))
  {
    AprilKey(a);
    DecemberKey(b);
    var y, p, q := "2021", "0430", "1201";
    assert DateKey(a) == y + p && DateKey(b) == y + q;
    LessByParts(y, y, p, q);
    LessByParts(y, y, q, p);
    assert Less(p, q) && !Less(q, p);
  }

  /** "Not after" is transitive, as the sort needs. */
  lemma InOrderTransitive(a: string, b: string, c: string)
    requires HasDay(a) && HasDay(b) && HasDay(c)
    requires InOrder(a, b) && InOrder(b, c)
    ensures InOrder(a, c)
  {
    NotLessTransitive(DateKey(a), DateKey(b), DateKey(c));
  }

  /** Two texts the comparator orders strictly are in order the other way round. */
  lemma InOrderFlip(a: string, b: string)
    requires HasDay(a) && HasDay(b)
    requires Less(DateKey(b), DateKey(a))
    ensures InOrder(b, a)
  {
    LessAsymmetric(DateKey(a), DateKey(b));
  }

  /** data.sort(comparator): either every text is sorted by its key and the array holds
      the same texts, or, when a text without a day takes part in a comparison, a
      TypeError leaves the array untouched. */
  method SortDateArray(data: array<string>) returns (r: Result<array<string>, SortError>)
    modifies data
    ensures r.Err? <==> data.Length >= 2 && exists i | 0 <= i < data.Length :: !HasDay(old(data[i]))
    ensures r.Err? ==> data[..] == old(data[..]) && !HasDay(r.error.date) && r.error.date in data[..]
    ensures r.Ok? ==> r.value == data && SortedByDate(data[..])
    ensures multiset(data[..]) == multiset(old(data[..]))
  {
    if data.Length < 2 {
      return Ok(data);
    }
    var i := 0;
    while i < data.Length
      invariant 0 <= i <= data.Length
      invariant forall k | 0 <= k < i :: HasDay(data[k])
    {
      if !HasDay(data[i]) {
        return Err(MissingDay(data[i]));
      }
      i := i + 1;
    }
    InsertionSort(data);
    return Ok(data);
  }

  /** Sorts texts that all have a day, by adjacent exchanges. */
  method InsertionSort(data: array<string>)
    requires AllHaveDay(data[..])
    modifies data
    ensures SortedByDate(data[..])
    ensures multiset(data[..]) == multiset(old(data[..]))
  {
    if data.Length == 0 {
      return;
    }
    var i := 1;
    while i < data.Length
      invariant 1 <= i <= data.Length
      invariant AllHaveDay(data[..])
      invariant SortedByDate(data[..i])
      invariant multiset(data[..]) == multiset(old(data[..]))
    {
      InsertAt(data, i);
      i := i + 1;
    }
    assert data[..] == data[..data.Length];
  }

  /** Every text has a day. */
  predicate AllHaveDay(s: seq<string>) {
    forall k | 0 <= k < |s| :: HasDay(s[k])
  }

  /** The state of inserting s[i] into the sorted s[..i] while it stands at j: every pair
      not involving j is in order, everything before j is in order with everything after
      it, and s[j] is in order with everything after it. */
  predicate Inserting(s: seq<string>, j: nat, i: nat) {
    && AllHaveDay(s) && j <= i < |s|
    && (forall p, q | 0 <= p < q <= i && p != j && q != j :: InOrder(s[p], s[q]))
    && (forall p, q | 0 <= p < j < q <= i :: InOrder(s[p], s[q]))
    && (forall q | j < q <= i :: InOrder(s[j], s[q]))
  }

  /** s with the texts at j - 1 and j exchanged. */
  function Swap(s: seq<string>, j: nat): (r: seq<string>)
    requires 0 < j < |s|
    ensures multiset(r) == multiset(s)
  {
    s[j - 1 := s[j]][j := s[j - 1]]
  }

  lemma InsertingStart(s: seq<string>, i: nat)
    requires AllHaveDay(s) && i < |s| && SortedByDate(s[..i])
    ensures Inserting(s, i, i)
  {
    forall p, q | 0 <= p < q < i
      ensures InOrder(s[p], s[q])
    {
      assert s[..i][p] == s[p] && s[..i][q] == s[q];
    }
  }

  /** Exchanging s[j] with a larger s[j - 1] moves the insertion one place down. */
  lemma InsertingStep(s: seq<string>, j: nat, i: nat)
    requires Inserting(s, j, i) && 0 < j
    requires Less(DateKey(s[j]), DateKey(s[j - 1]))
    ensures Inserting(Swap(s, j), j - 1, i)
  {
    InOrderFlip(s[j - 1], s[j]);
    var t := Swap(s, j);
    forall k | 0 <= k < |t|
      ensures t[k] == (if k == j - 1 then s[j] else if k == j then s[j - 1] else s[k])
    {
    }
    assert AllHaveDay(t);
    forall p, q | 0 <= p < q <= i && p != j - 1 && q != j - 1
      ensures InOrder(t[p], t[q])
    {
    }
    forall p, q | 0 <= p < j - 1 < q <= i
      ensures InOrder(t[p], t[q])
    {
    }
  }

  /** Once s[j] is not smaller than s[j - 1], the first i + 1 texts are sorted. */
  lemma InsertingDone(s: seq<string>, j: nat, i: nat)
    requires Inserting(s, j, i)
    requires j > 0 ==> !Less(DateKey(s[j]), DateKey(s[j - 1]))
    ensures SortedByDate(s[..i + 1])
  {
    forall p | 0 <= p < j
      ensures InOrder(s[p], s[j])
    {
      if p < j - 1 {
        InOrderTransitive(s[p], s[j - 1], s[j]);
      }
    }
    var t := s[..i + 1];
    forall p, q | 0 <= p < q < |t|
      ensures HasDay(t[p]) && HasDay(t[q]) && InOrder(t[p], t[q])
    {
      assert t[p] == s[p] && t[q] == s[q];
    }
  }

  /** Moves data[i] down past every larger text before it. */
  method InsertAt(data: array<string>, i: nat)
    requires i < data.Length
    requires AllHaveDay(data[..])
    requires SortedByDate(data[..i])
    modifies data
    ensures AllHaveDay(data[..])
    ensures SortedByDate(data[..i + 1])
    ensures multiset(data[..]) == multiset(old(data[..]))
  {
    var j: nat := i;
    InsertingStart(data[..], i);
    while j > 0 && Less(DateKey(data[j]), DateKey(data[j - 1]))
      invariant Inserting(data[..], j, i)
      invariant multiset(data[..]) == multiset(old(data[..]))
    {
      ghost var s := data[..];
      InsertingStep(s, j, i);
      data[j - 1], data[j] := data[j], data[j - 1];
      assert data[..] == Swap(s, j);
      j := j - 1;
    }
    InsertingDone(data[..], j, i);
  }
}
