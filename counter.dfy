/**
 * The frequency counter of the statistics script: a dictionary from names to
 * the number of times each was added, and a query for the most frequent ones.
 *
 * The dictionary is a plain JavaScript object, so the model keeps, besides
 * the counts, the order in which keys were first added (the order a for-in
 * loop visits non-index keys).  The ghost history of added names is what the
 * counts are proved against.
 */
module Counters {

  /* ---- what a history of add calls leaves ------------------------------------ */

  /** The number of times each name occurs in the history; names never added are absent. */
  ghost function Tally(h: seq<string>): map<string, nat> {
    map n | n in h :: multiset(h)[n]
  }

  /** The distinct names among the first n of the history, in order of first occurrence. */
  function FirstOccurrences(h: seq<string>, n: nat): seq<string>
    requires n <= |h|
  {
    if n == 0 then []
    else
      var ks := FirstOccurrences(h, n - 1);
      if h[n - 1] in ks then ks else ks + [h[n - 1]]
  }

  /** The distinct names of the history, in order of first occurrence. */
  function KeyOrder(h: seq<string>): seq<string> {
    FirstOccurrences(h, |h|)
  }

  /** The first occurrences among the first n names: each name once, and every name of
      the first n. */
  lemma {:induction false} FirstOccurrencesFacts(h: seq<string>, n: nat)
    requires n <= |h|
    ensures forall i, j | 0 <= i < j < |FirstOccurrences(h, n)| ::
      FirstOccurrences(h, n)[i] != FirstOccurrences(h, n)[j]
    ensures forall m :: m in FirstOccurrences(h, n) <==> m in h[..n]
  {
    if n > 0 {
      FirstOccurrencesFacts(h, n - 1);
      assert h[..n] == h[..n - 1] + [h[n - 1]];
    }
  }

  /** The key order lists every added name, once. */
  lemma KeyOrderFacts(h: seq<string>)
    ensures forall i, j | 0 <= i < j < |KeyOrder(h)| :: KeyOrder(h)[i] != KeyOrder(h)[j]
    ensures forall m :: m in KeyOrder(h) <==> m in h
  {
    FirstOccurrencesFacts(h, |h|);
    assert h[..|h|] == h;
  }

  /** Later additions do not disturb the order of the earlier ones. */
  lemma {:induction false} FirstOccurrencesPrefix(h: seq<string>, t: seq<string>, n: nat)
    requires n <= |h|
    ensures FirstOccurrences(h + t, n) == FirstOccurrences(h, n)
  {
    if n > 0 {
      FirstOccurrencesPrefix(h, t, n - 1);
      assert (h + t)[n - 1] == h[n - 1];
    }
  }

  /** The sum of the counts of the keys ks. */
  function SumCounts(ks: seq<string>, t: map<string, nat>): nat
    requires forall k | k in ks :: k in t
  {
    if ks == [] then 0 else SumCounts(ks[..|ks| - 1], t) + t[ks[|ks| - 1]]
  }

  /** One more occurrence of n: its count goes up by one, or it appears with count 1. */
  lemma TallyAppend(h: seq<string>, n: string)
    ensures n in Tally(h) ==> Tally(h + [n]) == Tally(h)[n := Tally(h)[n] + 1]
    ensures n !in Tally(h) ==> Tally(h + [n]) == Tally(h)[n := 1]
  {
    var h' := h + [n];
    var t, t' := Tally(h), Tally(h');
    var u := t[n := if n in t then t[n] + 1 else 1];
    assert multiset(h') == multiset(h) + multiset{n};
    assert t'.Keys == u.Keys by {
      assert forall m :: m in h' <==> m in h || m == n;
    }
    forall m | m in t'
      ensures t'[m] == u[m]
    {
    }
  }

  /** One more occurrence of n: n joins the key order unless it is there already. */
  lemma KeyOrderAppend(h: seq<string>, n: string)
    ensures KeyOrder(h + [n]) == if n in h then KeyOrder(h) else KeyOrder(h) + [n]
  {
    FirstOccurrencesPrefix(h, [n], |h|);
    KeyOrderFacts(h);
    assert (h + [n])[|h|] == n;
  }

  /** The key order lists exactly the keys of the tally, once each. */
  lemma KeysOfTally(h: seq<string>)
    ensures forall k :: k in KeyOrder(h) <==> k in Tally(h)
    ensures |KeyOrder(h)| == |Tally(h)|
  {
    var ks := KeyOrder(h);
    KeyOrderFacts(h);
    DistinctKeysCount(ks);
    assert (set k | k in ks) == Tally(h).Keys;
  }

  /** Raising the count of a key that occurs once in ks raises the sum by one. */
  lemma {:induction false} SumBump(ks: seq<string>, t: map<string, nat>, n: string)
    requires forall k | k in ks :: k in t
    requires forall i, j | 0 <= i < j < |ks| :: ks[i] != ks[j]
    requires n in ks
    ensures SumCounts(ks, t[n := t[n] + 1]) == SumCounts(ks, t) + 1
  {
    var init := ks[..|ks| - 1];
    if ks[|ks| - 1] == n {
      assert n !in init;
      SumUnaffected(init, t, n, t[n] + 1);
    } else {
      assert n in init by {
        assert ks == init + [ks[|ks| - 1]];
      }
      SumBump(init, t, n);
    }
  }

  /** Changing the count of a key not in ks leaves their sum alone. */
  lemma {:induction false} SumUnaffected(ks: seq<string>, t: map<string, nat>, n: string, v: nat)
    requires forall k | k in ks :: k in t
    requires n !in ks
    ensures SumCounts(ks, t[n := v]) == SumCounts(ks, t)
  {
    if ks != [] {
      var init := ks[..|ks| - 1];
      assert n !in init;
      SumUnaffected(init, t, n, v);
    }
  }

  /** The counts add up to the number of add calls. */
  lemma {:induction false} TallyTotal(h: seq<string>)
    ensures forall k | k in KeyOrder(h) :: k in Tally(h)
    ensures SumCounts(KeyOrder(h), Tally(h)) == |h|
  {
    KeyOrderFacts(h);
    if h != [] {
      var init := h[..|h| - 1];
      var n := h[|h| - 1];
      assert h == init + [n];
      TallyTotal(init);
      TallyAppend(init, n);
      KeyOrderAppend(init, n);
      KeyOrderFacts(init);
      var ks := KeyOrder(init);
      if n in init {
        SumBump(ks, Tally(init), n);
      } else {
        SumUnaffected(ks, Tally(init), n, 1);
        assert (ks + [n])[..|ks|] == ks;
      }
    }
  }

  /** Every added name is a key whose count is the number of times it was added. */
  lemma TallyCounts(h: seq<string>, n: string)
    ensures n in Tally(h) <==> n in KeyOrder(h)
    ensures n in Tally(h) <==> multiset(h)[n] > 0
    ensures n in Tally(h) ==> Tally(h)[n] == multiset(h)[n] >= 1
  {
    KeyOrderFacts(h);
  }

  /** Distinct keys: as many as the dictionary has entries. */
  lemma {:induction false} DistinctKeysCount(ks: seq<string>)
    requires forall i, j | 0 <= i < j < |ks| :: ks[i] != ks[j]
    ensures |set k | k in ks| == |ks|
  {
    if ks != [] {
      var init := ks[..|ks| - 1];
      var last := ks[|ks| - 1];
      DistinctKeysCount(init);
      assert (set k | k in ks) == (set k | k in init) + {last} by {
        assert ks == init + [last];
      }
    }
  }

  /* ---- the order of topX ---------------------------------------------------------- */

  /** Counts never increase along the list. */
  predicate ByCountDescending(ps: seq<(string, nat)>) {
    forall i, j | 0 <= i < j < |ps| :: ps[i].1 >= ps[j].1
  }

  /** p placed after every pair whose count is at least its own. */
  function Insert(p: (string, nat), s: seq<(string, nat)>): (r: seq<(string, nat)>)
    ensures |r| == |s| + 1
  {
    if s == [] then [p]
    else if s[0].1 < p.1 then [p] + s
    else [s[0]] + Insert(p, s[1..])
  }

  /** Inserting adds p and loses nothing. */
  lemma {:induction false} InsertPermutes(p: (string, nat), s: seq<(string, nat)>)
    ensures multiset(Insert(p, s)) == multiset(s) + multiset{p}
  {
    if s != [] && s[0].1 >= p.1 {
      InsertPermutes(p, s[1..]);
      assert s == [s[0]] + s[1..];
    }
  }

  /** Inserting into a list ordered by count keeps it ordered. */
  lemma {:induction false} InsertSorted(p: (string, nat), s: seq<(string, nat)>)
    requires ByCountDescending(s)
    ensures ByCountDescending(Insert(p, s))
    ensures Insert(p, s)[0] == p || (s != [] && Insert(p, s)[0] == s[0])
  {
    if s != [] && s[0].1 >= p.1 {
      var rest := Insert(p, s[1..]);
      InsertSorted(p, s[1..]);
      var r := [s[0]] + rest;
      assert rest[0].1 <= s[0].1 by {
        if rest[0] != p {
          assert rest[0] == s[1];
        }
      }
      forall i, j | 0 <= i < j < |r|
        ensures r[i].1 >= r[j].1
      {
        assert r[j] == rest[j - 1];
        if i > 0 {
          assert r[i] == rest[i - 1];
        }
      }
    }
  }

  /** The array sort of topX with the comparator b[1] - a[1]: a stable sort by count,
      largest first, as insertion of each pair in turn. */
  function SortByCount(ps: seq<(string, nat)>): (r: seq<(string, nat)>)
    ensures |r| == |ps|
  {
    if ps == [] then [] else Insert(ps[|ps| - 1], SortByCount(ps[..|ps| - 1]))
  }

  /** The sort orders by count, largest first, and is a permutation. */
  lemma {:induction false} SortByCountFacts(ps: seq<(string, nat)>)
    ensures multiset(SortByCount(ps)) == multiset(ps)
    ensures ByCountDescending(SortByCount(ps))
  {
    if ps != [] {
      var init, last := ps[..|ps| - 1], ps[|ps| - 1];
      SortByCountFacts(init);
      InsertPermutes(last, SortByCount(init));
      InsertSorted(last, SortByCount(init));
      assert ps == init + [last];
    }
  }

  /** Where slice(0, x) stops on a list of n elements: a negative x counts from the end. */
  function SliceEnd(x: int, n: nat): (e: nat)
    ensures e <= n
  {
    if x < 0 then (if n + x < 0 then 0 else n + x)
    else if x < n then x
    else n
  }

  /** Some pair of ps is about key k. */
  predicate Listed(ps: seq<(string, nat)>, k: string) {
    exists j | 0 <= j < |ps| :: ps[j].0 == k
  }

  /* ---- the counter ------------------------------------------------------------------- */

  class Counter {
    var data: map<string, nat>
    var keys: seq<string>
    ghost var added: seq<string>

    ghost predicate Valid()
      reads this
    {
      data == Tally(added) && keys == KeyOrder(added)
    }

    constructor ()
      ensures Valid()
      ensures data == map[] && keys == [] && added == []
    {
      data := map[];
      keys := [];
      added := [];
    }

    /** add(name): a name whose count is missing (or zero) gets count 1, any other has
        its count raised by one. */
    method Add(name: string)
      requires Valid()
      modifies this
      ensures Valid()
      ensures added == old(added) + [name]
      ensures name in old(data) ==> data == old(data)[name := old(data)[name] + 1] && keys == old(keys)
      ensures name !in old(data) ==> data == old(data)[name := 1] && keys == old(keys) + [name]
    {
      TallyAppend(added, name);
      KeyOrderAppend(added, name);
      if name !in data || data[name] == 0 {
        data := data[name := 1];
        keys := keys + [name];
        added := added + [name];
        return;
      }
      data := data[name := data[name] + 1];
      added := added + [name];
    }

    /** topX(x): the pairs (key, count) ordered by count, largest first, cut to the
        first x (a negative x drops that many from the end). */
    method TopX(x: int) returns (top: seq<(string, nat)>)
      requires Valid()
      ensures |top| == SliceEnd(x, |data|)
      ensures forall i | 0 <= i < |top| :: top[i].0 in data && top[i].1 == data[top[i].0]
      ensures ByCountDescending(top)
      ensures forall k, i | k in data && !Listed(top, k) && 0 <= i < |top| :: data[k] <= top[i].1
      ensures x >= |data| ==> forall k | k in data :: Listed(top, k)
      ensures forall i, j | 0 <= i < j < |top| :: top[i].0 != top[j].0
    {
      KeysOfTally(added);
      KeyOrderFacts(added);
      var sortable: seq<(string, nat)> := [];
      for i := 0 to |keys|
        invariant |sortable| == i
        invariant forall j | 0 <= j < i :: sortable[j] == (keys[j], data[keys[j]])
      {
        sortable := sortable + [(keys[i], data[keys[i]])];
      }
      var sorted := SortByCount(sortable);
      SortByCountFacts(sortable);
      top := sorted[..SliceEnd(x, |sorted|)];
      TopFacts(data, keys, sortable, sorted, x, top);
    }
  }

  /** Every pair of a permutation of the listed pairs is a key with its count, and every
      key has its pair there. */
  lemma SortedPairs(data: map<string, nat>, keys: seq<string>, sortable: seq<(string, nat)>,
                    sorted: seq<(string, nat)>)
    requires forall k :: k in keys <==> k in data
    requires |sortable| == |keys|
    requires forall j | 0 <= j < |keys| :: sortable[j] == (keys[j], data[keys[j]])
    requires multiset(sorted) == multiset(sortable)
    ensures |sorted| == |keys|
    ensures forall m | 0 <= m < |sorted| :: sorted[m].0 in data && sorted[m].1 == data[sorted[m].0]
    ensures forall k | k in data :: exists m | 0 <= m < |sorted| :: sorted[m] == (k, data[k])
  {
    assert |sorted| == |sortable| by {
      assert |multiset(sorted)| == |multiset(sortable)|;
    }
    forall m | 0 <= m < |sorted|
      ensures sorted[m].0 in data && sorted[m].1 == data[sorted[m].0]
    {
      assert sorted[m] in multiset(sortable);
      var j :| 0 <= j < |sortable| && sortable[j] == sorted[m];
    }
    forall k | k in data
      ensures exists m | 0 <= m < |sorted| :: sorted[m] == (k, data[k])
    {
      var j :| 0 <= j < |keys| && keys[j] == k;
      assert sortable[j] in multiset(sorted);
    }
  }

  /** What topX's result inherits from the sorted list of all pairs. */
  lemma TopFacts(data: map<string, nat>, keys: seq<string>, sortable: seq<(string, nat)>,
                 sorted: seq<(string, nat)>, x: int, top: seq<(string, nat)>)
    requires forall k :: k in keys <==> k in data
    requires |keys| == |data|
    requires |sortable| == |keys|
    requires forall j | 0 <= j < |keys| :: sortable[j] == (keys[j], data[keys[j]])
    requires multiset(sorted) == multiset(sortable) && ByCountDescending(sorted)
    requires top == sorted[..SliceEnd(x, |sorted|)]
    requires forall i, j | 0 <= i < j < |keys| :: keys[i] != keys[j]
    ensures |top| == SliceEnd(x, |data|)
    ensures forall i | 0 <= i < |top| :: top[i].0 in data && top[i].1 == data[top[i].0]
    ensures ByCountDescending(top)
    ensures forall k, i | k in data && !Listed(top, k) && 0 <= i < |top| :: data[k] <= top[i].1
    ensures x >= |data| ==> forall k | k in data :: Listed(top, k)
    ensures forall i, j | 0 <= i < j < |top| :: top[i].0 != top[j].0
  {
    SortedPairs(data, keys, sortable, sorted);
    SortedKeysDistinct(data, keys, sortable, sorted);
    forall i | 0 <= i < |top|
      ensures top[i] == sorted[i]
    {
    }
    TopAboveRest(data, sorted, top);
  }

  /** A permutation of pairs with distinct keys, each a key with its count, names every
      key once. */
  lemma SortedKeysDistinct(data: map<string, nat>, keys: seq<string>, sortable: seq<(string, nat)>,
                           sorted: seq<(string, nat)>)
    requires forall k | k in keys :: k in data
    requires |sortable| == |keys|
    requires forall j | 0 <= j < |keys| :: sortable[j] == (keys[j], data[keys[j]])
    requires forall i, j | 0 <= i < j < |keys| :: keys[i] != keys[j]
    requires multiset(sorted) == multiset(sortable)
    requires forall m | 0 <= m < |sorted| :: sorted[m].0 in data && sorted[m].1 == data[sorted[m].0]
    ensures forall i, j | 0 <= i < j < |sorted| :: sorted[i].0 != sorted[j].0
  {
    forall i, j | 0 <= i < j < |sortable|
      ensures sortable[i] != sortable[j]
    {
      assert sortable[i].0 == keys[i] && sortable[j].0 == keys[j];
    }
    forall i, j | 0 <= i < j < |sorted|
      ensures sorted[i].0 != sorted[j].0
    {
      if sorted[i].0 == sorted[j].0 {
        TwiceCounted(sorted, i, j);
        OnceCounted(sortable, sorted[i]);
      }
    }
  }

  /** An element at two positions occurs at least twice in the multiset. */
  lemma TwiceCounted<T>(s: seq<T>, i: nat, j: nat)
    requires 0 <= i < j < |s| && s[i] == s[j]
    ensures multiset(s)[s[i]] >= 2
  {
    var a, b := s[..j], s[j..];
    assert s == a + b;
    assert s[i] == a[i] && s[j] == b[0];
    assert multiset(s) == multiset(a) + multiset(b);
  }

  /** In a sequence without repetitions every element occurs at most once. */
  lemma {:induction false} OnceCounted<T>(s: seq<T>, x: T)
    requires forall i, j | 0 <= i < j < |s| :: s[i] != s[j]
    ensures multiset(s)[x] <= 1
    decreases |s|
  {
    if s != [] {
      var init, last := s[..|s| - 1], s[|s| - 1];
      assert s == init + [last];
      OnceCounted(init, x);
      if x == last {
        assert x !in init by {
          forall m | 0 <= m < |init|
            ensures init[m] != x
          {
            assert init[m] == s[m];
          }
        }
      }
    }
  }

  /** A key left out of a prefix of the sorted pairs has a count no larger than any
      count in the prefix; a prefix that is the whole list leaves no key out. */
  lemma TopAboveRest(data: map<string, nat>, sorted: seq<(string, nat)>, top: seq<(string, nat)>)
    requires ByCountDescending(sorted)
    requires forall k | k in data :: exists m | 0 <= m < |sorted| :: sorted[m] == (k, data[k])
    requires |top| <= |sorted| && forall i | 0 <= i < |top| :: top[i] == sorted[i]
    ensures forall k, i | k in data && !Listed(top, k) && 0 <= i < |top| :: data[k] <= top[i].1
    ensures |top| == |sorted| ==> forall k | k in data :: Listed(top, k)
  {
    forall k, i | k in data && 0 <= i < |top|
      ensures Listed(top, k) || data[k] <= top[i].1
    {
      var m :| 0 <= m < |sorted| && sorted[m] == (k, data[k]);
      if m < |top| {
        assert top[m].0 == k;
      }
    }
    if |top| == |sorted| {
      forall k | k in data
        ensures Listed(top, k)
      {
        var m :| 0 <= m < |sorted| && sorted[m] == (k, data[k]);
        assert top[m].0 == k;
      }
    }
  }
}
