/**
  Ordering a list of intervals by `Start`, the first step of the merge.
  The service calls an unstable library sort; `SortByStart` is one concrete
  sort, and `IsSortOf` names every admissible outcome so that properties can
  be stated for all of them.
 */
module Sorting {
  import opened Intervals

  /** `ys` is an arrangement of `xs` with non-decreasing starts: any result an
      unstable sort by `Start` may return. */
  predicate IsSortOf(ys: seq<Interval>, xs: seq<Interval>) {
    SortedByStart(ys) && multiset(ys) == multiset(xs)
  }

  /** Putting an interval that starts no later than a sorted list's head in
      front of it keeps the list sorted. */
  lemma ConsSorted(x: Interval, t: seq<Interval>)
    requires SortedByStart(t)
    requires |t| > 0 ==> x.Start <= t[0].Start
    ensures SortedByStart([x] + t)
  {
    var r := [x] + t;
    forall i, j | 0 <= i < j < |r| ensures r[i].Start <= r[j].Start {
      if i == 0 {
        assert r[j] == t[j - 1];
        assert t[0].Start <= t[j - 1].Start;
      } else {
        assert r[i] == t[i - 1] && r[j] == t[j - 1];
      }
    }
  }

  /** Insertion of one interval before the first one starting no earlier. */
  function Insert(x: Interval, s: seq<Interval>): (r: seq<Interval>)
    ensures |r| == |s| + 1
    ensures x in r
  {
    if s == [] || x.Start <= s[0].Start then [x] + s
    else [s[0]] + Insert(x, s[1..])
  }

  /** Insertion adds exactly the new interval. */
  lemma {:induction false} InsertPermutes(x: Interval, s: seq<Interval>)
    ensures multiset(Insert(x, s)) == multiset(s) + multiset{x}
    ensures |Insert(x, s)| == |s| + 1
  {
    if s != [] && x.Start > s[0].Start {
      InsertPermutes(x, s[1..]);
      assert s == [s[0]] + s[1..];
      assert multiset(s) == multiset{s[0]} + multiset(s[1..]);
      assert multiset([s[0]] + Insert(x, s[1..])) == multiset{s[0]} + multiset(Insert(x, s[1..]));
    }
  }

  /** Inserting into a sorted list keeps it sorted. */
  lemma {:induction false} InsertSorted(x: Interval, s: seq<Interval>)
    requires SortedByStart(s)
    ensures SortedByStart(Insert(x, s))
    ensures |Insert(x, s)| > 0
    ensures Insert(x, s)[0] == x || (|s| > 0 && Insert(x, s)[0] == s[0])
  {
    if s == [] || x.Start <= s[0].Start {
      ConsSorted(x, s);
    } else {
      Tail(s);
      InsertSorted(x, s[1..]);
      ConsSorted(s[0], Insert(x, s[1..]));
    }
  }

  /** The model of the library sort: an insertion sort by `Start`. */
  function SortByStart(xs: seq<Interval>): (r: seq<Interval>)
    ensures IsSortOf(r, xs)
    ensures |r| == |xs|
  {
    if xs == [] then []
    else
      var t := SortByStart(xs[1..]);
      InsertPermutes(xs[0], t);
      InsertSorted(xs[0], t);
      assert xs == [xs[0]] + xs[1..];
      assert multiset(xs) == multiset{xs[0]} + multiset(xs[1..]);
      Insert(xs[0], t)
  }

  /** The sort inserts the head into the sorted tail. */
  lemma SortByStartCons(xs: seq<Interval>)
    requires |xs| > 0
    ensures SortByStart(xs) == Insert(xs[0], SortByStart(xs[1..]))
  {
  }

  /** Sorting a list already in `Start` order leaves it unchanged. */
  lemma {:induction false} SortOfSortedIsIdentity(xs: seq<Interval>)
    requires SortedByStart(xs)
    ensures SortByStart(xs) == xs
  {
    if xs != [] {
      var t := xs[1..];
      assert SortedByStart(t) && (|t| > 0 ==> xs[0].Start <= t[0].Start) by {
        Tail(xs);
        if |t| > 0 {
          assert t[0] in t;
        }
      }
      SortOfSortedIsIdentity(t);
      assert SortByStart(xs) == Insert(xs[0], t);
      assert xs == [xs[0]] + t;
    }
  }

  /** Removing the element at `k` takes exactly that element out of the
      multiset. */
  lemma RemovePermutes(s: seq<Interval>, k: int)
    requires 0 <= k < |s|
    ensures multiset(s[..k] + s[k + 1..]) + multiset{s[k]} == multiset(s)
  {
    assert s == s[..k] + [s[k]] + s[k + 1..];
  }

  lemma ConsPermutes(xs: seq<Interval>)
    requires |xs| > 0
    ensures multiset(xs[1..]) + multiset{xs[0]} == multiset(xs)
  {
    assert xs == [xs[0]] + xs[1..];
  }

  /** Starts strictly increase from left to right. */
  predicate StrictlyByStart(xs: seq<Interval>) {
    forall i, j :: 0 <= i < j < |xs| ==> xs[i].Start < xs[j].Start
  }

  /** A well-formed, pairwise-ordered list has strictly increasing starts. */
  lemma OrderedIsStrictlyByStart(xs: seq<Interval>)
    requires Ordered(xs) && AllWellFormed(xs)
    ensures StrictlyByStart(xs)
  {
    forall i, j | 0 <= i < j < |xs| ensures xs[i].Start < xs[j].Start {
      assert WellFormed(xs[i]) by { assert xs[i] in xs; }
    }
  }

  /** A list with strictly increasing starts has exactly one sorted
      arrangement, whichever way a sort breaks ties. Inverted intervals are
      allowed. */
  lemma {:induction false} SortOfStrictlySortedIsUnique(xs: seq<Interval>, ys: seq<Interval>)
    requires StrictlyByStart(xs)
    requires IsSortOf(ys, xs)
    ensures ys == xs
  {
    if xs != [] {
      SameHead(xs, ys);
      DropHeads(xs, ys);
      SortOfStrictlySortedIsUnique(xs[1..], ys[1..]);
      assert xs == [xs[0]] + xs[1..] && ys == [ys[0]] + ys[1..];
    }
  }

  /** Dropping equal heads keeps the starts strictly increasing and the
      arrangement a sort of the rest. */
  lemma DropHeads(xs: seq<Interval>, ys: seq<Interval>)
    requires |xs| > 0 && |ys| > 0 && ys[0] == xs[0]
    requires StrictlyByStart(xs) && IsSortOf(ys, xs)
    ensures StrictlyByStart(xs[1..]) && IsSortOf(ys[1..], xs[1..])
  {
    var xt, yt := xs[1..], ys[1..];
    assert multiset(yt) == multiset(xt) by {
      ConsPermutes(xs);
      ConsPermutes(ys);
      forall x ensures multiset(yt)[x] == multiset(xt)[x] {
        assert (multiset(yt) + multiset{xs[0]})[x] == (multiset(xt) + multiset{xs[0]})[x];
      }
    }
    forall i, j | 0 <= i < j < |xt| ensures xt[i].Start < xt[j].Start {
      assert xt[i] == xs[i + 1] && xt[j] == xs[j + 1];
    }
    Tail(ys);
  }

  /** In a sorted arrangement of a list with strictly increasing starts, the
      first element is the list's first element. */
  lemma SameHead(xs: seq<Interval>, ys: seq<Interval>)
    requires |xs| > 0
    requires StrictlyByStart(xs)
    requires IsSortOf(ys, xs)
    ensures |ys| > 0 && ys[0] == xs[0]
  {
    assert xs[0] in multiset(ys);
    var m :| 0 <= m < |ys| && ys[m] == xs[0];
    assert ys[0] in multiset(xs);
    var k :| 0 <= k < |xs| && xs[k] == ys[0];
    assert k == 0 by {
      assert ys[0].Start <= ys[m].Start;
    }
  }
}
