/**
  The value type of the interval service: closed integer ranges and the
  point-set vocabulary (coverage, ordering) that the merge and subtraction
  properties are stated in.
 */
module Intervals {

  /** A closed range `[Start, End]` of integers. Nothing forces `Start <= End`:
      an inverted interval is accepted and simply covers no point. */
  datatype Interval = Interval(Start: int, End: int)

  /** The zero value `Interval{}`, which the subtraction overloads as its
      "emptied by an exclude" marker. */
  const Empty: Interval := Interval(0, 0)

  /** The larger of two integers (the helper `max` of the service). */
  function Max(a: int, b: int): (r: int)
    ensures r >= a && r >= b
    ensures r == a || r == b
  {
    if a > b then a else b
  }

  predicate Contains(iv: Interval, p: int) {
    iv.Start <= p <= iv.End
  }

  predicate WellFormed(iv: Interval) {
    iv.Start <= iv.End
  }

  predicate AllWellFormed(xs: seq<Interval>) {
    forall iv :: iv in xs ==> WellFormed(iv)
  }

  /** The point `p` lies in some interval of `xs`. */
  predicate Covers(xs: seq<Interval>, p: int) {
    exists iv :: iv in xs && Contains(iv, p)
  }

  function Last(xs: seq<Interval>): Interval
    requires |xs| > 0
  {
    xs[|xs| - 1]
  }

  /** Starts never decrease from left to right. */
  predicate SortedByStart(xs: seq<Interval>) {
    forall i, j :: 0 <= i < j < |xs| ==> xs[i].Start <= xs[j].Start
  }

  /** Each interval ends strictly before its successor starts: the shape a
      merged list has, with `[1,5],[6,10]` allowed. */
  predicate Separated(xs: seq<Interval>) {
    forall i :: 0 < i < |xs| ==> xs[i - 1].End < xs[i].Start
  }

  /** Every interval ends strictly before every later one starts. */
  predicate Ordered(xs: seq<Interval>) {
    forall i, j :: 0 <= i < j < |xs| ==> xs[i].End < xs[j].Start
  }

  /** Every interval of `xs` lies inside the bounds `[lo, hi]`. */
  predicate Within(xs: seq<Interval>, lo: int, hi: int) {
    forall iv :: iv in xs ==> lo <= iv.Start && iv.End <= hi
  }

  lemma CoversConcat(a: seq<Interval>, b: seq<Interval>, p: int)
    ensures Covers(a + b, p) <==> Covers(a, p) || Covers(b, p)
  {
    if Covers(a + b, p) {
      var iv :| iv in a + b && Contains(iv, p);
      assert iv in a || iv in b;
    }
    if Covers(a, p) {
      var iv :| iv in a && Contains(iv, p);
      assert iv in a + b;
    }
    if Covers(b, p) {
      var iv :| iv in b && Contains(iv, p);
      assert iv in a + b;
    }
  }

  lemma CoversCons(xs: seq<Interval>, p: int)
    requires |xs| > 0
    ensures Covers(xs, p) <==> Contains(xs[0], p) || Covers(xs[1..], p)
  {
    assert xs == [xs[0]] + xs[1..];
    CoversConcat([xs[0]], xs[1..], p);
  }

  /** What each list shape says about the list without its first element. */
  lemma Tail(xs: seq<Interval>)
    requires |xs| > 0
    ensures AllWellFormed(xs) ==> WellFormed(xs[0]) && AllWellFormed(xs[1..])
    ensures SortedByStart(xs) ==> SortedByStart(xs[1..])
    ensures SortedByStart(xs) ==> forall iv :: iv in xs[1..] ==> xs[0].Start <= iv.Start
    ensures Separated(xs) ==> Separated(xs[1..])
    ensures Separated(xs) && |xs| > 1 ==> xs[0].End < xs[1].Start
    ensures Ordered(xs) ==> Ordered(xs[1..])
    ensures Ordered(xs) ==> forall iv :: iv in xs[1..] ==> xs[0].End < iv.Start
  {
    var t := xs[1..];
    assert forall i :: 0 <= i < |t| ==> t[i] == xs[i + 1];
    if AllWellFormed(xs) {
      assert xs[0] in xs;
      forall iv | iv in t ensures WellFormed(iv) {
        assert iv in xs;
      }
    }
    if Separated(xs) {
      forall i | 0 < i < |t| ensures t[i - 1].End < t[i].Start {
        assert t[i - 1] == xs[i];
      }
    }
  }

  /** A well-formed separated list is ordered pairwise, so its starts are
      strictly increasing. */
  lemma {:induction false} SeparatedIsOrdered(xs: seq<Interval>)
    requires AllWellFormed(xs) && Separated(xs)
    ensures Ordered(xs)
    ensures SortedByStart(xs)
  {
    if |xs| >= 2 {
      var t := xs[1..];
      Tail(xs);
      SeparatedIsOrdered(t);
      forall i, j | 0 <= i < j < |xs| ensures xs[i].End < xs[j].Start {
        if i > 0 {
          assert xs[i] == t[i - 1] && xs[j] == t[j - 1];
        } else if j > 1 {
          assert xs[1] == t[0] && xs[j] == t[j - 1];
        }
      }
      forall i, j | 0 <= i < j < |xs| ensures xs[i].Start <= xs[j].Start {
        assert xs[i] in xs;
      }
    }
  }

  lemma SeparatedConcat(a: seq<Interval>, b: seq<Interval>)
    requires Separated(a) && Separated(b)
    requires |a| > 0 && |b| > 0 ==> Last(a).End < b[0].Start
    ensures Separated(a + b)
  {
    var s := a + b;
    forall i | 0 < i < |s| ensures s[i - 1].End < s[i].Start {
      if i < |a| {
        assert s[i - 1] == a[i - 1] && s[i] == a[i];
      } else if i == |a| {
        assert s[i - 1] == Last(a) && s[i] == b[0];
      } else {
        assert s[i - 1] == b[i - 1 - |a|] && s[i] == b[i - |a|];
      }
    }
  }

  lemma WithinConcat(a: seq<Interval>, b: seq<Interval>, lo: int, hi: int)
    requires Within(a, lo, hi) && Within(b, lo, hi)
    ensures Within(a + b, lo, hi)
  {
    forall iv | iv in a + b ensures lo <= iv.Start && iv.End <= hi {
      assert iv in a || iv in b;
    }
  }

  /** In an ordered list a point lies in at most one interval. */
  lemma OrderedCoversOnce(xs: seq<Interval>, p: int, i: int, j: int)
    requires Ordered(xs)
    requires 0 <= i < |xs| && 0 <= j < |xs|
    requires Contains(xs[i], p) && Contains(xs[j], p)
    ensures i == j
  {
  }
}
