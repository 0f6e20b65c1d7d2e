/**
  The merger of the service: sort the intervals by `Start`, then fold them
  left to right, starting a new segment when the last one ends strictly
  before the next interval starts, and otherwise stretching the last
  segment's end.
 */
module Merging {
  import opened Intervals
  import opened Sorting

  /** One iteration of the merge loop. */
  function MergeStep(acc: seq<Interval>, iv: Interval): (r: seq<Interval>)
    ensures |r| == |acc| || |r| == |acc| + 1
    ensures |r| > 0
  {
    if |acc| == 0 || Last(acc).End < iv.Start then
      acc + [iv]
    else
      acc[..|acc| - 1] + [Interval(Last(acc).Start, Max(Last(acc).End, iv.End))]
  }

  /** The merge loop over `ys`, continuing from the segments `acc`. Segments
      are only ever appended or the last one rewritten, so none disappear
      and at most one is added per interval read. */
  function MergeFold(acc: seq<Interval>, ys: seq<Interval>): (r: seq<Interval>)
    ensures |acc| <= |r| <= |acc| + |ys|
    decreases |ys|
  {
    if ys == [] then acc else MergeFold(MergeStep(acc, ys[0]), ys[1..])
  }

  /** The fold never lets a segment touch its successor, never produces more
      segments than it read, and produces one as soon as it read one. */
  lemma {:induction false} MergeFoldSeparated(acc: seq<Interval>, ys: seq<Interval>)
    requires Separated(acc)
    ensures Separated(MergeFold(acc, ys))
    ensures |MergeFold(acc, ys)| <= |acc| + |ys|
    ensures |acc| + |ys| > 0 ==> |MergeFold(acc, ys)| > 0
    decreases |ys|
  {
    if ys != [] {
      var next := MergeStep(acc, ys[0]);
      assert Separated(next) by {
        if |acc| > 0 && Last(acc).End >= ys[0].Start {
          var front := acc[..|acc| - 1];
          forall i | 0 < i < |next| ensures next[i - 1].End < next[i].Start {
            assert next[i - 1] == acc[i - 1];
            assert next[i].Start == acc[i].Start;
          }
        }
      }
      MergeFoldSeparated(next, ys[1..]);
    }
  }

  /** The merge loop started from no segments, over an already sorted list. */
  function MergeSorted(ys: seq<Interval>): (r: seq<Interval>)
    ensures Separated(r)
    ensures |r| <= |ys|
    ensures |r| == 0 <==> |ys| == 0
  {
    MergeFoldSeparated([], ys);
    MergeFold([], ys)
  }

  /** `mergeIntervals`: sort by start, then fold. */
  function Merge(xs: seq<Interval>): (r: seq<Interval>)
    ensures Separated(r)
    ensures |r| <= |xs|
    ensures |r| == 0 <==> |xs| == 0
  {
    MergeSorted(SortByStart(xs))
  }

  /** `Merge` is the fold over whatever the sort returns. */
  lemma MergeThroughSort(xs: seq<Interval>, ys: seq<Interval>)
    requires SortByStart(xs) == ys
    ensures Merge(xs) == MergeSorted(ys)
  {
  }

  /** The fold keeps the segments sorted by start when it reads a sorted list. */
  lemma {:induction false} MergeFoldSorted(acc: seq<Interval>, ys: seq<Interval>)
    requires SortedByStart(acc) && SortedByStart(ys)
    requires |acc| > 0 && |ys| > 0 ==> Last(acc).Start <= ys[0].Start
    ensures SortedByStart(MergeFold(acc, ys))
    decreases |ys|
  {
    if ys != [] {
      var next := MergeStep(acc, ys[0]);
      assert SortedByStart(next) by {
        if |acc| > 0 {
          assert forall i :: 0 <= i < |acc| ==> acc[i].Start <= Last(acc).Start;
        }
      }
      var t := ys[1..];
      Tail(ys);
      if |t| > 0 {
        assert t[0] in t;
      }
      MergeFoldSorted(next, t);
    }
  }

  /** Well-formed segments and inputs give well-formed segments. */
  lemma {:induction false} MergeFoldWellFormed(acc: seq<Interval>, ys: seq<Interval>)
    requires AllWellFormed(acc) && AllWellFormed(ys)
    ensures AllWellFormed(MergeFold(acc, ys))
    decreases |ys|
  {
    if ys != [] {
      Tail(ys);
      var next := MergeStep(acc, ys[0]);
      assert AllWellFormed(next) by {
        if |acc| > 0 {
          assert Last(acc) in acc;
          forall iv | iv in acc[..|acc| - 1] ensures WellFormed(iv) {
            assert iv in acc;
          }
        }
      }
      MergeFoldWellFormed(next, ys[1..]);
    }
  }

  /** One step covers exactly the points of the old segments and the new
      interval, as long as the new interval does not start before the last
      segment does. */
  lemma MergeStepCovers(acc: seq<Interval>, iv: Interval, p: int)
    requires |acc| > 0 ==> Last(acc).Start <= iv.Start
    ensures Covers(MergeStep(acc, iv), p) <==> Covers(acc, p) || Contains(iv, p)
  {
    if |acc| == 0 || Last(acc).End < iv.Start {
      CoversConcat(acc, [iv], p);
    } else {
      var front := acc[..|acc| - 1];
      var last := Last(acc);
      var grown := Interval(last.Start, Max(last.End, iv.End));
      assert acc == front + [last];
      assert MergeStep(acc, iv) == front + [grown];
      assert Contains(grown, p) <==> Contains(last, p) || Contains(iv, p);
      CoversConcat(front, [last], p);
      CoversConcat(front, [grown], p);
      CoversConcat([], [last], p);
      CoversConcat([], [grown], p);
      assert Covers([last], p) <==> Contains(last, p) by { assert last in [last]; }
      assert Covers([grown], p) <==> Contains(grown, p) by { assert grown in [grown]; }
    }
  }

  /** The fold over a sorted list covers exactly the points of the segments
      it started from and of the list. */
  lemma {:induction false} MergeFoldCovers(acc: seq<Interval>, ys: seq<Interval>, p: int)
    requires SortedByStart(ys)
    requires |acc| > 0 && |ys| > 0 ==> Last(acc).Start <= ys[0].Start
    ensures Covers(MergeFold(acc, ys), p) <==> Covers(acc, p) || Covers(ys, p)
    decreases |ys|
  {
    if ys != [] {
      var next := MergeStep(acc, ys[0]);
      MergeStepCovers(acc, ys[0], p);
      CoversCons(ys, p);
      var t := ys[1..];
      Tail(ys);
      if |t| > 0 {
        assert t[0] in t;
      }
      MergeFoldCovers(next, t, p);
    }
  }

  /** For every admissible outcome of the sort, the merged list covers
      exactly the points the input covers. Inverted intervals cover nothing
      and are harmless here. */
  lemma MergeSortedCovers(xs: seq<Interval>, ys: seq<Interval>, p: int)
    requires IsSortOf(ys, xs)
    ensures Covers(MergeSorted(ys), p) <==> Covers(xs, p)
  {
    MergeFoldCovers([], ys, p);
    if Covers(xs, p) {
      var iv :| iv in xs && Contains(iv, p);
      assert iv in multiset(ys);
    }
    if Covers(ys, p) {
      var iv :| iv in ys && Contains(iv, p);
      assert iv in multiset(xs);
    }
  }

  /** `mergeIntervals` preserves the covered points. */
  lemma MergeCovers(xs: seq<Interval>, p: int)
    ensures Covers(Merge(xs), p) <==> Covers(xs, p)
  {
    MergeSortedCovers(xs, SortByStart(xs), p);
  }

  /** The merged list is sorted by start, for every input. */
  lemma MergeSortedByStart(xs: seq<Interval>)
    ensures SortedByStart(Merge(xs))
  {
    MergeFoldSorted([], SortByStart(xs));
  }

  /** On well-formed input the merged list is well-formed and pairwise
      ordered: each segment ends strictly before every later one starts. */
  lemma MergeOrdered(xs: seq<Interval>)
    requires AllWellFormed(xs)
    ensures AllWellFormed(Merge(xs))
    ensures Ordered(Merge(xs))
  {
    var ys := SortByStart(xs);
    assert AllWellFormed(ys) by {
      forall iv | iv in ys ensures WellFormed(iv) {
        assert iv in multiset(xs);
      }
    }
    MergeFoldWellFormed([], ys);
    SeparatedIsOrdered(Merge(xs));
  }

  /** A separated list passes through the fold untouched: every step
      appends, so abutting intervals such as `[1,5],[6,10]` stay apart. */
  lemma {:induction false} MergeFoldOfSeparated(acc: seq<Interval>, ys: seq<Interval>)
    requires Separated(ys)
    requires |acc| > 0 && |ys| > 0 ==> Last(acc).End < ys[0].Start
    ensures MergeFold(acc, ys) == acc + ys
    decreases |ys|
  {
    if ys != [] {
      var t := ys[1..];
      Tail(ys);
      MergeFoldOfSeparated(acc + [ys[0]], t);
      assert acc + [ys[0]] + t == acc + ys;
    }
  }

  /** A list already sorted by start and separated is its own merge. */
  lemma MergeKeepsSeparated(xs: seq<Interval>)
    requires SortedByStart(xs) && Separated(xs)
    ensures Merge(xs) == xs
  {
    SortOfSortedIsIdentity(xs);
    MergeThroughSort(xs, xs);
    MergeFoldOfSeparated([], xs);
    assert [] + xs == xs;
  }

  /** Merging a merged list returns it unchanged. */
  lemma MergeIdempotent(xs: seq<Interval>)
    ensures Merge(Merge(xs)) == Merge(xs)
  {
    MergeSortedByStart(xs);
    MergeKeepsSeparated(Merge(xs));
  }

  /** On well-formed input, re-merging is the identity whatever order an
      unstable sort puts the merged list in. */
  lemma MergeIdempotentAnySort(xs: seq<Interval>, zs: seq<Interval>)
    requires AllWellFormed(xs)
    requires IsSortOf(zs, Merge(xs))
    ensures MergeSorted(zs) == Merge(xs)
  {
    MergeOrdered(xs);
    OrderedIsStrictlyByStart(Merge(xs));
    SortOfStrictlySortedIsUnique(Merge(xs), zs);
    MergeFoldOfSeparated([], Merge(xs));
  }

  lemma MergeStepGrows(acc: seq<Interval>, iv: Interval)
    requires |acc| > 0 && iv.Start <= Last(acc).End
    ensures MergeStep(acc, iv) == acc[..|acc| - 1] + [Interval(Last(acc).Start, Max(Last(acc).End, iv.End))]
  {
  }

  /** Two well-formed intervals with the same start can be folded in either
      order. */
  lemma MergeStepSwap(acc: seq<Interval>, a: Interval, b: Interval)
    requires a.Start == b.Start && WellFormed(a) && WellFormed(b)
    ensures MergeStep(MergeStep(acc, a), b) == MergeStep(MergeStep(acc, b), a)
  {
    var m := Max(a.End, b.End);
    if |acc| == 0 || Last(acc).End < a.Start {
      var sa, sb := acc + [a], acc + [b];
      assert MergeStep(acc, a) == sa;
      assert MergeStep(acc, b) == sb;
      MergeStepGrows(sa, b);
      MergeStepGrows(sb, a);
      assert sa[..|acc|] == acc && sb[..|acc|] == acc;
    } else {
      var front := acc[..|acc| - 1];
      var last := Last(acc);
      var sa := front + [Interval(last.Start, Max(last.End, a.End))];
      var sb := front + [Interval(last.Start, Max(last.End, b.End))];
      MergeStepGrows(acc, a);
      MergeStepGrows(acc, b);
      MergeStepGrows(sa, b);
      MergeStepGrows(sb, a);
      assert sa[..|front|] == front && sb[..|front|] == front;
      assert Max(Max(last.End, a.End), b.End) == Max(Max(last.End, b.End), a.End);
    }
  }

  lemma MergeFoldUnfold(acc: seq<Interval>, ys: seq<Interval>)
    requires |ys| > 0
    ensures MergeFold(acc, ys) == MergeFold(MergeStep(acc, ys[0]), ys[1..])
  {
  }

  /** The facts the move-to-front step needs about the list without its
      head. */
  lemma MoveFrontShift(ys: seq<Interval>, k: int)
    requires 0 < k < |ys|
    requires forall i :: 0 <= i <= k ==> ys[i].Start == ys[k].Start
    requires AllWellFormed(ys)
    ensures AllWellFormed(ys[1..])
    ensures forall i :: 0 <= i <= k - 1 ==> ys[1..][i].Start == ys[1..][k - 1].Start
    ensures WellFormed(ys[0]) && WellFormed(ys[k]) && ys[0].Start == ys[k].Start
    ensures [ys[1..][k - 1]] + ys[1..][..k - 1] + ys[1..][k..] == [ys[k]] + (ys[1..k] + ys[k + 1..])
    ensures [ys[k]] + ys[..k] + ys[k + 1..] == [ys[k]] + ([ys[0]] + (ys[1..k] + ys[k + 1..]))
  {
    var zs := ys[1..];
    forall iv | iv in zs ensures WellFormed(iv) {
      assert iv in ys;
    }
    assert forall i :: 0 <= i <= k - 1 ==> zs[i] == ys[i + 1];
    assert ys[0] in ys && ys[k] in ys;
    assert ys[..k] == [ys[0]] + ys[1..k];
  }

  /** Moving the `k`th element to the front does not change the fold when
      every element up to it has the same start. */
  lemma {:induction false} MergeFoldMoveFront(acc: seq<Interval>, ys: seq<Interval>, k: int)
    requires 0 <= k < |ys|
    requires forall i :: 0 <= i <= k ==> ys[i].Start == ys[k].Start
    requires AllWellFormed(ys)
    ensures MergeFold(acc, ys) == MergeFold(acc, [ys[k]] + ys[..k] + ys[k + 1..])
    decreases k
  {
    if k == 0 {
      assert [ys[0]] + ys[..0] + ys[1..] == ys;
    } else {
      var zs := ys[1..];
      var next := MergeStep(acc, ys[0]);
      var rest := ys[1..k] + ys[k + 1..];
      var moved := [ys[k]] + ys[..k] + ys[k + 1..];
      MoveFrontShift(ys, k);
      calc {
        MergeFold(acc, ys);
        { MergeFoldUnfold(acc, ys); }
        MergeFold(next, zs);
        { MergeFoldMoveFront(next, zs, k - 1); }
        MergeFold(next, [ys[k]] + rest);
        { MergeFoldUnfold(next, [ys[k]] + rest); assert ([ys[k]] + rest)[1..] == rest; }
        MergeFold(MergeStep(next, ys[k]), rest);
        { MergeStepSwap(acc, ys[0], ys[k]); }
        MergeFold(MergeStep(MergeStep(acc, ys[k]), ys[0]), rest);
        { MergeFoldUnfold(MergeStep(acc, ys[k]), [ys[0]] + rest); assert ([ys[0]] + rest)[1..] == rest; }
        MergeFold(MergeStep(acc, ys[k]), [ys[0]] + rest);
        { MergeFoldUnfold(acc, moved); assert moved[1..] == [ys[0]] + rest; }
        MergeFold(acc, moved);
      }
    }
  }

  /** Removing one element keeps a list sorted by start. */
  lemma RemoveKeepsSorted(s: seq<Interval>, k: int)
    requires SortedByStart(s) && 0 <= k < |s|
    ensures SortedByStart(s[..k] + s[k + 1..])
  {
    var r := s[..k] + s[k + 1..];
    forall i, j | 0 <= i < j < |r| ensures r[i].Start <= r[j].Start {
      var i' := if i < k then i else i + 1;
      var j' := if j < k then j else j + 1;
      assert r[i] == s[i'] && r[j] == s[j'];
    }
  }

  /** In a sorted arrangement of a sorted list, everything up to the position
      of the original's first element shares that element's start. */
  lemma HeadTies(ys1: seq<Interval>, ys2: seq<Interval>, k: int)
    requires SortedByStart(ys1) && IsSortOf(ys2, ys1)
    requires |ys1| > 0 && 0 <= k < |ys2| && ys2[k] == ys1[0]
    ensures forall i :: 0 <= i <= k ==> ys2[i].Start == ys2[k].Start
  {
    forall i | 0 <= i <= k ensures ys2[i].Start == ys2[k].Start {
      assert ys2[i] in multiset(ys1);
      var j :| 0 <= j < |ys1| && ys1[j] == ys2[i];
      assert ys1[0].Start <= ys1[j].Start;
    }
  }

  /** Dropping the head of `ys1` and position `k` of `ys2` keeps them sorted
      arrangements of each other. */
  lemma DropMatching(ys1: seq<Interval>, ys2: seq<Interval>, k: int)
    requires SortedByStart(ys1) && AllWellFormed(ys1) && IsSortOf(ys2, ys1)
    requires |ys1| > 0 && 0 <= k < |ys2| && ys2[k] == ys1[0]
    ensures SortedByStart(ys1[1..]) && AllWellFormed(ys1[1..])
    ensures IsSortOf(ys2[..k] + ys2[k + 1..], ys1[1..])
  {
    RemoveKeepsSorted(ys2, k);
    RemovePermutes(ys2, k);
    ConsPermutes(ys1);
    var rest2, t1 := ys2[..k] + ys2[k + 1..], ys1[1..];
    assert multiset(rest2) + multiset{ys1[0]} == multiset(t1) + multiset{ys1[0]};
    assert multiset(rest2) == multiset(t1) by {
      forall x ensures multiset(rest2)[x] == multiset(t1)[x] {
        assert (multiset(rest2) + multiset{ys1[0]})[x] == (multiset(t1) + multiset{ys1[0]})[x];
      }
    }
    Tail(ys1);
  }

  /** Locates the head of `ys1` inside `ys2` and states what the
      permutation proof needs about that position. */
  lemma FindHead(ys1: seq<Interval>, ys2: seq<Interval>) returns (k: int)
    requires SortedByStart(ys1) && AllWellFormed(ys1) && IsSortOf(ys2, ys1)
    requires |ys1| > 0
    ensures 0 <= k < |ys2| && ys2[k] == ys1[0]
    ensures forall i :: 0 <= i <= k ==> ys2[i].Start == ys2[k].Start
    ensures AllWellFormed(ys2)
    ensures SortedByStart(ys1[1..]) && AllWellFormed(ys1[1..])
    ensures IsSortOf(ys2[..k] + ys2[k + 1..], ys1[1..])
  {
    assert ys1[0] in multiset(ys2);
    k :| 0 <= k < |ys2| && ys2[k] == ys1[0];
    assert AllWellFormed(ys2) by {
      forall iv | iv in ys2 ensures WellFormed(iv) {
        assert iv in multiset(ys1);
      }
    }
    HeadTies(ys1, ys2, k);
    DropMatching(ys1, ys2, k);
  }

  /** Any two sorted arrangements of the same well-formed intervals fold to
      the same segments: the unstable sort's tie order is invisible. */
  lemma {:induction false} MergeFoldPermutation(acc: seq<Interval>, ys1: seq<Interval>, ys2: seq<Interval>)
    requires SortedByStart(ys1) && AllWellFormed(ys1)
    requires IsSortOf(ys2, ys1)
    ensures MergeFold(acc, ys1) == MergeFold(acc, ys2)
    decreases |ys1|
  {
    if ys1 == [] {
      assert |ys2| == |multiset(ys2)| == 0;
    } else {
      var k := FindHead(ys1, ys2);
      var a, t1, rest2 := ys1[0], ys1[1..], ys2[..k] + ys2[k + 1..];
      var next := MergeStep(acc, a);
      assert [ys2[k]] + ys2[..k] + ys2[k + 1..] == [a] + rest2;
      calc {
        MergeFold(acc, ys1);
        { MergeFoldUnfold(acc, ys1); }
        MergeFold(next, t1);
        { MergeFoldPermutation(next, t1, rest2); }
        MergeFold(next, rest2);
        { MergeFoldUnfold(acc, [a] + rest2); assert ([a] + rest2)[1..] == rest2; }
        MergeFold(acc, [a] + rest2);
        { MergeFoldMoveFront(acc, ys2, k); }
        MergeFold(acc, ys2);
      }
    }
  }

  /** On well-formed input, folding ANY sorted arrangement gives exactly
      `Merge`, so the concrete sort stands for every tie order. */
  lemma MergeTieOrderIrrelevant(xs: seq<Interval>, ys: seq<Interval>)
    requires AllWellFormed(xs)
    requires IsSortOf(ys, xs)
    ensures MergeSorted(ys) == Merge(xs)
  {
    var s := SortByStart(xs);
    assert AllWellFormed(s) by {
      forall iv | iv in s ensures WellFormed(iv) {
        assert iv in multiset(xs);
      }
    }
    MergeFoldPermutation([], s, ys);
  }
}
