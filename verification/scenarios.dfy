/**
  Worked examples of `processIntervals` and `mergeIntervals`: typical
  requests, and the behaviour of the zero-value marker and of inverted
  intervals. Each proof walks the loops step by step. The concrete intervals
  are parameters pinned by `requires`, not literals, because the verifier
  unfolds recursive functions on literal arguments without bound and the
  proofs then become expensive.
 */
module Scenarios {
  import opened Intervals
  import opened Sorting
  import opened Merging
  import opened Processing

  /** A single well-formed interval is its own merge. */
  lemma MergeOne(iv: Interval)
    requires WellFormed(iv)
    ensures Merge([iv]) == [iv]
  {
    MergeKeepsSeparated([iv]);
  }

  /** A single include contributes exactly what `SubtractOne` computes. */
  lemma SubtractSingle(inc: Interval, excs: seq<Interval>)
    ensures Subtract([inc], excs) == SubtractOne(inc, excs)
  {
    assert [inc][1..] == [];
    assert SubtractOne(inc, excs) + [] == SubtractOne(inc, excs);
  }

  /** `[1,10]` with nothing excluded is returned as is. */
  lemma NothingExcluded(inc: Interval)
    requires inc == Interval(1, 10)
    ensures ProcessIntervals([inc], []) == [inc]
  {
    MergeOne(inc);
    assert Merge([]) == [];
    SubtractSingle(inc, []);
  }

  /** An interior exclude splits the include: `[1,10]` minus `[3,5]`. */
  lemma InteriorSplit(inc: Interval, e: Interval)
    requires inc == Interval(1, 10) && e == Interval(3, 5)
    ensures ProcessIntervals([inc], [e]) == [Interval(1, 2), Interval(6, 10)]
  {
    MergeOne(inc);
    MergeOne(e);
    SubtractSingle(inc, [e]);
    assert Carve(Carry(inc, []), e) == Carry(Interval(6, 10), [Interval(1, 2)]);
    assert ApplyExcludes(Carry(inc, []), [e]) == Carry(Interval(6, 10), [Interval(1, 2)]);
  }

  /** An exclude covering the whole include leaves nothing. */
  lemma FullCover(inc: Interval)
    requires inc == Interval(1, 10)
    ensures ProcessIntervals([inc], [inc]) == []
  {
    MergeOne(inc);
    SubtractSingle(inc, [inc]);
    assert ApplyExcludes(Carry(inc, []), [inc]) == Carry(Empty, []);
  }

  /** Two edge excludes shrink both ends: `[1,20]` minus `[1,5],[15,20]`. */
  lemma BothEdges(inc: Interval, e1: Interval, e2: Interval)
    requires inc == Interval(1, 20) && e1 == Interval(1, 5) && e2 == Interval(15, 20)
    ensures ProcessIntervals([inc], [e1, e2]) == [Interval(6, 14)]
  {
    var es := [e1, e2];
    MergeOne(inc);
    MergeKeepsSeparated(es);
    SubtractSingle(inc, es);
    var c0, c1, c2 := Carry(inc, []), Carry(Interval(6, 20), []), Carry(Interval(6, 14), []);
    assert Carve(c0, e1) == c1;
    assert Carve(c1, e2) == c2;
    assert es[1..] == [e2];
    assert ApplyExcludes(c1, [e2]) == ApplyExcludes(c2, []) == c2;
    assert ApplyExcludes(c0, es) == ApplyExcludes(c1, [e2]);
  }

  /** A disjoint exclude changes nothing. */
  lemma DisjointExclude(inc: Interval, e: Interval)
    requires inc == Interval(1, 5) && e == Interval(10, 15)
    ensures ProcessIntervals([inc], [e]) == [inc]
  {
    MergeOne(inc);
    MergeOne(e);
    SubtractSingle(inc, [e]);
    assert ApplyExcludes(Carry(inc, []), [e]) == Carry(inc, []);
  }

  /** Abutting intervals are not merged: only intervals sharing a point are. */
  lemma AbuttingStaySeparate(a: Interval, b: Interval)
    requires a == Interval(1, 5) && b == Interval(6, 10)
    ensures ProcessIntervals([a, b], []) == [a, b]
  {
    var xs := [a, b];
    assert Merge(xs) == xs by {
      assert SortedByStart(xs) && Separated(xs);
      MergeKeepsSeparated(xs);
    }
    assert DropEmpty(xs) == xs by {
      DropEmptyWithoutMarker(xs);
    }
    ProcessWithoutExcludes(xs);
  }

  /** Sorting puts abutting intervals in order but does not join them. */
  lemma AbuttingSortedNotJoined(a: Interval, b: Interval)
    requires a == Interval(1, 5) && b == Interval(6, 10)
    ensures Merge([b, a]) == [a, b]
  {
    SortOfSortedIsIdentity([a]);
    assert [b, a][1..] == [a];
    assert Insert(b, [a]) == [a] + Insert(b, []);
    assert SortByStart([b, a]) == [a, b];
    MergeFoldOfSeparated([], [a, b]);
  }

  /** Intervals sharing a point are merged, in whatever order they come. */
  lemma OverlappingMerge(a: Interval, b: Interval, c: Interval)
    requires a == Interval(1, 5) && b == Interval(2, 3) && c == Interval(5, 8)
    ensures Merge([c, a, b]) == [Interval(1, 8)]
  {
    OverlappingSorted(a, b, c);
    OverlappingFolded(a, b, c);
    MergeThroughSort([c, a, b], [a, b, c]);
  }

  lemma OverlappingSorted(a: Interval, b: Interval, c: Interval)
    requires a == Interval(1, 5) && b == Interval(2, 3) && c == Interval(5, 8)
    ensures SortByStart([c, a, b]) == [a, b, c]
  {
    assert [c, a, b] == [c] + [a, b];
    var ab := [a, b];
    assert SortByStart(ab) == ab by {
      SortOfSortedIsIdentity(ab);
    }
    assert SortByStart([c] + ab) == Insert(c, ab) by {
      SortByStartCons([c] + ab);
      assert ([c] + ab)[1..] == ab;
    }
    assert Insert(c, ab) == [a, b, c] by {
      InsertLast(a, b, c);
    }
  }

  lemma InsertLast(a: Interval, b: Interval, c: Interval)
    requires a.Start <= b.Start < c.Start
    ensures Insert(c, [a, b]) == [a, b, c]
  {
    assert [a, b][1..] == [b];
    assert [b][1..] == [];
    assert Insert(c, [b]) == [b, c];
  }

  lemma OverlappingFolded(a: Interval, b: Interval, c: Interval)
    requires a == Interval(1, 5) && b == Interval(2, 3) && c == Interval(5, 8)
    ensures MergeSorted([a, b, c]) == [Interval(1, 8)]
  {
    MergeFoldUnfold([], [a, b, c]);
    assert MergeStep([], a) == [a];
    assert [a, b, c][1..] == [b, c];
    MergeFoldUnfold([a], [b, c]);
    assert MergeStep([a], b) == [a];
    assert [b, c][1..] == [c];
    MergeFoldUnfold([a], [c]);
    assert MergeStep([a], c) == [Interval(1, 8)];
    assert [c][1..] == [];
  }

  /** With an inverted interval among equal starts, the two orders an
      unstable sort may choose merge differently: the tie-order result
      really needs well-formed input. */
  lemma InvertedTieOrderMatters(x: Interval, y: Interval)
    requires x == Interval(5, 3) && y == Interval(5, 10)
    ensures IsSortOf([x, y], [y, x]) && IsSortOf([y, x], [y, x])
    ensures MergeSorted([x, y]) == [x, y]
    ensures MergeSorted([y, x]) == [y]
  {
    assert multiset([x, y]) == multiset([y, x]);
    InvertedFirst(x, y);
    InvertedSecond(x, y);
  }

  lemma InvertedFirst(x: Interval, y: Interval)
    requires x == Interval(5, 3) && y == Interval(5, 10)
    ensures MergeSorted([x, y]) == [x, y]
  {
    MergeFoldUnfold([], [x, y]);
    assert [x, y][1..] == [y];
    assert MergeStep([], x) == [x];
    MergeFoldUnfold([x], [y]);
    assert MergeStep([x], y) == [x, y];
    assert [y][1..] == [];
  }

  lemma InvertedSecond(x: Interval, y: Interval)
    requires x == Interval(5, 3) && y == Interval(5, 10)
    ensures MergeSorted([y, x]) == [y]
  {
    MergeFoldUnfold([], [y, x]);
    assert [y, x][1..] == [x];
    assert MergeStep([], y) == [y];
    MergeFoldUnfold([y], [x]);
    assert MergeStep([y], x) == [y];
    assert [x][1..] == [];
  }

  /** A remainder of exactly `[0,0]` is mistaken for the marker and dropped,
      so the point 0 is lost although no exclude covers it. */
  lemma ZeroRemainderDropped(inc: Interval, e: Interval)
    requires inc == Interval(0, 5) && e == Interval(1, 5)
    ensures ProcessIntervals([inc], [e]) == []
    ensures !Covers([e], 0) && Covers([inc], 0)
  {
    MergeOne(inc);
    MergeOne(e);
    SubtractSingle(inc, [e]);
    assert Carve(Carry(inc, []), e) == Carry(Empty, []);
    assert ApplyExcludes(Carry(inc, []), [e]) == Carry(Empty, []);
    assert Contains(inc, 0) && inc in [inc];
  }

  /** An include of exactly `[0,0]` is dropped even with no excludes. */
  lemma ZeroIncludeDropped(inc: Interval)
    requires inc == Interval(0, 0)
    ensures ProcessIntervals([inc], []) == []
  {
    MergeOne(inc);
    assert Merge([]) == [];
    SubtractSingle(inc, []);
  }

  /** A split-off fragment is never compared with the marker, so a fragment
      `[0,0]` survives. */
  lemma ZeroFragmentKept(inc: Interval, e: Interval)
    requires inc == Interval(0, 5) && e == Interval(1, 3)
    ensures ProcessIntervals([inc], [e]) == [Interval(0, 0), Interval(4, 5)]
  {
    MergeOne(inc);
    MergeOne(e);
    SubtractSingle(inc, [e]);
    assert Carve(Carry(inc, []), e) == Carry(Interval(4, 5), [Empty]);
    assert ApplyExcludes(Carry(inc, []), [e]) == Carry(Interval(4, 5), [Empty]);
  }

  /** An inverted exclude is not rejected; it takes the split branch and the
      output overlaps itself, which is why the shape results ask for
      well-formed excludes. The output is still sound: both pieces lie in
      the include and the exclude covers no point. */
  lemma InvertedExcludeOverlaps(inc: Interval, e: Interval)
    requires inc == Interval(1, 10) && e == Interval(8, 2)
    ensures ProcessIntervals([inc], [e]) == [Interval(1, 7), Interval(3, 10)]
  {
    MergeOne(inc);
    MergeKeepsSeparated([e]);
    SubtractSingle(inc, [e]);
    assert Carve(Carry(inc, []), e) == Carry(Interval(3, 10), [Interval(1, 7)]);
    assert ApplyExcludes(Carry(inc, []), [e]) == Carry(Interval(3, 10), [Interval(1, 7)]);
  }
}
