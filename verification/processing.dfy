/**
  The subtractor and the whole pipeline `processIntervals`: merge both
  lists, then carve every merged include by the merged excludes, left to
  right, emitting interior fragments as they are split off and keeping the
  remainder unless it equals the zero-value marker `Empty`.
 */
module Processing {
  import opened Intervals
  import opened Merging

  /** The state carried across the inner loop for one include: the working
      copy of the include, and the fragments already emitted for it. */
  datatype Carry = Carry(work: Interval, frags: seq<Interval>)

  /** The exclude `e` shares no point with the working copy `w`. */
  predicate Misses(e: Interval, w: Interval) {
    e.Start > w.End || e.End < w.Start
  }

  /** The exclude `e` is not skipped and reaches past both ends of `w`: the
      case that empties the working copy and leaves the loop. */
  predicate Swallows(e: Interval, w: Interval) {
    !Misses(e, w) && e.Start <= w.Start && e.End >= w.End
  }

  /** For well-formed intervals, `Misses` is exactly "no common point". */
  lemma MissesIffDisjoint(e: Interval, w: Interval)
    requires WellFormed(e) && WellFormed(w)
    ensures Misses(e, w) <==> forall p :: Contains(w, p) ==> !Contains(e, p)
  {
    if !Misses(e, w) {
      var p := Max(e.Start, w.Start);
      assert Contains(w, p) && Contains(e, p);
    }
  }

  /** For well-formed intervals, `Swallows` is exactly "every point of the
      working copy lies in the exclude". */
  lemma SwallowsIffInside(e: Interval, w: Interval)
    requires WellFormed(e) && WellFormed(w)
    ensures Swallows(e, w) <==> forall p :: Contains(w, p) ==> Contains(e, p)
  {
    if forall p :: Contains(w, p) ==> Contains(e, p) {
      assert Contains(w, w.Start) && Contains(w, w.End);
    }
  }

  /** One iteration of the inner loop that does not leave it: skip, cut the
      start, cut the end, or split off the fragment below `e`. */
  function Carve(c: Carry, e: Interval): (r: Carry)
    requires !Swallows(e, c.work)
    ensures r.frags == c.frags || r.frags == c.frags + [Interval(c.work.Start, e.Start - 1)]
    ensures Misses(e, c.work) <==> r == c
  {
    var w := c.work;
    if Misses(e, w) then
      c
    else if e.Start <= w.Start then
      Carry(Interval(e.End + 1, w.End), c.frags)
    else if e.End >= w.End then
      Carry(Interval(w.Start, e.Start - 1), c.frags)
    else
      Carry(Interval(e.End + 1, w.End), c.frags + [Interval(w.Start, e.Start - 1)])
  }

  /** The inner loop over the excludes. A swallowing exclude sets the working
      copy to `Empty` and stops the loop (the `break`). */
  function ApplyExcludes(c: Carry, excs: seq<Interval>): (r: Carry)
    ensures |c.frags| <= |r.frags| <= |c.frags| + |excs|
    ensures r.frags[..|c.frags|] == c.frags
    decreases |excs|
  {
    if excs == [] then
      c
    else if Swallows(excs[0], c.work) then
      Carry(Empty, c.frags)
    else
      var next := Carve(c, excs[0]);
      var r := ApplyExcludes(next, excs[1..]);
      assert r.frags[..|c.frags|] == r.frags[..|next.frags|][..|c.frags|];
      r
  }

  /** Everything one include contributes to the result: its fragments, then
      its remainder unless the remainder equals `Empty`. */
  function SubtractOne(inc: Interval, excs: seq<Interval>): (r: seq<Interval>)
    ensures |r| <= |excs| + 1
  {
    var c := ApplyExcludes(Carry(inc, []), excs);
    c.frags + (if c.work != Empty then [c.work] else [])
  }

  /** The outer loop over the merged includes. */
  function Subtract(incs: seq<Interval>, excs: seq<Interval>): (r: seq<Interval>)
    ensures |r| <= |incs| * (|excs| + 1)
  {
    if incs == [] then []
    else
      var head, tail := SubtractOne(incs[0], excs), Subtract(incs[1..], excs);
      assert |incs| * (|excs| + 1) == (|excs| + 1) + (|incs| - 1) * (|excs| + 1);
      head + tail
  }

  /** `processIntervals`: each merged include yields at most one interval
      more than there are merged excludes. */
  function ProcessIntervals(includes: seq<Interval>, excludes: seq<Interval>): (r: seq<Interval>)
    ensures |r| <= |includes| * (|excludes| + 1)
  {
    var incs, excs := Merge(includes), Merge(excludes);
    var r := Subtract(incs, excs);
    ProductBound(|r|, |incs|, |excs|, |includes|, |excludes|);
    r
  }

  /** A bound `n * (m + 1)` carries over to larger `n` and `m`. */
  lemma ProductBound(r: nat, n: nat, m: nat, n': nat, m': nat)
    requires r <= n * (m + 1) && n <= n' && m <= m'
    ensures r <= n' * (m' + 1)
  {
    assert n * (m + 1) <= n' * (m + 1);
    assert n' * (m + 1) <= n' * (m' + 1);
  }

  /** The list with every interval equal to `Empty` removed, order kept. */
  function DropEmpty(xs: seq<Interval>): (r: seq<Interval>)
    ensures forall iv :: iv in r <==> iv in xs && iv != Empty
    ensures |r| <= |xs|
  {
    if xs == [] then []
    else (if xs[0] == Empty then [] else [xs[0]]) + DropEmpty(xs[1..])
  }

  // ---------------------------------------------------------------------
  // Soundness: nothing in the output is outside the includes or inside an
  // exclude.
  // ---------------------------------------------------------------------

  /** One carve only removes points: a new fragment lies in the working copy
      below the exclude, and the new working copy lies in the old one and
      outside the exclude. */
  lemma CarveSound(c: Carry, e: Interval, p: int)
    requires !Swallows(e, c.work)
    ensures Covers(Carve(c, e).frags, p) ==> Covers(c.frags, p) || (Contains(c.work, p) && p < e.Start)
    ensures Contains(Carve(c, e).work, p) ==> Contains(c.work, p) && !Contains(e, p)
  {
    var r := Carve(c, e);
    if r.frags != c.frags {
      var f := Interval(c.work.Start, e.Start - 1);
      CoversConcat(c.frags, [f], p);
      assert Covers([f], p) ==> Contains(f, p);
    }
  }

  /** Each point the loop's fragments cover was already covered by the
      fragments it started with, or lies in the working include and in no
      exclude; the same holds for the final working copy unless it is the
      `Empty` marker. */
  lemma {:induction false} ApplySound(c: Carry, excs: seq<Interval>, p: int)
    requires SortedByStart(excs)
    ensures Covers(ApplyExcludes(c, excs).frags, p) ==>
              Covers(c.frags, p) || (Contains(c.work, p) && !Covers(excs, p))
    ensures ApplyExcludes(c, excs).work != Empty && Contains(ApplyExcludes(c, excs).work, p) ==>
              Contains(c.work, p) && !Covers(excs, p)
    decreases |excs|
  {
    if excs != [] && !Swallows(excs[0], c.work) {
      var e, rest := excs[0], excs[1..];
      Tail(excs);
      CoversCons(excs, p);
      CarveSound(c, e, p);
      ApplySound(Carve(c, e), rest, p);
      if p < e.Start {
        forall iv | iv in rest
          ensures !Contains(iv, p)
        {
          assert e.Start <= iv.Start;
        }
      }
    }
  }

  lemma SubtractOneSound(inc: Interval, excs: seq<Interval>, p: int)
    requires SortedByStart(excs)
    ensures Covers(SubtractOne(inc, excs), p) ==> Contains(inc, p) && !Covers(excs, p)
  {
    var c := ApplyExcludes(Carry(inc, []), excs);
    ApplySound(Carry(inc, []), excs, p);
    CoversConcat(c.frags, if c.work != Empty then [c.work] else [], p);
  }

  lemma {:induction false} SubtractSound(incs: seq<Interval>, excs: seq<Interval>, p: int)
    requires SortedByStart(excs)
    ensures Covers(Subtract(incs, excs), p) ==> Covers(incs, p) && !Covers(excs, p)
  {
    if incs != [] {
      SubtractOneSound(incs[0], excs, p);
      SubtractSound(incs[1..], excs, p);
      CoversConcat(SubtractOne(incs[0], excs), Subtract(incs[1..], excs), p);
      CoversCons(incs, p);
    }
  }

  /** Soundness of `processIntervals`: every output point lies in some
      include and in no exclude, for every input. The working copy only
      shrinks, and a split-off fragment ends below the exclude that split
      it, which no later exclude of the start-sorted list can reach back
      to. */
  lemma ProcessSound(includes: seq<Interval>, excludes: seq<Interval>, p: int)
    ensures Covers(ProcessIntervals(includes, excludes), p) ==>
              Covers(includes, p) && !Covers(excludes, p)
  {
    MergeSortedByStart(excludes);
    SubtractSound(Merge(includes), Merge(excludes), p);
    MergeCovers(includes, p);
    MergeCovers(excludes, p);
  }

  // ---------------------------------------------------------------------
  // Completeness: every point in an include and in no exclude reaches the
  // output, except that the point 0 can be swallowed by the `Empty` marker.
  // ---------------------------------------------------------------------

  /** One carve loses no point outside the exclude: it stays in the working
      copy or lands in the new fragment, and old fragments are kept. */
  lemma CarveComplete(c: Carry, e: Interval, p: int)
    requires !Swallows(e, c.work)
    ensures Covers(c.frags, p) ==> Covers(Carve(c, e).frags, p)
    ensures Contains(c.work, p) && !Contains(e, p) ==>
              Covers(Carve(c, e).frags, p) || Contains(Carve(c, e).work, p)
  {
    var r := Carve(c, e);
    if r.frags != c.frags {
      var f := Interval(c.work.Start, e.Start - 1);
      CoversConcat(c.frags, [f], p);
      assert Contains(f, p) ==> f in [f];
    }
  }

  /** A point of the working include that no exclude covers ends up in a
      fragment or in the final working copy; fragments are never lost. */
  lemma {:induction false} ApplyComplete(c: Carry, excs: seq<Interval>, p: int)
    ensures Covers(c.frags, p) ==> Covers(ApplyExcludes(c, excs).frags, p)
    ensures Contains(c.work, p) && !Covers(excs, p) ==>
              Covers(ApplyExcludes(c, excs).frags, p) || Contains(ApplyExcludes(c, excs).work, p)
    decreases |excs|
  {
    if excs != [] {
      CoversCons(excs, p);
      if !Swallows(excs[0], c.work) {
        CarveComplete(c, excs[0], p);
        ApplyComplete(Carve(c, excs[0]), excs[1..], p);
      }
    }
  }

  lemma SubtractOneComplete(inc: Interval, excs: seq<Interval>, p: int)
    requires p != 0
    ensures Contains(inc, p) && !Covers(excs, p) ==> Covers(SubtractOne(inc, excs), p)
  {
    var c := ApplyExcludes(Carry(inc, []), excs);
    ApplyComplete(Carry(inc, []), excs, p);
    CoversConcat(c.frags, if c.work != Empty then [c.work] else [], p);
    if Contains(c.work, p) {
      assert c.work != Empty;
      assert c.work in [c.work];
    }
  }

  lemma {:induction false} SubtractComplete(incs: seq<Interval>, excs: seq<Interval>, p: int)
    requires p != 0
    ensures Covers(incs, p) && !Covers(excs, p) ==> Covers(Subtract(incs, excs), p)
  {
    if incs != [] {
      SubtractOneComplete(incs[0], excs, p);
      SubtractComplete(incs[1..], excs, p);
      CoversConcat(SubtractOne(incs[0], excs), Subtract(incs[1..], excs), p);
      CoversCons(incs, p);
    }
  }

  /** Completeness of `processIntervals` for every point other than 0, with
      no well-formedness assumption on either list. */
  lemma ProcessComplete(includes: seq<Interval>, excludes: seq<Interval>, p: int)
    requires p != 0
    ensures Covers(includes, p) && !Covers(excludes, p) ==>
              Covers(ProcessIntervals(includes, excludes), p)
  {
    SubtractComplete(Merge(includes), Merge(excludes), p);
    MergeCovers(includes, p);
    MergeCovers(excludes, p);
  }

  /** When no include reaches below 1 the marker cannot collide with a real
      remainder, and completeness holds for every point. */
  lemma ProcessCompletePositive(includes: seq<Interval>, excludes: seq<Interval>, p: int)
    requires forall iv :: iv in includes ==> iv.Start >= 1
    ensures Covers(includes, p) && !Covers(excludes, p) ==>
              Covers(ProcessIntervals(includes, excludes), p)
  {
    if Covers(includes, p) {
      var iv :| iv in includes && Contains(iv, p);
      ProcessComplete(includes, excludes, p);
    }
  }

  /** For every input and every point other than 0, the output covers
      exactly the includes minus the excludes. */
  lemma ProcessMeaning(includes: seq<Interval>, excludes: seq<Interval>, p: int)
    requires p != 0
    ensures Covers(ProcessIntervals(includes, excludes), p) <==>
              Covers(includes, p) && !Covers(excludes, p)
  {
    ProcessSound(includes, excludes, p);
    ProcessComplete(includes, excludes, p);
  }

  // ---------------------------------------------------------------------
  // Shape: on well-formed input the output is well-formed, sorted and
  // separated, so each covered point lies in exactly one output interval.
  // ---------------------------------------------------------------------

  /** The loop state for an include bounded by `[lo, hi]`: a well-formed
      working copy inside the bounds, and well-formed, separated fragments
      inside the bounds that all end before the working copy starts. */
  predicate Shaped(c: Carry, lo: int, hi: int) {
    && WellFormed(c.work) && lo <= c.work.Start && c.work.End <= hi
    && AllWellFormed(c.frags) && Separated(c.frags) && Within(c.frags, lo, hi)
    && (|c.frags| > 0 ==> Last(c.frags).End < c.work.Start)
  }

  /** One carve by a well-formed exclude keeps the loop state shaped. */
  lemma CarveShape(c: Carry, e: Interval, lo: int, hi: int)
    requires !Swallows(e, c.work) && WellFormed(e) && Shaped(c, lo, hi)
    ensures Shaped(Carve(c, e), lo, hi)
  {
    var r := Carve(c, e);
    if r.frags != c.frags {
      var f := Interval(c.work.Start, e.Start - 1);
      SeparatedConcat(c.frags, [f]);
      WithinConcat(c.frags, [f], lo, hi);
      assert AllWellFormed(r.frags) by {
        forall iv | iv in r.frags ensures WellFormed(iv) {
          assert iv in c.frags || iv == f;
        }
      }
    }
  }

  /** The loop keeps the fragments well-formed, separated and inside
      `[lo, hi]`, and keeps the working copy after the last fragment unless
      it became the `Empty` marker. */
  lemma {:induction false} ApplyShape(c: Carry, excs: seq<Interval>, lo: int, hi: int)
    requires AllWellFormed(excs) && Shaped(c, lo, hi)
    ensures ApplyExcludes(c, excs).work == Empty || Shaped(ApplyExcludes(c, excs), lo, hi)
    ensures AllWellFormed(ApplyExcludes(c, excs).frags)
    ensures Separated(ApplyExcludes(c, excs).frags)
    ensures Within(ApplyExcludes(c, excs).frags, lo, hi)
    decreases |excs|
  {
    if excs != [] && !Swallows(excs[0], c.work) {
      Tail(excs);
      CarveShape(c, excs[0], lo, hi);
      ApplyShape(Carve(c, excs[0]), excs[1..], lo, hi);
    }
  }

  lemma SubtractOneShape(inc: Interval, excs: seq<Interval>)
    requires WellFormed(inc) && AllWellFormed(excs)
    ensures AllWellFormed(SubtractOne(inc, excs))
    ensures Separated(SubtractOne(inc, excs))
    ensures Within(SubtractOne(inc, excs), inc.Start, inc.End)
  {
    var c := ApplyExcludes(Carry(inc, []), excs);
    ApplyShape(Carry(inc, []), excs, inc.Start, inc.End);
    if c.work != Empty {
      SeparatedConcat(c.frags, [c.work]);
      WithinConcat(c.frags, [c.work], inc.Start, inc.End);
      assert AllWellFormed(c.frags + [c.work]) by {
        forall iv | iv in c.frags + [c.work] ensures WellFormed(iv) {
          assert iv in c.frags || iv == c.work;
        }
      }
    } else {
      assert c.frags + [] == c.frags;
    }
  }

  lemma {:induction false} SubtractShape(incs: seq<Interval>, excs: seq<Interval>)
    requires AllWellFormed(incs) && Ordered(incs) && AllWellFormed(excs)
    ensures AllWellFormed(Subtract(incs, excs))
    ensures Separated(Subtract(incs, excs))
    ensures |incs| > 0 ==> Within(Subtract(incs, excs), incs[0].Start, Last(incs).End)
  {
    if incs != [] {
      var t := incs[1..];
      Tail(incs);
      var head, tail := SubtractOne(incs[0], excs), Subtract(t, excs);
      assert Subtract(incs, excs) == head + tail;
      SubtractOneShape(incs[0], excs);
      SubtractShape(t, excs);
      var lo, hi := incs[0].Start, Last(incs).End;
      if |t| > 0 {
        assert t[0] in t && Last(t) in t;
        assert Last(t) == Last(incs);
        assert WellFormed(Last(t)) && WellFormed(t[0]);
        if |head| > 0 && |tail| > 0 {
          assert Last(head) in head && tail[0] in tail;
        }
        assert Within(head, lo, hi);
        assert Within(tail, lo, hi);
        WithinConcat(head, tail, lo, hi);
      } else {
        assert head + tail == head;
      }
      SeparatedConcat(head, tail);
      assert AllWellFormed(head + tail) by {
        forall iv | iv in head + tail ensures WellFormed(iv) {
          assert iv in head || iv in tail;
        }
      }
    }
  }

  /** On well-formed input the output of `processIntervals` is well-formed,
      separated, and ordered pairwise. */
  lemma ProcessShape(includes: seq<Interval>, excludes: seq<Interval>)
    requires AllWellFormed(includes) && AllWellFormed(excludes)
    ensures AllWellFormed(ProcessIntervals(includes, excludes))
    ensures Separated(ProcessIntervals(includes, excludes))
    ensures Ordered(ProcessIntervals(includes, excludes))
  {
    MergeOrdered(includes);
    MergeOrdered(excludes);
    SubtractShape(Merge(includes), Merge(excludes));
    SeparatedIsOrdered(ProcessIntervals(includes, excludes));
  }

  /** Every interval of `out` lies entirely inside one interval of `ms`. */
  predicate ContainedIn(out: seq<Interval>, ms: seq<Interval>) {
    forall iv :: iv in out ==> exists m: Interval :: m in ms && m.Start <= iv.Start && iv.End <= m.End
  }

  /** The inner loop never moves the working copy's start down or its end
      up, and every fragment it emits lies between them, so everything stays
      inside the include's bounds `[lo, hi]` whatever the input. */
  lemma {:induction false} ApplyBounds(c: Carry, excs: seq<Interval>, lo: int, hi: int)
    requires lo <= c.work.Start && c.work.End <= hi && Within(c.frags, lo, hi)
    ensures Within(ApplyExcludes(c, excs).frags, lo, hi)
    ensures ApplyExcludes(c, excs).work != Empty ==>
              lo <= ApplyExcludes(c, excs).work.Start && ApplyExcludes(c, excs).work.End <= hi
    decreases |excs|
  {
    if excs != [] && !Swallows(excs[0], c.work) {
      var next := Carve(c, excs[0]);
      if next.frags != c.frags {
        WithinConcat(c.frags, [Interval(c.work.Start, excs[0].Start - 1)], lo, hi);
      }
      ApplyBounds(next, excs[1..], lo, hi);
    }
  }

  /** Every interval one include contributes lies inside that include. */
  lemma SubtractOneWithin(inc: Interval, excs: seq<Interval>)
    ensures Within(SubtractOne(inc, excs), inc.Start, inc.End)
  {
    var c := ApplyExcludes(Carry(inc, []), excs);
    ApplyBounds(Carry(inc, []), excs, inc.Start, inc.End);
    if c.work != Empty {
      WithinConcat(c.frags, [c.work], inc.Start, inc.End);
    } else {
      assert c.frags + [] == c.frags;
    }
  }

  /** Each interval the outer loop emits lies inside the include it came
      from. */
  lemma {:induction false} SubtractContained(incs: seq<Interval>, excs: seq<Interval>)
    ensures ContainedIn(Subtract(incs, excs), incs)
  {
    if incs != [] {
      var inc, t := incs[0], incs[1..];
      var head, tail := SubtractOne(inc, excs), Subtract(t, excs);
      assert Subtract(incs, excs) == head + tail;
      SubtractOneWithin(inc, excs);
      SubtractContained(t, excs);
      forall iv: Interval | iv in head + tail
        ensures exists m: Interval :: m in incs && m.Start <= iv.Start && iv.End <= m.End
      {
        if iv in head {
          assert inc in incs;
        } else {
          var m :| m in t && m.Start <= iv.Start && iv.End <= m.End;
          assert m in incs;
        }
      }
    }
  }

  /** Every output interval lies entirely inside one merged include, for
      every input: touching includes stay apart, and no output interval
      spans the boundary between them. */
  lemma ProcessContained(includes: seq<Interval>, excludes: seq<Interval>)
    ensures ContainedIn(ProcessIntervals(includes, excludes), Merge(includes))
  {
    SubtractContained(Merge(includes), Merge(excludes));
  }

  /** On well-formed input every point other than 0 that is included and
      not excluded lies in exactly one output interval. */
  lemma ProcessCoversOnce(includes: seq<Interval>, excludes: seq<Interval>, p: int)
    requires AllWellFormed(includes) && AllWellFormed(excludes) && p != 0
    requires Covers(includes, p) && !Covers(excludes, p)
    ensures var out := ProcessIntervals(includes, excludes);
            exists i :: 0 <= i < |out| && Contains(out[i], p)
    ensures var out := ProcessIntervals(includes, excludes);
            forall i, j ::
              0 <= i < |out| && 0 <= j < |out| && Contains(out[i], p) && Contains(out[j], p) ==> i == j
  {
    var out := ProcessIntervals(includes, excludes);
    ProcessComplete(includes, excludes, p);
    ProcessShape(includes, excludes);
    var iv :| iv in out && Contains(iv, p);
    var i :| 0 <= i < |out| && out[i] == iv;
    forall i, j | 0 <= i < |out| && 0 <= j < |out| && Contains(out[i], p) && Contains(out[j], p)
      ensures i == j
    {
      OrderedCoversOnce(out, p, i, j);
    }
  }

  // ---------------------------------------------------------------------
  // No excludes.
  // ---------------------------------------------------------------------

  lemma {:induction false} SubtractNothing(incs: seq<Interval>)
    ensures Subtract(incs, []) == DropEmpty(incs)
  {
    if incs != [] {
      SubtractNothing(incs[1..]);
      assert ApplyExcludes(Carry(incs[0], []), []) == Carry(incs[0], []);
    }
  }

  /** Dropping the marker from a list that does not hold it changes nothing. */
  lemma {:induction false} DropEmptyWithoutMarker(xs: seq<Interval>)
    requires Empty !in xs
    ensures DropEmpty(xs) == xs
  {
    if xs != [] {
      assert Empty !in xs[1..] by {
        forall iv | iv in xs[1..] ensures iv != Empty {
          assert iv in xs;
        }
      }
      DropEmptyWithoutMarker(xs[1..]);
      assert xs == [xs[0]] + xs[1..];
    }
  }

  /** With no excludes the result is the merged includes with every
      interval equal to `[0,0]` dropped. */
  lemma ProcessWithoutExcludes(includes: seq<Interval>)
    ensures ProcessIntervals(includes, []) == DropEmpty(Merge(includes))
  {
    assert Merge([]) == [];
    SubtractNothing(Merge(includes));
  }
}
