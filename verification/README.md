# Interval processor

A model of the interval service in `main.go`. It covers `processIntervals`,
which the HTTP handler calls, and the two helpers it reaches through it:
`mergeIntervals` and `max`.

- `mergeIntervals` sorts a list of closed integer intervals by start. It then
  folds the list, joining each interval into the previous segment when they
  share a point.
- `processIntervals` merges the includes and the excludes. Then, for each
  merged include, it walks the merged excludes:
  - an exclude that misses the working copy is skipped;
  - one that covers the copy completely resets it to the zero value
    `Interval{}` and leaves the loop;
  - one that cuts the start or the end moves that bound;
  - an exclude strictly inside the copy emits the part below it and keeps
    the part above it.

  Afterwards the working copy is emitted unless it equals `Interval{}`.

The Dafny modules follow that structure:

- `Intervals` (`intervals.dfy`): the `Interval` value, `Max`, and the
  point-set vocabulary the properties use. `Covers(xs, p)` means "point `p`
  lies in some interval of `xs`". There are also two list shapes:
  - `Separated`: each interval ends before the next one starts;
  - `Ordered`: the same, pairwise.
- `Sorting` (`sorting.dfy`): the library sort.
  - `IsSortOf(ys, xs)` means "`ys` is a rearrangement of `xs` with
    non-decreasing starts". It stands for every outcome the unstable
    `sort.Slice` may produce.
  - `SortByStart` is one concrete such sort, an insertion sort.
- `Merging` (`merging.dfy`): `mergeIntervals`. It is the loop body
  `MergeStep`, the loop `MergeFold`, and `Merge = fold ∘ sort`.
- `Processing` (`processing.dfy`): `processIntervals`.
  - `Carve` is one inner-loop iteration that does not break.
  - `ApplyExcludes` is the inner loop, with the `break` as an early return
    of the `Empty` marker.
  - `SubtractOne` is one include's contribution; `Subtract` is the outer
    loop.
  - `ProcessIntervals` is the whole function.
- `Scenarios` (`scenarios.dfy`): worked examples, proved step by step.

The main results:

- **Merging keeps the same points.** `Merge` covers exactly the points of its
  input, for every input and every sort outcome. Its output is sorted,
  separated and never longer than the input. Merging twice gives the same
  list as merging once.
- **The sort's tie order does not matter.** On well-formed input, folding
  any sorted arrangement gives the same result as `Merge`. On inverted input
  the tie order can change the result.
- **Subtraction is sound.** Every output point lies in an include and in no
  exclude, for every input, inverted intervals included. Only the shape
  results below need well-formed input.
- **Subtraction is complete except at 0.** Every point other than 0 that
  lies in an include and in no exclude appears in the output. This holds
  with no well-formedness assumption at all. Point 0 can be lost because the
  zero value doubles as the "emptied" marker.
- **The output has a clean shape.** On well-formed input the output is
  well-formed and pairwise ordered, so each point lies in at most one output
  interval. Each output interval lies entirely inside one merged include,
  and that holds for every input.

Two notes on behaviour:

- **Touching intervals are not merged.** One might expect `[1,5]` and
  `[6,10]` to join into `[1,10]`. They stay separate, because the merge
  joins two intervals only when the earlier one's end is at least the later
  one's start (main.go:58). `Scenarios.AbuttingStaySeparate` proves what the
  code returns.
- **The `[0,0]` marker is checked only on the remainder.** A genuine
  remainder `[0,0]` is dropped, but a split-off fragment `[0,0]` is kept.

## Model

| member | source | states |
|---|---|---|
| Intervals.Max | main.go:109-114 | The result is at least each argument and equals one of them. |
| Sorting.SortByStart | main.go:50-53 | The sorted list is ordered by non-decreasing start, is a permutation of the input, and has the same length. |
| Sorting.SortOfSortedIsIdentity | main.go:50-53 | A list already in start order comes out of the sort unchanged. |
| Sorting.SortOfStrictlySortedIsUnique | main.go:50-53 | A list with strictly increasing starts, inverted intervals allowed, has exactly one sorted arrangement, so every tie-breaking sort returns it unchanged. |
| Sorting.Insert | main.go:50-53 | One step of the model sort: the result is one longer than the list and holds the inserted interval. |
| Sorting.InsertPermutes | main.go:50-53 | One insertion step adds exactly the new interval to the multiset and grows the length by one. |
| Sorting.InsertSorted | main.go:50-53 | Inserting into a start-sorted list keeps it start-sorted; the new head is the inserted interval or the old head. |
| Merging.MergeStep | main.go:57-63 | One loop step either appends the interval or rewrites the last segment, so the length grows by at most one and the result is never empty. |
| Merging.MergeFold | main.go:55-64 | The loop never loses a segment and adds at most one segment per interval it reads. |
| Merging.MergeSorted | main.go:55-66 | The loop started from no segments returns a separated list that is no longer than its input and is empty exactly when the input is. |
| Merging.MergeStepCovers | main.go:57-63 | When the interval starts no earlier than the last segment, one step covers exactly the old segments' points plus the interval's points. |
| Merging.MergeFoldSeparated | main.go:55-64 | Starting from separated segments, the loop leaves every segment ending strictly before the next starts. It produces at most one segment per input and at least one if there was any input. |
| Merging.MergeFoldSorted | main.go:55-64 | Over a start-sorted list the loop keeps the segments start-sorted. |
| Merging.MergeFoldWellFormed | main.go:55-64 | Well-formed segments and inputs give well-formed segments. |
| Merging.MergeFoldCovers | main.go:55-64 | Over a start-sorted list the loop covers exactly the points of the initial segments and the input. |
| Merging.Merge | main.go:46-67 | The merged list is separated, is no longer than the input, and is empty exactly when the input is. |
| Merging.MergeSortedCovers | main.go:46-67 | For every outcome of the sort, the merged list covers exactly the input's points. |
| Merging.MergeCovers | main.go:46-67 | Merging preserves the set of covered points, for every input. |
| Merging.MergeSortedByStart | main.go:46-67 | The merged list is sorted by start, for every input. |
| Merging.MergeOrdered | main.go:46-67 | On well-formed input the merged list is well-formed and pairwise ordered: each segment ends before every later one starts. |
| Merging.MergeFoldOfSeparated | main.go:55-64 | A separated list that starts after the last segment passes through the loop unchanged and is appended as is. |
| Merging.MergeKeepsSeparated | main.go:46-67 | A list already sorted by start and separated is its own merge. |
| Merging.MergeIdempotent | main.go:46-67 | Merging a merged list returns it unchanged, for every input. |
| Merging.MergeIdempotentAnySort | main.go:46-67 | On well-formed input, re-merging the merged list gives it back whatever order the unstable sort chooses. |
| Merging.MergeStepSwap | main.go:57-63 | Two well-formed intervals with the same start can be folded in either order with the same result. |
| Merging.MergeFoldMoveFront | main.go:55-64 | Moving an element to the front of the sorted list, past elements with the same start, does not change the fold's result. |
| Merging.MergeFoldPermutation | main.go:50-64 | Any two sorted arrangements of the same well-formed intervals fold to the same segments. |
| Merging.MergeTieOrderIrrelevant | main.go:50-64 | On well-formed input, folding any sorted arrangement of the input gives exactly `Merge` of the input. |
| Processing.MissesIffDisjoint | main.go:80-81 | For well-formed intervals, the skip test holds exactly when the exclude and the working copy share no point. |
| Processing.SwallowsIffInside | main.go:84-87 | For well-formed intervals, the full-cover test holds exactly when every point of the working copy lies in the exclude. |
| Processing.Carve | main.go:80-98 | A non-breaking iteration either adds no fragment or adds the fragment from the working copy's start to just below the exclude. It leaves the state unchanged exactly when the exclude misses the working copy. |
| Processing.ApplyExcludes | main.go:78-100 | The inner loop keeps the fragments it started with as a prefix and adds at most one fragment per exclude. |
| Processing.SubtractOne | main.go:77-103 | One include contributes at most one interval more than there are excludes. |
| Processing.Subtract | main.go:77-104 | The outer loop yields at most (number of excludes + 1) intervals per include. |
| Processing.ProcessIntervals | main.go:69-107 | The output length is at most the number of includes times (number of excludes + 1). |
| Processing.DropEmpty | main.go:101-103 | An interval is in the filtered list exactly when it is in the input and is not `[0,0]`. |
| Processing.DropEmptyWithoutMarker | main.go:101-103 | Filtering a list that has no `[0,0]` interval leaves it unchanged. |
| Processing.CarveSound | main.go:80-98 | After one iteration, a point in a new fragment lies in the old working copy below the exclude. A point in the new working copy lies in the old one and outside the exclude. |
| Processing.ApplySound | main.go:78-100 | With excludes sorted by start (inverted ones allowed), every point in the inner loop's fragments or non-marker remainder was already a fragment point, or lies in the include and in no exclude. |
| Processing.SubtractOneSound | main.go:77-103 | With excludes sorted by start, every point one include contributes lies in that include and in no exclude. |
| Processing.SubtractSound | main.go:77-104 | With excludes sorted by start, every output point of the outer loop lies in some include and in no exclude. |
| Processing.ProcessSound | main.go:69-107 | For every input, every output point of `processIntervals` lies in some original include and in no original exclude. |
| Processing.CarveComplete | main.go:80-98 | One iteration keeps old fragments. A working-copy point outside the exclude stays in the working copy or lands in the new fragment. |
| Processing.ApplyComplete | main.go:78-100 | A working-copy point in no exclude ends in a fragment or in the final working copy, and fragment points are never lost. |
| Processing.SubtractOneComplete | main.go:77-103 | Every point other than 0 in the include and in no exclude is in that include's contribution. |
| Processing.SubtractComplete | main.go:77-104 | Every point other than 0 in some include and in no exclude is in the outer loop's output. |
| Processing.ProcessComplete | main.go:69-107 | For every point other than 0, any point in an include and in no exclude is in the output, whatever the inputs. |
| Processing.ProcessCompletePositive | main.go:69-107 | When no include starts below 1, completeness holds for every point. |
| Processing.ProcessMeaning | main.go:69-107 | For every input, a point other than 0 is in the output if and only if it is in an include and in no exclude. |
| Processing.CarveShape | main.go:80-98 | One iteration with a well-formed exclude keeps the fragments well-formed, separated, inside the include's bounds and before the working copy. |
| Processing.ApplyShape | main.go:78-100 | After the inner loop the fragments are well-formed, separated and inside the include's bounds, and the remainder follows them unless it is the marker. |
| Processing.SubtractOneShape | main.go:77-103 | One well-formed include's contribution is well-formed, separated and inside the include. |
| Processing.SubtractShape | main.go:77-104 | Over well-formed, ordered includes the output is well-formed, separated, and inside the span of the includes. |
| Processing.ProcessShape | main.go:69-107 | On well-formed input the output is well-formed, separated, and pairwise ordered. |
| Processing.ProcessCoversOnce | main.go:69-107 | On well-formed input, each point other than 0 that is included and not excluded lies in exactly one output interval. |
| Processing.ApplyBounds | main.go:78-100 | For any excludes, the inner loop's fragments and non-marker remainder stay inside bounds that held the working copy and the earlier fragments. |
| Processing.SubtractOneWithin | main.go:77-103 | For any excludes, every interval one include contributes lies inside that include. |
| Processing.SubtractContained | main.go:77-104 | For every input, each interval the outer loop emits lies entirely inside one include. |
| Processing.ProcessContained | main.go:69-107 | For every input, each output interval lies entirely inside one merged include, so no output interval spans two touching includes. |
| Processing.SubtractNothing | main.go:77-104 | With no excludes the outer loop returns the includes with every `[0,0]` interval removed. |
| Processing.ProcessWithoutExcludes | main.go:69-107 | With no excludes the output is the merged includes with every `[0,0]` interval removed. |
| Scenarios.NothingExcluded | main.go:69-107 | `[1,10]` with no excludes gives `[1,10]`. |
| Scenarios.InteriorSplit | main.go:94-103 | `[1,10]` minus `[3,5]` gives `[1,2],[6,10]`. |
| Scenarios.FullCover | main.go:84-87 | `[1,10]` minus `[1,10]` gives nothing. |
| Scenarios.BothEdges | main.go:88-93 | `[1,20]` minus `[1,5],[15,20]` gives `[6,14]`. |
| Scenarios.DisjointExclude | main.go:80-81 | `[1,5]` minus `[10,15]` gives `[1,5]`. |
| Scenarios.AbuttingStaySeparate | main.go:58-59 | Includes `[1,5],[6,10]` with no excludes give both intervals back, not joined. |
| Scenarios.AbuttingSortedNotJoined | main.go:50-59 | Merging `[6,10],[1,5]` sorts them to `[1,5],[6,10]` and does not join them. |
| Scenarios.OverlappingMerge | main.go:50-63 | Merging `[5,8],[1,5],[2,3]` gives `[1,8]`. |
| Scenarios.InvertedTieOrderMatters | main.go:50-63 | `[5,3],[5,10]` and `[5,10],[5,3]` are both valid sort outcomes of the same input, and they fold to `[5,3],[5,10]` and to `[5,10]` respectively. |
| Scenarios.ZeroRemainderDropped | main.go:84-103 | `[0,5]` minus `[1,5]` gives nothing, although point 0 is included and not excluded. |
| Scenarios.ZeroIncludeDropped | main.go:101-103 | The include `[0,0]` with no excludes gives nothing. |
| Scenarios.ZeroFragmentKept | main.go:94-103 | `[0,5]` minus `[1,3]` gives `[0,0],[4,5]`: a split-off fragment `[0,0]` is kept. |
| Scenarios.InvertedExcludeOverlaps | main.go:80-103 | `[1,10]` minus the inverted `[8,2]` gives the overlapping `[1,7],[3,10]`. |

## Left out

- `handleAPI` (main.go:19-44) is left out. It is JSON decoding and encoding, the 400 response on a bad body, logging and HTTP. This is I/O around `processIntervals`.
- `main` (main.go:116-131) is left out. It sets up the router, CORS and the listening port.
- `mergeIntervals` sorts the caller's slice in place. The model is pure, so that side effect is not modelled. The only observer is the request that `handleAPI` logs after the call, which would show the includes and excludes sorted.
- Sorting.SortByStart: Go's `sort.Slice` is a pattern-defeating quicksort, not an insertion sort. Its tie order is not modelled.
  - On well-formed input the tie order provably does not matter (`Merging.MergeTieOrderIrrelevant`, `Merging.MergeIdempotentAnySort`).
  - On inverted input it does (`Scenarios.InvertedTieOrderMatters`). Results about inverted input therefore hold for the insertion sort, or for every sort only where they are stated with `IsSortOf`.
- Processing.Carve: `exclude.End + 1` and `exclude.Start - 1` are computed on unbounded integers. The wrap-around Go would perform at the extremes of `int` (32 or 64 bits, depending on the platform) is not modelled.
- Merging.MergeStep: likewise, no integer width is modelled.
- Processing.ProcessMeaning and Processing.ProcessComplete: these hold only for points other than 0, because the code can lose point 0 (`Scenarios.ZeroRemainderDropped`). `Processing.ProcessCompletePositive` covers the case where no include reaches 0.
- Processing.ProcessShape and Processing.ProcessCoversOnce: these need well-formed includes and excludes, because the code does not reject inverted intervals and an inverted exclude makes the output overlap itself (`Scenarios.InvertedExcludeOverlaps`). Soundness, completeness away from 0 and containment need no such assumption.
- Go's distinction between a nil and an empty slice in the JSON output is not modelled. Both functions start from an empty non-nil slice.
