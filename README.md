# hiphip selection and index sorting, modelled in Dafny

This project models the in-place order-statistic code of hiphip's
`JavaBaseline` class for `float` arrays:
- the three-way partition of a half-open range `[left, right)` around a
  pivot value, in a direct form that swaps the value array and an
  indirect form that reads `arr[indices[k]]` and swaps only the index
  array;
- the midpoint pivot choice;
- quickselect (`select`, `selectIndices`), which recurses into the side
  that holds the cut position `k` and steps over the run of values equal
  to the pivot;
- the indirect quicksort `sortIndices`;
- the four running-extreme loops `amax`, `amin`, `maxIndex` and `minIndex`.

Values are modelled as `Value`, an integer newtype with its total order
in place of `float`. The code mutates arrays in loops and recursion, so
the model is imperative where the code is:
- `swap`, `partition`, `select`, `partitionIndices`, `selectIndices` and
  `sortIndices` are Dafny `method`s that change an `array` in place under
  a `modifies` clause, with loop invariants on their loops;
- the indirect methods change only the index array and take `arr` as a
  read-only sequence;
- `amax`, `amin`, `maxIndex` and `minIndex` are methods with loops that
  only read their array;
- both `choosePivot`s are functions (`ChoosePivot`, `ChoosePivotIndices`).

Each method is proved against a specification:
- The partitions equal a functional model (`Partitioned`,
  `PartitionedIndices`) that follows the scan branch by branch. Lemmas
  prove what that model promises: a permutation of the range only, the
  grouping around the pivot, and the pivot just below the returned
  boundary.
- The selections and the sort state their promise outright. That is a
  permutation of the range, plus either the top-`k` split
  (`Selection.TopK`) or non-decreasing order (`IndexSorting.SortedRange`)
  of the values the indices point at.

Modules:
- `Values` (`values.dfy`): the value type, the two-slot swap and
  permutations of a range.
- `Extremes` (`extremes.dfy`): `amax`, `amin`, `maxIndex` and `minIndex`.
- `Partitioning` (`partition.dfy`): `choosePivot` and `partition`.
- `Selection` (`select.dfy`): `select`, with the code as written and the
  corrected version.
- `IndexPartitioning` (`index_partition.dfy`): the indirect `choosePivot`
  and `partitionIndices`. `View(idx, vals)` is the sequence of values the
  indices point at.
- `IndexSelection` (`index_select.dfy`): `selectIndices`, with the code as
  written and the corrected version.
- `IndexSorting` (`index_sort.dfy`): `sortIndices`.

The model follows the code where its documentation comments or a
natural reading of it say otherwise:
- The documentation comments of `select` and `selectIndices` promise the
  smallest `k` values first, then the ties, then the greater values. The
  corrected selections prove both parts: the split at `k`
  (`Selection.TopK`) and the ties before the greater values from `k` on
  (`Selection.TiesNext`).
- `k` is compared with absolute positions (`part < k`, `k < part`), so the
  model reads `k` as an absolute cut position in `[left, right]`, not as
  "the number of elements to select" counted from `left`. The one place that treats it as a count is the
  recursive call at :229 and :296, recorded under Findings.
- Above the returned boundary the partition leaves values strictly
  greater than the pivot, not merely `>=`.
- The early `return j` of the partition happens only when the shrinking
  upper boundary meets the scan cursor. By then every element of the
  range has been classified, so the return never leaves unscanned
  elements behind.
- The `assert pivot == arr[part]` after `part--` (:233, :300, :326) holds
  whenever the pivot is the midpoint value of a non-empty range
  (`Partitioning.PivotJustBelowCut`, `IndexPartitioning.PivotIndexJustBelowCut`).
  In the corrected selections and in the sort, the downward walk that
  follows never reads below `left`, because it stops at `k >= left` or
  at `left`. In the selections as written, `k` can fall below `left`
  after the call at :229 or :296; the walk can then read below `left`
  and the assertion can fail (see Findings).
- A partition called with `left > right` does not run its loop and
  returns `right`. The model keeps that case.

## Model

| member | source | states |
|---|---|---|
| Values.Swap | java/hiphip/float_/JavaBaseline.java:172-176 | the exchange of two slots: the two entries trade places and every other entry stays |
| Values.SwapSlots | java/hiphip/float_/JavaBaseline.java:172-176 | the array after the in-place exchange is `Swap` of the array before it |
| Values.SwapBag | java/hiphip/float_/JavaBaseline.java:172-176 | an exchange keeps the multiset of the array's values |
| Values.SwapPermutes | java/hiphip/float_/JavaBaseline.java:172-176 | an exchange of two slots inside `[lo, hi)` is a permutation of that range that leaves everything outside it alone |
| Extremes.AMax | java/hiphip/float_/JavaBaseline.java:107-114 | on a non-empty array the result occurs in the array and no entry exceeds it |
| Extremes.AMin | java/hiphip/float_/JavaBaseline.java:116-123 | on a non-empty array the result occurs in the array and no entry is below it |
| Extremes.MaxIndex | java/hiphip/float_/JavaBaseline.java:134-151 | the result is a position of a largest value and every earlier entry is strictly smaller, so it is the first such position |
| Extremes.MinIndex | java/hiphip/float_/JavaBaseline.java:153-170 | the result is a position of a smallest value and every earlier entry is strictly larger, so it is the first such position |
| Partitioning.Midpoint | java/hiphip/float_/JavaBaseline.java:209-211 | `(left + right) / 2` lies between the two ends, and strictly below `right` for a non-empty range |
| Partitioning.ChoosePivot | java/hiphip/float_/JavaBaseline.java:209-211 | for a non-empty range the pivot is one of the range's own values |
| Partitioning.Scan | java/hiphip/float_/JavaBaseline.java:193-206 | the scan from the loop state `i, j, k` returns a boundary between `k` and `j` and keeps the length |
| Partitioning.StepAbove | java/hiphip/float_/JavaBaseline.java:194-198 | one turn of the inner `while` over a value above the pivot: either the scan ends at `j - 1 == k` or it continues from the swapped state with `j - 1` |
| Partitioning.StepNotAbove | java/hiphip/float_/JavaBaseline.java:199-205 | one step over a value not above the pivot (swap with `i` when below it and `i < k`, advance `i` when below it) continues the same scan at `k + 1` |
| Partitioning.ScanBag | java/hiphip/float_/JavaBaseline.java:193-206 | the scan keeps the multiset of values |
| Partitioning.ScanFrame | java/hiphip/float_/JavaBaseline.java:193-206 | the scan changes no position outside `[i, j)` |
| Partitioning.ScanGroups | java/hiphip/float_/JavaBaseline.java:178-206 | from a state where `[lo, i)` is below the pivot, `[i, k)` equals it and `[j, hi)` is above it, the scan ends with `[lo, cut)` holding values `<= pivot` (those under it first) and `[cut, hi)` values `> pivot` |
| Partitioning.PivotBelowCut | java/hiphip/float_/JavaBaseline.java:231-233 | after grouping, when the pivot occurs in the range, the position just below the boundary holds the pivot and the boundary is above `lo` |
| Partitioning.Partitioned | java/hiphip/float_/JavaBaseline.java:190-207 | the boundary lies in `[left, right]`, and an empty or reversed range is left alone with boundary `right` |
| Partitioning.PartitionedGroups | java/hiphip/float_/JavaBaseline.java:178-207 | the partition only permutes `[left, right)`; values `<= pivot` lie below the boundary with those under it first, values `> pivot` lie above it, and the pivot sits just below the boundary when it occurs in the range |
| Partitioning.Partition | java/hiphip/float_/JavaBaseline.java:190-207 | the array and the returned boundary are the functional partition of the old array; for `left <= right` the range is permuted in place and grouped around the pivot |
| Partitioning.PivotJustBelowCut | java/hiphip/float_/JavaBaseline.java:226-233 | for the midpoint pivot of a non-empty range the boundary is above `left` and the value just below it is the pivot (the assertion at :233) |
| Selection.SkipEqual | java/hiphip/float_/JavaBaseline.java:234-237 | the downward walk stops below `stop` or at a value different from the pivot, and every position it stepped over holds the pivot |
| Selection.TopKStop | java/hiphip/float_/JavaBaseline.java:234-236 | when the walk passes below `k` inside the run of pivot values (or `k` equals the boundary), the range is already split at `k` and from `k` on the ties come before the greater values |
| Selection.TopKAbove | java/hiphip/float_/JavaBaseline.java:228-229 | a split of the upper group at `k` (absolute), with its ties first, permuted in place after the partition, is a split of the whole range with its ties first and a permutation of it |
| Selection.TopKBelow | java/hiphip/float_/JavaBaseline.java:230-238 | the walk stopped at a value other than the pivot, so everything below the run is under the pivot; a split of `[left, q]` with its ties first is then a split of the whole range with its ties first, and a permutation of it |
| Selection.SelectedAsWritten | java/hiphip/float_/JavaBaseline.java:224-240 | `select` as written, including `k - part` at :229 and with the assertion at :233 unchecked: it only permutes `[left, right)`, and it leaves the array alone when `right < left` |
| Selection.PartitionedAnyRange | java/hiphip/float_/JavaBaseline.java:226-227 | a partition as the as-written selection may call it permutes only a proper range, leaves a reversed one alone, and returns a boundary above `left` on a non-empty range |
| Selection.AsWrittenMissesTopK | java/hiphip/float_/JavaBaseline.java:229 | on `[4, 3, 1, 2]` with `k = 3` the selection as written ends in `[1, 2, 4, 3]`, which is not split at 3 |
| Selection.AsWrittenFrame | java/hiphip/float_/JavaBaseline.java:226-238 | a partition of `[left, right)` followed by a recursive call on a range inside it, either of which may be reversed, rearranges only `[left, right)` and nothing when `right < left` |
| Selection.AsWrittenAssertFails | java/hiphip/float_/JavaBaseline.java:224-238 | on `[1, 4, 2, 3]` with `k = 3` the selection as written reaches the call on the empty range `[2, 2)` with `k = 1`, after a walk that read position 1 below its `left = 2`; there the value below the boundary is not the pivot, so the assertion at :233 fails |
| Selection.Select | java/hiphip/float_/JavaBaseline.java:213-240 | with `k` absolute, the range is permuted in place, every value before `k` is at most every value from `k` on, and from `k` on the values tying one before `k` come before the greater ones |
| IndexPartitioning.View | java/hiphip/float_/JavaBaseline.java:261-266 | the values the indices point at, one per index |
| IndexPartitioning.ViewSwap | java/hiphip/float_/JavaBaseline.java:264-268 | exchanging two indices exchanges the two values they point at |
| IndexPartitioning.ValidSwap | java/hiphip/float_/JavaBaseline.java:264-268 | exchanging two indices of a range keeps every index of it pointing into `arr` |
| IndexPartitioning.ValidPermuted | java/hiphip/float_/JavaBaseline.java:257-274 | any permutation of a range of indices keeps them pointing into `arr` |
| IndexPartitioning.ChoosePivotIndices | java/hiphip/float_/JavaBaseline.java:276-278 | the indirect pivot is the direct pivot choice applied to the values the indices point at |
| IndexPartitioning.ScanIndices | java/hiphip/float_/JavaBaseline.java:259-273 | the indirect scan returns a boundary between `k` and `j` and keeps the length |
| IndexPartitioning.ScanIndicesView | java/hiphip/float_/JavaBaseline.java:257-274 | the values the indirect scan leaves behind, and its boundary, are exactly what the direct scan does to those values |
| IndexPartitioning.ScanIndicesPermutes | java/hiphip/float_/JavaBaseline.java:257-274 | the indirect scan only permutes the indices in `[i, j)` |
| IndexPartitioning.PartitionedIndices | java/hiphip/float_/JavaBaseline.java:257-274 | the boundary lies in `[left, right]`, and an empty or reversed range is left alone with boundary `right` |
| IndexPartitioning.PartitionedIndicesGroups | java/hiphip/float_/JavaBaseline.java:243-274 | the indirect partition permutes only the indices of `[left, right)`, its view equals the direct partition of the old view, and the view is grouped around the pivot |
| IndexPartitioning.PivotIndexJustBelowCut | java/hiphip/float_/JavaBaseline.java:293-300 | for the midpoint pivot of a non-empty range the boundary is above `left` and the index just below it points at the pivot (the assertion at :300) |
| IndexPartitioning.AboveStep | java/hiphip/float_/JavaBaseline.java:261-265 | one turn of the inner `while` of the indirect scan, over an index pointing above the pivot |
| IndexPartitioning.NotAboveStep | java/hiphip/float_/JavaBaseline.java:266-271 | one step of the indirect scan over an index pointing at a value not above the pivot |
| IndexPartitioning.PartitionIndices | java/hiphip/float_/JavaBaseline.java:257-274 | the index array and the boundary are the functional indirect partition; for `left <= right` the indices of the range are permuted in place and the values they point at are grouped around the pivot |
| IndexSelection.TopKAboveIndices | java/hiphip/float_/JavaBaseline.java:295-296 | a split of the view of the upper group with its ties first is a split of the whole view with its ties first |
| IndexSelection.TopKBelowIndices | java/hiphip/float_/JavaBaseline.java:297-305 | the walk stopped at an index pointing elsewhere than the pivot, so the view below the run is under the pivot; a split of it with its ties first is a split of the whole view with its ties first |
| IndexSelection.SelectedAbove | java/hiphip/float_/JavaBaseline.java:295-296 | after the upper recursive call the indices of the whole range are permuted and the view is split at `k` with its ties first |
| IndexSelection.SelectedBelow | java/hiphip/float_/JavaBaseline.java:297-305 | after the lower recursive call the indices of the whole range are permuted and the view is split at `k` with its ties first |
| IndexSelection.PartitionedIndicesAnyRange | java/hiphip/float_/JavaBaseline.java:293-294 | an indirect partition as the as-written selection may call it permutes only the indices of a proper range, keeps every index pointing into `arr`, and returns a boundary above `left` on a non-empty range |
| IndexSelection.SelectedIndicesAsWritten | java/hiphip/float_/JavaBaseline.java:280-307 | `selectIndices` as written, on indices that all point into `arr` as its documentation requires, including `k - part` at :296 and with the assertion at :300 unchecked: it only permutes the indices of `[left, right)`, leaves them alone when `right < left`, and keeps them pointing into `arr` |
| IndexSelection.AsWrittenIndicesMissTopK | java/hiphip/float_/JavaBaseline.java:296 | the identity indices over `[4, 3, 1, 2]` all point into the array, and with `k = 3` the selection as written ends in `[2, 3, 0, 1]`, whose view `[1, 2, 4, 3]` is not split at 3 |
| IndexSelection.AsWrittenIndicesAssertFails | java/hiphip/float_/JavaBaseline.java:292-305 | on identity indices over `[1, 4, 2, 3]` with `k = 3` the selection as written reaches the call on `[2, 2)` with `k = 1`, where the index below the boundary does not point at the pivot, so the assertion at :300 fails |
| IndexSelection.SkipPivotRun | java/hiphip/float_/JavaBaseline.java:301-304 | the `do`/`while` walk over indices pointing at the pivot stops where `SkipEqual` says on the view, and changes nothing |
| IndexSelection.LowerGroupKept | java/hiphip/float_/JavaBaseline.java:297-300 | indices below the boundary that a permutation of the upper group leaves alone still point at values `<= pivot`, those under the pivot first, and the last one points at the pivot |
| IndexSelection.TopKLowerGroup | java/hiphip/float_/JavaBaseline.java:297-305 | a split of `[left, cut)` with its ties first, reached by permuting indices that point at values `<= pivot`, is a split of the whole range with its ties first |
| IndexSelection.SelectBelowPivotRun | java/hiphip/float_/JavaBaseline.java:298-305 | stepping down over the run of pivot values, and then returning or selecting below the run, permutes the indices of `[left, cut)` and splits their view at `k` with the ties first |
| IndexSelection.SelectIndices | java/hiphip/float_/JavaBaseline.java:280-307 | with `k` absolute, the indices of the range are permuted in place, `arr` is only read, every value pointed at before `k` is at most every value pointed at from `k` on, and from `k` on the indices of the ties come before those of the greater values |
| IndexSorting.SortedBelowRun | java/hiphip/float_/JavaBaseline.java:324-331 | a sorted lower part of values `<= pivot` followed by the run of pivot values is sorted |
| IndexSorting.SortedGroups | java/hiphip/float_/JavaBaseline.java:321-331 | a sorted part `[left, cut)` of values `<= pivot` followed by a sorted upper group of values `> pivot` is sorted, and the two steps together permute the range |
| IndexSorting.SortIndices | java/hiphip/float_/JavaBaseline.java:320-332 | on a non-empty range the indices are permuted in place, `arr` is only read, and the values they point at are in non-decreasing order |
| IndexSorting.SortBelowPivotRun | java/hiphip/float_/JavaBaseline.java:324-331 | stepping down over the run of pivot values and sorting below it sorts `[left, cut)` by permuting its indices |

## Left out

- Floating point: values are a total order on integers. NaN, signed zero
  and the IEEE comparison rules of `<` and `==` on `float` are not
  modelled.
- Integer width: `(left + right) / 2` and the indices are unbounded
  integers. The 32-bit overflow of `left + right` for ranges near
  `Integer.MAX_VALUE` is not modelled.
- Java exceptions: out-of-bounds accesses are excluded by `requires`
  clauses (ranges inside the arrays, every index in the range pointing
  into `arr`; for the indirect selection as written, every index of the
  array, since its walk can leave the range). The `ArrayIndexOutOfBoundsException` paths are not
  modelled.
- JVM assertions: in the corrected selections and the sort, the `assert`
  at :233, :300 and :326 is proved as a lemma and as a Dafny `assert`.
  Selection.SelectedAsWritten and IndexSelection.SelectedIndicesAsWritten
  model the code run with assertions disabled: they do not stop where the
  assertion fails (see Findings). Whether assertions are enabled at run
  time is not otherwise modelled.
- Recursion depth, stack overflow and the running time of the fixed
  midpoint pivot are not modelled.
- `hiphip.IndexArrays.swap` is not part of this model. Its two uses
  (:264, :268) are modelled as the plain two-slot exchange
  `Values.SwapSlots` on the index array.
- IndexPartitioning.PartitionIndices, IndexSelection.SelectIndices and
  IndexSorting.SortIndices take `arr` as a sequence, because these methods
  only read it. That `arr` is left untouched is therefore by
  construction, not a proved frame.
- IndexSelection.SelectIndices: the branch at :297-305 is the separate
  method `SelectBelowPivotRun`, which calls `SelectIndices` back. Inside
  it, the `do`/`while` at :301-304 is the non-mutating method
  `SkipPivotRun`, and the early `return` is taken on its result.
- IndexSorting.SortIndices: lines :324-331 (the walk over the pivot run
  and the lower recursive call) are the separate method
  `SortBelowPivotRun`, which calls `SortIndices` back. The walk is
  `SkipPivotRun` with `left + 1` as its bound.
- IndexSorting.SortIndices requires a non-empty range. For `left == right`
  the assertion at :326 reads the position `left - 1`, outside the range.
- Selection.Select and IndexSelection.SelectIndices are the corrected
  selections, with `k` passed unchanged at :229 and :296. The code as
  written is modelled only as the functions on sequences
  `Selection.SelectedAsWritten` and `IndexSelection.SelectedIndicesAsWritten`.
- Selection.Select and IndexSelection.SelectIndices state the split at
  `k` and the ties before the greater values, not that the front holds
  exactly the `k` smallest values as a multiset. The multiset follows
  from the split together with the permutation, but it is not stated
  separately.
- Idempotence of `sortIndices` and the equivalence of the indirect
  selection and sort with the direct ones on gathered values are not
  modelled. The equivalence is proved for the partition step only
  (`IndexPartitioning.PartitionedIndicesGroups`).
- The remaining methods of the class are not part of this model: `alength`,
  `aget`, `aset`, `aclone`, the float sums, products, means and maps, and
  `dot_product`. They are floating-point arithmetic or trivial wrappers.

## Findings

| source | as written | input that shows it | evidently intended | confidence | as-written member | corrected member |
|---|---|---|---|---|---|---|
| java/hiphip/float_/JavaBaseline.java:229 | the upper recursive call of `select` passes `k - part`, while `k` is compared with absolute positions at :228, :230 and :236 | `arr = [4, 3, 1, 2]`, `select(arr, 0, 4, 3)`: the first partition returns 1, and the call with `k = 2` on `[1, 4)` ends with `[1, 2, 4, 3]`, where 4 sits before position 3 and 3 after it. With `arr = [1, 4, 2, 3]` and `k = 3` the call `select(arr, 2, 3, 1)` is reached, whose walk reads `arr[1]` below its `left`, and then `select(arr, 2, 2, 1)`, where the assertion at :233 compares the pivot 3 with `arr[1] = 2` and fails when assertions are enabled | pass `k` unchanged, so that every value before `k` is at most every value from `k` on | not executed | Selection.AsWrittenMissesTopK, Selection.AsWrittenAssertFails | Selection.Select |
| java/hiphip/float_/JavaBaseline.java:296 | the upper recursive call of `selectIndices` passes `k - part`, while `k` is compared with absolute positions at :295, :297 and :303 | `arr = [4, 3, 1, 2]`, `indices = [0, 1, 2, 3]`, `selectIndices(indices, arr, 0, 4, 3)` ends with `indices = [2, 3, 0, 1]`, which points at `[1, 2, 4, 3]`. With `arr = [1, 4, 2, 3]` and identity indices the same path reaches the call on `[2, 2)` with `k = 1`, where the assertion at :300 fails when assertions are enabled | pass `k` unchanged, so that every value pointed at before `k` is at most every value pointed at from `k` on | not executed | IndexSelection.AsWrittenIndicesMissTopK, IndexSelection.AsWrittenIndicesAssertFails | IndexSelection.SelectIndices |
