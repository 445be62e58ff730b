/** Quickselect on an index array: the same walk as `Select`, comparing the
    values the indices point at and rearranging only the indices. */
module IndexSelection {
  import opened Values
  import opened Partitioning
  import opened Selection
  import opened IndexPartitioning

  /** Selecting in the upper group after an indirect partition selects in
      the whole range of the view. */
  lemma TopKAboveIndices(t: seq<int>, r: seq<int>, vals: seq<Value>, left: int, cut: int, k: int, right: int, pivot: Value)
    requires Grouped(View(t, vals), left, cut, right, pivot) && cut < k
    requires PermutedWithin(t, r, cut, right) && TopK(View(r, vals), cut, k, right) && TiesNext(View(r, vals), cut, k, right)
    ensures TopK(View(r, vals), left, k, right) && TiesNext(View(r, vals), left, k, right)
  {
    var u, v := View(t, vals), View(r, vals);
    forall x | cut <= x < right
      ensures pivot < Key(vals, t[x])
    {
      assert u[x] == Key(vals, t[x]);
    }
    PermutedKeeps(t, r, cut, right, x => pivot < Key(vals, x));
    forall x, y | left <= x < cut <= y < right
      ensures v[x] < v[y]
    {
      assert v[x] == u[x] <= pivot;
      assert v[y] == Key(vals, r[y]);
    }
  }

  /** Selecting below the run of pivot values after an indirect partition
      selects in the whole range of the view. */
  lemma TopKBelowIndices(t: seq<int>, r: seq<int>, vals: seq<Value>, left: int, q: int, cut: int, k: int, right: int, pivot: Value)
    requires Grouped(View(t, vals), left, cut, right, pivot) && LessThenEqual(View(t, vals), left, cut, pivot)
    requires left <= k <= q < cut && View(t, vals)[q] != pivot
    requires forall x :: q < x < cut ==> View(t, vals)[x] == pivot
    requires PermutedWithin(t, r, left, q + 1) && TopK(View(r, vals), left, k, q + 1) && TiesNext(View(r, vals), left, k, q + 1)
    ensures TopK(View(r, vals), left, k, right) && TiesNext(View(r, vals), left, k, right)
  {
    var u, v := View(t, vals), View(r, vals);
    assert forall x :: left <= x <= q ==> u[x] < pivot;
    forall x | left <= x < q + 1
      ensures Key(vals, t[x]) < pivot
    {
      assert u[x] == Key(vals, t[x]);
    }
    PermutedKeeps(t, r, left, q + 1, x => Key(vals, x) < pivot);
    forall x, y | left <= x <= q < y < right
      ensures v[x] < v[y]
    {
      assert v[x] == Key(vals, r[x]);
      assert v[y] == u[y];
    }
  }

  /** The state after the recursive call above the boundary: the indices of
      `[left, right)` are a permutation of the original ones and the view is
      split at `k`. */
  lemma SelectedAbove(s: seq<int>, t: seq<int>, r: seq<int>, vals: seq<Value>, left: int, cut: int, k: int, right: int, pivot: Value)
    requires PermutedWithin(s, t, left, right) && Grouped(View(t, vals), left, cut, right, pivot) && cut < k
    requires PermutedWithin(t, r, cut, right) && TopK(View(r, vals), cut, k, right) && TiesNext(View(r, vals), cut, k, right)
    ensures PermutedWithin(s, r, left, right) && TopK(View(r, vals), left, k, right) && TiesNext(View(r, vals), left, k, right)
  {
    TopKAboveIndices(t, r, vals, left, cut, k, right, pivot);
    WidenPermuted(t, r, cut, right, left, right);
    PermutedTrans(s, t, r, left, right);
  }

  /** The state after the recursive call below the run of pivot values. */
  lemma SelectedBelow(s: seq<int>, t: seq<int>, r: seq<int>, vals: seq<Value>, left: int, q: int, cut: int, k: int, right: int, pivot: Value)
    requires PermutedWithin(s, t, left, right) && Grouped(View(t, vals), left, cut, right, pivot) && LessThenEqual(View(t, vals), left, cut, pivot)
    requires left <= k <= q < cut && View(t, vals)[q] != pivot
    requires forall x :: q < x < cut ==> View(t, vals)[x] == pivot
    requires PermutedWithin(t, r, left, q + 1) && TopK(View(r, vals), left, k, q + 1) && TiesNext(View(r, vals), left, k, q + 1)
    ensures PermutedWithin(s, r, left, right) && TopK(View(r, vals), left, k, right) && TiesNext(View(r, vals), left, k, right)
  {
    TopKBelowIndices(t, r, vals, left, q, cut, k, right, pivot);
    WidenPermuted(t, r, left, q + 1, left, right);
    PermutedTrans(s, t, r, left, right);
  }

  /** An indirect partition as the selection as written may call it, around
      the midpoint pivot of a range that may be empty or reversed: it
      rearranges only a proper range, keeps every index pointing into the
      value array, and on a non-empty range returns a boundary above
      `left`. */
  lemma PartitionedIndicesAnyRange(idx: seq<int>, vals: seq<Value>, left: int, right: int)
    requires 0 <= left < |idx| && 0 <= right <= |idx|
    requires ValidRange(idx, vals, 0, |idx|)
    ensures var p := PartitionedIndices(idx, vals, left, right, ChoosePivotIndices(idx, vals, left, right));
      && (left <= right ==> PermutedWithin(idx, p.items, left, right))
      && (left < right ==> left < p.cut)
      && ValidRange(p.items, vals, 0, |idx|)
  {
    var pivot := ChoosePivotIndices(idx, vals, left, right);
    var p := PartitionedIndices(idx, vals, left, right, pivot);
    if left < right {
      PivotIndexJustBelowCut(idx, vals, left, right, p.items, p.cut);
    }
    if left <= right {
      PartitionedIndicesGroups(idx, vals, left, right, pivot);
      WidenPermuted(idx, p.items, left, right, 0, |idx|);
      ValidPermuted(idx, p.items, vals, 0, |idx|);
    }
  }

  /** The indirect selection as written, where the recursive call for a cut
      above the boundary passes `k - part` instead of `k`, and with the
      assertion after `part--` not checked. Every index points into the
      value array, as the indices handed to it must. Only the indices of
      `[left, right)` are rearranged, and a reversed range is left alone. */
  function SelectedIndicesAsWritten(idx: seq<int>, vals: seq<Value>, left: int, right: int, k: int): (r: seq<int>)
    requires 0 <= left < |idx| && 0 <= right <= |idx| && 0 <= k <= right
    requires ValidRange(idx, vals, 0, |idx|)
    ensures left <= right ==> PermutedWithin(idx, r, left, right)
    ensures right < left ==> r == idx
    ensures ValidRange(r, vals, 0, |idx|)
    decreases k, right
  {
    var pivot := ChoosePivotIndices(idx, vals, left, right);
    var p := PartitionedIndices(idx, vals, left, right, pivot);
    PartitionedIndicesAnyRange(idx, vals, left, right);
    if p.cut < k then
      var r := SelectedIndicesAsWritten(p.items, vals, p.cut, right, k - p.cut);
      AsWrittenFrame(idx, p.items, r, left, right, p.cut, right);
      r
    else if k < p.cut then
      var q := SkipEqual(View(p.items, vals), pivot, p.cut - 1, k);
      if q < k then p.items
      else
        var r := SelectedIndicesAsWritten(p.items, vals, left, q + 1, k);
        AsWrittenFrame(idx, p.items, r, left, right, left, q + 1);
        r
    else
      p.items
  }

  /** On the identity indices over `[4, 3, 1, 2]` with the whole range and
      `k = 3`, the indirect selection as written leaves the index of `4`
      before position 3 and the index of `3` after it. */
  lemma AsWrittenIndicesMissTopK()
    ensures ValidRange([0, 1, 2, 3], [4, 3, 1, 2], 0, 4)
    ensures SelectedIndicesAsWritten([0, 1, 2, 3], [4, 3, 1, 2], 0, 4, 3) == [2, 3, 0, 1]
    ensures !TopK(View(SelectedIndicesAsWritten([0, 1, 2, 3], [4, 3, 1, 2], 0, 4, 3), [4, 3, 1, 2]), 0, 3, 4)
  {
    var vals: seq<Value> := [4, 3, 1, 2];
    var s: seq<int> := [0, 1, 2, 3];
    assert ValidRange(s, vals, 0, 4) by {
      forall x | 0 <= x < 4 ensures 0 <= At(s, x) < 4 {
      }
    }
    assert ChoosePivotIndices(s, vals, 0, 4) == 1;
    assert ScanIndices(s, vals, 1, 0, 4, 0) == Parted([2, 1, 3, 0], 1);
    var t: seq<int> := [2, 1, 3, 0];
    assert ValidRange(t, vals, 0, 4) by {
      forall x | 0 <= x < 4 ensures 0 <= At(t, x) < 4 {
      }
    }
    assert ChoosePivotIndices(t, vals, 1, 4) == 2;
    assert ScanIndices(t, vals, 2, 1, 4, 1) == Parted([2, 3, 0, 1], 2);
    var u: seq<int> := [2, 3, 0, 1];
    assert SelectedIndicesAsWritten(t, vals, 1, 4, 2) == u;
    assert SelectedIndicesAsWritten(s, vals, 0, 4, 3) == u;
    assert View(u, vals)[2] == 4 && View(u, vals)[3] == 3;
  }

  /** On the identity indices over `[1, 4, 2, 3]` with the whole range and
      `k = 3`, the indirect selection as written takes the same path as the
      direct one: the index array becomes `[0, 2, 3, 1]` with boundary 2,
      the calls on `[2, 4)` and `[2, 3)` with `k = 1` follow, the second
      one's walk reads position 1 below its `left`, and the call on the
      empty range `[2, 2)` compares the pivot with the value at position 1,
      which differs: the assertion after `part--` fails there. */
  lemma AsWrittenIndicesAssertFails()
    ensures var vals: seq<Value> := [1, 4, 2, 3];
      var s: seq<int> := [0, 1, 2, 3];
      PartitionedIndices(s, vals, 0, 4, ChoosePivotIndices(s, vals, 0, 4)) == Parted([0, 2, 3, 1], 2)
    ensures var vals: seq<Value> := [1, 4, 2, 3];
      var u: seq<int> := [0, 2, 3, 1];
      && PartitionedIndices(u, vals, 2, 4, ChoosePivotIndices(u, vals, 2, 4)) == Parted(u, 4)
      && SkipEqual(View(u, vals), ChoosePivotIndices(u, vals, 2, 4), 3, 1) == 2
      && PartitionedIndices(u, vals, 2, 3, ChoosePivotIndices(u, vals, 2, 3)) == Parted(u, 3)
      && SkipEqual(View(u, vals), ChoosePivotIndices(u, vals, 2, 3), 2, 1) == 1
      && PartitionedIndices(u, vals, 2, 2, ChoosePivotIndices(u, vals, 2, 2)).cut == 2
      && vals[u[1]] != ChoosePivotIndices(u, vals, 2, 2)
  {
    var vals: seq<Value> := [1, 4, 2, 3];
    var s: seq<int> := [0, 1, 2, 3];
    var u: seq<int> := [0, 2, 3, 1];
    assert ChoosePivotIndices(s, vals, 0, 4) == 2;
    assert ScanIndices(s, vals, 2, 0, 4, 0) == Parted(u, 2);
    assert ChoosePivotIndices(u, vals, 2, 4) == 4;
    assert ScanIndices(u, vals, 4, 2, 4, 2) == Parted(u, 4);
    assert ChoosePivotIndices(u, vals, 2, 3) == 3;
    assert ScanIndices(u, vals, 3, 2, 3, 2) == Parted(u, 3);
    assert View(u, vals) == [1, 2, 3, 4];
  }

  /** Steps down from `part` over the indices that point at the pivot value,
      stopping below `stop` or at the first index pointing elsewhere: the
      run the selection and the sort step over before their lower call. */
  method SkipPivotRun(idx: array<int>, arr: seq<Value>, part: int, stop: int, pivot: Value) returns (q: int)
    requires 0 <= stop <= part + 1 && part <= idx.Length
    requires ValidRange(idx[..], arr, stop, part)
    ensures q == SkipEqual(View(idx[..], arr), pivot, part, stop)
  {
    ghost var u := View(idx[..], arr);
    q := part - 1;
    if stop <= q {
      ValidAt(idx[..], arr, stop, part, q);
    }
    while stop <= q && arr[idx[q]] == pivot
      invariant q < part && (stop - 1 <= q || q == part - 1)
      invariant stop <= q ==> 0 <= idx[q] < |arr|
      invariant SkipEqual(u, pivot, q + 1, stop) == SkipEqual(u, pivot, part, stop)
      decreases q
    {
      q := q - 1;
      if stop <= q {
        ValidAt(idx[..], arr, stop, part, q);
      }
    }
  }

  /** Leaving a range alone permutes it. */
  lemma PermutedSelf(s: seq<int>, lo: int, hi: int)
    requires 0 <= lo <= hi <= |s|
    ensures PermutedWithin(s, s, lo, hi)
  {
  }

  /** The indices below `cut` that a permutation of the upper group leaves alone still point
      at values at most the pivot, the last of them at the pivot itself. */
  lemma LowerGroupKept(t: seq<int>, m: seq<int>, vals: seq<Value>, left: int, cut: int, right: int, pivot: Value)
    requires Grouped(View(t, vals), left, cut, right, pivot) && LessThenEqual(View(t, vals), left, cut, pivot) && left < cut
    requires ValidRange(t, vals, left, right) && Key(vals, t[cut - 1]) == pivot
    requires PermutedWithin(t, m, cut, right)
    ensures ValidRange(m, vals, left, cut) && View(m, vals)[cut - 1] == pivot
    ensures forall x :: left <= x < cut ==> View(m, vals)[x] <= pivot
    ensures LessThenEqual(View(m, vals), left, cut, pivot)
  {
    var u, w := View(t, vals), View(m, vals);
    forall x | left <= x < cut
      ensures 0 <= At(m, x) < |vals| && w[x] == u[x] <= pivot
    {
      ValidAt(t, vals, left, right, x);
      assert m[x] == t[x] && u[x] == Key(vals, t[x]);
    }
  }

  /** A top-`k` split of `[left, cut)`, reached by permuting indices that
      all point at values `<= pivot`, is a top-`k` split of the whole range
      when the upper group points at values `> pivot`. */
  lemma TopKLowerGroup(s: seq<int>, t: seq<int>, r: seq<int>, vals: seq<Value>, left: int, k: int, cut: int, right: int, pivot: Value)
    requires PermutedWithin(s, t, left, right) && Grouped(View(t, vals), left, cut, right, pivot) && k < cut
    requires PermutedWithin(t, r, left, cut) && TopK(View(r, vals), left, k, cut) && TiesNext(View(r, vals), left, k, cut)
    ensures PermutedWithin(s, r, left, right) && TopK(View(r, vals), left, k, right) && TiesNext(View(r, vals), left, k, right)
  {
    var u, v := View(t, vals), View(r, vals);
    forall x | left <= x < cut
      ensures Key(vals, t[x]) <= pivot
    {
      assert u[x] == Key(vals, t[x]);
    }
    PermutedKeeps(t, r, left, cut, x => Key(vals, x) <= pivot);
    forall x, y | left <= x < cut <= y < right
      ensures v[x] < v[y]
    {
      assert v[x] == Key(vals, r[x]);
      assert v[y] == u[y];
    }
    WidenPermuted(t, r, left, cut, left, right);
    PermutedTrans(s, t, r, left, right);
  }

  /** Quickselect in place over `idx[left..right)` with `k` as an absolute
      position: the indices of the range are permuted so that every value
      pointed at before `k` is at most every value pointed at from `k` on,
      and from `k` on the indices of the ties come before those of the
      greater values. */
  method SelectIndices(idx: array<int>, arr: seq<Value>, left: int, right: int, k: int)
    requires 0 <= left <= k <= right <= idx.Length && left < idx.Length
    requires ValidRange(idx[..], arr, left, right)
    requires 0 <= idx[Midpoint(left, right)] < |arr|
    modifies idx
    ensures PermutedWithin(old(idx[..]), idx[..], left, right)
    ensures TopK(View(idx[..], arr), left, k, right) && TiesNext(View(idx[..], arr), left, k, right)
    decreases right - left, 1
  {
    var pivot := ChoosePivotIndices(idx[..], arr, left, right);
    ghost var s := idx[..];
    var part := PartitionIndices(idx, arr, left, right, pivot);
    ghost var t := idx[..];
    ghost var cut := part;
    ValidPermuted(s, t, arr, left, right);
    if left < right {
      PivotIndexJustBelowCut(s, arr, left, right, t, cut);
    }
    if part < k {
      ValidWithin(t, arr, left, right, part, right);
      ValidAt(t, arr, left, right, Midpoint(part, right));
      SelectIndices(idx, arr, part, right, k);
      SelectedAbove(s, t, idx[..], arr, left, cut, k, right, pivot);
    } else if k < part {
      PermutedSelf(t, cut, right);
      LowerGroupKept(t, t, arr, left, cut, right, pivot);
      SelectBelowPivotRun(idx, arr, left, part, k, pivot);
      TopKLowerGroup(s, t, idx[..], arr, left, k, cut, right, pivot);
    } else {
      TopKStop(View(t, arr), left, k, cut, right, pivot);
    }
  }

  /** The lower branch of the selection: step down over the run of indices
      below `cut` that point at the pivot value; when the walk passes below
      `k` the range is already split, otherwise select below the run. */
  method SelectBelowPivotRun(idx: array<int>, arr: seq<Value>, left: int, cut: int, k: int, pivot: Value)
    requires 0 <= left <= k < cut <= idx.Length
    requires ValidRange(idx[..], arr, left, cut) && View(idx[..], arr)[cut - 1] == pivot
    requires forall x :: left <= x < cut ==> View(idx[..], arr)[x] <= pivot
    requires LessThenEqual(View(idx[..], arr), left, cut, pivot)
    modifies idx
    ensures PermutedWithin(old(idx[..]), idx[..], left, cut)
    ensures TopK(View(idx[..], arr), left, k, cut) && TiesNext(View(idx[..], arr), left, k, cut)
    decreases cut - left, 0
  {
    ghost var m := idx[..];
    ghost var w := View(m, arr);
    var part := cut - 1;
    ValidAt(m, arr, left, cut, part);
    assert pivot == arr[idx[part]];
    ghost var q := SkipEqual(w, pivot, part, k);
    ValidWithin(m, arr, left, cut, k, part);
    part := SkipPivotRun(idx, arr, part, k, pivot);
    assert idx[..] == m && part == q;
    assert forall x :: part < x < cut ==> w[x] == pivot;
    PermutedSelf(m, left, cut);
    if part < k {
      TopKStop(w, left, k, cut, cut, pivot);
      return;
    }
    ValidWithin(m, arr, left, cut, left, part + 1);
    ValidAt(m, arr, left, cut, Midpoint(left, part + 1));
    SelectIndices(idx, arr, left, part + 1, k);
    SelectedBelow(m, m, idx[..], arr, left, part, cut, k, cut, pivot);
  }
}
