/** Quicksort on an index array: partition the indices around the midpoint
    value, sort the upper group, step down over the run of indices pointing
    at the pivot value, then sort what lies below that run. */
module IndexSorting {
  import opened Values
  import opened Partitioning
  import opened Selection
  import opened IndexPartitioning
  import opened IndexSelection

  /** The values of `[lo, hi)` are in non-decreasing order. */
  ghost predicate SortedRange(s: seq<Value>, lo: int, hi: int)
  {
    && 0 <= lo <= hi <= |s|
    && (forall x, y :: lo <= x < y < hi ==> s[x] <= s[y])
  }

  /** A range of at most one position is sorted. */
  lemma SortedShort(s: seq<Value>, lo: int, hi: int)
    requires 0 <= lo <= hi <= |s| && hi <= lo + 1
    ensures SortedRange(s, lo, hi)
  {
  }

  /** A sorted lower part `[left, q]` of values at most the pivot followed
      by a run of pivot values up to `cut` makes a sorted range. */
  lemma SortedBelowRun(m: seq<int>, r: seq<int>, vals: seq<Value>, left: int, q: int, cut: int, pivot: Value)
    requires 0 <= left && left - 1 <= q < cut <= |m|
    requires forall x :: left <= x < cut ==> View(m, vals)[x] <= pivot
    requires forall x :: q < x < cut ==> View(m, vals)[x] == pivot
    requires PermutedWithin(m, r, left, q + 1) && SortedRange(View(r, vals), left, q + 1)
    ensures PermutedWithin(m, r, left, cut) && SortedRange(View(r, vals), left, cut)
  {
    var w, v := View(m, vals), View(r, vals);
    forall x | left <= x < q + 1
      ensures Key(vals, m[x]) <= pivot
    {
      assert w[x] == Key(vals, m[x]);
    }
    PermutedKeeps(m, r, left, q + 1, x => Key(vals, x) <= pivot);
    forall x, y | left <= x < y < cut
      ensures v[x] <= v[y]
    {
      if q < y {
        assert v[y] == w[y] == pivot;
        if q < x {
          assert v[x] == w[x];
        } else {
          assert v[x] == Key(vals, r[x]);
        }
      }
    }
    WidenPermuted(m, r, left, q + 1, left, cut);
  }

  /** A sorted range `[left, cut)` of values at most the pivot followed by a
      sorted upper group of values above it makes a sorted range. */
  lemma SortedGroups(t: seq<int>, m: seq<int>, r: seq<int>, vals: seq<Value>, left: int, cut: int, right: int, pivot: Value)
    requires Grouped(View(t, vals), left, cut, right, pivot)
    requires PermutedWithin(t, m, cut, right) && SortedRange(View(m, vals), cut, right)
    requires PermutedWithin(m, r, left, cut) && SortedRange(View(r, vals), left, cut)
    ensures PermutedWithin(t, r, left, right) && SortedRange(View(r, vals), left, right)
  {
    var u, w, v := View(t, vals), View(m, vals), View(r, vals);
    forall x | cut <= x < right
      ensures pivot < Key(vals, t[x])
    {
      assert u[x] == Key(vals, t[x]);
    }
    PermutedKeeps(t, m, cut, right, x => pivot < Key(vals, x));
    forall x | left <= x < cut
      ensures Key(vals, m[x]) <= pivot
    {
      assert m[x] == t[x] && u[x] == Key(vals, t[x]);
    }
    PermutedKeeps(m, r, left, cut, x => Key(vals, x) <= pivot);
    forall x, y | left <= x < y < right
      ensures v[x] <= v[y]
    {
      if x < cut <= y {
        assert v[x] == Key(vals, r[x]);
        assert v[y] == w[y] == Key(vals, m[y]);
      } else if cut <= x {
        assert v[x] == w[x] && v[y] == w[y];
      }
    }
    WidenPermuted(t, m, cut, right, left, right);
    WidenPermuted(m, r, left, cut, left, right);
    PermutedTrans(t, m, r, left, right);
  }

  /** Quicksort in place over `idx[left..right)`: the indices of the range
      are permuted so that the values they point at are in non-decreasing
      order. */
  method SortIndices(idx: array<int>, arr: seq<Value>, left: int, right: int)
    requires 0 <= left < right <= idx.Length
    requires ValidRange(idx[..], arr, left, right)
    modifies idx
    ensures PermutedWithin(old(idx[..]), idx[..], left, right)
    ensures SortedRange(View(idx[..], arr), left, right)
    decreases right - left, 1
  {
    ValidAt(idx[..], arr, left, right, Midpoint(left, right));
    var pivot := ChoosePivotIndices(idx[..], arr, left, right);
    ghost var s := idx[..];
    var part := PartitionIndices(idx, arr, left, right, pivot);
    ghost var t := idx[..];
    ValidPermuted(s, t, arr, left, right);
    PivotIndexJustBelowCut(s, arr, left, right, t, part);
    if part + 1 < right {
      ValidWithin(t, arr, left, right, part, right);
      SortIndices(idx, arr, part, right);
    } else {
      PermutedSelf(t, part, right);
      SortedShort(View(t, arr), part, right);
    }
    ghost var m := idx[..];
    LowerGroupKept(t, m, arr, left, part, right, pivot);
    SortBelowPivotRun(idx, arr, left, part, pivot);
    SortedGroups(t, m, idx[..], arr, left, part, right, pivot);
    PermutedTrans(s, t, idx[..], left, right);
  }

  /** The tail of the sort after the upper group is done: step down over the
      run of indices below `cut` that point at the pivot value, then sort
      what lies below that run. */
  method SortBelowPivotRun(idx: array<int>, arr: seq<Value>, left: int, cut: int, pivot: Value)
    requires 0 <= left < cut <= idx.Length
    requires ValidRange(idx[..], arr, left, cut) && View(idx[..], arr)[cut - 1] == pivot
    requires forall x :: left <= x < cut ==> View(idx[..], arr)[x] <= pivot
    modifies idx
    ensures PermutedWithin(old(idx[..]), idx[..], left, cut)
    ensures SortedRange(View(idx[..], arr), left, cut)
    decreases cut - left, 0
  {
    ghost var m := idx[..];
    ghost var w := View(m, arr);
    var part := cut - 1;
    ValidAt(m, arr, left, cut, part);
    assert pivot == arr[idx[part]];
    ghost var q := SkipEqual(w, pivot, part, left + 1);
    ValidWithin(m, arr, left, cut, left + 1, part);
    part := SkipPivotRun(idx, arr, part, left + 1, pivot);
    assert idx[..] == m && part == q;
    assert forall x :: part < x < cut ==> w[x] == pivot;
    if part <= left {
      PermutedSelf(m, left, part + 1);
      SortedShort(w, left, part + 1);
      SortedBelowRun(m, m, arr, left, part, cut, pivot);
      return;
    }
    ValidWithin(m, arr, left, cut, left, part + 1);
    ValidAt(m, arr, left, cut, Midpoint(left, part + 1));
    SortIndices(idx, arr, left, part + 1);
    SortedBelowRun(m, idx[..], arr, left, part, cut, pivot);
  }
}
