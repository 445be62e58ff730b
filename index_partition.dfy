/** The pivot choice and the three-way partition for an index array: the
    values compared are `vals[idx[n]]`, and only the index array is
    rearranged. */
module IndexPartitioning {
  import opened Values
  import opened Partitioning

  /** The value an index points at; an index outside the value array reads
      as `0` (the array accesses below never reach that case). */
  function Key(vals: seq<Value>, x: int): Value
  {
    if 0 <= x < |vals| then vals[x] else 0
  }

  /** The values the index sequence points at, position by position. */
  function View(idx: seq<int>, vals: seq<Value>): (v: seq<Value>)
    ensures |v| == |idx|
  {
    seq(|idx|, n requires 0 <= n < |idx| => Key(vals, idx[n]))
  }

  /** The entry at `x`; written out as a function so that `ValidRange` is
      instantiated only where an entry is looked up through it. */
  function At(idx: seq<int>, x: int): int
    requires 0 <= x < |idx|
  {
    idx[x]
  }

  /** Every index in `[lo, hi)` points into the value array. */
  ghost predicate ValidRange(idx: seq<int>, vals: seq<Value>, lo: int, hi: int)
  {
    forall x {:trigger At(idx, x)} :: lo <= x < hi && 0 <= x < |idx| ==> 0 <= At(idx, x) < |vals|
  }

  /** An index of a valid range points into the value array. */
  lemma ValidAt(idx: seq<int>, vals: seq<Value>, lo: int, hi: int, x: int)
    requires ValidRange(idx, vals, lo, hi) && lo <= x < hi && 0 <= x < |idx|
    ensures 0 <= idx[x] < |vals|
  {
    assert At(idx, x) == idx[x];
  }

  /** A valid range stays valid when narrowed. */
  lemma ValidWithin(idx: seq<int>, vals: seq<Value>, lo: int, hi: int, lo2: int, hi2: int)
    requires ValidRange(idx, vals, lo, hi) && lo <= lo2 && hi2 <= hi
    ensures ValidRange(idx, vals, lo2, hi2)
  {
  }

  /** Exchanging two indices exchanges the two values they point at. */
  lemma ViewSwap(idx: seq<int>, vals: seq<Value>, i: int, j: int)
    requires 0 <= i < |idx| && 0 <= j < |idx|
    ensures View(Swap(idx, i, j), vals) == Swap(View(idx, vals), i, j)
  {
  }

  /** Exchanging two indices of a range keeps every index of it pointing
      into the value array. */
  lemma ValidSwap(idx: seq<int>, vals: seq<Value>, lo: int, hi: int, i: int, j: int)
    requires ValidRange(idx, vals, lo, hi) && 0 <= lo <= i < hi && lo <= j < hi && hi <= |idx|
    ensures ValidRange(Swap(idx, i, j), vals, lo, hi)
  {
    forall x | lo <= x < hi
      ensures 0 <= At(Swap(idx, i, j), x) < |vals|
    {
      assert At(idx, i) == idx[i] && At(idx, j) == idx[j] && At(idx, x) == idx[x];
    }
  }

  /** A permutation of a range keeps every index of it pointing into the
      value array. */
  lemma ValidPermuted(t: seq<int>, r: seq<int>, vals: seq<Value>, lo: int, hi: int)
    requires PermutedWithin(t, r, lo, hi) && ValidRange(t, vals, lo, hi)
    ensures ValidRange(r, vals, lo, hi)
  {
    forall x | lo <= x < hi
      ensures 0 <= t[x] < |vals|
    {
      ValidAt(t, vals, lo, hi, x);
    }
    PermutedKeeps(t, r, lo, hi, x => 0 <= x < |vals|);
    forall x | lo <= x < hi
      ensures 0 <= At(r, x) < |vals|
    {
    }
  }

  /** The pivot is the value the midpoint index points at: the direct
      pivot choice applied to the view. */
  function ChoosePivotIndices(idx: seq<int>, vals: seq<Value>, left: int, right: int): (p: Value)
    requires 0 <= left && 0 <= right <= |idx| && Midpoint(left, right) < |idx|
    ensures p == ChoosePivot(View(idx, vals), left, right)
  {
    Key(vals, idx[Midpoint(left, right)])
  }

  /** The scan of the indirect partition: the same steps as `Scan`, with the
      comparisons made on the values the indices point at and the exchanges
      made on the indices. */
  function ScanIndices(idx: seq<int>, vals: seq<Value>, pivot: Value, i: int, j: int, k: int): (r: Parted<int>)
    requires 0 <= i <= k <= j <= |idx|
    ensures |r.items| == |idx| && k <= r.cut <= j
    decreases j - k
  {
    if k < j then
      if pivot < Key(vals, idx[k]) then
        if j - 1 == k then Parted(idx, j - 1)
        else ScanIndices(Swap(idx, j - 1, k), vals, pivot, i, j - 1, k)
      else if Key(vals, idx[k]) < pivot then
        if i < k then ScanIndices(Swap(idx, i, k), vals, pivot, i + 1, j, k + 1)
        else ScanIndices(idx, vals, pivot, i + 1, j, k + 1)
      else
        ScanIndices(idx, vals, pivot, i, j, k + 1)
    else
      Parted(idx, j)
  }

  /** One step of the indirect scan over a value above the pivot. */
  lemma ScanIndicesAbove(idx: seq<int>, vals: seq<Value>, pivot: Value, i: int, j: int, k: int)
    requires 0 <= i <= k < j - 1 && j <= |idx| && pivot < Key(vals, idx[k])
    ensures ScanIndices(idx, vals, pivot, i, j, k) == ScanIndices(Swap(idx, j - 1, k), vals, pivot, i, j - 1, k)
  {
  }

  /** One step of the indirect scan over a value below the pivot. */
  lemma ScanIndicesBelow(idx: seq<int>, vals: seq<Value>, pivot: Value, i: int, j: int, k: int)
    requires 0 <= i <= k < j <= |idx| && Key(vals, idx[k]) < pivot
    ensures i < k ==> ScanIndices(idx, vals, pivot, i, j, k) == ScanIndices(Swap(idx, i, k), vals, pivot, i + 1, j, k + 1)
    ensures i == k ==> ScanIndices(idx, vals, pivot, i, j, k) == ScanIndices(idx, vals, pivot, i + 1, j, k + 1)
  {
  }

  /** One step of the indirect scan over a value equal to the pivot. */
  lemma ScanIndicesEqual(idx: seq<int>, vals: seq<Value>, pivot: Value, i: int, j: int, k: int)
    requires 0 <= i <= k < j <= |idx| && Key(vals, idx[k]) == pivot
    ensures ScanIndices(idx, vals, pivot, i, j, k) == ScanIndices(idx, vals, pivot, i, j, k + 1)
  {
  }

  /** Read through the value array, the indirect scan from `i`, `j`, `k` is
      the direct scan of the view: the same values in the same order and the
      same boundary. */
  ghost predicate ScanMatchesView(idx: seq<int>, vals: seq<Value>, pivot: Value, i: int, j: int, k: int)
    requires 0 <= i <= k <= j <= |idx|
  {
    var r := ScanIndices(idx, vals, pivot, i, j, k);
    Parted(View(r.items, vals), r.cut) == Scan(View(idx, vals), pivot, i, j, k)
  }

  /** The indirect scan is the direct scan of the view. */
  lemma {:induction false} ScanIndicesView(idx: seq<int>, vals: seq<Value>, pivot: Value, i: int, j: int, k: int)
    requires 0 <= i <= k <= j <= |idx|
    ensures ScanMatchesView(idx, vals, pivot, i, j, k)
    decreases j - k, 1
  {
    if k == j {
    } else if pivot < Key(vals, idx[k]) {
      ViewAbove(idx, vals, pivot, i, j, k);
    } else if Key(vals, idx[k]) < pivot {
      ViewBelow(idx, vals, pivot, i, j, k);
    } else {
      ViewEqual(idx, vals, pivot, i, j, k);
    }
  }

  /** `ScanIndicesView` for a step over a value above the pivot. */
  lemma {:induction false} ViewAbove(idx: seq<int>, vals: seq<Value>, pivot: Value, i: int, j: int, k: int)
    requires 0 <= i <= k < j <= |idx| && pivot < Key(vals, idx[k])
    ensures ScanMatchesView(idx, vals, pivot, i, j, k)
    decreases j - k, 0
  {
    var v := View(idx, vals);
    if j - 1 != k {
      ViewSwap(idx, vals, j - 1, k);
      ScanIndicesAbove(idx, vals, pivot, i, j, k);
      ScanAbove(v, pivot, i, j, k);
      ScanIndicesView(Swap(idx, j - 1, k), vals, pivot, i, j - 1, k);
    }
  }

  /** `ScanIndicesView` for a step over a value below the pivot. */
  lemma {:induction false} ViewBelow(idx: seq<int>, vals: seq<Value>, pivot: Value, i: int, j: int, k: int)
    requires 0 <= i <= k < j <= |idx| && Key(vals, idx[k]) < pivot
    ensures ScanMatchesView(idx, vals, pivot, i, j, k)
    decreases j - k, 0
  {
    var v := View(idx, vals);
    ScanIndicesBelow(idx, vals, pivot, i, j, k);
    ScanBelow(v, pivot, i, j, k);
    if i < k {
      ViewSwap(idx, vals, i, k);
      ScanIndicesView(Swap(idx, i, k), vals, pivot, i + 1, j, k + 1);
    } else {
      ScanIndicesView(idx, vals, pivot, i + 1, j, k + 1);
    }
  }

  /** `ScanIndicesView` for a step over a value equal to the pivot. */
  lemma {:induction false} ViewEqual(idx: seq<int>, vals: seq<Value>, pivot: Value, i: int, j: int, k: int)
    requires 0 <= i <= k < j <= |idx| && Key(vals, idx[k]) == pivot
    ensures ScanMatchesView(idx, vals, pivot, i, j, k)
    decreases j - k, 0
  {
    var v := View(idx, vals);
    ScanIndicesEqual(idx, vals, pivot, i, j, k);
    ScanEqual(v, pivot, i, j, k);
    ScanIndicesView(idx, vals, pivot, i, j, k + 1);
  }

  /** The indirect scan from `i`, `j`, `k` only permutes the indices in
      `[i, j)`. */
  ghost predicate ScanIndicesPermuted(idx: seq<int>, vals: seq<Value>, pivot: Value, i: int, j: int, k: int)
    requires 0 <= i <= k <= j <= |idx|
  {
    PermutedWithin(idx, ScanIndices(idx, vals, pivot, i, j, k).items, i, j)
  }

  /** The indirect scan only permutes the indices in `[i, j)`. */
  lemma {:induction false} ScanIndicesPermutes(idx: seq<int>, vals: seq<Value>, pivot: Value, i: int, j: int, k: int)
    requires 0 <= i <= k <= j <= |idx|
    ensures ScanIndicesPermuted(idx, vals, pivot, i, j, k)
    decreases j - k, 1
  {
    if k == j {
    } else if pivot < Key(vals, idx[k]) {
      PermutesAbove(idx, vals, pivot, i, j, k);
    } else if Key(vals, idx[k]) < pivot {
      PermutesBelow(idx, vals, pivot, i, j, k);
    } else {
      PermutesEqual(idx, vals, pivot, i, j, k);
    }
  }

  /** `ScanIndicesPermutes` for a step over a value above the pivot. */
  lemma {:induction false} PermutesAbove(idx: seq<int>, vals: seq<Value>, pivot: Value, i: int, j: int, k: int)
    requires 0 <= i <= k < j <= |idx| && pivot < Key(vals, idx[k])
    ensures ScanIndicesPermuted(idx, vals, pivot, i, j, k)
    decreases j - k, 0
  {
    if j - 1 != k {
      var t := Swap(idx, j - 1, k);
      var r := ScanIndices(t, vals, pivot, i, j - 1, k).items;
      ScanIndicesAbove(idx, vals, pivot, i, j, k);
      SwapPermutes(idx, j - 1, k, i, j);
      ScanIndicesPermutes(t, vals, pivot, i, j - 1, k);
      WidenPermuted(t, r, i, j - 1, i, j);
      PermutedTrans(idx, t, r, i, j);
    }
  }

  /** `ScanIndicesPermutes` for a step over a value below the pivot. */
  lemma {:induction false} PermutesBelow(idx: seq<int>, vals: seq<Value>, pivot: Value, i: int, j: int, k: int)
    requires 0 <= i <= k < j <= |idx| && Key(vals, idx[k]) < pivot
    ensures ScanIndicesPermuted(idx, vals, pivot, i, j, k)
    decreases j - k, 0
  {
    ScanIndicesBelow(idx, vals, pivot, i, j, k);
    if i < k {
      var t := Swap(idx, i, k);
      var r := ScanIndices(t, vals, pivot, i + 1, j, k + 1).items;
      SwapPermutes(idx, i, k, i, j);
      ScanIndicesPermutes(t, vals, pivot, i + 1, j, k + 1);
      WidenPermuted(t, r, i + 1, j, i, j);
      PermutedTrans(idx, t, r, i, j);
    } else {
      ScanIndicesPermutes(idx, vals, pivot, i + 1, j, k + 1);
      WidenPermuted(idx, ScanIndices(idx, vals, pivot, i + 1, j, k + 1).items, i + 1, j, i, j);
    }
  }

  /** `ScanIndicesPermutes` for a step over a value equal to the pivot. */
  lemma {:induction false} PermutesEqual(idx: seq<int>, vals: seq<Value>, pivot: Value, i: int, j: int, k: int)
    requires 0 <= i <= k < j <= |idx| && Key(vals, idx[k]) == pivot
    ensures ScanIndicesPermuted(idx, vals, pivot, i, j, k)
    decreases j - k, 0
  {
    ScanIndicesEqual(idx, vals, pivot, i, j, k);
    ScanIndicesPermutes(idx, vals, pivot, i, j, k + 1);
  }

  /** The indirect partition of `[left, right)` around `pivot`, with the
      boundary it returns; an empty or reversed range is left alone. */
  function PartitionedIndices(idx: seq<int>, vals: seq<Value>, left: int, right: int, pivot: Value): (r: Parted<int>)
    requires 0 <= left && right <= |idx|
    ensures |r.items| == |idx|
    ensures left <= right ==> left <= r.cut <= right
    ensures right <= left ==> r == Parted(idx, right)
  {
    if left < right then ScanIndices(idx, vals, pivot, left, right, left) else Parted(idx, right)
  }

  /** The indirect partition rearranges only the indices in `[left, right)`,
      and the values they point at are grouped as the direct partition
      groups them: those `<= pivot` below the boundary, the greater ones
      above it, the ones under the pivot before the ones equal to it. */
  lemma PartitionedIndicesGroups(idx: seq<int>, vals: seq<Value>, left: int, right: int, pivot: Value)
    requires 0 <= left <= right <= |idx|
    ensures var r := PartitionedIndices(idx, vals, left, right, pivot);
      && PermutedWithin(idx, r.items, left, right)
      && Parted(View(r.items, vals), r.cut) == Partitioned(View(idx, vals), left, right, pivot)
      && Grouped(View(r.items, vals), left, r.cut, right, pivot)
      && LessThenEqual(View(r.items, vals), left, r.cut, pivot)
  {
    if left < right {
      ScanIndicesPermutes(idx, vals, pivot, left, right, left);
      ScanIndicesView(idx, vals, pivot, left, right, left);
    }
    PartitionedGroups(View(idx, vals), left, right, pivot);
  }

  /** The value pointed at just below the boundary `cut` returned for the
      midpoint pivot is that pivot, so the boundary is above `left`. */
  lemma PivotIndexJustBelowCut(idx: seq<int>, vals: seq<Value>, left: int, right: int, t: seq<int>, cut: int)
    requires 0 <= left < right <= |idx|
    requires Parted(t, cut) == PartitionedIndices(idx, vals, left, right, ChoosePivotIndices(idx, vals, left, right))
    ensures left < cut <= |t| && Key(vals, t[cut - 1]) == ChoosePivotIndices(idx, vals, left, right)
  {
    var pivot := ChoosePivotIndices(idx, vals, left, right);
    PartitionedIndicesGroups(idx, vals, left, right, pivot);
    PivotJustBelowCut(View(idx, vals), left, right);
    assert View(t, vals)[cut - 1] == Key(vals, t[cut - 1]);
  }

  /** What a result `Parted(t, cut)` of the indirect partition satisfies. */
  lemma PartitionIndicesResult(s: seq<int>, vals: seq<Value>, left: int, right: int, pivot: Value,
                               t: seq<int>, cut: int)
    requires 0 <= left && right <= |s|
    requires Parted(t, cut) == PartitionedIndices(s, vals, left, right, pivot)
    ensures left <= right ==> PermutedWithin(s, t, left, right)
    ensures left <= right ==> Grouped(View(t, vals), left, cut, right, pivot)
    ensures left <= right ==> LessThenEqual(View(t, vals), left, cut, pivot)
  {
    if left <= right {
      PartitionedIndicesGroups(s, vals, left, right, pivot);
    }
  }

  /** The loop state of `PartitionIndices`: the scan from `i`, `j`, `k` over
      `cur` ends in `goal`, and every index of the range points into `vals`. */
  ghost predicate IndexScanEndsIn(cur: seq<int>, vals: seq<Value>, pivot: Value, left: int, right: int,
                                  i: int, j: int, k: int, goal: Parted<int>)
  {
    && 0 <= left <= i <= k <= j <= right <= |cur|
    && ValidRange(cur, vals, left, right)
    && ScanIndices(cur, vals, pivot, i, j, k) == goal
  }

  /** The loop state after a step over a value above the pivot: the scan
      stops when the upper end meets `k`, and otherwise goes on after the
      exchange of `k` and `j - 1`. */
  lemma AboveStep(cur: seq<int>, vals: seq<Value>, pivot: Value, left: int, right: int,
                  i: int, j: int, k: int, goal: Parted<int>)
    requires IndexScanEndsIn(cur, vals, pivot, left, right, i, j, k, goal)
    requires k < j && pivot < Key(vals, cur[k])
    ensures j - 1 == k ==> goal == Parted(cur, j - 1)
    ensures j - 1 != k ==> IndexScanEndsIn(Swap(cur, j - 1, k), vals, pivot, left, right, i, j - 1, k, goal)
    ensures j - 1 != k ==> 0 <= cur[j - 1] < |vals|
  {
    if j - 1 != k {
      ValidAt(cur, vals, left, right, j - 1);
      ScanIndicesAbove(cur, vals, pivot, i, j, k);
      ValidSwap(cur, vals, left, right, j - 1, k);
    }
  }

  /** The loop state after a step over a value not above the pivot, from
      `cur` and `i` to `next` and `i2`. */
  lemma NotAboveStep(cur: seq<int>, next: seq<int>, vals: seq<Value>, pivot: Value, left: int, right: int,
                     i: int, i2: int, j: int, k: int, goal: Parted<int>)
    requires IndexScanEndsIn(cur, vals, pivot, left, right, i, j, k, goal)
    requires k < j && !(pivot < Key(vals, cur[k]))
    requires next == if Key(vals, cur[k]) < pivot && i < k then Swap(cur, i, k) else cur
    requires i2 == if Key(vals, cur[k]) < pivot then i + 1 else i
    ensures IndexScanEndsIn(next, vals, pivot, left, right, i2, j, k + 1, goal)
    ensures k + 1 < j ==> 0 <= next[k + 1] < |vals|
  {
    if Key(vals, cur[k]) < pivot {
      ScanIndicesBelow(cur, vals, pivot, i, j, k);
      if i < k {
        ValidSwap(cur, vals, left, right, i, k);
      }
    } else {
      ScanIndicesEqual(cur, vals, pivot, i, j, k);
    }
    if k + 1 < j {
      ValidAt(cur, vals, left, right, k + 1);
    }
  }

  /** The indirect partition in place: compares `arr[idx[k]]` with the pivot
      and exchanges entries of `idx` only; returns one past the last index
      pointing at a value `<= pivot`. */
  method PartitionIndices(idx: array<int>, arr: seq<Value>, left: int, right: int, pivot: Value) returns (part: int)
    requires 0 <= left && 0 <= right <= idx.Length
    requires ValidRange(idx[..], arr, left, right)
    modifies idx
    ensures Parted(idx[..], part) == PartitionedIndices(old(idx[..]), arr, left, right, pivot)
    ensures left <= right ==> PermutedWithin(old(idx[..]), idx[..], left, right)
    ensures left <= right ==> Grouped(View(idx[..], arr), left, part, right, pivot)
    ensures left <= right ==> LessThenEqual(View(idx[..], arr), left, part, pivot)
  {
    ghost var goal := PartitionedIndices(idx[..], arr, left, right, pivot);
    ghost var cur := idx[..];
    var i, j := left, right;
    var k := i;
    if k < j {
      ValidAt(cur, arr, left, right, k);
    }
    while k < j
      invariant left <= i <= k
      invariant k <= j <= right || (i == k == left && j == right < left)
      invariant cur == idx[..]
      invariant k <= j ==> IndexScanEndsIn(cur, arr, pivot, left, right, i, j, k, goal)
      invariant k < j ==> 0 <= cur[k] < |arr|
      invariant j < k ==> goal == Parted(cur, j)
      decreases j - k
    {
      while pivot < arr[idx[k]]
        invariant left <= i <= k < j <= right
        invariant cur == idx[..]
        invariant IndexScanEndsIn(cur, arr, pivot, left, right, i, j, k, goal)
        invariant 0 <= cur[k] < |arr|
        decreases j - k
      {
        assert Key(arr, cur[k]) == arr[idx[k]];
        AboveStep(cur, arr, pivot, left, right, i, j, k, goal);
        j := j - 1;
        if j == k {
          PartitionIndicesResult(old(idx[..]), arr, left, right, pivot, cur, j);
          return j;
        }
        SwapSlots(idx, j, k);
        cur := Swap(cur, j, k);
      }
      assert Key(arr, cur[k]) == arr[idx[k]];
      ghost var prev, i0 := cur, i;
      if arr[idx[k]] < pivot {
        if i < k {
          SwapSlots(idx, i, k);
          cur := Swap(cur, i, k);
        }
        i := i + 1;
      }
      NotAboveStep(prev, cur, arr, pivot, left, right, i0, i, j, k, goal);
      k := k + 1;
    }
    PartitionIndicesResult(old(idx[..]), arr, left, right, pivot, cur, j);
    return j;
  }
}
