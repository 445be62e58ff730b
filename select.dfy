/** Quickselect on a value array: partition around the midpoint value, then
    continue in the part that holds the cut position `k`, skipping the run of
    values equal to the pivot. */
module Selection {
  import opened Values
  import opened Partitioning

  /** Every value before position `k` is at most every value from `k` up to
      `right`, within `[left, right)`. */
  ghost predicate TopK(s: seq<Value>, left: int, k: int, right: int)
  {
    && 0 <= left <= k <= right <= |s|
    && (forall x, y :: left <= x < k <= y < right ==> s[x] <= s[y])
  }

  /** From `k` on, the values that tie one before `k` come first and the
      greater values after them: a value of `[k, right)` that is at most
      some value before `k` is preceded within `[k, right)` only by values
      that are at most that one too. */
  ghost predicate TiesNext(s: seq<Value>, left: int, k: int, right: int)
  {
    && 0 <= left <= k <= right <= |s|
    && (forall x, y, z :: left <= x < k <= y < z < right && s[z] <= s[x] ==> s[y] <= s[x])
  }

  /** The walk below the boundary over the run of values equal to the pivot:
      starting from `part`, step down; stop below `stop`, or at the first
      value that differs from the pivot. Everything stepped over equals the
      pivot. */
  function SkipEqual(s: seq<Value>, pivot: Value, part: int, stop: int): (q: int)
    requires 0 <= stop <= part + 1 && part <= |s|
    ensures q < part && (stop - 1 <= q || q == part - 1)
    ensures stop <= q ==> s[q] != pivot
    ensures forall x :: q < x < part ==> s[x] == pivot
    decreases part
  {
    var q := part - 1;
    if q < stop then q
    else if s[q] == pivot then SkipEqual(s, pivot, q, stop)
    else q
  }

  /** A cut that stops inside or at the end of the run of pivot values
      already splits the range, with the ties for `k` next. */
  lemma TopKStop(t: seq<Value>, left: int, k: int, cut: int, right: int, pivot: Value)
    requires Grouped(t, left, cut, right, pivot) && left <= k <= cut
    requires forall x :: k <= x < cut ==> t[x] == pivot
    ensures TopK(t, left, k, right) && TiesNext(t, left, k, right)
  {
  }

  /** Selecting in the upper group after a partition selects in the whole
      range. */
  lemma TopKAbove(s: seq<Value>, t: seq<Value>, r: seq<Value>, left: int, cut: int, k: int, right: int, pivot: Value)
    requires PermutedWithin(s, t, left, right) && Grouped(t, left, cut, right, pivot) && cut < k
    requires PermutedWithin(t, r, cut, right) && TopK(r, cut, k, right) && TiesNext(r, cut, k, right)
    ensures PermutedWithin(s, r, left, right)
    ensures TopK(r, left, k, right) && TiesNext(r, left, k, right)
  {
    PermutedKeeps(t, r, cut, right, v => pivot < v);
    WidenPermuted(t, r, cut, right, left, right);
    PermutedTrans(s, t, r, left, right);
  }

  /** Selecting below the run of pivot values after a partition selects in
      the whole range. The walk stopped at a value other than the pivot, so
      everything below the run is under the pivot. */
  lemma TopKBelow(s: seq<Value>, t: seq<Value>, r: seq<Value>, left: int, q: int, cut: int, k: int, right: int, pivot: Value)
    requires PermutedWithin(s, t, left, right)
    requires Grouped(t, left, cut, right, pivot) && LessThenEqual(t, left, cut, pivot)
    requires left <= k <= q < cut && t[q] != pivot
    requires forall x :: q < x < cut ==> t[x] == pivot
    requires PermutedWithin(t, r, left, q + 1) && TopK(r, left, k, q + 1) && TiesNext(r, left, k, q + 1)
    ensures PermutedWithin(s, r, left, right)
    ensures TopK(r, left, k, right) && TiesNext(r, left, k, right)
  {
    assert forall x :: left <= x <= q ==> t[x] < pivot;
    PermutedKeeps(t, r, left, q + 1, v => v < pivot);
    WidenPermuted(t, r, left, q + 1, left, right);
    PermutedTrans(s, t, r, left, right);
  }

  /** The selection as written, where the recursive call for a cut above the
      boundary passes `k - part` instead of `k`, and with the assertion
      after `part--` not checked. The walk may then step below `left` and
      later calls may see empty or reversed ranges; the pivot is still read
      at the midpoint and the partition of a reversed range returns its
      `right`. Only `[left, right)` is rearranged, and a reversed range is
      left alone. */
  function SelectedAsWritten(s: seq<Value>, left: int, right: int, k: int): (r: seq<Value>)
    requires 0 <= left < |s| && 0 <= right <= |s| && 0 <= k <= right
    ensures left <= right ==> PermutedWithin(s, r, left, right)
    ensures right < left ==> r == s
    decreases k, right
  {
    var pivot := ChoosePivot(s, left, right);
    var p := Partitioned(s, left, right, pivot);
    PartitionedAnyRange(s, left, right, pivot);
    if p.cut < k then
      var r := SelectedAsWritten(p.items, p.cut, right, k - p.cut);
      AsWrittenFrame(s, p.items, r, left, right, p.cut, right);
      r
    else if k < p.cut then
      var q := SkipEqual(p.items, pivot, p.cut - 1, k);
      if q < k then p.items
      else
        var r := SelectedAsWritten(p.items, left, q + 1, k);
        AsWrittenFrame(s, p.items, r, left, right, left, q + 1);
        r
    else
      p.items
  }

  /** A partition as the selection as written may call it, on a range that
      may be empty or reversed: it rearranges only a proper range, and on a
      non-empty range returns a boundary above `left`. */
  lemma PartitionedAnyRange(s: seq<Value>, left: int, right: int, pivot: Value)
    requires 0 <= left && 0 <= right <= |s|
    requires left < right ==> pivot in s[left..right]
    ensures left <= right ==> PermutedWithin(s, Partitioned(s, left, right, pivot).items, left, right)
    ensures left < right ==> left < Partitioned(s, left, right, pivot).cut
  {
    if left <= right {
      PartitionedGroups(s, left, right, pivot);
    }
  }

  /** The frame of one step of the selection as written: a partition of
      `[left, right)` followed by a recursive call on `[lo, hi)` inside it,
      where either range may be reversed and is then left alone. */
  lemma AsWrittenFrame<T>(s: seq<T>, t: seq<T>, r: seq<T>, left: int, right: int, lo: int, hi: int)
    requires |s| == |t| && 0 <= left && right <= |s|
    requires left <= right ==> PermutedWithin(s, t, left, right)
    requires right < left ==> t == s && (lo == right || hi < lo)
    requires left <= right ==> (left <= lo || hi < lo) && hi <= right
    requires right < left ==> hi <= right
    requires lo <= hi ==> PermutedWithin(t, r, lo, hi)
    requires hi < lo ==> r == t
    ensures left <= right ==> PermutedWithin(s, r, left, right)
    ensures right < left ==> r == s
  {
    if hi < lo {
    } else if left <= right {
      WidenPermuted(t, r, lo, hi, left, right);
      PermutedTrans(s, t, r, left, right);
    } else {
      assert lo == hi;
      assert r == s;
    }
  }

  /** On `[4, 3, 1, 2]` with the whole range and `k = 3`, the selection as
      written leaves `4` before position 3 and `3` after it. */
  lemma AsWrittenMissesTopK()
    ensures SelectedAsWritten([4, 3, 1, 2], 0, 4, 3) == [1, 2, 4, 3]
    ensures !TopK(SelectedAsWritten([4, 3, 1, 2], 0, 4, 3), 0, 3, 4)
  {
    var s: seq<Value> := [4, 3, 1, 2];
    assert ChoosePivot(s, 0, 4) == 1;
    assert Scan(s, 1, 0, 4, 0) == Parted([1, 3, 2, 4], 1);
    var t: seq<Value> := [1, 3, 2, 4];
    assert ChoosePivot(t, 1, 4) == 2;
    assert Scan(t, 2, 1, 4, 1) == Parted([1, 2, 4, 3], 2);
    var u: seq<Value> := [1, 2, 4, 3];
    assert SelectedAsWritten(t, 1, 4, 2) == u;
    assert SelectedAsWritten(s, 0, 4, 3) == u;
    assert u[2] > u[3];
  }

  /** On `[1, 4, 2, 3]` with the whole range and `k = 3`, the selection as
      written partitions to `[1, 2, 3, 4]` with boundary 2 and calls itself
      on `[2, 4)` with `k = 1`. That call walks down to position 2 and calls
      itself on `[2, 3)`, whose walk reads position 1, below its `left`, and
      calls itself on the empty range `[2, 2)`. There the boundary is 2 and
      the value at position 1 is not the pivot, so the assertion after
      `part--` fails; with assertions off the walk returns at once. */
  lemma AsWrittenAssertFails()
    ensures Partitioned([1, 4, 2, 3], 0, 4, ChoosePivot([1, 4, 2, 3], 0, 4)) == Parted([1, 2, 3, 4], 2)
    ensures var u: seq<Value> := [1, 2, 3, 4];
      && Partitioned(u, 2, 4, ChoosePivot(u, 2, 4)) == Parted(u, 4)
      && SkipEqual(u, ChoosePivot(u, 2, 4), 3, 1) == 2
      && Partitioned(u, 2, 3, ChoosePivot(u, 2, 3)) == Parted(u, 3)
      && SkipEqual(u, ChoosePivot(u, 2, 3), 2, 1) == 1
      && Partitioned(u, 2, 2, ChoosePivot(u, 2, 2)).cut == 2
      && u[1] != ChoosePivot(u, 2, 2)
  {
    var s: seq<Value> := [1, 4, 2, 3];
    var u: seq<Value> := [1, 2, 3, 4];
    assert ChoosePivot(s, 0, 4) == 2;
    assert Scan(s, 2, 0, 4, 0) == Parted(u, 2);
    assert ChoosePivot(u, 2, 4) == 4;
    assert Scan(u, 4, 2, 4, 2) == Parted(u, 4);
    assert ChoosePivot(u, 2, 3) == 3;
    assert Scan(u, 3, 2, 3, 2) == Parted(u, 3);
  }

  /** Quickselect in place over `a[left..right)` with `k` as an absolute
      position: the range is permuted so that every value before `k` is at
      most every value from `k` on, and from `k` on the ties come before the
      greater values. */
  method Select(a: array<Value>, left: int, right: int, k: int)
    requires 0 <= left <= k <= right <= a.Length && left < a.Length
    modifies a
    ensures PermutedWithin(old(a[..]), a[..], left, right)
    ensures TopK(a[..], left, k, right) && TiesNext(a[..], left, k, right)
    decreases right - left
  {
    var pivot := ChoosePivot(a[..], left, right);
    ghost var s := a[..];
    var part := Partition(a, left, right, pivot);
    ghost var t := a[..];
    ghost var cut := part;
    if left < right {
      PivotJustBelowCut(s, left, right);
    }
    if part < k {
      Select(a, part, right, k);
      TopKAbove(s, t, a[..], left, cut, k, right, pivot);
    } else if k < part {
      part := part - 1;
      assert pivot == a[part];
      while true
        invariant k <= part + 1 && part < cut
        invariant forall x :: part <= x < cut ==> t[x] == pivot
        decreases part
      {
        part := part - 1;
        if part < k {
          TopKStop(t, left, k, cut, right, pivot);
          return;
        }
        if a[part] != pivot {
          break;
        }
      }
      assert t[part] != pivot;
      Select(a, left, part + 1, k);
      TopKBelow(s, t, a[..], left, part, cut, k, right, pivot);
    } else {
      TopKStop(t, left, k, cut, right, pivot);
    }
  }
}
