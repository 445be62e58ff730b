/** The pivot choice and the three-way partition of a range, for a value
    array read directly. */
module Partitioning {
  import opened Values

  /** A partitioned sequence with the boundary the partition returns. */
  datatype Parted<T> = Parted(items: seq<T>, cut: int)

  /** `(left + right) / 2` on non-negative positions; between the two ends,
      and strictly below `right` when the range is not empty. */
  function Midpoint(left: int, right: int): (m: int)
    requires 0 <= left && 0 <= right
    ensures left <= right ==> left <= m <= right && (left < right ==> m < right)
    ensures right < left ==> right <= m < left
  {
    (left + right) / 2
  }

  /** The pivot is the value at the midpoint; for a non-empty range it is one
      of the range's own values. */
  function ChoosePivot(s: seq<Value>, left: int, right: int): (p: Value)
    requires 0 <= left && 0 <= right <= |s| && Midpoint(left, right) < |s|
    ensures left < right ==> p in s[left..right]
  {
    var m := Midpoint(left, right);
    assert left < right ==> s[m] == s[left..right][m - left];
    s[m]
  }

  /** The range `[lo, hi)` holds the values `<= pivot` below `cut` and the
      values `> pivot` from `cut` on. */
  ghost predicate Grouped(s: seq<Value>, lo: int, cut: int, hi: int, pivot: Value)
  {
    && 0 <= lo <= cut <= hi <= |s|
    && (forall x :: lo <= x < cut ==> s[x] <= pivot)
    && (forall x :: cut <= x < hi ==> pivot < s[x])
  }

  /** Below `cut`, the values under the pivot come first and the values equal
      to it after them: once the pivot appears, only the pivot follows. */
  ghost predicate LessThenEqual(s: seq<Value>, lo: int, cut: int, pivot: Value)
  {
    && 0 <= lo <= cut <= |s|
    && (forall x, y :: lo <= x < y < cut && s[x] == pivot ==> s[y] == pivot)
  }

  /** The scan of the partition from the loop state `i` (end of the values
      below the pivot), `j` (start of the values above it) and `k` (the
      cursor). Each call is one step of the nested loops: an element above
      the pivot is exchanged with the one before `j`, or the scan returns
      when `j` meets the cursor; an element below the pivot is exchanged
      with the one at `i`; an element equal to the pivot stays. */
  function Scan(s: seq<Value>, pivot: Value, i: int, j: int, k: int): (r: Parted<Value>)
    requires 0 <= i <= k <= j <= |s|
    ensures |r.items| == |s| && k <= r.cut <= j
    decreases j - k
  {
    if k < j then
      if pivot < s[k] then
        if j - 1 == k then Parted(s, j - 1)
        else Scan(Swap(s, j - 1, k), pivot, i, j - 1, k)
      else if s[k] < pivot then
        if i < k then Scan(Swap(s, i, k), pivot, i + 1, j, k + 1)
        else Scan(s, pivot, i + 1, j, k + 1)
      else
        Scan(s, pivot, i, j, k + 1)
    else
      Parted(s, j)
  }

  /** The scan from loop state `i`, `j`, `k` of `s` ends in `goal`. */
  ghost predicate ScanEndsIn(s: seq<Value>, pivot: Value, i: int, j: int, k: int, goal: Parted<Value>)
  {
    0 <= i <= k <= j <= |s| && Scan(s, pivot, i, j, k) == goal
  }

  /** The loop state of the scan: below `i` the values under the pivot,
      from `i` to the cursor `k` the values equal to it, from `j` to `hi`
      the values above it. */
  ghost predicate ScanState(s: seq<Value>, pivot: Value, lo: int, hi: int, i: int, j: int, k: int)
  {
    && 0 <= lo <= i <= k <= j <= hi <= |s|
    && (forall x :: lo <= x < i ==> s[x] < pivot)
    && (forall x :: i <= x < k ==> s[x] == pivot)
    && (forall x :: j <= x < hi ==> pivot < s[x])
  }

  /** One step of the scan over a value above the pivot. */
  lemma ScanAbove(s: seq<Value>, pivot: Value, i: int, j: int, k: int)
    requires 0 <= i <= k < j - 1 && j <= |s| && pivot < s[k]
    ensures Scan(s, pivot, i, j, k) == Scan(Swap(s, j - 1, k), pivot, i, j - 1, k)
  {
  }

  /** One step of the scan over a value below the pivot. */
  lemma ScanBelow(s: seq<Value>, pivot: Value, i: int, j: int, k: int)
    requires 0 <= i <= k < j <= |s| && s[k] < pivot
    ensures i < k ==> Scan(s, pivot, i, j, k) == Scan(Swap(s, i, k), pivot, i + 1, j, k + 1)
    ensures i == k ==> Scan(s, pivot, i, j, k) == Scan(s, pivot, i + 1, j, k + 1)
  {
  }

  /** One step of the scan over a value equal to the pivot. */
  lemma ScanEqual(s: seq<Value>, pivot: Value, i: int, j: int, k: int)
    requires 0 <= i <= k < j <= |s| && s[k] == pivot
    ensures Scan(s, pivot, i, j, k) == Scan(s, pivot, i, j, k + 1)
  {
  }

  /** One step of the loop over a value above the pivot. */
  lemma StepAbove(s: seq<Value>, pivot: Value, i: int, j: int, k: int, goal: Parted<Value>)
    requires ScanEndsIn(s, pivot, i, j, k, goal) && k < j && pivot < s[k]
    ensures j - 1 == k ==> goal == Parted(s, j - 1)
    ensures j - 1 != k ==> ScanEndsIn(Swap(s, j - 1, k), pivot, i, j - 1, k, goal)
  {
  }

  /** One step of the scan over a value not above the pivot, in the shape the
      loop takes it: a value below is swapped down unless it is in place. */
  lemma StepNotAbove(s: seq<Value>, next: seq<Value>, pivot: Value, i: int, i2: int, j: int, k: int, goal: Parted<Value>)
    requires ScanEndsIn(s, pivot, i, j, k, goal) && k < j && !(pivot < s[k])
    requires next == if s[k] < pivot && i < k then Swap(s, i, k) else s
    requires i2 == if s[k] < pivot then i + 1 else i
    ensures ScanEndsIn(next, pivot, i2, j, k + 1, goal)
  {
  }

  /** The scan from `i`, `j`, `k` keeps the multiset of values. */
  ghost predicate ScanKeepsBag(s: seq<Value>, pivot: Value, i: int, j: int, k: int)
    requires 0 <= i <= k <= j <= |s|
  {
    multiset(Scan(s, pivot, i, j, k).items) == multiset(s)
  }

  /** The scan keeps the multiset of values. */
  lemma {:induction false} ScanBag(s: seq<Value>, pivot: Value, i: int, j: int, k: int)
    requires 0 <= i <= k <= j <= |s|
    ensures ScanKeepsBag(s, pivot, i, j, k)
    decreases j - k, 1
  {
    if k == j {
      assert Scan(s, pivot, i, j, k).items == s;
    } else if pivot < s[k] {
      BagAbove(s, pivot, i, j, k);
    } else if s[k] < pivot {
      BagBelow(s, pivot, i, j, k);
    } else {
      BagEqual(s, pivot, i, j, k);
    }
  }

  /** `ScanBag` for a step over a value above the pivot. */
  lemma {:induction false} BagAbove(s: seq<Value>, pivot: Value, i: int, j: int, k: int)
    requires 0 <= i <= k < j <= |s| && pivot < s[k]
    ensures ScanKeepsBag(s, pivot, i, j, k)
    decreases j - k, 0
  {
    if j - 1 == k {
      assert Scan(s, pivot, i, j, k).items == s;
    } else {
      ScanAbove(s, pivot, i, j, k);
      SwapBag(s, j - 1, k);
      ScanBag(Swap(s, j - 1, k), pivot, i, j - 1, k);
    }
  }

  /** `ScanBag` for a step over a value below the pivot. */
  lemma {:induction false} BagBelow(s: seq<Value>, pivot: Value, i: int, j: int, k: int)
    requires 0 <= i <= k < j <= |s| && s[k] < pivot
    ensures ScanKeepsBag(s, pivot, i, j, k)
    decreases j - k, 0
  {
    ScanBelow(s, pivot, i, j, k);
    if i < k {
      SwapBag(s, i, k);
      ScanBag(Swap(s, i, k), pivot, i + 1, j, k + 1);
    } else {
      ScanBag(s, pivot, i + 1, j, k + 1);
    }
  }

  /** `ScanBag` for a step over a value equal to the pivot. */
  lemma {:induction false} BagEqual(s: seq<Value>, pivot: Value, i: int, j: int, k: int)
    requires 0 <= i <= k < j <= |s| && s[k] == pivot
    ensures ScanKeepsBag(s, pivot, i, j, k)
    decreases j - k, 0
  {
    ScanEqual(s, pivot, i, j, k);
    ScanBag(s, pivot, i, j, k + 1);
  }

  /** The scan from `i`, `j`, `k` leaves everything outside `[i, j)` where
      it was. */
  ghost predicate ScanKeepsOutside(s: seq<Value>, pivot: Value, i: int, j: int, k: int)
    requires 0 <= i <= k <= j <= |s|
  {
    forall x :: 0 <= x < |s| && !(i <= x < j) ==> Scan(s, pivot, i, j, k).items[x] == s[x]
  }

  /** The scan leaves everything outside `[i, j)` where it was. */
  lemma {:induction false} ScanFrame(s: seq<Value>, pivot: Value, i: int, j: int, k: int)
    requires 0 <= i <= k <= j <= |s|
    ensures ScanKeepsOutside(s, pivot, i, j, k)
    decreases j - k, 1
  {
    if k == j {
    } else if pivot < s[k] {
      FrameAbove(s, pivot, i, j, k);
    } else {
      FrameNotAbove(s, pivot, i, j, k);
    }
  }

  /** `ScanFrame` for a step over a value above the pivot. */
  lemma {:induction false} FrameAbove(s: seq<Value>, pivot: Value, i: int, j: int, k: int)
    requires 0 <= i <= k < j <= |s| && pivot < s[k]
    ensures ScanKeepsOutside(s, pivot, i, j, k)
    decreases j - k, 0
  {
    if j - 1 != k {
      ScanAbove(s, pivot, i, j, k);
      ScanFrame(Swap(s, j - 1, k), pivot, i, j - 1, k);
    }
  }

  /** `ScanFrame` for a step over a value equal to or below the pivot. */
  lemma {:induction false} FrameNotAbove(s: seq<Value>, pivot: Value, i: int, j: int, k: int)
    requires 0 <= i <= k < j <= |s| && !(pivot < s[k])
    ensures ScanKeepsOutside(s, pivot, i, j, k)
    decreases j - k, 0
  {
    if s[k] < pivot {
      ScanBelow(s, pivot, i, j, k);
      if i < k {
        ScanFrame(Swap(s, i, k), pivot, i + 1, j, k + 1);
      } else {
        ScanFrame(s, pivot, i + 1, j, k + 1);
      }
    } else {
      ScanEqual(s, pivot, i, j, k);
      ScanFrame(s, pivot, i, j, k + 1);
    }
  }

  /** A step over a value above the pivot keeps the loop state. */
  lemma StateAbove(s: seq<Value>, pivot: Value, lo: int, hi: int, i: int, j: int, k: int)
    requires ScanState(s, pivot, lo, hi, i, j, k) && k < j - 1 && pivot < s[k]
    ensures ScanState(Swap(s, j - 1, k), pivot, lo, hi, i, j - 1, k)
  {
  }

  /** A step over a value below the pivot keeps the loop state. */
  lemma StateBelow(s: seq<Value>, pivot: Value, lo: int, hi: int, i: int, j: int, k: int)
    requires ScanState(s, pivot, lo, hi, i, j, k) && k < j && s[k] < pivot
    ensures i < k ==> ScanState(Swap(s, i, k), pivot, lo, hi, i + 1, j, k + 1)
    ensures i == k ==> ScanState(s, pivot, lo, hi, i + 1, j, k + 1)
  {
  }

  /** The final state of the scan is grouped around the pivot. */
  lemma StateDone(s: seq<Value>, pivot: Value, lo: int, hi: int, i: int, cut: int)
    requires ScanState(s, pivot, lo, hi, i, cut, cut)
    ensures Grouped(s, lo, cut, hi, pivot) && LessThenEqual(s, lo, cut, pivot)
  {
  }

  /** The scan from `i`, `j`, `k` ends with `[lo, hi)` grouped around the
      pivot, the values under it before those equal to it. */
  ghost predicate ScanGroupsRange(s: seq<Value>, pivot: Value, lo: int, hi: int, i: int, j: int, k: int)
    requires 0 <= i <= k <= j <= |s|
  {
    var r := Scan(s, pivot, i, j, k);
    Grouped(r.items, lo, r.cut, hi, pivot) && LessThenEqual(r.items, lo, r.cut, pivot)
  }

  /** The scan ends with the values under the pivot, then those equal to it,
      then those above it. */
  lemma {:induction false} ScanGroups(s: seq<Value>, pivot: Value, lo: int, hi: int, i: int, j: int, k: int)
    requires ScanState(s, pivot, lo, hi, i, j, k)
    ensures ScanGroupsRange(s, pivot, lo, hi, i, j, k)
    decreases j - k, 1
  {
    if k == j {
      assert Scan(s, pivot, i, j, k) == Parted(s, j);
      StateDone(s, pivot, lo, hi, i, j);
    } else if pivot < s[k] {
      GroupsAbove(s, pivot, lo, hi, i, j, k);
    } else if s[k] < pivot {
      GroupsBelow(s, pivot, lo, hi, i, j, k);
    } else {
      GroupsEqual(s, pivot, lo, hi, i, j, k);
    }
  }

  /** `ScanGroups` for a step over a value above the pivot. */
  lemma {:induction false} GroupsAbove(s: seq<Value>, pivot: Value, lo: int, hi: int, i: int, j: int, k: int)
    requires ScanState(s, pivot, lo, hi, i, j, k) && k < j && pivot < s[k]
    ensures ScanGroupsRange(s, pivot, lo, hi, i, j, k)
    decreases j - k, 0
  {
    if j - 1 == k {
      assert Scan(s, pivot, i, j, k) == Parted(s, k);
      StateDone(s, pivot, lo, hi, i, k);
    } else {
      ScanAbove(s, pivot, i, j, k);
      StateAbove(s, pivot, lo, hi, i, j, k);
      ScanGroups(Swap(s, j - 1, k), pivot, lo, hi, i, j - 1, k);
    }
  }

  /** `ScanGroups` for a step over a value below the pivot. */
  lemma {:induction false} GroupsBelow(s: seq<Value>, pivot: Value, lo: int, hi: int, i: int, j: int, k: int)
    requires ScanState(s, pivot, lo, hi, i, j, k) && k < j && s[k] < pivot
    ensures ScanGroupsRange(s, pivot, lo, hi, i, j, k)
    decreases j - k, 0
  {
    ScanBelow(s, pivot, i, j, k);
    StateBelow(s, pivot, lo, hi, i, j, k);
    if i < k {
      ScanGroups(Swap(s, i, k), pivot, lo, hi, i + 1, j, k + 1);
    } else {
      ScanGroups(s, pivot, lo, hi, i + 1, j, k + 1);
    }
  }

  /** `ScanGroups` for a step over a value equal to the pivot. */
  lemma {:induction false} GroupsEqual(s: seq<Value>, pivot: Value, lo: int, hi: int, i: int, j: int, k: int)
    requires ScanState(s, pivot, lo, hi, i, j, k) && k < j && s[k] == pivot
    ensures ScanGroupsRange(s, pivot, lo, hi, i, j, k)
    decreases j - k, 0
  {
    ScanEqual(s, pivot, i, j, k);
    ScanGroups(s, pivot, lo, hi, i, j, k + 1);
  }

  /** When the pivot occurs in a grouped range, the boundary is above the
      range's start and the element just below it equals the pivot. */
  lemma PivotBelowCut(s: seq<Value>, lo: int, cut: int, hi: int, pivot: Value)
    requires Grouped(s, lo, cut, hi, pivot) && LessThenEqual(s, lo, cut, pivot)
    requires pivot in s[lo..hi]
    ensures lo < cut && s[cut - 1] == pivot
  {
    var z :| 0 <= z < hi - lo && s[lo..hi][z] == pivot;
    assert s[lo + z] == pivot;
  }

  /** The partition of `[left, right)` around `pivot`, with the boundary it
      returns. An empty or reversed range is left alone and the boundary is
      `right`, since the scan loop does not run. */
  function Partitioned(s: seq<Value>, left: int, right: int, pivot: Value): (r: Parted<Value>)
    requires 0 <= left && right <= |s|
    ensures |r.items| == |s|
    ensures left <= right ==> left <= r.cut <= right
    ensures right <= left ==> r == Parted(s, right)
  {
    if left < right then Scan(s, pivot, left, right, left) else Parted(s, right)
  }

  /** The partition rearranges only `[left, right)`; afterwards the values
      `<= pivot` sit below the boundary and the greater ones above it, the
      values under the pivot come before those equal to it, and when the
      pivot is one of the range's values it sits just below the boundary. */
  lemma PartitionedGroups(s: seq<Value>, left: int, right: int, pivot: Value)
    requires 0 <= left <= right <= |s|
    ensures PermutedWithin(s, Partitioned(s, left, right, pivot).items, left, right)
    ensures Grouped(Partitioned(s, left, right, pivot).items, left, Partitioned(s, left, right, pivot).cut, right, pivot)
    ensures LessThenEqual(Partitioned(s, left, right, pivot).items, left, Partitioned(s, left, right, pivot).cut, pivot)
    ensures pivot in s[left..right] ==>
      var r := Partitioned(s, left, right, pivot);
      left < r.cut && r.items[r.cut - 1] == pivot
  {
    var r := Partitioned(s, left, right, pivot);
    if left < right {
      ScanBag(s, pivot, left, right, left);
      ScanFrame(s, pivot, left, right, left);
      ScanGroups(s, pivot, left, right, left, right, left);
      if pivot in s[left..right] {
        PermutedSlice(s, r.items, left, right);
        assert pivot in multiset(r.items[left..right]);
        PivotBelowCut(r.items, left, r.cut, right, pivot);
      }
    }
  }

  /** The partition of `a[left..right)` in place around `pivot`; returns one
      past the last element `<= pivot`. */
  method Partition(a: array<Value>, left: int, right: int, pivot: Value) returns (part: int)
    requires 0 <= left && 0 <= right <= a.Length
    modifies a
    ensures Parted(a[..], part) == Partitioned(old(a[..]), left, right, pivot)
    ensures left <= right ==> PermutedWithin(old(a[..]), a[..], left, right)
    ensures left <= right ==> Grouped(a[..], left, part, right, pivot)
    ensures left <= right ==> LessThenEqual(a[..], left, part, pivot)
  {
    ghost var goal := Partitioned(a[..], left, right, pivot);
    ghost var cur := a[..];
    var i, j := left, right;
    var k := i;
    while k < j
      invariant left <= i <= k
      invariant k <= j <= right || (i == k == left && j == right < left)
      invariant cur == a[..]
      invariant k <= j ==> ScanEndsIn(cur, pivot, i, j, k, goal)
      invariant j < k ==> goal == Parted(cur, j)
      decreases j - k
    {
      while pivot < a[k]
        invariant left <= i <= k < j <= right
        invariant cur == a[..]
        invariant ScanEndsIn(cur, pivot, i, j, k, goal)
        decreases j - k
      {
        StepAbove(cur, pivot, i, j, k, goal);
        j := j - 1;
        if j == k {
          PartitionedGroups(old(a[..]), left, right, pivot);
          return j;
        }
        SwapSlots(a, j, k);
        cur := Swap(cur, j, k);
      }
      ghost var prev, i0 := cur, i;
      if a[k] < pivot {
        if i < k {
          SwapSlots(a, i, k);
          cur := Swap(cur, i, k);
        }
        i := i + 1;
      }
      StepNotAbove(prev, cur, pivot, i0, i, j, k, goal);
      k := k + 1;
    }
    if left <= right {
      PartitionedGroups(old(a[..]), left, right, pivot);
    }
    return j;
  }

  /** The element just below the boundary returned for the midpoint pivot is
      that pivot, so the boundary is above `left`. */
  lemma PivotJustBelowCut(s: seq<Value>, left: int, right: int)
    requires 0 <= left < right <= |s|
    ensures var p := Partitioned(s, left, right, ChoosePivot(s, left, right));
      left < p.cut && p.items[p.cut - 1] == ChoosePivot(s, left, right)
  {
    PartitionedGroups(s, left, right, ChoosePivot(s, left, right));
  }
}
