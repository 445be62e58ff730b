/** The running-extreme loops: the largest and smallest value of an array and
    the first position holding each. */
module Extremes {
  import opened Values

  /** The largest value: it occurs in the array and no entry exceeds it. */
  method AMax(a: array<Value>) returns (m: Value)
    requires a.Length > 0
    ensures m in a[..]
    ensures forall x :: 0 <= x < a.Length ==> a[x] <= m
  {
    m := a[0];
    ghost var at := 0;
    for i := 1 to a.Length
      invariant 0 <= at < i && a[at] == m
      invariant forall x :: 0 <= x < i ==> a[x] <= m
    {
      var v := a[i];
      if v > m {
        m := v;
        at := i;
      }
    }
    assert a[..][at] == m;
  }

  /** The smallest value: it occurs in the array and no entry is below it. */
  method AMin(a: array<Value>) returns (m: Value)
    requires a.Length > 0
    ensures m in a[..]
    ensures forall x :: 0 <= x < a.Length ==> m <= a[x]
  {
    m := a[0];
    ghost var at := 0;
    for i := 1 to a.Length
      invariant 0 <= at < i && a[at] == m
      invariant forall x :: 0 <= x < i ==> m <= a[x]
    {
      var v := a[i];
      if v < m {
        m := v;
        at := i;
      }
    }
    assert a[..][at] == m;
  }

  /** The first position of a largest value: nothing exceeds it, and every
      earlier entry is strictly smaller. */
  method MaxIndex(a: array<Value>) returns (am: int)
    requires a.Length > 0
    ensures 0 <= am < a.Length
    ensures forall x :: 0 <= x < a.Length ==> a[x] <= a[am]
    ensures forall x :: 0 <= x < am ==> a[x] < a[am]
  {
    am := 0;
    var m := a[0];
    for i := 1 to a.Length
      invariant 0 <= am < i && m == a[am]
      invariant forall x :: 0 <= x < i ==> a[x] <= m
      invariant forall x :: 0 <= x < am ==> a[x] < m
    {
      var v := a[i];
      if v > m {
        m := v;
        am := i;
      }
    }
  }

  /** The first position of a smallest value: nothing is below it, and every
      earlier entry is strictly larger. */
  method MinIndex(a: array<Value>) returns (am: int)
    requires a.Length > 0
    ensures 0 <= am < a.Length
    ensures forall x :: 0 <= x < a.Length ==> a[am] <= a[x]
    ensures forall x :: 0 <= x < am ==> a[am] < a[x]
  {
    am := 0;
    var m := a[0];
    for i := 1 to a.Length
      invariant 0 <= am < i && m == a[am]
      invariant forall x :: 0 <= x < i ==> m <= a[x]
      invariant forall x :: 0 <= x < am ==> m < a[x]
    {
      var v := a[i];
      if v < m {
        m := v;
        am := i;
      }
    }
  }
}
