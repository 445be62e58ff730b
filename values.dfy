/** Values, the two-slot swap, and permutations confined to a range. */
module Values {
  /** A Java `float` seen through its comparisons only. The algorithms apply
      nothing but `<` and `==` to values, so any total order will do. */
  newtype Value = int

  /** Exchanges the entries at positions `i` and `j`. */
  function Swap<T>(s: seq<T>, i: int, j: int): (r: seq<T>)
    requires 0 <= i < |s| && 0 <= j < |s|
    ensures |r| == |s| && r[i] == s[j] && r[j] == s[i]
    ensures forall x :: 0 <= x < |s| && x != i && x != j ==> r[x] == s[x]
  {
    seq(|s|, x requires 0 <= x < |s| => if x == i then s[j] else if x == j then s[i] else s[x])
  }

  /** The in-place swap used on both value arrays and index arrays. */
  method SwapSlots<T>(a: array<T>, i: int, j: int)
    requires 0 <= i < a.Length && 0 <= j < a.Length
    modifies a
    ensures a[..] == Swap(old(a[..]), i, j)
  {
    var tmp := a[i];
    a[i] := a[j];
    a[j] := tmp;
  }

  /** A swap keeps the multiset of entries. */
  lemma SwapBag<T>(s: seq<T>, i: int, j: int)
    requires 0 <= i < |s| && 0 <= j < |s|
    ensures multiset(Swap(s, i, j)) == multiset(s)
  {
    assert Swap(s, i, j) == s[i := s[j]][j := s[i]];
  }

  /** `r` is `s` with the entries of `[lo, hi)` rearranged and nothing else touched. */
  ghost predicate PermutedWithin<T>(s: seq<T>, r: seq<T>, lo: int, hi: int)
  {
    && |r| == |s|
    && 0 <= lo <= hi <= |s|
    && multiset(r) == multiset(s)
    && (forall x :: 0 <= x < |s| && !(lo <= x < hi) ==> r[x] == s[x])
  }

  /** A swap of two positions inside a range permutes that range. */
  lemma SwapPermutes<T>(s: seq<T>, i: int, j: int, lo: int, hi: int)
    requires 0 <= lo <= i < hi <= |s| && lo <= j < hi
    ensures PermutedWithin(s, Swap(s, i, j), lo, hi)
  {
    SwapBag(s, i, j);
  }

  /** Permutations of a range compose. */
  lemma PermutedTrans<T>(s: seq<T>, t: seq<T>, r: seq<T>, lo: int, hi: int)
    requires PermutedWithin(s, t, lo, hi) && PermutedWithin(t, r, lo, hi)
    ensures PermutedWithin(s, r, lo, hi)
  {
  }

  /** A permutation of a sub-range is a permutation of any range around it. */
  lemma WidenPermuted<T>(s: seq<T>, r: seq<T>, a: int, b: int, lo: int, hi: int)
    requires PermutedWithin(s, r, a, b)
    requires 0 <= lo <= a && b <= hi <= |s|
    ensures PermutedWithin(s, r, lo, hi)
  {
  }

  /** A permutation of a range keeps the multiset of that range. */
  lemma PermutedSlice<T>(s: seq<T>, r: seq<T>, lo: int, hi: int)
    requires PermutedWithin(s, r, lo, hi)
    ensures multiset(r[lo..hi]) == multiset(s[lo..hi])
  {
    assert s == s[..lo] + s[lo..hi] + s[hi..];
    assert r == r[..lo] + r[lo..hi] + r[hi..];
    assert r[..lo] == s[..lo];
    assert r[hi..] == s[hi..];
    calc {
      multiset(r[lo..hi]);
      multiset(r) - multiset(r[..lo]) - multiset(r[hi..]);
      multiset(s) - multiset(s[..lo]) - multiset(s[hi..]);
      multiset(s[lo..hi]);
    }
  }

  /** Whatever holds of every entry of a range still holds after the range is permuted. */
  lemma PermutedKeeps<T>(s: seq<T>, r: seq<T>, lo: int, hi: int, P: T -> bool)
    requires PermutedWithin(s, r, lo, hi)
    requires forall x :: lo <= x < hi ==> P(s[x])
    ensures forall x :: lo <= x < hi ==> P(r[x])
  {
    PermutedSlice(s, r, lo, hi);
    forall x | lo <= x < hi
      ensures P(r[x])
    {
      assert r[lo..hi][x - lo] == r[x];
      assert r[x] in multiset(s[lo..hi]);
      var z :| 0 <= z < hi - lo && s[lo..hi][z] == r[x];
      assert s[lo + z] == r[x];
    }
  }
}
