/**
 `min`: the smallest element of the subarray `a[start..end]` (both ends
 inclusive), found by splitting the range at its midpoint. The Java array is a
 sequence here.
 */
module ArrayMin {

  /** The minimum of `a[start..end]`: one of its elements, and no larger than any
      of them. Indices are non-negative, so Dafny's `/` agrees with Java's. */
  function Min(a: seq<int>, start: int, end: int): (m: int)
    requires 0 <= start <= end < |a|
    ensures exists i :: start <= i <= end && a[i] == m
    ensures forall j :: start <= j <= end ==> m <= a[j]
    decreases end - start
  {
    if start == end then a[start]
    else
      var mid := (start + end) / 2;
      var mleft := Min(a, start, mid);
      var mright := Min(a, mid + 1, end);
      if mleft < mright then mleft else mright
  }
}
