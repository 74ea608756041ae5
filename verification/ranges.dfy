/**
 The three range printers. Each Java routine prints one number per line; here
 each returns the sequence of numbers it would print, in printing order.
 */
module Ranges {
  import JavaInt

  /** The integers `start, start + 1, ..., end` in ascending order; empty when `start > end`. */
  function Interval(start: int, end: int): seq<int> {
    seq(if start <= end then end - start + 1 else 0, i => start + i)
  }

  /** Splitting an interval at any of its members. */
  lemma IntervalSplit(start: int, m: int, end: int)
    requires start <= m <= end
    ensures Interval(start, end) == Interval(start, m - 1) + [m] + Interval(m + 1, end)
  {
    var lhs := Interval(start, end);
    var rhs := Interval(start, m - 1) + [m] + Interval(m + 1, end);
    assert |lhs| == |rhs|;
    forall i | 0 <= i < |lhs|
      ensures lhs[i] == rhs[i]
    {
      if i < m - start {
      } else if i == m - start {
      } else {
        assert rhs[i] == Interval(m + 1, end)[i - (m - start) - 1];
      }
    }
  }

  /** The midpoint of a non-empty range, computed with Java's truncating `/ 2`
      on the exact sum `start + end`. */
  function Mid(start: int, end: int): (m: int)
    requires start <= end
    ensures start <= m <= end
  {
    JavaInt.Half(start + end)
  }

  /** The midpoint exactly as the Java expression `(start + end) / 2` computes it
      on `int` operands: the sum wraps to 32 bits before it is halved. */
  function MidAsWritten(start: int, end: int): (m: int)
    requires JavaInt.IsInt(start) && JavaInt.IsInt(end)
    ensures start <= end && JavaInt.IsInt(start + end) ==> m == Mid(start, end)
    ensures start + end > JavaInt.MaxInt ==> m < 0
    ensures start + end < JavaInt.MinInt ==> m >= 0
  {
    JavaInt.Half(JavaInt.Wrap(start + end))
  }

  /** When the sum of the bounds fits in an `int`, the Java midpoint is `Mid`. */
  lemma MidAsWrittenAgrees(start: int, end: int)
    requires JavaInt.IsInt(start) && JavaInt.IsInt(end) && start <= end
    requires JavaInt.IsInt(start + end)
    ensures MidAsWritten(start, end) == Mid(start, end)
  {
  }

  /** On the one-element range `[2^30, 2^30]` the wrapped sum is negative, so the
      Java midpoint lies outside the range, and the right-hand recursive call gets a
      range strictly wider than the one it came from. */
  lemma MidAsWrittenLeavesRange()
    ensures var m := MidAsWritten(0x4000_0000, 0x4000_0000);
      m == -0x4000_0000 && m + 1 < 0x4000_0000
  {
  }

  /** `printNumbers`: prints `start`, then recurses on `start + 1`. */
  function PrintNumbers(start: int, end: int): (out: seq<int>)
    ensures out == Interval(start, end)
    decreases end - start
  {
    if start > end then [] else [start] + PrintNumbers(start + 1, end)
  }

  /** `printNumbersOtherWay`: an in-order walk of the implicit balanced tree whose
      root is the midpoint of the range. */
  function PrintNumbersOtherWay(start: int, end: int): (out: seq<int>)
    ensures out == Interval(start, end)
    decreases end - start
  {
    if start > end then []
    else
      var mid := Mid(start, end);
      IntervalSplit(start, mid, end);
      PrintNumbersOtherWay(start, mid - 1) + [mid] + PrintNumbersOtherWay(mid + 1, end)
  }

  /** `printNumbersReverse`: recurses on `start + 1` first, then prints `start`. */
  function PrintNumbersReverse(start: int, end: int): (out: seq<int>)
    ensures |out| == |Interval(start, end)|
    ensures forall i :: 0 <= i < |out| ==> out[i] == end - i
    decreases end - start
  {
    if start > end then [] else PrintNumbersReverse(start + 1, end) + [start]
  }

  /** The midpoint printer emits the same ascending list as the linear one. */
  lemma OtherWayMatchesLinear(start: int, end: int)
    ensures PrintNumbersOtherWay(start, end) == PrintNumbers(start, end)
  {
  }

  /** The reverse printer emits the linear printer's list back to front. */
  lemma ReverseMirrorsLinear(start: int, end: int)
    ensures var up, down := PrintNumbers(start, end), PrintNumbersReverse(start, end);
      |down| == |up| && forall i :: 0 <= i < |up| ==> down[i] == up[|up| - 1 - i]
  {
  }
}
