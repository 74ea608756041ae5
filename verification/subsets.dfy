/**
 Subset-sum search over a prefix of an array: `subsetSum` decides whether some
 subset of the first `n` elements adds up to `goal`, and `subsetSumCount` counts
 such subsets. The Java array is a sequence here.

 A subset of the first `n` positions is a selection: a `seq<bool>` of length `n`
 whose entry `i` says whether `a[i]` is taken.
 */
module Subsets {

  /** The sum of the elements of `a` that `sel` picks. */
  function PickedSum(a: seq<int>, sel: seq<bool>): int
    requires |sel| <= |a|
  {
    if |sel| == 0 then 0
    else PickedSum(a, sel[..|sel| - 1]) + (if sel[|sel| - 1] then a[|sel| - 1] else 0)
  }

  /** Extending a selection by one position adds that element when it is picked. */
  lemma PickedSumSnoc(a: seq<int>, sel: seq<bool>, b: bool)
    requires |sel| < |a|
    ensures PickedSum(a, sel + [b]) == PickedSum(a, sel) + (if b then a[|sel|] else 0)
  {
    assert (sel + [b])[..|sel|] == sel;
  }

  /** Some subset of the first `n` elements of `a` sums to `goal`. */
  ghost predicate HasSubset(a: seq<int>, goal: int, n: nat)
    requires n <= |a|
  {
    exists sel: seq<bool> :: |sel| == n && PickedSum(a, sel) == goal
  }

  /** `subsetSum`: the empty subset reaches a zero goal; otherwise the last element
      of the prefix is either taken or left out. */
  function SubsetSum(a: seq<int>, goal: int, n: nat): (b: bool)
    requires n <= |a|
    ensures goal == 0 ==> b
    ensures n == 0 ==> (b <==> goal == 0)
    decreases n
  {
    if goal == 0 then true
    else if n == 0 then false
    else SubsetSum(a, goal - a[n - 1], n - 1) || SubsetSum(a, goal, n - 1)
  }

  /** Taking nothing sums to zero. */
  lemma {:induction false} PickedSumOfNothing(a: seq<int>, n: nat)
    requires n <= |a|
    ensures PickedSum(a, seq(n, _ => false)) == 0
  {
    if n > 0 {
      PickedSumOfNothing(a, n - 1);
      assert seq(n, _ => false)[..n - 1] == seq(n - 1, _ => false);
    }
  }

  /** Whatever `subsetSum` reports found, a subset of the prefix sums to `goal`. */
  lemma {:induction false} SubsetSumSound(a: seq<int>, goal: int, n: nat)
    requires n <= |a| && SubsetSum(a, goal, n)
    ensures HasSubset(a, goal, n)
    decreases n
  {
    if goal == 0 {
      var none := seq(n, _ => false);
      PickedSumOfNothing(a, n);
      assert |none| == n && PickedSum(a, none) == goal;
    } else {
      var x := a[n - 1];
      if SubsetSum(a, goal - x, n - 1) {
        SubsetSumSound(a, goal - x, n - 1);
        var sel :| |sel| == n - 1 && PickedSum(a, sel) == goal - x;
        PickedSumSnoc(a, sel, true);
        assert |sel + [true]| == n && PickedSum(a, sel + [true]) == goal;
      } else {
        SubsetSumSound(a, goal, n - 1);
        var sel :| |sel| == n - 1 && PickedSum(a, sel) == goal;
        PickedSumSnoc(a, sel, false);
        assert |sel + [false]| == n && PickedSum(a, sel + [false]) == goal;
      }
    }
  }

  /** Every subset of the prefix that sums to `goal` is found by `subsetSum`. */
  lemma {:induction false} SubsetSumComplete(a: seq<int>, goal: int, n: nat, sel: seq<bool>)
    requires n <= |a| && |sel| == n && PickedSum(a, sel) == goal
    ensures SubsetSum(a, goal, n)
    decreases n
  {
    if goal != 0 && n > 0 {
      var init := sel[..n - 1];
      assert sel == init + [sel[n - 1]];
      PickedSumSnoc(a, init, sel[n - 1]);
      if sel[n - 1] {
        SubsetSumComplete(a, goal - a[n - 1], n - 1, init);
      } else {
        SubsetSumComplete(a, goal, n - 1, init);
      }
    }
  }

  /** `subsetSum` holds exactly when some subset of the prefix sums to `goal`. */
  lemma SubsetSumCorrect(a: seq<int>, goal: int, n: nat)
    requires n <= |a|
    ensures SubsetSum(a, goal, n) <==> HasSubset(a, goal, n)
  {
    if SubsetSum(a, goal, n) {
      SubsetSumSound(a, goal, n);
    }
    if HasSubset(a, goal, n) {
      var sel :| |sel| == n && PickedSum(a, sel) == goal;
      SubsetSumComplete(a, goal, n, sel);
    }
  }

  /** Every selection in `ss` extended by one more position `b`. */
  function Extend(ss: seq<seq<bool>>, b: bool): (r: seq<seq<bool>>)
    ensures |r| == |ss|
    ensures forall i :: 0 <= i < |ss| ==> r[i] == ss[i] + [b]
  {
    seq(|ss|, i requires 0 <= i < |ss| => ss[i] + [b])
  }

  /** All selections of length `n`: those leaving position `n - 1` out, then those
      taking it. */
  function Selections(n: nat): (r: seq<seq<bool>>)
    ensures forall i :: 0 <= i < |r| ==> |r[i]| == n
  {
    if n == 0 then [[]]
    else
      var s := Selections(n - 1);
      Extend(s, false) + Extend(s, true)
  }

  /** `Selections(n)` lists every selection of length `n`. */
  lemma {:induction false} SelectionsComplete(n: nat, sel: seq<bool>)
    requires |sel| == n
    ensures sel in Selections(n)
  {
    if n > 0 {
      var init := sel[..n - 1];
      SelectionsComplete(n - 1, init);
      var s := Selections(n - 1);
      var l, r := Extend(s, false), Extend(s, true);
      assert sel == init + [sel[n - 1]];
      var k :| 0 <= k < |s| && s[k] == init;
      if sel[n - 1] {
        assert (l + r)[|l| + k] == r[k] == sel;
      } else {
        assert (l + r)[k] == l[k] == sel;
      }
    }
  }

  /** No selection appears twice in `Selections(n)`. */
  lemma {:induction false} SelectionsDistinct(n: nat)
    ensures forall i, j :: 0 <= i < j < |Selections(n)| ==> Selections(n)[i] != Selections(n)[j]
  {
    if n > 0 {
      SelectionsDistinct(n - 1);
      var s := Selections(n - 1);
      var l, r := Extend(s, false), Extend(s, true);
      forall i, j | 0 <= i < j < |l + r|
        ensures (l + r)[i] != (l + r)[j]
      {
        var ii := if i < |l| then i else i - |l|;
        var jj := if j < |l| then j else j - |l|;
        var x, y := (l + r)[i], (l + r)[j];
        assert x == s[ii] + [i >= |l|] && x[n - 1] == (i >= |l|) && x[..n - 1] == s[ii];
        assert y == s[jj] + [j >= |l|] && y[n - 1] == (j >= |l|) && y[..n - 1] == s[jj];
      }
    }
  }

  /** How many of the selections in `sels` pick elements summing to `goal`. */
  function CountMatching(a: seq<int>, goal: int, sels: seq<seq<bool>>): nat
    requires forall i :: 0 <= i < |sels| ==> |sels[i]| <= |a|
  {
    if |sels| == 0 then 0
    else (if PickedSum(a, sels[0]) == goal then 1 else 0) + CountMatching(a, goal, sels[1..])
  }

  lemma {:induction false} CountMatchingAppend(a: seq<int>, goal: int, xs: seq<seq<bool>>, ys: seq<seq<bool>>)
    requires forall i :: 0 <= i < |xs| ==> |xs[i]| <= |a|
    requires forall i :: 0 <= i < |ys| ==> |ys[i]| <= |a|
    ensures CountMatching(a, goal, xs + ys) == CountMatching(a, goal, xs) + CountMatching(a, goal, ys)
  {
    if |xs| > 0 {
      CountMatchingAppend(a, goal, xs[1..], ys);
      assert (xs + ys)[1..] == xs[1..] + ys;
    } else {
      assert xs + ys == ys;
    }
  }

  /** Extending every selection by position `k` shifts the goal by `a[k]` when
      the position is taken, and leaves it alone otherwise. */
  lemma {:induction false} CountMatchingExtend(a: seq<int>, goal: int, ss: seq<seq<bool>>, k: nat, b: bool)
    requires k < |a|
    requires forall i :: 0 <= i < |ss| ==> |ss[i]| == k
    ensures CountMatching(a, goal, Extend(ss, b)) == CountMatching(a, if b then goal - a[k] else goal, ss)
  {
    if |ss| > 0 {
      CountMatchingExtend(a, goal, ss[1..], k, b);
      assert Extend(ss, b)[1..] == Extend(ss[1..], b);
      PickedSumSnoc(a, ss[0], b);
    }
  }

  /** The number of subsets of the first `n` elements of `a` that sum to `goal`:
      the matching entries of the complete, duplicate-free list `Selections(n)`. */
  function SubsetCount(a: seq<int>, goal: int, n: nat): nat
    requires n <= |a|
  {
    CountMatching(a, goal, Selections(n))
  }

  /** Splitting the subsets on whether they take the last element of the prefix. */
  lemma SubsetCountSplit(a: seq<int>, goal: int, n: nat)
    requires 0 < n <= |a|
    ensures SubsetCount(a, goal, n) == SubsetCount(a, goal - a[n - 1], n - 1) + SubsetCount(a, goal, n - 1)
  {
    var s := Selections(n - 1);
    var l, r := Extend(s, false), Extend(s, true);
    assert Selections(n) == l + r;
    CountMatchingAppend(a, goal, l, r);
    CountMatchingExtend(a, goal, s, n - 1, false);
    CountMatchingExtend(a, goal, s, n - 1, true);
  }

  /** The empty prefix has one subset, the empty one, which sums to zero. */
  lemma SubsetCountEmpty(a: seq<int>, goal: int)
    ensures SubsetCount(a, goal, 0) == if goal == 0 then 1 else 0
  {
    assert Selections(0) == [[]];
    assert CountMatching(a, goal, [[]]) == (if PickedSum(a, []) == goal then 1 else 0) + CountMatching(a, goal, []);
  }

  /** The counting recursion with the base case decided by the empty prefix alone. */
  function SubsetSumCountAll(a: seq<int>, goal: int, n: nat): (c: nat)
    requires n <= |a|
    ensures c > 0 <==> SubsetSum(a, goal, n)
    decreases n
  {
    if n == 0 then (if goal == 0 then 1 else 0)
    else SubsetSumCountAll(a, goal - a[n - 1], n - 1) + SubsetSumCountAll(a, goal, n - 1)
  }

  /** `SubsetSumCountAll` is the number of subsets of the first `n` elements that
      sum to `goal`, for elements of any sign. */
  lemma {:induction false} SubsetSumCountAllCounts(a: seq<int>, goal: int, n: nat)
    requires n <= |a|
    ensures SubsetSumCountAll(a, goal, n) == SubsetCount(a, goal, n)
    decreases n
  {
    if n == 0 {
      SubsetCountEmpty(a, goal);
    } else {
      var taken, left := goal - a[n - 1], n - 1;
      assert SubsetSumCountAll(a, goal, n) == SubsetSumCountAll(a, taken, left) + SubsetSumCountAll(a, goal, left);
      SubsetSumCountAllCounts(a, taken, left);
      SubsetSumCountAllCounts(a, goal, left);
      SubsetCountSplit(a, goal, n);
    }
  }

  /** Some subset of the prefix sums to `goal` exactly when at least one is counted. */
  lemma SubsetCountPositiveIffExists(a: seq<int>, goal: int, n: nat)
    requires n <= |a|
    ensures SubsetCount(a, goal, n) > 0 <==> HasSubset(a, goal, n)
  {
    SubsetSumCountAllCounts(a, goal, n);
    SubsetSumCorrect(a, goal, n);
  }

  /** `subsetSumCount` as written: it returns 1 as soon as the goal reaches zero,
      without looking at the elements still left. The count is positive exactly
      when `subsetSum` holds, whatever the signs of the elements. */
  function SubsetSumCount(a: seq<int>, goal: int, n: nat): (c: int)
    requires n <= |a|
    ensures c >= 0
    ensures c > 0 <==> SubsetSum(a, goal, n)
    decreases n
  {
    if goal == 0 then 1
    else if n == 0 then 0
    else SubsetSumCount(a, goal - a[n - 1], n - 1) + SubsetSumCount(a, goal, n - 1)
  }

  /** Positive elements only. */
  predicate AllPositive(a: seq<int>, n: nat)
    requires n <= |a|
  {
    forall i :: 0 <= i < n ==> a[i] > 0
  }

  /** With positive elements no subset sums to a negative goal, and only the empty
      subset sums to zero. */
  lemma {:induction false} PositiveCounts(a: seq<int>, goal: int, n: nat)
    requires n <= |a| && AllPositive(a, n)
    ensures goal < 0 ==> SubsetSumCountAll(a, goal, n) == 0
    ensures goal == 0 ==> SubsetSumCountAll(a, goal, n) == 1
    decreases n
  {
    if n > 0 {
      PositiveCounts(a, goal - a[n - 1], n - 1);
      PositiveCounts(a, goal, n - 1);
    }
  }

  /** For positive elements, `subsetSumCount` agrees with the corrected recursion. */
  lemma {:induction false} SubsetSumCountAgrees(a: seq<int>, goal: int, n: nat)
    requires n <= |a| && AllPositive(a, n)
    ensures SubsetSumCount(a, goal, n) == SubsetSumCountAll(a, goal, n)
    decreases n
  {
    if goal == 0 {
      PositiveCounts(a, goal, n);
    } else if n > 0 {
      SubsetSumCountAgrees(a, goal - a[n - 1], n - 1);
      SubsetSumCountAgrees(a, goal, n - 1);
    }
  }

  /** For positive elements, `subsetSumCount` counts the subsets that sum to `goal`. */
  lemma SubsetSumCountPositive(a: seq<int>, goal: int, n: nat)
    requires n <= |a| && AllPositive(a, n)
    ensures SubsetSumCount(a, goal, n) == SubsetCount(a, goal, n)
  {
    SubsetSumCountAgrees(a, goal, n);
    SubsetSumCountAllCounts(a, goal, n);
  }

  /** A zero element, or two elements that cancel, make a second subset reach
      the goal 0, but `subsetSumCount` still answers 1. */
  lemma SubsetSumCountMissesCancelling()
    ensures SubsetSumCount([0], 0, 1) == 1 && SubsetCount([0], 0, 1) == 2
    ensures SubsetSumCount([1, -1], 0, 2) == 1 && SubsetCount([1, -1], 0, 2) == 2
  {
    assert SubsetSumCountAll([0], 0, 1) == 2;
    SubsetSumCountAllCounts([0], 0, 1);
    assert SubsetSumCountAll([1, -1], 1, 1) == 1;
    assert SubsetSumCountAll([1, -1], 0, 1) == 1;
    assert SubsetSumCountAll([1, -1], 0, 2) == 2;
    SubsetSumCountAllCounts([1, -1], 0, 2);
  }
}
