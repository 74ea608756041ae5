/**
 The digit recursions `sumOfDigits` and `reverseDigits`, which use integer
 arithmetic only, and the decimal notation they are measured against.
 */
module Digits {
  import JavaInt

  /** The number a digit sequence denotes in base 10, most significant digit first. */
  function Value(ds: seq<int>): int {
    if |ds| == 0 then 0 else Value(ds[..|ds| - 1]) * 10 + ds[|ds| - 1]
  }

  /** Every entry is a decimal digit. */
  predicate AllDigits(ds: seq<int>) {
    forall i :: 0 <= i < |ds| ==> 0 <= ds[i] <= 9
  }

  /** The usual decimal notation: at least one digit, and no leading zero unless
      the number is zero itself. */
  predicate Canonical(ds: seq<int>) {
    1 <= |ds| && AllDigits(ds) && (|ds| > 1 ==> ds[0] != 0)
  }

  /** The decimal digits of `n`, most significant first. */
  function DigitsOf(n: nat): (ds: seq<int>)
    ensures Canonical(ds)
    ensures Value(ds) == n
  {
    if n < 10 then [n]
    else
      var ds := DigitsOf(n / 10) + [n % 10];
      assert ds[..|ds| - 1] == DigitsOf(n / 10);
      ds
  }

  /** A sequence of decimal digits denotes a non-negative number no smaller than
      its leading digit. */
  lemma {:induction false} ValueAtLeastLead(ds: seq<int>)
    requires 1 <= |ds| && AllDigits(ds)
    ensures Value(ds) >= ds[0] >= 0
  {
    if |ds| > 1 {
      var init := ds[..|ds| - 1];
      ValueAtLeastLead(init);
    }
  }

  /** Decimal notation is unique: `DigitsOf(n)` is the only canonical digit
      sequence denoting `n`. */
  lemma {:induction false} DigitsUnique(ds: seq<int>, n: nat)
    requires Canonical(ds) && Value(ds) == n
    ensures ds == DigitsOf(n)
  {
    if |ds| == 1 {
      assert Value(ds) == ds[0];
    } else {
      var init, last := ds[..|ds| - 1], ds[|ds| - 1];
      ValueAtLeastLead(init);
      assert init[0] == ds[0];
      assert n == Value(init) * 10 + last && 0 <= last <= 9;
      assert n >= 10;
      assert Value(init) == n / 10 && last == n % 10;
      DigitsUnique(init, n / 10);
      assert ds == init + [last];
    }
  }

  /** The sum of a sequence, added up from the front. */
  function Sum(xs: seq<int>): int {
    if |xs| == 0 then 0 else xs[0] + Sum(xs[1..])
  }

  lemma {:induction false} SumSnoc(xs: seq<int>, x: int)
    ensures Sum(xs + [x]) == Sum(xs) + x
  {
    if |xs| > 0 {
      SumSnoc(xs[1..], x);
      assert (xs + [x])[1..] == xs[1..] + [x];
    }
  }

  /** The sum of the decimal digits of `|n|`. */
  function DigitSum(n: int): int {
    Sum(DigitsOf(if n < 0 then -n else n))
  }

  /** `sumOfDigits`: the sum of the decimal digits of `|n|`, peeling the last digit
      off with `% 10` and `/ 10`. The recursion runs on non-negative values only,
      where Java's operators agree with Dafny's. Negation here is exact; see
      `MinValueNegatesToItself` for Java's. */
  function SumOfDigits(n: int): (r: int)
    ensures r == DigitSum(n)
    ensures 0 <= n < 10 ==> r == n
    ensures r >= 0
    decreases if n < 0 then 1 - n else n
  {
    if n < 0 then SumOfDigits(-n)
    else if n < 10 then
      assert Sum([n]) == n + Sum([]);
      n
    else
      var r := n % 10 + SumOfDigits(n / 10);
      SumSnoc(DigitsOf(n / 10), n % 10);
      SumNonNegative(DigitsOf(n));
      r
  }

  lemma {:induction false} SumNonNegative(ds: seq<int>)
    requires AllDigits(ds)
    ensures Sum(ds) >= 0
  {
    if |ds| > 0 {
      SumNonNegative(ds[1..]);
    }
  }

  /** In Java, `-n` on `Integer.MIN_VALUE` wraps back to `Integer.MIN_VALUE`, which is
      still negative: the `n < 0` branch of `sumOfDigits` calls itself again with the
      very same argument, and the recursion never ends. */
  lemma MinValueNegatesToItself()
    ensures JavaInt.Neg(JavaInt.MinInt) == JavaInt.MinInt < 0
  {
  }

  /** With exact negation the minimum `int` has the digit sum of 2147483648. */
  lemma SumOfDigitsOfMinValue()
    ensures SumOfDigits(JavaInt.MinInt) == 47
  {
    assert SumOfDigits(21) == 3;
    assert SumOfDigits(214) == 7;
    assert SumOfDigits(2147) == 14;
    assert SumOfDigits(21474) == 18;
    assert SumOfDigits(214748) == 26;
    assert SumOfDigits(2147483) == 29;
    assert SumOfDigits(21474836) == 35;
    assert SumOfDigits(214748364) == 39;
    assert SumOfDigits(2147483648) == 47;
  }

  /** `s` back to front. */
  function Reverse(s: seq<int>): (r: seq<int>)
    ensures |r| == |s|
    ensures forall i :: 0 <= i < |s| ==> r[i] == s[|s| - 1 - i]
  {
    if |s| == 0 then [] else [s[|s| - 1]] + Reverse(s[..|s| - 1])
  }

  /** `x` shifted `k` decimal places to the left, that is `x * 10^k`. */
  function Shift(x: int, k: nat): int {
    if k == 0 then x else 10 * Shift(x, k - 1)
  }

  lemma {:induction false} ShiftAdd(x: int, y: int, k: nat)
    ensures Shift(x + y, k) == Shift(x, k) + Shift(y, k)
  {
    if k > 0 {
      ShiftAdd(x, y, k - 1);
    }
  }

  lemma {:induction false} ShiftTen(x: int, k: nat)
    ensures Shift(10 * x, k) == Shift(x, k + 1)
  {
    if k > 0 {
      ShiftTen(x, k - 1);
    }
  }

  /** A digit put in front contributes its place value. */
  lemma {:induction false} ValueCons(d: int, ys: seq<int>)
    ensures Value([d] + ys) == Shift(d, |ys|) + Value(ys)
  {
    if |ys| > 0 {
      var init, last := ys[..|ys| - 1], ys[|ys| - 1];
      ValueCons(d, init);
      assert ([d] + ys)[..|ys|] == [d] + init;
      assert Value([d] + ys) == Value([d] + init) * 10 + last;
    }
  }

  /** `reverseDigits`: moves the last digit of `n` onto the end of `acc` until `n`
      runs out. For `n >= 1` the recursion divides non-negative values only. */
  function ReverseDigits(n: int, acc: int): (r: int)
    ensures n < 1 ==> r == acc
    decreases n
  {
    if n < 1 then acc else ReverseDigits(n / 10, 10 * acc + n % 10)
  }

  /** Digits are only ever appended: from a non-negative `acc` the result never
      falls below `acc`. */
  lemma {:induction false} ReverseDigitsGrows(n: int, acc: int)
    requires acc >= 0
    ensures ReverseDigits(n, acc) >= acc
    decreases n
  {
    if n >= 1 {
      ReverseDigitsGrows(n / 10, 10 * acc + n % 10);
    }
  }

  /** In general, `acc` is shifted left past all digits of `n`, and the digits of `n`
      follow in reverse order. */
  lemma {:induction false} ReverseDigitsShifts(n: int, acc: int)
    requires n >= 1
    ensures ReverseDigits(n, acc) == Shift(acc, |DigitsOf(n)|) + Value(Reverse(DigitsOf(n)))
    decreases n
  {
    if n < 10 {
      ReverseOneDigit(n, acc);
    } else {
      var d := n % 10;
      var front := DigitsOf(n / 10);
      var k := |front|;
      var v := Value(Reverse(front));
      ReverseDigitsShifts(n / 10, 10 * acc + d);
      ReversedValue(n, front, d);
      ShiftAdd(10 * acc, d, k);
      ShiftTen(acc, k);
      calc {
        ReverseDigits(n, acc);
        ReverseDigits(n / 10, 10 * acc + d);
        Shift(10 * acc + d, k) + v;
        Shift(10 * acc, k) + Shift(d, k) + v;
        Shift(acc, k + 1) + (Shift(d, k) + v);
        Shift(acc, |DigitsOf(n)|) + Value(Reverse(DigitsOf(n)));
      }
    }
  }

  /** A single digit is appended to `acc` in one step. */
  lemma ReverseOneDigit(n: int, acc: int)
    requires 1 <= n < 10
    ensures ReverseDigits(n, acc) == Shift(acc, |DigitsOf(n)|) + Value(Reverse(DigitsOf(n)))
  {
    assert DigitsOf(n) == [n];
    assert Reverse([n]) == [n];
    assert Value([n]) == Value([]) * 10 + n;
    assert ReverseDigits(n, acc) == ReverseDigits(0, 10 * acc + n);
  }

  /** The digits of `n >= 10` are those of `n / 10` followed by `n % 10`, so the
      reversal starts with `n % 10` at the highest place. */
  lemma ReversedValue(n: int, front: seq<int>, d: int)
    requires n >= 10 && front == DigitsOf(n / 10) && d == n % 10
    ensures |DigitsOf(n)| == |front| + 1
    ensures Value(Reverse(DigitsOf(n))) == Shift(d, |front|) + Value(Reverse(front))
  {
    assert DigitsOf(n) == front + [d];
    assert Reverse(front + [d]) == [d] + Reverse(front);
    ValueCons(d, Reverse(front));
  }

  /** `reverseDigits(n, 0)` for `n >= 1` is the number whose decimal digits are those
      of `n` reversed, leading zeros of the reversal dropping out as usual. */
  lemma ReverseDigitsReverses(n: int)
    requires n >= 1
    ensures ReverseDigits(n, 0) == Value(Reverse(DigitsOf(n)))
  {
    ReverseDigitsShifts(n, 0);
    ShiftZero(|DigitsOf(n)|);
  }

  lemma {:induction false} ShiftZero(k: nat)
    ensures Shift(0, k) == 0
  {
    if k > 0 {
      ShiftZero(k - 1);
    }
  }

  /** Reversing twice gives `n` back when `n` does not end in zero. */
  lemma ReverseDigitsTwice(n: int)
    requires n >= 1 && n % 10 != 0
    ensures ReverseDigits(ReverseDigits(n, 0), 0) == n
  {
    var ds := DigitsOf(n);
    var rs := Reverse(ds);
    var m := Value(rs);
    ReverseDigitsReverses(n);
    LastDigit(n);
    assert rs[0] == n % 10;
    assert AllDigits(rs);
    assert Canonical(rs);
    ValueAtLeastLead(rs);
    DigitsUnique(rs, m);
    ReverseDigitsReverses(m);
    assert Reverse(rs) == ds;
  }

  /** The last decimal digit of `n` is `n % 10`. */
  lemma LastDigit(n: nat)
    ensures DigitsOf(n)[|DigitsOf(n)| - 1] == n % 10
  {
    if n >= 10 {
      assert DigitsOf(n) == DigitsOf(n / 10) + [n % 10];
    }
  }

  /** Accumulators congruent modulo 2^32 give results congruent modulo 2^32:
      `reverseDigits` only multiplies `acc` by ten and adds to it. */
  lemma {:induction false} ReverseDigitsCongruent(n: int, a: int, b: int)
    requires (a - b) % JavaInt.Modulus == 0
    ensures (ReverseDigits(n, a) - ReverseDigits(n, b)) % JavaInt.Modulus == 0
    decreases n
  {
    if n >= 1 {
      var k := (a - b) / JavaInt.Modulus;
      assert a - b == k * JavaInt.Modulus;
      assert (10 * a + n % 10) - (10 * b + n % 10) == (10 * k) * JavaInt.Modulus;
      ReverseDigitsCongruent(n / 10, 10 * a + n % 10, 10 * b + n % 10);
    }
  }

  /** `reverseDigits` as Java evaluates it: `10 * acc` and the following `+ n % 10`
      each wrap to 32 bits. Java's result is the exact reversal wrapped to 32 bits,
      for every pair of `int` arguments. */
  function ReverseDigitsJava(n: int, acc: int): (r: int)
    requires JavaInt.IsInt(n) && JavaInt.IsInt(acc)
    ensures r == JavaInt.Wrap(ReverseDigits(n, acc))
    decreases n
  {
    if n < 1 then acc
    else
      var d := n % 10;
      var next := JavaInt.Wrap(JavaInt.Wrap(10 * acc) + d);
      var kInner := (JavaInt.Wrap(10 * acc) - 10 * acc) / JavaInt.Modulus;
      var kOuter := (next - (JavaInt.Wrap(10 * acc) + d)) / JavaInt.Modulus;
      assert next - (10 * acc + d) == (kInner + kOuter) * JavaInt.Modulus;
      ReverseDigitsCongruent(n / 10, next, 10 * acc + d);
      JavaInt.WrapCongruent(ReverseDigits(n / 10, next), ReverseDigits(n, acc));
      ReverseDigitsJava(n / 10, next)
  }

  /** Java's wrap-around never shows when the reversed number fits in an `int`. */
  lemma ReverseDigitsJavaAgrees(n: int, acc: int)
    requires JavaInt.IsInt(n) && JavaInt.IsInt(acc)
    requires JavaInt.IsInt(ReverseDigits(n, acc))
    ensures ReverseDigitsJava(n, acc) == ReverseDigits(n, acc)
  {
  }

  /** A reversal need not fit in an `int`: 1000000009 reversed is 9000000001, above
      `Integer.MAX_VALUE`, so Java's `int` result cannot be the reversal. */
  lemma ReverseDigitsExceedsInt()
    ensures ReverseDigits(1_000_000_009, 0) == 9_000_000_001
  {
    assert ReverseDigits(1, 900_000_000) == 9_000_000_001;
    assert ReverseDigits(10, 90_000_000) == 9_000_000_001;
    assert ReverseDigits(100, 9_000_000) == 9_000_000_001;
    assert ReverseDigits(1_000, 900_000) == 9_000_000_001;
    assert ReverseDigits(10_000, 90_000) == 9_000_000_001;
    assert ReverseDigits(100_000, 9_000) == 9_000_000_001;
    assert ReverseDigits(1_000_000, 900) == 9_000_000_001;
    assert ReverseDigits(10_000_000, 90) == 9_000_000_001;
    assert ReverseDigits(100_000_000, 9) == 9_000_000_001;
  }
}
