/**
 Java's 32-bit `int` arithmetic, written out over Dafny's unbounded `int`.

 Dafny's `/` and `%` are Euclidean; Java's truncate toward zero, and every
 Java `int` operation wraps modulo 2^32. The rest of the model works on
 unbounded integers and uses this module where the difference matters.
 */
module JavaInt {

  const MinInt: int := -0x8000_0000
  const MaxInt: int :=  0x7fff_ffff
  const Modulus: int := 0x1_0000_0000

  /** The values a Java `int` can hold. */
  predicate IsInt(x: int) {
    MinInt <= x <= MaxInt
  }

  /** The two's-complement wrap-around Java applies to the result of every `int` operation. */
  function Wrap(x: int): (r: int)
    ensures IsInt(r)
    ensures (r - x) % Modulus == 0
    ensures IsInt(x) ==> r == x
  {
    var m := (x - MinInt) % Modulus;
    m + MinInt
  }

  /** Java's unary minus on an `int`. */
  function Neg(x: int): (r: int)
    requires IsInt(x)
    ensures IsInt(r)
    ensures x != MinInt ==> r == -x
    ensures x == MinInt ==> r == MinInt
  {
    Wrap(-x)
  }

  /** Java's `x / 2`: the quotient rounded toward zero. It differs from
      Dafny's Euclidean quotient exactly when `x` is negative and odd. */
  function Half(x: int): (q: int)
    ensures x >= 0 || x % 2 == 0 ==> q == x / 2
    ensures x < 0 && x % 2 != 0 ==> q == x / 2 + 1
    ensures x - 1 <= 2 * q <= x + 1
  {
    if x >= 0 then x / 2 else -((-x) / 2)
  }

  /** Values congruent modulo 2^32 wrap to the same `int`. */
  lemma WrapCongruent(x: int, y: int)
    requires (x - y) % Modulus == 0
    ensures Wrap(x) == Wrap(y)
  {
    var k := (x - y) / Modulus;
    var kx := (Wrap(x) - x) / Modulus;
    var ky := (Wrap(y) - y) / Modulus;
    assert x - y == k * Modulus;
    assert Wrap(x) - x == kx * Modulus;
    assert Wrap(y) - y == ky * Modulus;
    assert Wrap(x) - Wrap(y) == (kx - ky + k) * Modulus;
  }
}
