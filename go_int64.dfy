/**
 Go's `int64` arithmetic as the metric code relies on it: sums and
 differences wrap around in two's complement (`atomic.AddInt64`, `+=`, `-`),
 and `/` truncates toward zero, with the one overflowing quotient
 `MinInt64 / -1` wrapping back to `MinInt64`.
 */
module GoInt64 {

  const MinI64: int := -0x8000_0000_0000_0000
  const MaxI64: int := 0x7FFF_FFFF_FFFF_FFFF

  /** The number of distinct `int64` values, 2^64. */
  const Modulus: int := 0x1_0000_0000_0000_0000

  type int64 = x: int | -0x8000_0000_0000_0000 <= x <= 0x7FFF_FFFF_FFFF_FFFF

  function Abs(x: int): int
  {
    if x < 0 then -x else x
  }

  /** The `int64` that two's-complement arithmetic yields when the exact result is x. */
  function Wrap(x: int): (r: int64)
    ensures (x - r) % Modulus == 0
    ensures MinI64 <= x <= MaxI64 ==> r == x
  {
    (x - MinI64) % Modulus + MinI64
  }

  /** A multiple of 2^64 that lies strictly between -2^64 and 2^64 is 0. */
  lemma SmallMultiple(d: int)
    requires d % Modulus == 0
    requires -Modulus < d < Modulus
    ensures d == 0
  {
  }

  /** Congruence modulo 2^64 is closed under addition. */
  lemma CongruentSum(a: int, b: int)
    requires a % Modulus == 0 && b % Modulus == 0
    ensures (a + b) % Modulus == 0
  {
    assert a == (a / Modulus) * Modulus;
    assert b == (b / Modulus) * Modulus;
    assert a + b == (a / Modulus + b / Modulus) * Modulus;
  }

  /** Wrap is the only `int64` congruent to x modulo 2^64. */
  lemma WrapUnique(x: int, r: int64)
    requires (x - r) % Modulus == 0
    ensures Wrap(x) == r
  {
    var w := Wrap(x);
    CongruentSum(x - r, -(x - w));
    SmallMultiple(w - r);
  }

  /** Wrapping an intermediate result does not change the wrapped total:
      a running int64 sum equals the wrapped exact sum. */
  lemma WrapAdd(x: int, y: int)
    ensures Wrap(Wrap(x) + y) == Wrap(x + y)
  {
    var w := Wrap(x);
    var s := Wrap(w + y);
    CongruentSum(x - w, w + y - s);
    WrapUnique(x + y, s);
  }

  /** A difference strictly between 0 and 2^64 never wraps to 0. */
  lemma WrapNonzero(x: int)
    requires 0 < x < Modulus
    ensures Wrap(x) != 0
  {
  }

  /** Integer division rounded toward zero, which is what `/` means on
      integers in Go; Dafny's own `/` is Euclidean and differs when the
      dividend is negative. */
  function TruncDiv(a: int, b: int): (q: int)
    requires b != 0
    ensures 0 <= a && 0 < b ==> q == a / b
  {
    var q := Abs(a) / Abs(b);
    if (a < 0) == (b < 0) then q else -q
  }

  /** The quotient's magnitude is the Euclidean quotient of the magnitudes,
      never above the dividend's, and a nonzero quotient is positive exactly
      when the operands have the same sign. */
  lemma TruncDivMagnitude(a: int, b: int)
    requires b != 0
    ensures Abs(TruncDiv(a, b)) == Abs(a) / Abs(b) <= Abs(a)
    ensures TruncDiv(a, b) > 0 ==> (a < 0) == (b < 0)
    ensures TruncDiv(a, b) < 0 ==> (a < 0) != (b < 0)
  {
    NatDiv(Abs(a), Abs(b));
  }

  /** The quotient leaves a remainder that is smaller than the divisor in
      magnitude and carries the sign of the dividend, which pins the
      truncating quotient down uniquely. */
  lemma TruncDivRemainder(a: int, b: int)
    requires b != 0
    ensures var r := a - TruncDiv(a, b) * b;
      (a >= 0 ==> 0 <= r < Abs(b)) && (a < 0 ==> -Abs(b) < r <= 0)
  {
    var q := Abs(a) / Abs(b);
    NatDiv(Abs(a), Abs(b));
    NegMul(q, b);
  }

  /** Euclidean division of naturals: the remainder is below the divisor
      and the quotient does not exceed the dividend. */
  lemma NatDiv(x: nat, y: nat)
    requires y > 0
    ensures 0 <= x / y <= x
    ensures 0 <= x - (x / y) * y < y
  {
    var q, r := x / y, x % y;
    assert x == q * y + r;
    MulAtLeast(q, y);
  }

  lemma MulAtLeast(q: nat, y: nat)
    requires y > 0
    ensures q <= q * y
  {
  }

  lemma NegMul(q: int, b: int)
    ensures -q * b == -(q * b)
    ensures q * b == (if b < 0 then -(q * Abs(b)) else q * Abs(b))
  {
  }

  /** Go's `/` on two `int64` operands. */
  function GoDiv(a: int64, b: int64): (r: int64)
    requires b != 0
    ensures !(a == MinI64 && b == -1) ==> r == TruncDiv(a, b)
    ensures a == MinI64 && b == -1 ==> r == MinI64
  {
    TruncDivMagnitude(a, b);
    Wrap(TruncDiv(a, b))
  }
}
