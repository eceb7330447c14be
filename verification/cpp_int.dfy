/**
 * C and C++ integer semantics that the firmware relies on, written out over
 * Dafny's unbounded integers: `/` and `%` truncate toward zero (C11 section
 * 6.5.5), and narrowing or signed-to-unsigned conversions wrap modulo a power
 * of two (C11 section 6.3.1.3).
 */
module CppInt {

  const TWO_16: int := 0x1_0000
  const TWO_32: int := 0x1_0000_0000

  function Abs(a: int): nat
  {
    if a < 0 then -a else a
  }

  /** C's `a / b` for a positive divisor (every divisor in the firmware is positive):
      the quotient truncated toward zero. */
  function CDiv(a: int, b: int): int
    requires b > 0
  {
    // Dafny's `/` floors; a negative quotient that is not exact is one more
    if a < 0 && a % b != 0 then a / b + 1 else a / b
  }

  /** The truncated quotient is the largest multiple of `b` not beyond `a` in absolute value,
      with the sign of `a`. */
  lemma CDivTruncates(a: int, b: int)
    requires b > 0
    ensures Abs(a) - b < Abs(CDiv(a, b)) * b <= Abs(a)
    ensures CDiv(a, b) != 0 ==> ((CDiv(a, b) > 0) <==> (a > 0))
  {
    FloorDivision(a, b);
    var q, r := a / b, a % b;
    if a >= 0 {
      assert CDiv(a, b) == q && Abs(q) == q;
    } else if r == 0 {
      assert CDiv(a, b) == q && Abs(q) * b == -(q * b);
    } else {
      assert CDiv(a, b) == q + 1 && Abs(q + 1) * b == -(q * b) - b;
    }
  }

  /** Dafny's division by a positive divisor: the quotient has the sign of the dividend
      (zero counting as positive) and the remainder lies in 0..b-1. */
  lemma FloorDivision(a: int, b: int)
    requires b > 0
    ensures a == (a / b) * b + a % b && 0 <= a % b < b
    ensures a >= 0 <==> a / b >= 0
  {
    var q := a / b;
    if q < 0 {
      MulAtLeast(-q, b);
    }
  }

  lemma MulAtLeast(x: int, b: int)
    requires x >= 1 && b > 0
    ensures x * b >= b
  {
  }

  /** C's `a % b` for a positive divisor: what is left after the truncating division. */
  function CRem(a: int, b: int): int
    requires b > 0
  {
    a - b * CDiv(a, b)
  }

  /** The C remainder lies strictly between `-b` and `b` and takes the sign of `a`. */
  lemma CRemBounds(a: int, b: int)
    requires b > 0
    ensures CDiv(a, b) * b + CRem(a, b) == a
    ensures -b < CRem(a, b) < b
    ensures CRem(a, b) != 0 ==> ((CRem(a, b) > 0) <==> (a > 0))
  {
    FloorDivision(a, b);
    var q, r := a / b, a % b;
    if a >= 0 || r == 0 {
      assert CDiv(a, b) == q && CRem(a, b) == r;
    } else {
      assert CDiv(a, b) == q + 1 && CRem(a, b) == r - b;
    }
  }

  /** For a non-negative dividend and a positive divisor, C's operators agree with Dafny's. */
  lemma NonNegativeDivision(a: int, b: int)
    requires a >= 0 && b > 0
    ensures CDiv(a, b) == a / b && CRem(a, b) == a % b
  {
  }

  /** Conversion of an `int` to a 16-bit signed integer (`int16_t`), two's complement wrap-around. */
  function Int16(v: int): (r: int)
    ensures -0x8000 <= r < 0x8000
    ensures (v - r) % TWO_16 == 0
    ensures -0x8000 <= v < 0x8000 ==> r == v
  {
    (v + 0x8000) % TWO_16 - 0x8000
  }

  /** Conversion of an `int` to `unsigned int` (32 bits). */
  function U32(v: int): (r: nat)
    ensures r < TWO_32
    ensures 0 <= v < TWO_32 ==> r == v
    ensures -TWO_32 <= v < 0 ==> r == v + TWO_32
  {
    v % TWO_32
  }
}
