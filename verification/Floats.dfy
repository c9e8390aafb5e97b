/** IEEE 754 single-precision patterns, as they lie in a capture file. */
module Floats {
  import opened Words
  import opened Quantities

  type Float = Word

  const SIGN_BIT := 0x8000_0000
  const INFINITY: Float := 0x7f80_0000
  const MINUS_FIVE: Float := 0xc0a0_0000

  function WithoutSign(f: Float): Float {
    if f < SIGN_BIT then f else f - SIGN_BIT
  }

  predicate IsInf(f: Float) { WithoutSign(f) == INFINITY }

  predicate IsNan(f: Float) { WithoutSign(f) > INFINITY }

  /** Flips the sign bit, as C's unary minus does. */
  function Negate(f: Float): Float {
    if f < SIGN_BIT then f + SIGN_BIT else f - SIGN_BIT
  }

  function Pow2(e: int): real
    decreases if e < 0 then -e else e
  {
    if e == 0 then 1.0 else if e > 0 then 2.0 * Pow2(e - 1) else Pow2(e + 1) / 2.0
  }

  /** The number a pattern without its sign bit stands for. */
  function Magnitude(m: nat): real {
    var exponent, fraction := m / 0x80_0000, m % 0x80_0000;
    if exponent == 0 then fraction as real * Pow2(-149)
    else (0x80_0000 + fraction) as real * Pow2(exponent - 150)
  }

  function Value(f: Float): real {
    if f < SIGN_BIT then Magnitude(f) else -Magnitude(WithoutSign(f))
  }

  lemma Pow2Doubles(e: int)
    ensures Pow2(e + 1) == 2.0 * Pow2(e)
  {
  }

  /**
   The three laws that determine every magnitude: the patterns below exponent 2 are evenly
   spaced from 0 on, each exponent doubles the one before, and 0x3f80_0000 is 1.
   */
  lemma MagnitudeLaws(m: nat)
    ensures m < 0x100_0000 ==> Magnitude(m) == m as real * Magnitude(1)
    ensures m >= 0x80_0000 ==> Magnitude(m + 0x80_0000) == 2.0 * Magnitude(m)
    ensures Magnitude(0x3f80_0000) == 1.0
  {
    var exponent, fraction := m / 0x80_0000, m % 0x80_0000;
    assert m == 0x80_0000 * exponent + fraction;
    if m >= 0x80_0000 {
      Pow2Doubles(exponent - 150);
      assert (m + 0x80_0000) / 0x80_0000 == exponent + 1 && (m + 0x80_0000) % 0x80_0000 == fraction;
      Twice((0x80_0000 + fraction) as real, Pow2(exponent - 150), Pow2(exponent - 149));
    }
    PowersBelowOne();
  }

  lemma Twice(n: real, p: real, q: real)
    requires q == 2.0 * p
    ensures n * q == 2.0 * (n * p)
  {
  }

  lemma PowersBelowOne()
    ensures Pow2(-21) == 1.0 / 2097152.0 && Pow2(-23) == 1.0 / 8388608.0
  {
    assert Pow2(-3) == 1.0 / 8.0 && Pow2(-6) == 1.0 / 64.0 && Pow2(-9) == 1.0 / 512.0;
    assert Pow2(-12) == 1.0 / 4096.0 && Pow2(-15) == 1.0 / 32768.0 && Pow2(-18) == 1.0 / 262144.0;
    assert Pow2(-21) == 1.0 / 2097152.0;
  }

  /** Which patterns are special: infinities, and the NaNs beyond them, of either sign. */
  lemma SpecialPatterns(f: Float)
    ensures IsInf(f) <==> f == 0x7f80_0000 || f == 0xff80_0000
    ensures Decode(f).NaN? <==> 0x7f80_0000 < f < 0x8000_0000 || 0xff80_0000 < f
    ensures Decode(f).Is? ==> Decode(f).value == if f < 0x8000_0000 then Magnitude(f) else -Magnitude(f - 0x8000_0000)
  {
  }

  /** What a program computes with when it reads a pattern. */
  function Decode(f: Float): Quantity {
    if IsNan(f) then NaN else Is(Value(f))
  }

  predicate Positive(f: Float) { Decode(f).MoreThan(0.0) }

  predicate Negative(f: Float) { Decode(f).LessThan(0.0) }

  lemma NegateIsMinus(f: Float)
    ensures Value(Negate(f)) == -Value(f) && Negate(Negate(f)) == f
    ensures Decode(Negate(f)) == Decode(f).Minus()
    ensures IsInf(Negate(f)) <==> IsInf(f)
    ensures Positive(Negate(f)) <==> Negative(f)
    ensures Negative(Negate(f)) <==> Positive(f)
  {
  }

  lemma MinusFive()
    ensures Value(MINUS_FIVE) == -5.0 && Negative(MINUS_FIVE) && !IsInf(MINUS_FIVE)
  {
    PowersBelowOne();
    assert 0xa0_0000 as real * Pow2(-21) == 5.0;
  }
}
