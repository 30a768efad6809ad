/** The exact decimal expansion of a binary64 number. */
module ExactDecimal {
  import opened Powers
  import opened DigitText
  import opened Rounding
  import opened DecimalLayout
  import opened HexLayout
  import opened LoopStates

  /** A number is counted in units of 2^-1074. */
  const SUBNORMAL: nat := 1074
  const MAX_DIGITS: nat := 1200

  predicate Finite(magnitude: nat) {
    FieldOf(magnitude) < 2047
  }

  /** The exponent of the significand as an integer. */
  function ScaleOf(magnitude: nat): int {
    if FieldOf(magnitude) > 0 then FieldOf(magnitude) - 1075 else -(SUBNORMAL as int)
  }

  /** The decimal digits as an integer: the significand times a power of two, or of five with the
      point moved. */
  function Expanded(magnitude: nat): nat {
    var x := ScaleOf(magnitude);
    if x >= 0 then Scale(SignificandOf(magnitude), x) else SignificandOf(magnitude) * Pow(5, -x)
  }

  /** s with the point after `point` digits is exactly the number. */
  ghost predicate Exactly(s: string, point: int, magnitude: nat)
    requires IsDigits(10, s)
  {
    && 0 <= |s| - point <= SUBNORMAL
    && Horner(10, s) * Pow2(SUBNORMAL) == Unit(BINARY64, magnitude) * Pow(10, |s| - point)
  }

  lemma OneIsLimit()
    ensures One(BINARY64) == FRACTION_LIMIT
  {
    PowMul(2, 4, FRACTION_DIGITS);
    assert Pow(2, 4) == 16;
    FractionLimit();
  }

  lemma UnitOfSignificand(magnitude: nat)
    ensures ScaleOf(magnitude) + SUBNORMAL >= 0
    ensures Unit(BINARY64, magnitude) == Scale(SignificandOf(magnitude), ScaleOf(magnitude) + SUBNORMAL)
  {
    hide Pow;
    OneIsLimit();
  }

  lemma ExpandedValue(magnitude: nat)
    ensures var k := Most(-ScaleOf(magnitude), 0);
      Expanded(magnitude) * Pow2(SUBNORMAL) == Unit(BINARY64, magnitude) * Pow(10, k)
  {
    hide Pow, Scale, Unit, SignificandOf, ScaleOf;
    var x, sig := ScaleOf(magnitude), SignificandOf(magnitude);
    UnitOfSignificand(magnitude);
    ScaleProduct(sig, x + SUBNORMAL);
    if x >= 0 {
      ScaleAdd(sig, x, SUBNORMAL);
      ScaleProduct(Scale(sig, x), SUBNORMAL);
      PowZero(10);
    } else {
      PowProduct(2, 5, -x);
      PowAdd(2, x + SUBNORMAL, -x);
      FactorTwos(sig, Pow(5, -x), Pow2(x + SUBNORMAL), Pow2(-x));
    }
  }

  lemma FactorTwos(sig: nat, five: nat, a: nat, b: nat)
    ensures (sig * five) * (a * b) == (sig * a) * (b * five)
  {
    var x := sig * a;
    var y := b * five;
    assert sig * five * (a * b) == sig * (five * (a * b));
    assert five * (a * b) == a * (b * five) by {
      assert five * (a * b) == (a * b) * five;
    }
    assert sig * (a * y) == x * y;
  }

  /** 2^53 and 1074 more factors of at most ten. */
  lemma SignificandBound(magnitude: nat)
    ensures SignificandOf(magnitude) < Pow(10, 53)
  {
    hide Pow;
    FractionLimit();
    PowBaseMono(2, 10, 53);
    PowMul(2, 4, FRACTION_DIGITS);
    Sixteen();
    PowStep(2, 53);
  }

  lemma Sixteen()
    ensures Pow(2, 4) == 16
  {
  }

  lemma FactorBound(sig: nat, b: nat, k: nat)
    requires sig < Pow(10, 53) && b <= 10 && k <= SUBNORMAL
    ensures sig * Pow(b, k) < Pow(10, MAX_DIGITS)
  {
    hide Pow;
    PowBaseMono(b, 10, k);
    PowMono(10, k, SUBNORMAL);
    PowAdd(10, 53, SUBNORMAL);
    PowStrictMono(10, 53 + SUBNORMAL, MAX_DIGITS);
    PowPos(10, SUBNORMAL);
    MulMono(sig, Pow(b, k), Pow(10, SUBNORMAL));
    MulStrictMono(Pow(10, SUBNORMAL), sig, Pow(10, 53));
  }

  /** The digits fit the buffer. */
  lemma ExpandedBound(magnitude: nat)
    requires Finite(magnitude)
    ensures Expanded(magnitude) < Pow(10, MAX_DIGITS)
  {
    hide Pow, Scale, SignificandOf;
    var x, sig := ScaleOf(magnitude), SignificandOf(magnitude);
    SignificandBound(magnitude);
    if x >= 0 {
      ScaleProduct(sig, x);
      FactorBound(sig, 2, x);
    } else {
      FactorBound(sig, 5, -x);
    }
  }

  lemma BufferCapacity()
    ensures Pow(10, MAX_DIGITS) < Capacity()
  {
    hide Pow;
    PowBaseMono(10, 16, MAX_DIGITS);
    PowMul(2, 4, MAX_DIGITS);
    Sixteen();
    PowStrictMono(2, 4 * MAX_DIGITS, 32 * CD_WORDS);
    CapacityBits();
  }

  /** Every partial product of the multiplications by five fits. */
  lemma FivesFit(sig: nat, i: nat)
    requires sig < Pow(10, 53) && i <= SUBNORMAL
    ensures sig * Pow(5, i) < Capacity()
  {
    FactorBound(sig, 5, i);
    BufferCapacity();
  }

  lemma FivesTurn(sig: nat, i: nat)
    ensures sig * Pow(5, i) * 5 == sig * Pow(5, i + 1)
  {
    assert sig * Pow(5, i) * 5 == sig * (5 * Pow(5, i));
  }

  lemma FiniteBelowInfinity(magnitude: nat)
    ensures Finite(magnitude) <==> magnitude < Infinity(BINARY64)
  {
    hide Pow;
    OneIsLimit();
    DivMod(magnitude, FRACTION_LIMIT);
  }
}
