/** Printing a binary64 number and parsing the text gives the number back. */
module RoundTrip {
  import opened Powers
  import opened Numeral
  import opened NumberText
  import opened Rounding
  import opened SoftFloat
  import opened Ratios
  import opened ParseRatio
  import opened ParseCases
  import opened HexLayout
  import opened ExactDecimal
  import opened FloatMeaning
  import opened FloatPromises

  lemma BitsOfParts(bits: nat)
    requires bits < 0x1_0000_0000_0000_0000
    ensures Signed(BINARY64, NegativeOf(bits), MagnitudeOf(bits)) == bits
  {
    hide Pow;
    OneIsLimit();
    DivMod(bits, 0x8000_0000_0000_0000);
    assert SignBit(BINARY64) == 0x8000_0000_0000_0000;
  }

  lemma ZeroMagnitude(magnitude: nat)
    ensures Unit(BINARY64, magnitude) == 0 <==> magnitude == 0
  {
    hide Pow;
    UnitField(BINARY64, 0, 0);
    if magnitude > 0 {
      UnitMono(BINARY64, 0, magnitude);
    }
  }

  /** The text's number is exactly the magnitude. */
  ghost predicate Equals(magnitude: nat, hex: bool, mantissa: nat, exponent: int) {
    Unit(BINARY64, magnitude) * RatioD(Radix(hex), exponent)
      == Scale(RatioN(Radix(hex), mantissa, exponent), SUBNORMAL)
  }

  /** A text that denotes a representable number parses to it in every rounding mode, without a flag. */
  lemma ExactParses(bits: nat, hex: bool, mantissa: nat, exponent: int, stop: nat, mode: Mode, r: Packed, end: nat)
    requires bits < 0x1_0000_0000_0000_0000 && Finite(MagnitudeOf(bits))
    requires Equals(MagnitudeOf(bits), hex, mantissa, exponent)
    requires Answers(BINARY64, mode, Number(NegativeOf(bits), hex, mantissa, exponent, stop), r, end)
    ensures r.bits == bits && end == stop && (mantissa > 0 ==> !r.inexact && !r.overflow && !r.underflow)
  {
    hide Pow, Scale, RatioN, RatioD, Unit, Signed, CorrectlyRounded, MagnitudeOf, NegativeOf, Finite, Infinity;
    var m, negative := MagnitudeOf(bits), NegativeOf(bits);
    var n, d := Scale(RatioN(Radix(hex), mantissa, exponent), UnitShift(BINARY64)), RatioD(Radix(hex), exponent);
    BitsOfParts(bits);
    FiniteBelowInfinity(m);
    if mantissa == 0 {
      ZeroRatio(Radix(hex), exponent);
      ScaleZero(SUBNORMAL);
      PositiveFactor(Unit(BINARY64, m), d);
      ZeroMagnitude(m);
    } else {
      var b: nat :| CorrectlyRounded(BINARY64, mode, negative, n, d, b) && r.bits == Signed(BINARY64, negative, b)
                    && Flagged(BINARY64, mode, negative, n, d, b, r);
      RoundingExact(BINARY64, mode, negative, n, d, m);
      RoundingUnique(BINARY64, mode, negative, n, d, m, b);
      UnitMono(BINARY64, m, Infinity(BINARY64));
      MulStrictMono(d, Unit(BINARY64, m), Unit(BINARY64, Infinity(BINARY64)));
    }
  }

  lemma ZeroRatio(radix: nat, exponent: int)
    ensures RatioN(radix, 0, exponent) == 0
  {
  }

  /** With at least 1074 digits after the point the decimal text is exact. */
  lemma FixedEquals(magnitude: nat, p: nat, negative: bool, mode: Mode)
    requires p >= SUBNORMAL
    ensures Equals(magnitude, false, AtUnit(magnitude, -(p as int), negative, mode), -(p as int))
  {
    hide Pow, Scale, Unit, IntegerPick;
    var unit, two, five := Unit(BINARY64, magnitude), Pow2(SUBNORMAL), Pow(5, p) * Pow2(p - SUBNORMAL);
    PowProduct(2, 5, p);
    PowAdd(2, p - SUBNORMAL, SUBNORMAL);
    PowPos(2, SUBNORMAL);
    assert Pow(10, p) == five * two by {
      assert Pow2(p - SUBNORMAL) * two * Pow(5, p) == Pow(5, p) * Pow2(p - SUBNORMAL) * two;
    }
    PickExact(mode, negative, unit * five, two);
    PowZero(10);
    assert unit * five * two == unit * (five * two);
    ScaleProduct(unit * five, SUBNORMAL);
  }

  /** Without a precision the hexadecimal text is exact. */
  lemma HexEquals(magnitude: nat, negative: bool, upper: bool, mode: Mode)
    ensures var p := HexPrecision(AllDigits(magnitude, upper), -1);
      Equals(magnitude, true, HexMantissa(magnitude, p, negative, mode), HexExponent(magnitude) - p * 4)
  {
    hide Pow, Scale, Unit, IntegerPick, AllDigits, Significant, SignificandOf, HexMantissa, FieldOf, FractionOf;
    var p := HexPrecision(AllDigits(magnitude, upper), -1);
    HexExact(magnitude, negative, upper, mode);
    var m, k := HexMantissa(magnitude, p, negative, mode), 52 - 4 * p;
    PowMul(2, 4, FRACTION_DIGITS - p);
    Sixteen();
    assert SignificandOf(magnitude) == m * Pow2(k);
    UnitOfSignificand(magnitude);
    ScaleProduct(SignificandOf(magnitude), ScaleOf(magnitude) + SUBNORMAL);
    if SignificandOf(magnitude) == 0 {
      PositiveFactor(m, Pow2(k)) by {
        PowPos(2, k);
      }
      ZeroRatio(2, HexExponent(magnitude) - p * 4);
      ScaleZero(SUBNORMAL);
    } else {
      ExponentsAgree(magnitude);
      BinaryEquals(magnitude, m, ScaleOf(magnitude), k);
    }
  }

  lemma ExponentsAgree(magnitude: nat)
    requires SignificandOf(magnitude) > 0
    ensures HexExponent(magnitude) == ScaleOf(magnitude) + 52
  {
  }

  lemma BinaryEquals(magnitude: nat, m: nat, s: int, k: nat)
    requires s + SUBNORMAL >= 0 && Unit(BINARY64, magnitude) == m * Pow2(k) * Pow2(s + SUBNORMAL)
    ensures Equals(magnitude, true, m, s + k)
  {
    hide Pow, Scale, Unit;
    var x := s + k;
    PowAdd(2, k, s + SUBNORMAL);
    assert m * Pow2(k) * Pow2(s + SUBNORMAL) == m * (Pow2(k) * Pow2(s + SUBNORMAL));
    if x >= 0 {
      PowAdd(2, x, SUBNORMAL);
      ScaleProduct(m * Pow2(x), SUBNORMAL);
      assert m * Pow2(x) * Pow2(SUBNORMAL) == m * (Pow2(x) * Pow2(SUBNORMAL));
    } else {
      PowAdd(2, x + SUBNORMAL, -x);
      ScaleProduct(m, SUBNORMAL);
      assert m * Pow2(x + SUBNORMAL) * Pow2(-x) == m * (Pow2(x + SUBNORMAL) * Pow2(-x));
    }
  }

  /** %.1074f, or any longer precision, in any rounding mode: the text parses back in any other. */
  lemma FixedRoundTrip(bits: nat, t: string, sign: string, precision: int, upper: bool, printing: Mode, parsing: Mode,
                       r: Packed, end: nat)
    requires bits < 0x1_0000_0000_0000_0000 && Finite(MagnitudeOf(bits)) && precision >= SUBNORMAL
    requires Means(t, bits, Fixed, precision, upper, printing) && SignText(NegativeOf(bits), sign)
    requires Answers(BINARY64, parsing, Read(sign + t), r, end)
    ensures r.bits == bits && end == |sign + t|
  {
    hide Read, AtUnit, Equals, MagnitudeOf, NegativeOf, Answers;
    var m, negative := MagnitudeOf(bits), NegativeOf(bits);
    FixedEquals(m, precision, negative, printing);
    assert Denotes(sign + t, Fixed, m, precision, negative, printing, upper);
    ExactParses(bits, false, AtUnit(m, -precision, negative, printing), -precision, |sign + t|, parsing, r, end);
  }

  /** %a without a precision. */
  lemma HexRoundTrip(bits: nat, t: string, sign: string, precision: int, upper: bool, printing: Mode, parsing: Mode,
                     r: Packed, end: nat)
    requires bits < 0x1_0000_0000_0000_0000 && Finite(MagnitudeOf(bits)) && precision < 0
    requires Means(t, bits, Hexadecimal, precision, upper, printing) && SignText(NegativeOf(bits), sign)
    requires Answers(BINARY64, parsing, Read(sign + t), r, end)
    ensures r.bits == bits && end == |sign + t|
  {
    hide Read, HexMantissa, Equals, MagnitudeOf, NegativeOf, Answers, AllDigits, HexExponent, Significant;
    var m, negative := MagnitudeOf(bits), NegativeOf(bits);
    var p := HexPrecision(AllDigits(m, upper), -1);
    HexEquals(m, negative, upper, printing);
    assert Denotes(sign + t, Hexadecimal, m, precision, negative, printing, upper);
    ExactParses(bits, true, HexMantissa(m, p, negative, printing), HexExponent(m) - p * 4, |sign + t|, parsing, r, end);
  }
}
