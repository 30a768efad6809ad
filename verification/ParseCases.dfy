/** The three ways the parser finishes a nonzero number, each rounding the exact value. */
module ParseCases {
  import opened Powers
  import opened Numeral
  import opened Rounding
  import opened SoftFloat
  import opened Ratios
  import opened ParseMath
  import opened ParseRatio
  import opened ParseResult
  import opened ParseBounds
  import opened ParseRoom

  /** What the parser holds after reading a nonzero number: kept digits, counts, the exponent it
      will use and the exact number those stand for. */
  ghost predicate Held(hex: bool, mantissa: nat, exponent: int, num: nat, kept: nat, dropped: nat, sticky: bool,
                       exp: int) {
    && kept > 0 && Scanned(if hex then 16 else 10, mantissa, num, kept, dropped, sticky)
    && var order := WidthOf(hex, num, kept) + exp;
       var exact := exponent + dropped * Step(hex);
       || exp == exact
       || (order > 2000 && order - exp + exact > 2000)
       || (order < -2000 && order - exp + exact < -2000)
  }

  /** The packed result is the exact number, correctly rounded. */
  ghost predicate Rounds(f: Format, mode: Mode, negative: bool, hex: bool, mantissa: nat, exponent: int, r: Packed)
    requires f.bias >= 1
  {
    RoundsTo(f, mode, negative, Scale(RatioN(Radix(hex), mantissa, exponent), UnitShift(f)),
      RatioD(Radix(hex), exponent), r)
  }

  lemma HeldParts(hex: bool, mantissa: nat, exponent: int, num: nat, kept: nat, dropped: nat, sticky: bool, exp: int)
    returns (tail: nat)
    requires Held(hex, mantissa, exponent, num, kept, dropped, sticky, exp)
    ensures num > 0 && Width(Radix(hex), num, WidthOf(hex, num, kept))
    ensures Extends(Radix(hex), mantissa, num, dropped * Step(hex), tail) && (sticky <==> tail > 0)
    ensures Width(Radix(hex), mantissa, WidthOf(hex, num, kept) + dropped * Step(hex))
  {
    tail :| Tail(if hex then 16 else 10, mantissa, num, dropped, tail) && (sticky <==> tail > 0);
    KeptWidth(hex, num, kept);
    TailExtends(hex, mantissa, num, dropped, tail);
    ExtendsWidth(Radix(hex), mantissa, num, WidthOf(hex, num, kept), dropped * Step(hex), tail);
  }

  lemma HugeOrder(f: Format, mode: Mode, negative: bool, hex: bool, mantissa: nat, exponent: int, num: nat, kept: nat,
                  dropped: nat, sticky: bool, exp: int)
    requires Supported(f) && Held(hex, mantissa, exponent, num, kept, dropped, sticky, exp)
    requires WidthOf(hex, num, kept) + exp > Limit(hex)
    ensures Rounds(f, mode, negative, hex, mantissa, exponent,
              RoundPack(f, mode, negative, 2000 + f.bias - 1, Pow2(f.frac + f.drop)))
  {
    var tail := HeldParts(hex, mantissa, exponent, num, kept, dropped, sticky, exp);
    OrderLimits(hex, mantissa, exponent, WidthOf(hex, num, kept) + dropped * Step(hex));
    HugeResult(f, mode, negative, RatioN(Radix(hex), mantissa, exponent), RatioD(Radix(hex), exponent), 2000);
  }

  lemma MantissaPositive(radix: nat, mantissa: nat, exponent: int, width: nat)
    requires radix > 0 && Width(radix, mantissa, width)
    ensures RatioN(radix, mantissa, exponent) > 0
  {
    PowPos(radix, width - 1);
    if exponent >= 0 {
      PowPos(radix, exponent);
      MulStrictMono(mantissa, 0, Pow(radix, exponent));
    }
  }

  lemma TinyOrder(f: Format, mode: Mode, negative: bool, hex: bool, mantissa: nat, exponent: int, num: nat, kept: nat,
                  dropped: nat, sticky: bool, exp: int)
    requires Supported(f) && Held(hex, mantissa, exponent, num, kept, dropped, sticky, exp)
    requires WidthOf(hex, num, kept) + exp < -(Limit(hex) as int)
    ensures Rounds(f, mode, negative, hex, mantissa, exponent,
              RoundPack(f, mode, negative, -2000 + f.bias - 1, Pow2(f.frac + f.drop)))
  {
    var tail := HeldParts(hex, mantissa, exponent, num, kept, dropped, sticky, exp);
    var width := WidthOf(hex, num, kept) + dropped * Step(hex);
    OrderLimits(hex, mantissa, exponent, width);
    MantissaPositive(Radix(hex), mantissa, exponent, width);
    TinyResult(f, mode, negative, RatioN(Radix(hex), mantissa, exponent), RatioD(Radix(hex), exponent), -2000);
  }

  /** The numerator after the positive part of the exponent was multiplied in. */
  function Raised(hex: bool, num: nat, exp: int): nat {
    if exp > 0 then num * Pow(Radix(hex), exp) else num
  }

  /** The order lies within the limits, so the exponent is exact and digits were dropped only from
      a fraction. */
  lemma InRange(hex: bool, mantissa: nat, exponent: int, num: nat, kept: nat, dropped: nat, sticky: bool, exp: int)
    requires Held(hex, mantissa, exponent, num, kept, dropped, sticky, exp)
    requires -(Limit(hex) as int) <= WidthOf(hex, num, kept) + exp <= Limit(hex)
    ensures exp == exponent + dropped * Step(hex)
    ensures dropped > 0 ==> kept == CD_DIGITS && exp < 0
  {
    if dropped > 0 {
      KeptWidth(hex, num, kept);
    }
  }

  lemma RaisedPositive(hex: bool, num: nat, exp: int)
    requires num > 0
    ensures Raised(hex, num, exp) > 0
  {
    if exp > 0 {
      PowPos(Radix(hex), exp);
      MulStrictMono(num, 0, Pow(Radix(hex), exp));
    }
  }

  /** The ratio the parser divides, with what it left out of the whole number. */
  lemma RangeCarries(hex: bool, mantissa: nat, exponent: int, num: nat, kept: nat, dropped: nat, sticky: bool, exp: int)
    returns (t: nat, tail: nat)
    requires Held(hex, mantissa, exponent, num, kept, dropped, sticky, exp)
    requires -(Limit(hex) as int) <= WidthOf(hex, num, kept) + exp <= Limit(hex)
    ensures Carries(Raised(hex, num, exp), RatioD(Radix(hex), exp), t, tail,
              RatioN(Radix(hex), mantissa, exponent), RatioD(Radix(hex), exponent))
    ensures (sticky <==> tail > 0) && (tail > 0 ==> dropped > 0)
    ensures RatioN(Radix(hex), mantissa, exponent) > 0 && Raised(hex, num, exp) > 0
  {
    tail := HeldParts(hex, mantissa, exponent, num, kept, dropped, sticky, exp);
    InRange(hex, mantissa, exponent, num, kept, dropped, sticky, exp);
    t := Pow(Radix(hex), dropped * Step(hex));
    RatioOfDigits(hex, mantissa, exponent, num, dropped * Step(hex), tail);
    MantissaPositive(Radix(hex), mantissa, exponent, WidthOf(hex, num, kept) + dropped * Step(hex));
    RaisedPositive(hex, num, exp);
  }

  /** In range, but the binary exponent is outside [-1200, 1100]. */
  lemma ExtremeExponent(f: Format, mode: Mode, negative: bool, hex: bool, mantissa: nat, exponent: int, num: nat,
                        kept: nat, dropped: nat, sticky: bool, exp: int, e: int)
    requires Supported(f) && Held(hex, mantissa, exponent, num, kept, dropped, sticky, exp)
    requires -(Limit(hex) as int) <= WidthOf(hex, num, kept) + exp <= Limit(hex)
    requires Log2(Raised(hex, num, exp), RatioD(Radix(hex), exp), e)
    requires (e > 1100 || e < -1200) && -0x4000 <= e < 0x4000
    ensures Rounds(f, mode, negative, hex, mantissa, exponent,
              RoundPack(f, mode, negative, e + f.bias - 1, Pow2(f.frac + f.drop)))
  {
    var t, tail := RangeCarries(hex, mantissa, exponent, num, kept, dropped, sticky, exp);
    var a, b := Raised(hex, num, exp), RatioD(Radix(hex), exp);
    var n, d := RatioN(Radix(hex), mantissa, exponent), RatioD(Radix(hex), exponent);
    if e > 1100 {
      Log2Between(a, b, e, 1101);
      CarriesAbove(a, b, t, tail, n, d, 1101);
      HugeResult(f, mode, negative, n, d, e);
    } else {
      Log2Between(a, b, e, -1200);
      CarriesBelow(a, b, t, tail, n, d);
      TinyResult(f, mode, negative, n, d, e);
    }
  }

  /** In range: the aligned quotient, jammed, is packed. */
  lemma OrdinaryExponent(f: Format, mode: Mode, negative: bool, hex: bool, mantissa: nat, exponent: int, num: nat,
                         kept: nat, dropped: nat, sticky: bool, exp: int, e: int)
    requires Supported(f) && Held(hex, mantissa, exponent, num, kept, dropped, sticky, exp)
    requires -(Limit(hex) as int) <= WidthOf(hex, num, kept) + exp <= Limit(hex)
    requires Log2(Raised(hex, num, exp), RatioD(Radix(hex), exp), e) && -1200 <= e <= 1100
    ensures AlignedD(f, RatioD(Radix(hex), exp), e) > 0
    ensures Rounds(f, mode, negative, hex, mantissa, exponent,
              RoundPack(f, mode, negative, e + f.bias - 1,
                Significand(AlignedN(f, Raised(hex, num, exp), e), AlignedD(f, RatioD(Radix(hex), exp), e), sticky)))
  {
    var t, tail := RangeCarries(hex, mantissa, exponent, num, kept, dropped, sticky, exp);
    if tail > 0 {
      InRange(hex, mantissa, exponent, num, kept, dropped, sticky, exp);
      KeptWidth(hex, num, kept);
      DroppedAbsorbed(f, hex, num, WidthOf(hex, num, kept), -exp, e);
    }
    NormalResult(f, mode, negative, Raised(hex, num, exp), RatioD(Radix(hex), exp), t, tail, e,
      RatioN(Radix(hex), mantissa, exponent), RatioD(Radix(hex), exponent));
  }

  // ---------------------------------------------------------------- sizes

  lemma RangeFits(hex: bool, mantissa: nat, exponent: int, num: nat, kept: nat, dropped: nat, sticky: bool, exp: int)
    requires Held(hex, mantissa, exponent, num, kept, dropped, sticky, exp)
    requires -(Limit(hex) as int) <= WidthOf(hex, num, kept) + exp <= Limit(hex)
    ensures 0 < Raised(hex, num, exp) < Pow2(SAFE_BITS)
    ensures RatioD(Radix(hex), exp) < Pow2(SAFE_BITS)
  {
    KeptWidth(hex, num, kept);
    RaisedPositive(hex, num, exp);
    if exp > 0 {
      RaisedFits(hex, num, WidthOf(hex, num, kept), exp);
      PowStrictMono(2, 0, SAFE_BITS);
    } else {
      DigitsFit(if hex then 16 else 10, num, kept);
      PowMono(2, 4 * CD_DIGITS, SAFE_BITS);
      RadixFits(hex, -exp);
    }
  }

  lemma RaisedFits(hex: bool, num: nat, width: nat, exp: nat)
    requires Width(Radix(hex), num, width) && width + exp <= Limit(hex)
    ensures num * Pow(Radix(hex), exp) < Pow2(SAFE_BITS)
  {
    hide Pow;
    var r := Radix(hex);
    RadixFits(hex, width + exp);
    PowAdd(r, width, exp);
    PowPos(r, exp);
    MulStrictMono(Pow(r, exp), num, Pow(r, width));
  }

  lemma RadixFits(hex: bool, k: nat)
    requires k <= Limit(hex) + (if hex then 4 * CD_DIGITS else CD_DIGITS)
    ensures Pow(Radix(hex), k) < Pow2(SAFE_BITS)
  {
    if hex {
      PowStrictMono(2, k, SAFE_BITS);
    } else {
      TenPowerFits(k);
      PowStrictMono(2, 4 * k, SAFE_BITS);
    }
  }

  /** The digit loop and the exponent establish what the conversion starts from. */
  lemma HeldFromScan(hex: bool, mantissa: nat, v: int, num: nat, kept: nat, dropped: nat, sticky: bool, frac: nat, e: int)
    requires Scanned(if hex then 16 else 10, mantissa, num, kept, dropped, sticky) && num > 0
    requires Saturated(v, e) && dropped <= MAX_TEXT && frac <= MAX_TEXT
    ensures Held(hex, mantissa, v - frac * Step(hex), num, kept, dropped, sticky, e + (dropped - frac) * Step(hex))
  {
    hide Scanned, Pow, WidthOf, Saturated;
    ScannedCases(if hex then 16 else 10, mantissa, num, kept, dropped, sticky);
    KeptWidth(hex, num, kept);
    OrderExact(hex, v, e, WidthOf(hex, num, kept), dropped - frac);
  }

  /** What strtod promises for each kind of text: the end of the subject sequence, and the
      correctly rounded number. */
  ghost predicate Answers(f: Format, mode: Mode, reading: Reading, r: Packed, end: nat)
    requires f.bias >= 1
  {
    match reading
    case Nothing => r.bits == 0 && end == 0
    case Infinite(negative, stop) => end == stop && r.bits == Signed(f, negative, Infinity(f))
    case NotNumber(negative, stop) => end == stop && r.bits == Signed(f, negative, Infinity(f) + One(f) / 2)
    case Number(negative, hex, mantissa, exponent, stop) =>
      && end == stop
      && (if mantissa == 0 then r.bits == Signed(f, negative, 0)
          else Rounds(f, mode, negative, hex, mantissa, exponent, r))
  }

  function Plain(bits: nat): Packed {
    Packed(bits, false, false, false)
  }
}
