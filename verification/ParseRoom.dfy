/** When digits were dropped, the divisor is a power of the radix large enough to absorb the
    alignment shift, so the dropped part cannot carry into the significand. */
module ParseRoom {
  import opened Powers
  import opened Numeral
  import opened Rounding
  import opened Ratios
  import opened ParseMath
  import opened ParseRatio
  import opened ParseResult

  /** 10^3 < 2^10, as often as needed. */
  lemma TenTight(j: nat)
    ensures Pow(10, j) <= Pow2(10 * ((j + 2) / 3))
  {
    var i := (j + 2) / 3;
    PowMono(10, j, 3 * i);
    PowMul(10, 3, i);
    PowMul(2, 10, i);
    assert Pow(10, 3) == 1000 && Pow(2, 10) == 1024;
    PowBaseMono(1000, 1024, i);
  }

  /** With 1200 digits kept and at most 1600 places, the divisor 10^m has m >= 62 - e. */
  lemma DecimalRoom(num: nat, m: nat, e: int)
    requires Pow(10, CD_DIGITS - 1) <= num && 62 <= m <= CD_DIGITS + DECIMAL_LIMIT
    requires Log2(num, Pow(10, m), e)
    ensures 62 - e <= m
  {
    PowPos(10, m);
    if m < 62 - e {
      Log2Between(num, Pow(10, m), e, 62 - m);
      assert Scale(num, m - 62) < Pow(10, m);
      if m < CD_DIGITS {
        PowMono(10, m, CD_DIGITS - 1);
        ScaleGrows(num, 0, m - 62);
      } else {
        TenShift(num, m);
      }
    }
  }

  lemma TenShift(num: nat, m: nat)
    requires Pow(10, CD_DIGITS - 1) <= num && CD_DIGITS <= m <= CD_DIGITS + DECIMAL_LIMIT
    ensures Pow(10, m) <= Scale(num, m - 62)
  {
    var k := m - (CD_DIGITS - 1);
    PowAdd(10, CD_DIGITS - 1, k);
    TenTight(k);
    PowMono(2, 10 * ((k + 2) / 3), m - 62);
    MulMono(Pow(10, CD_DIGITS - 1), Pow(10, k), Pow2(m - 62));
    MulMono(Pow2(m - 62), Pow(10, CD_DIGITS - 1), num);
    ScaleProduct(num, m - 62);
  }

  lemma BinaryRoom(num: nat, m: nat, e: int)
    requires Pow2(62) <= num && 62 <= m && Log2(num, Pow2(m), e)
    ensures 62 - e <= m
  {
    PowPos(2, m);
    if m < 62 - e {
      Log2Between(num, Pow2(m), e, 62 - m);
      assert Pow2(m) <= Scale(num, m - 62) by {
        ScaleProduct(num, m - 62);
        PowAdd(2, 62, m - 62);
        MulMono(Pow2(m - 62), Pow2(62), num);
      }
    }
  }

  /** A power of either radix is a multiple of a smaller power of two. */
  lemma RadixMultiple(hex: bool, m: nat, k: nat)
    requires k <= m
    ensures exists c: nat :: Pow(Radix(hex), m) == Scale(c, k)
  {
    PowAdd(2, m - k, k);
    var c := if hex then Pow2(m - k) else Pow2(m - k) * Pow(5, m);
    ScaleProduct(c, k);
    if !hex {
      PowProduct(2, 5, m);
      Swap(Pow2(m - k), Pow2(k), Pow(5, m));
    }
    assert Pow(Radix(hex), m) == Scale(c, k);
  }

  lemma Swap(a: nat, b: nat, c: nat)
    ensures a * b * c == a * c * b
  {
  }

  /** width counts the kept digits in the radix; the order is within its limits. */
  lemma DroppedAbsorbed(f: Format, hex: bool, num: nat, width: nat, m: nat, e: int)
    requires Supported(f) && Width(Radix(hex), num, width)
    requires if hex then width > 4 * (CD_DIGITS - 1) else width == CD_DIGITS
    requires -(Limit(hex) as int) <= width - m <= Limit(hex)
    requires Log2(num, Pow(Radix(hex), m), e)
    ensures Absorbs(f, Pow(Radix(hex), m), e)
  {
    if hex {
      PowMono(2, 62, width - 1);
      BinaryRoom(num, m, e);
    } else {
      DecimalRoom(num, m, e);
    }
    if Aligned(f, e) > 0 {
      RadixMultiple(hex, m, Aligned(f, e));
    }
  }

  /** Sixteen to the k is two to the 4k. */
  lemma HexPower(k: nat)
    ensures Pow(16, k) == Pow2(4 * k)
  {
    PowMul(2, 4, k);
    assert Pow(2, 4) == 16;
  }

  /** The digits kept, as a width in the radix. */
  function WidthOf(hex: bool, num: nat, kept: nat): nat {
    if hex then BitLen(num) else kept
  }

  lemma KeptWidth(hex: bool, num: nat, kept: nat)
    requires kept > 0 && kept <= CD_DIGITS && HasDigits(if hex then 16 else 10, num, kept)
    ensures num > 0 && Width(Radix(hex), num, WidthOf(hex, num, kept))
    ensures WidthOf(hex, num, kept) <= 4 * CD_DIGITS
    ensures hex ==> 4 * (kept - 1) < BitLen(num)
  {
    if hex {
      HexPower(kept - 1);
      HexPower(kept);
      PowPos(16, kept - 1);
      BitLenBounds(num);
      PowExponentLess(2, 4 * (kept - 1), BitLen(num));
      PowExponentLess(2, BitLen(num) - 1, 4 * kept);
    } else {
      PowPos(10, kept - 1);
    }
  }

  /** The whole digit string as an extension of the kept one. */
  lemma TailExtends(hex: bool, mantissa: nat, num: nat, dropped: nat, tail: nat)
    requires Tail(if hex then 16 else 10, mantissa, num, dropped, tail)
    ensures Extends(Radix(hex), mantissa, num, dropped * Step(hex), tail)
  {
    HexPower(dropped);
  }
}
