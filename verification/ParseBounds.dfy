/** Size bounds of the parser: every intermediate number fits 8192 bits, the saturating exponent
    is exact wherever it matters, and the divisor always absorbs the dropped digits. */
module ParseBounds {
  import opened Powers
  import opened Numeral
  import opened Ratios
  import opened ParseMath
  import opened ParseRatio

  /** The longest text a 32-bit object can hold. */
  const MAX_TEXT: int := 0x7fff_ffff
  const SATURATION: int := 10_000_000_000
  const SAFE_BITS: nat := 7000

  /** An exponent read with the saturating accumulator. */
  ghost predicate Saturated(v: int, e: int) {
    e == v || (SATURATION <= v && SATURATION <= e) || (v <= -SATURATION && e <= -SATURATION)
  }

  /** Either the parser's exponent is the true one, or both are far on the same side. */
  lemma OrderExact(hex: bool, v: int, e: int, width: nat, shift: int)
    requires Saturated(v, e) && width <= 4800 && -MAX_TEXT <= shift <= MAX_TEXT
    ensures var exp, true_ := e + shift * Step(hex), v + shift * Step(hex);
      || exp == true_
      || (width + exp > 2000 && width + true_ > 2000)
      || (width + exp < -2000 && width + true_ < -2000)
  {
  }

  // ---------------------------------------------------------------- capacity

  lemma DigitsFit(base: nat, num: nat, kept: nat)
    requires 2 <= base <= 16 && HasDigits(base, num, kept) && kept <= CD_DIGITS
    ensures num < Pow2(4 * CD_DIGITS)
  {
    KeptBound(base, num, kept);
    PowMono(2, 4 * kept, 4 * CD_DIGITS);
  }

  lemma TenPowerFits(k: nat)
    ensures Pow(10, k) <= Pow2(4 * k)
  {
    PowBaseMono(10, 16, k);
    PowMul(2, 4, k);
    assert Pow(2, 4) == 16;
  }

  // ---------------------------------------------------------------- the exact ratio

  /** The kept number over the divisor, and the whole number, as one equation. */
  ghost predicate Carries(num: nat, den: nat, t: nat, tail: nat, xn: nat, xd: nat) {
    tail < t && xn * (den * t) == (num * t + tail) * xd
  }

  lemma RatioOfDigits(hex: bool, mantissa: nat, exponent: int, num: nat, k: nat, tail: nat)
    requires Extends(Radix(hex), mantissa, num, k, tail) && (exponent + k >= 0 ==> k == 0)
    ensures var r, exp := Radix(hex), exponent + k;
      Carries(if exp > 0 then num * Pow(r, exp) else num, RatioD(r, exp), Pow(r, k), tail,
              RatioN(r, mantissa, exponent), RatioD(r, exponent))
  {
    var r, exp := Radix(hex), exponent + k;
    if exp >= 0 {
      assert mantissa == num && tail == 0;
      assert Pow(r, 0) == 1;
    } else {
      PowAdd(r, k, -exp);
      assert RatioD(r, exponent) == Pow(r, k) * RatioD(r, exp);
    }
  }

  lemma CarriesAbove(num: nat, den: nat, t: nat, tail: nat, xn: nat, xd: nat, k: nat)
    requires den > 0 && Carries(num, den, t, tail, xn, xd) && AtLeast(num, den, k)
    ensures AtLeast(xn, xd, k)
  {
    ScaleProduct(den, k);
    ScaleProduct(xd, k);
    AboveProducts(num, den, t, tail, xn, xd, Pow2(k));
  }

  lemma AboveProducts(num: nat, den: nat, t: nat, tail: nat, xn: nat, xd: nat, p: nat)
    requires den > 0 && tail < t && xn * (den * t) == (num * t + tail) * xd && den * p <= num
    ensures xd * p <= xn
  {
    MulStrictMono(den, 0, t);
    MulMono(t, den * p, num);
    MulMono(xd, t * (den * p), num * t + tail);
    assert xd * (t * (den * p)) == (den * t) * (xd * p);
    MulCancel(den * t, xd * p, xn);
  }

  lemma CarriesBelow(num: nat, den: nat, t: nat, tail: nat, xn: nat, xd: nat)
    requires num > 0 && den > 0 && xd > 0 && Carries(num, den, t, tail, xn, xd) && !AtLeast(num, den, -1200)
    ensures !AtLeast(xn, xd, -1199)
  {
    ScaleProduct(num, 1199);
    ScaleProduct(xn, 1199);
    assert Scale(num, 1200) == 2 * Scale(num, 1199);
    BelowProducts(num, den, t, tail, xn, xd, Pow2(1199));
  }

  lemma BelowProducts(num: nat, den: nat, t: nat, tail: nat, xn: nat, xd: nat, p: nat)
    requires num > 0 && xd > 0 && tail < t && xn * (den * t) == (num * t + tail) * xd && 2 * (num * p) < den
    ensures xn * p < xd
  {
    var m := num * t + tail;
    MulMono(t, 1, num);
    assert (den * t) * (xn * p) == (m * xd) * p by {
      assert (den * t) * (xn * p) == (xn * (den * t)) * p;
    }
    assert (m * xd) * p <= (2 * (num * p)) * (t * xd) by {
      assert (m * xd) * p == (xd * p) * m;
      MulMono(xd * p, m, 2 * (num * t));
      assert (xd * p) * (2 * (num * t)) == (2 * (num * p)) * (t * xd);
    }
    BelowCancel(xn * p, xd, den, t, 2 * (num * p));
  }

  lemma BelowCancel(x: nat, xd: nat, den: nat, t: nat, q: nat)
    requires xd > 0 && t > 0 && q < den && (den * t) * x <= q * (t * xd)
    ensures x < xd
  {
    MulStrictMono(t, 0, xd);
    MulStrictMono(t * xd, q, den);
    assert (t * xd) * den == (den * t) * xd;
    MulCancelStrict(den * t, x, xd);
  }
}
