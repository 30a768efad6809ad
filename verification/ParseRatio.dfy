/** From the digits the parser keeps to the exact number the text denotes. */
module ParseRatio {
  import opened Powers
  import opened Numeral
  import opened Ratios

  // ---------------------------------------------------------------- magnitude limits

  const DECIMAL_LIMIT: nat := 400
  const BINARY_LIMIT: nat := 2000

  /** num has exactly width digits in the radix. */
  ghost predicate Width(radix: nat, num: nat, width: nat) {
    width > 0 && Pow(radix, width - 1) <= num < Pow(radix, width)
  }

  /** mantissa is num with k more digits, which form tail. */
  ghost predicate Extends(radix: nat, mantissa: nat, num: nat, k: nat, tail: nat) {
    tail < Pow(radix, k) && mantissa == num * Pow(radix, k) + tail
  }

  lemma ExtendsWidth(radix: nat, mantissa: nat, num: nat, width: nat, k: nat, tail: nat)
    requires radix > 0 && Width(radix, num, width) && Extends(radix, mantissa, num, k, tail)
    ensures Width(radix, mantissa, width + k)
  {
    PowAdd(radix, width - 1, k);
    PowAdd(radix, width, k);
    ScaledBounds(tail, num, Pow(radix, width - 1), Pow(radix, width), Pow(radix, k));
  }

  lemma RatioLow(radix: nat, mantissa: nat, exponent: int, a: nat, b: nat)
    requires radix > 0 && Pow(radix, a) <= mantissa && b <= a + exponent
    ensures Pow(radix, b) * RatioD(radix, exponent) <= RatioN(radix, mantissa, exponent)
  {
    var p := Pow(radix, b);
    if exponent >= 0 {
      assert p <= Pow(radix, a) * Pow(radix, exponent) by {
        PowMono(radix, b, a + exponent);
        PowAdd(radix, a, exponent);
      }
      MulMono(Pow(radix, exponent), Pow(radix, a), mantissa);
    } else {
      assert p * Pow(radix, -exponent) <= Pow(radix, a) by {
        PowMono(radix, b + -exponent, a);
        PowAdd(radix, b, -exponent);
      }
    }
  }

  lemma RatioHigh(radix: nat, mantissa: nat, exponent: int, a: nat, b: nat)
    requires radix > 0 && mantissa < Pow(radix, a) && a + b <= -exponent && b > 0
    ensures RatioN(radix, mantissa, exponent) * Pow(radix, b) < RatioD(radix, exponent)
  {
    var p := Pow(radix, b);
    assert Pow(radix, a) * p <= Pow(radix, -exponent) by {
      PowMono(radix, a + b, -exponent);
      PowAdd(radix, a, b);
    }
    PowPos(radix, b);
    MulStrictMono(p, mantissa, Pow(radix, a));
  }

  lemma TenPower(k: nat)
    ensures Pow2(3 * k) <= Pow(10, k)
  {
    PowMul(2, 3, k);
    assert Pow(2, 3) == 8;
    PowBaseMono(8, 10, k);
  }

  /** The decimal or binary limit in the radix, against powers of two. */
  lemma LimitBits(hex: bool)
    ensures hex ==> Pow(2, BINARY_LIMIT) >= Pow2(1200) && Pow(2, BINARY_LIMIT + 1) >= Pow2(1200)
    ensures !hex ==> Pow(10, DECIMAL_LIMIT) >= Pow2(1200) && Pow(10, DECIMAL_LIMIT + 1) >= Pow2(1200)
  {
    if hex {
      PowMono(2, 1200, BINARY_LIMIT);
      PowMono(2, 1200, BINARY_LIMIT + 1);
    } else {
      TenPower(DECIMAL_LIMIT);
      TenPower(DECIMAL_LIMIT + 1);
      PowMono(2, 1200, 3 * (DECIMAL_LIMIT + 1));
    }
  }

  function Radix(hex: bool): nat {
    if hex then 2 else 10
  }

  function Limit(hex: bool): nat {
    if hex then BINARY_LIMIT else DECIMAL_LIMIT
  }

  /** A decimal order above the limit is past 2^1101, one below its negative under 2^-1199. */
  lemma OrderLimits(hex: bool, mantissa: nat, exponent: int, width: nat)
    requires Width(Radix(hex), mantissa, width)
    ensures var n, d := RatioN(Radix(hex), mantissa, exponent), RatioD(Radix(hex), exponent);
      && (width + exponent > Limit(hex) ==> AtLeast(n, d, 1101))
      && (width + exponent < -(Limit(hex) as int) ==> !AtLeast(n, d, -1199))
  {
    var n, d := RatioN(Radix(hex), mantissa, exponent), RatioD(Radix(hex), exponent);
    LimitBits(hex);
    if width + exponent > Limit(hex) {
      RatioLow(Radix(hex), mantissa, exponent, width - 1, Limit(hex));
      AboveByPower(n, d, Pow(Radix(hex), Limit(hex)));
    } else if width + exponent < -(Limit(hex) as int) {
      RatioHigh(Radix(hex), mantissa, exponent, width, Limit(hex) + 1);
      BelowByPower(n, d, Pow(Radix(hex), Limit(hex) + 1));
    }
  }

  lemma AboveByPower(n: nat, d: nat, p: nat)
    requires p >= Pow2(1200) && p * d <= n
    ensures AtLeast(n, d, 1101)
  {
    MulMono(d, Pow2(1200), p);
    ScaleProduct(d, 1200);
    ScaleGrows(d, 1101, 1200);
  }

  lemma BelowByPower(n: nat, d: nat, p: nat)
    requires p >= Pow2(1200) && n * p < d
    ensures !AtLeast(n, d, -1199)
  {
    MulMono(n, Pow2(1200), p);
    ScaleProduct(n, 1200);
    ScaleGrows(n, 1199, 1200);
  }

  // ---------------------------------------------------------------- dropped digits cannot carry

  /** A tail below the last digit does not change a quotient whose divisor is a multiple of the
      factor, and makes it inexact. */
  lemma NoCarry(num: nat, tail: nat, t: nat, a: nat, d: nat)
    requires tail < t && a > 0 && d > 0 && (tail == 0 || d % a == 0)
    ensures d * t > 0
    ensures ((num * t + tail) * a) / (d * t) == (num * a) / d
    ensures ((num * t + tail) * a) % (d * t) == 0 <==> (num * a) % d == 0 && tail == 0
  {
    var q, r := (num * a) / d, (num * a) % d;
    DivMod(num * a, d);
    MulStrictMono(d, 0, t);
    if tail == 0 {
      assert (num * t) * a == q * (d * t) + r * t by {
        NoTailIdentity(num, t, a, d, q, r);
      }
      MulMono(t, r + 1, d);
      MulAdd(t, r, 1);
      DivUnique((num * t) * a, d * t, q, r * t);
      if r > 0 {
        MulStrictMono(r, 0, t);
      }
    } else {
      var c := d / a;
      DivMod(d, a);
      TailStays(num, tail, t, a, d, q, r, c);
      DivUnique((num * t + tail) * a, d * t, q, (num * t + tail) * a - q * (d * t));
    }
  }

  lemma NoTailIdentity(num: nat, t: nat, a: nat, d: nat, q: nat, r: nat)
    requires num * a == d * q + r
    ensures (num * t) * a == q * (d * t) + r * t
  {
    assert (num * t) * a == (num * a) * t;
    assert (d * q + r) * t == (d * q) * t + r * t;
    assert (d * q) * t == q * (d * t);
  }

  /** With d a multiple of a, the next multiple of d is reached from num in whole steps of a. */
  lemma TailStays(num: nat, tail: nat, t: nat, a: nat, d: nat, q: nat, r: nat, c: nat)
    requires 0 < tail < t && a > 0 && num * a == d * q + r && r < d && d == a * c
    ensures 0 < (num * t + tail) * a - q * (d * t) < d * t
  {
    var k := num - c * q;
    StepsOf(num, a, d, q, r, c, k);
    MulCancelStrict(a, k, c);
    MulCancel(a, 0, k);
    TailIdentity(num, tail, t, a, c, q, k);
    StepsBelow(k, tail, t, c, a);
  }

  lemma StepsOf(num: nat, a: nat, d: nat, q: nat, r: nat, c: nat, k: int)
    requires num * a == d * q + r && d == a * c && k == num - c * q
    ensures r == a * k
  {
    assert a * (c * q) == (a * c) * q;
    MulAdd(a, num, c * q);
  }

  lemma StepsBelow(k: nat, tail: nat, t: nat, c: nat, a: nat)
    requires k < c && 0 < tail < t && a > 0
    ensures 0 < (k * t + tail) * a < (a * c) * t
  {
    MulMono(t, k + 1, c);
    MulAdd(t, k, 1);
    MulMono(t, 0, k);
    MulStrictMono(a, 0, k * t + tail);
    MulStrictMono(a, k * t + tail, c * t);
    assert a * (c * t) == (a * c) * t;
  }

  lemma TailIdentity(num: nat, tail: nat, t: nat, a: nat, c: nat, q: nat, k: int)
    requires k == num - c * q
    ensures (num * t + tail) * a - q * ((a * c) * t) == (k * t + tail) * a
  {
    assert q * ((a * c) * t) == (c * q) * t * a;
    assert (k * t + tail) * a == (num * t - (c * q) * t + tail) * a by {
      assert k * t == num * t - (c * q) * t;
    }
  }
}
