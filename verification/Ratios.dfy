/** Positive ratios compared with powers of two, and their rounding when they are far outside the
    range of a format. */
module Ratios {
  import opened Powers
  import opened Rounding
  import opened SoftFloat

  /** n / d is at least 2^k. */
  ghost predicate AtLeast(n: nat, d: nat, k: int) {
    if k >= 0 then Scale(d, k) <= n else d <= Scale(n, -k)
  }

  /** k is the floor of the binary logarithm of n / d. */
  ghost predicate Log2(n: nat, d: nat, k: int) {
    AtLeast(n, d, k) && !AtLeast(n, d, k + 1)
  }

  lemma AtLeastPrevious(n: nat, d: nat, k: int)
    requires AtLeast(n, d, k + 1)
    ensures AtLeast(n, d, k)
  {
  }

  lemma {:induction false} AtLeastMono(n: nat, d: nat, j: int, k: int)
    requires j <= k && AtLeast(n, d, k)
    ensures AtLeast(n, d, j)
    decreases k - j
  {
    if j < k {
      AtLeastPrevious(n, d, k - 1);
      AtLeastMono(n, d, j, k - 1);
    }
  }

  lemma Log2Between(n: nat, d: nat, e: int, k: int)
    requires Log2(n, d, e)
    ensures AtLeast(n, d, k) <==> k <= e
  {
    if k <= e {
      AtLeastMono(n, d, k, e);
    } else if AtLeast(n, d, k) {
      AtLeastMono(n, d, e + 1, k);
    }
  }

  /** AtLeast as one inequality with both sides scaled into the integers. */
  lemma AtLeastScaled(n: nat, d: nat, k: int, i: nat, j: nat)
    requires k == i - j
    ensures AtLeast(n, d, k) <==> Scale(d, i) <= Scale(n, j)
  {
    if k >= 0 {
      ScaleAdd(d, k, j);
      ScaleCompare(Scale(d, k), n, j);
    } else {
      ScaleAdd(n, -k, i);
      ScaleCompare(d, Scale(n, -k), i);
    }
  }

  lemma {:induction false} BitLenScale(b: nat, k: nat)
    requires b > 0
    ensures BitLen(Scale(b, k)) == BitLen(b) + k
    ensures Scale(b, k) > 0
  {
    if k > 0 {
      BitLenScale(b, k - 1);
    }
  }

  /** Scalings of bit lengths that differ by more than one decide a comparison with a power. */
  lemma AtLeastByBits(n: nat, d: nat, k: int, i: nat, j: nat)
    requires n > 0 && d > 0 && k == i - j
    ensures BitLen(d) + i < BitLen(n) + j ==> AtLeast(n, d, k)
    ensures BitLen(n) + j < BitLen(d) + i ==> !AtLeast(n, d, k)
  {
    AtLeastScaled(n, d, k, i, j);
    BitLenScale(d, i);
    BitLenScale(n, j);
    if BitLen(d) + i < BitLen(n) + j {
      BitLenOrder(Scale(d, i), Scale(n, j));
    } else if BitLen(n) + j < BitLen(d) + i {
      BitLenOrder(Scale(n, j), Scale(d, i));
    }
  }

  /** The difference of the bit lengths is the binary logarithm or one more. */
  lemma Log2FromBits(n: nat, d: nat)
    requires n > 0 && d > 0
    ensures AtLeast(n, d, BitLen(n) as int - BitLen(d) - 1)
    ensures !AtLeast(n, d, BitLen(n) as int - BitLen(d) + 1)
  {
    var a: int, b: int := BitLen(n), BitLen(d);
    AtLeastByBits(n, d, a - b - 1, a, b + 1);
    AtLeastByBits(n, d, a - b + 1, a + 1, b);
  }

  lemma BitLenOrder(u: nat, v: nat)
    requires BitLen(u) < BitLen(v)
    ensures u < v
  {
    if v <= u {
      BitLenMono(v, u);
    }
  }

  // ---------------------------------------------------------------- far outside the range

  /** The limits the parser relies on: exponents above 1100 overflow, those below -1200 are less
      than half the least subnormal. */
  ghost predicate Supported(f: Format) {
    && Sane(f) && 1 <= f.bias && f.inf <= 1101 + f.bias && f.inf < 0x4000
    && f.bias + f.frac <= 1190 && f.frac + f.drop + f.bias <= 1201 && f.frac + f.drop <= 62
  }

  lemma FormatsSupported()
    ensures Supported(BINARY64) && Supported(BINARY32)
  {
  }

  /** The value of one, in least subnormals, is 2 to this power. */
  function UnitShift(f: Format): nat
    requires f.bias >= 1
  {
    f.bias - 1 + f.frac
  }

  /** Above 2^1101 every supported format overflows. */
  lemma HugeUnitsOf(f: Format, n: nat, d: nat)
    requires Supported(f) && AtLeast(n, d, 1101)
    ensures Unit(f, Infinity(f)) * d <= Scale(n, UnitShift(f))
  {
    UnitInfinity(f);
    ScaleMul(One(f), f.inf - 1, d);
    ScaleProduct(d, f.frac);
    assert One(f) * d == Scale(d, f.frac);
    ScaleAdd(d, f.frac, f.inf - 1);
    ScaleGrows(d, f.frac + (f.inf - 1), 1101 + UnitShift(f));
    ScaleAdd(d, 1101, UnitShift(f));
    ScaleCompare(Scale(d, 1101), n, UnitShift(f));
  }

  lemma HugeResult(f: Format, mode: Mode, negative: bool, n: nat, d: nat, e: int)
    requires Supported(f) && d > 0 && AtLeast(n, d, 1101) && 1100 < e < 0x4000
    ensures RoundsTo(f, mode, negative, Scale(n, UnitShift(f)), d,
              RoundPack(f, mode, negative, e + f.bias - 1, Pow2(f.frac + f.drop)))
  {
    HugeUnitsOf(f, n, d);
    BeyondInfinity(f, mode, negative, Scale(n, UnitShift(f)), d);
    InfinityAboveOne(f, d);
    NotTiny(f, mode, negative, Scale(n, UnitShift(f)), d);
  }

  lemma InfinityAboveOne(f: Format, d: nat)
    requires Sane(f)
    ensures One(f) * d <= Unit(f, Infinity(f)) * d
  {
    UnitInfinity(f);
    ScaleGrows(One(f), 0, f.inf - 1);
    MulMono(d, One(f), Unit(f, Infinity(f)));
  }

  /** Below 2^-1199 every supported format is more than half a unit away from its least number. */
  lemma TinyUnitsOf(f: Format, n: nat, d: nat)
    requires Supported(f) && !AtLeast(n, d, -1199)
    ensures 2 * Scale(n, UnitShift(f)) < d
  {
    ScaleGrows(n, UnitShift(f) + 1, 1199);
  }

  lemma TinyPacked(f: Format, mode: Mode, negative: bool, exp: int)
    requires Supported(f) && -0x8000 <= exp <= -(f.frac + f.drop + 1)
    ensures RoundPack(f, mode, negative, exp, Pow2(f.frac + f.drop)).bits
         == Signed(f, negative, if mode == (if negative then Downward else Upward) then 1 else 0)
    ensures RoundPack(f, mode, negative, exp, Pow2(f.frac + f.drop)).inexact
    ensures !RoundPack(f, mode, negative, exp, Pow2(f.frac + f.drop)).overflow
    ensures RoundPack(f, mode, negative, exp, Pow2(f.frac + f.drop)).underflow
  {
    PowPos(2, f.frac + f.drop);
    assert ShiftJam(f, Pow2(f.frac + f.drop), -exp) == 1;
    RoundedPick(f, mode, negative, 0, 1);
  }

  lemma TinyResult(f: Format, mode: Mode, negative: bool, n: nat, d: nat, e: int)
    requires Supported(f) && n > 0 && d > 0 && !AtLeast(n, d, -1199) && -0x4000 <= e < -1200
    ensures RoundsTo(f, mode, negative, Scale(n, UnitShift(f)), d,
              RoundPack(f, mode, negative, e + f.bias - 1, Pow2(f.frac + f.drop)))
  {
    TinyUnitsOf(f, n, d);
    TinyPacked(f, mode, negative, e + f.bias - 1);
    ScaleGrows(n, 0, UnitShift(f));
    TinyRounds(f, mode, negative, Scale(n, UnitShift(f)), d);
  }

  lemma TinyRounds(f: Format, mode: Mode, negative: bool, n: nat, d: nat)
    requires Supported(f) && 0 < n && 2 * n < d
    ensures CorrectlyRounded(f, mode, negative, n, d,
              if mode == (if negative then Downward else Upward) then 1 else 0)
    ensures Tiny(f, mode, negative, n, d)
    ensures Unit(f, 0) == 0 && Unit(f, 1) == 1 && Infinity(f) > 1 && n < Unit(f, Infinity(f)) * d
  {
    UnitAt(f, 0, 0);
    UnitAt(f, 0, 1);
    MulMono(One(f), 3, f.inf);
    UnitUpTo(f, 1, Infinity(f), d);
    assert IsFloor(f, n, d, 0);
    MulMono(d, 1, One(f));
    PickAtMost(mode, negative, 2 * n, d, One(f));
  }
}
