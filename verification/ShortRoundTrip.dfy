/** Seventeen significant digits identify a binary64 number: printed and parsed to nearest, the
    text gives the number back although it is not exact. */
module ShortRoundTrip {
  import opened Powers
  import opened Numeral
  import opened NumberText
  import opened Rounding
  import opened SoftFloat
  import opened ParseCases
  import opened DecimalLayout
  import opened ExactDecimal
  import opened FloatMeaning
  import opened FloatPromises
  import opened RoundTrip

  const TEN16: nat := 1_0000_0000_0000_0000
  const TWO53: nat := 0x20_0000_0000_0000

  // ---------------------------------------------------------------- gaps between numbers

  /** Neighbours are more than 2^-53 of a number apart; below a power of two exactly that. */
  lemma Gaps(b: nat)
    ensures Unit(BINARY64, b) < TWO53 * (Unit(BINARY64, b + 1) - Unit(BINARY64, b))
    ensures b > 0 ==> Unit(BINARY64, b) <= TWO53 * (Unit(BINARY64, b) - Unit(BINARY64, b - 1))
  {
    hide Pow, Unit;
    OneIsLimit();
    var e, m := UnitParts(BINARY64, b);
    UnitAt(BINARY64, e, m);
    UnitAt(BINARY64, e, m + 1);
    GapAbove(e, m);
    if b > 0 {
      if m > One(BINARY64) || e == 0 {
        UnitAt(BINARY64, e, m - 1);
        GapAbove(e, m - 1);
      } else {
        UnitAt(BINARY64, e - 1, 2 * m - 1);
        ScaleAdd(m, 1, e - 1);
        assert Scale(m, 1) == 2 * m;
        GapAbove(e - 1, 2 * m - 1);
        MulAdd(m, e - 1, 1);
      }
    }
  }

  lemma GapAbove(e: nat, m: nat)
    ensures Scale(m + 1, e) - Scale(m, e) == Pow2(e)
    ensures m < TWO53 ==> Scale(m, e) < TWO53 * Pow2(e)
    ensures m + 1 <= TWO53 ==> Scale(m + 1, e) <= TWO53 * Pow2(e)
  {
    hide Pow;
    ScaleProduct(m, e);
    ScaleProduct(m + 1, e);
    PowPos(2, e);
    MulAdd(Pow2(e), m, 1);
    if m < TWO53 {
      MulStrictMono(Pow2(e), m, TWO53);
      MulMono(Pow2(e), m + 1, TWO53);
    }
  }

  // ---------------------------------------------------------------- close enough

  /** A ratio closer to a number than half of each gap rounds to it. */
  lemma NearRounds(negative: bool, n: nat, d: nat, b: nat)
    requires d > 0 && b < Infinity(BINARY64)
    requires 2 * n < (Unit(BINARY64, b) + Unit(BINARY64, b + 1)) * d
    requires b > 0 ==> (Unit(BINARY64, b - 1) + Unit(BINARY64, b)) * d < 2 * n
    ensures CorrectlyRounded(BINARY64, NearestEven, negative, n, d, b)
  {
    hide Unit, Infinity;
    var f, u, v := BINARY64, Unit(BINARY64, b), Unit(BINARY64, b + 1);
    UnitNext(f, b);
    Distribute(u, v, d);
    MulMono(d, u, v);
    if u * d <= n {
      assert IsFloor(f, n, d, b);
      assert Pick(f, NearestEven, negative, n, d, b) == b;
    } else {
      if b == 0 {
        ZeroMagnitude(0);
      }
      var w := Unit(f, b - 1);
      UnitNext(f, b - 1);
      Distribute(w, u, d);
      MulMono(d, w, u);
      assert IsFloor(f, n, d, b - 1);
      assert Pick(f, NearestEven, negative, n, d, b - 1) == b;
    }
  }

  lemma Distribute(a: nat, b: nat, d: nat)
    ensures (a + b) * d == a * d + b * d
  {
  }

  /** Sixteen digits after the first leave an error below half of every gap. */
  lemma CloseRounds(negative: bool, pick: nat, d: nat, up: nat, b: nat)
    requires up > 0 && b < Infinity(BINARY64)
    requires TEN16 * d <= Unit(BINARY64, b) * up
    requires -(d as int) <= 2 * (pick * d - Unit(BINARY64, b) * up) <= d
    ensures CorrectlyRounded(BINARY64, NearestEven, negative, pick * d, up, b)
  {
    hide Unit, Infinity, CorrectlyRounded;
    var u, v := Unit(BINARY64, b), Unit(BINARY64, b + 1);
    Gaps(b);
    UnitNext(BINARY64, b);
    HalfGap(u, v - u, up, d);
    MulAdd(up, u, v - u);
    Distribute(u, v, up);
    if b > 0 {
      var w := Unit(BINARY64, b - 1);
      UnitNext(BINARY64, b - 1);
      HalfGap(u, u - w, up, d);
      MulAdd(up, w, u - w);
      Distribute(w, u, up);
    }
    NearRounds(negative, pick * d, up, b);
  }

  lemma HalfGap(u: nat, gap: nat, up: nat, d: nat)
    requires up > 0 && gap > 0 && u <= TWO53 * gap && TEN16 * d <= u * up
    ensures d < gap * up
  {
    MulMono(up, u, TWO53 * gap);
    assert up * (TWO53 * gap) == TWO53 * (gap * up);
    MulStrictMono(up, 0, gap);
  }

  // ---------------------------------------------------------------- the printed digits

  lemma NearestPick(negative: bool, n: nat, d: nat)
    requires d > 0
    ensures var q := IntegerPick(NearestEven, negative, n, d); -(d as int) <= 2 * (q * d - n) <= d
  {
    DivMod(n, d);
    MulAdd(d, n / d, 1);
  }

  /** With the first digit before 10^first, the number is at least 10^k units of 10^(first - 1 - k). */
  lemma LeadingScale(magnitude: nat, first: int, k: nat)
    requires HasPoint(magnitude, first) && magnitude > 0
    ensures var u := first - 1 - k;
      Pow(10, k) * (Pow2(SUBNORMAL) * Pow(10, Most(u, 0))) <= Unit(BINARY64, magnitude) * Pow(10, Most(-u, 0))
  {
    hide Pow, Unit;
    ZeroMagnitude(magnitude);
    var u, v := first - 1 - k, first - 1;
    var unit, two := Unit(BINARY64, magnitude), Pow2(SUBNORMAL);
    UnitPositive(v);
    FloorAtLeast(unit * Pow(10, Most(-v, 0)), two * Pow(10, Most(v, 0)));
    PowAdd(10, Most(v, 0), Most(-u, 0));
    PowAdd(10, Most(-v, 0), Most(u, 0) + k);
    PowAdd(10, Most(u, 0), k);
    assert Most(v, 0) + Most(-u, 0) == Most(-v, 0) + (Most(u, 0) + k);
    PowPos(10, Most(-v, 0));
    ScaleInequality(unit, two, Pow(10, Most(-v, 0)), Pow(10, Most(v, 0)), Pow(10, Most(-u, 0)), Pow(10, Most(u, 0)), Pow(10, k));
  }

  lemma ScaleInequality(unit: nat, two: nat, a: nat, b: nat, c: nat, e: nat, t: nat)
    requires a > 0 && two * b <= unit * a && b * c == a * (e * t)
    ensures t * (two * e) <= unit * c
  {
    MulMono(c, two * b, unit * a);
    assert c * (two * b) == two * (b * c) == a * (t * (two * e)) by {
      assert two * (a * (e * t)) == a * (two * (e * t));
      assert two * (e * t) == t * (two * e);
    }
    assert c * (unit * a) == a * (unit * c);
    MulCancel(a, t * (two * e), unit * c);
  }

  /** The same decimal number at two units. */
  lemma UnitsAgree(m: nat, x: int, pick: nat, u: int)
    requires Stands(m, x, pick, u)
    ensures Scale(RatioN(10, m, x), SUBNORMAL) * Pow(10, Most(-u, 0))
         == pick * (Pow2(SUBNORMAL) * Pow(10, Most(u, 0))) * RatioD(10, x)
  {
    hide Pow, Scale;
    var two, up, down := Pow2(SUBNORMAL), Pow(10, Most(-u, 0)), Pow(10, Most(u, 0));
    ScaleProduct(RatioN(10, m, x), SUBNORMAL);
    PowZero(10);
    if m == 0 {
      assert pick == 0;
    } else {
      var xp, xn := Pow(10, Most(x, 0)), Pow(10, Most(-x, 0));
      PowAdd(10, x - u, Most(u, 0) + Most(-x, 0));
      PowAdd(10, Most(u, 0), Most(-x, 0));
      PowAdd(10, Most(x, 0), Most(-u, 0));
      assert x - u + (Most(u, 0) + Most(-x, 0)) == Most(x, 0) + Most(-u, 0);
      Rearrange(m, two, xp, up, Pow(10, x - u), down, xn);
    }
  }

  lemma Rearrange(m: nat, two: nat, xp: nat, up: nat, t: nat, down: nat, xn: nat)
    requires t * (down * xn) == xp * up
    ensures m * xp * two * up == (m * t) * (two * down) * xn
  {
    assert m * xp * two * up == m * two * (xp * up);
    assert (m * t) * (two * down) * xn == m * two * (t * (down * xn));
  }

  lemma SixteenPower()
    ensures Pow(10, 16) == TEN16
  {
    PowAdd(10, 8, 8);
    assert Pow(10, 8) == 1_0000_0000;
  }

  /** Digits rounded to nearest, seventeen or more, parse to nearest to the number they came from. */
  lemma RoundedParses(bits: nat, t: string, first: int, k: nat, r: Packed, end: nat)
    requires bits < 0x1_0000_0000_0000_0000 && Finite(MagnitudeOf(bits)) && k >= 16
    requires HasPoint(MagnitudeOf(bits), first)
    requires ReadsRounded(t, MagnitudeOf(bits), first - 1 - k, NegativeOf(bits), NearestEven)
    requires Answers(BINARY64, NearestEven, Read(t), r, end)
    ensures r.bits == bits && end == |t|
  {
    hide Pow, Unit, Read, HasPoint, Signed, CorrectlyRounded, Finite, MagnitudeOf, NegativeOf, Infinity, Stands, IntegerPick,
         Scale, RatioN, RatioD, Flagged;
    var b, negative, u := MagnitudeOf(bits), NegativeOf(bits), first - 1 - k;
    var pick := AtUnit(b, u, negative, NearestEven);
    var m: nat, x: int :| Read(t) == Number(negative, false, m, x, |t|) && Stands(m, x, pick, u);
    var d, up := Pow2(SUBNORMAL) * Pow(10, Most(u, 0)), Pow(10, Most(-u, 0));
    UnitPositive(u);
    PowPos(10, Most(-u, 0));
    BitsOfParts(bits);
    FiniteBelowInfinity(b);
    ZeroMagnitude(b);
    NearestPick(negative, Unit(BINARY64, b) * up, d);
    if b == 0 {
      ZeroStands(m, x, pick, d, u);
    } else {
      LeadingScale(b, first, k);
      SixteenPower();
      PowMono(10, 16, k);
      MulMono(d, TEN16, Pow(10, k));
      CloseRounds(negative, pick, d, up, b);
      NonzeroPick(m, x, pick, d, u, Unit(BINARY64, b) * up);
      UnitsAgree(m, x, pick, u);
      var n', d' := Scale(RatioN(10, m, x), SUBNORMAL), RatioD(10, x);
      RoundingSameRatio(BINARY64, NearestEven, negative, pick * d, up, n', d', b);
      var c: nat :| CorrectlyRounded(BINARY64, NearestEven, negative, n', d', c) && r.bits == Signed(BINARY64, negative, c);
      RoundingUnique(BINARY64, NearestEven, negative, n', d', b, c);
    }
  }

  lemma ZeroStands(m: nat, x: int, pick: nat, d: nat, u: int)
    requires d > 0 && 2 * (pick * d) <= d && Stands(m, x, pick, u)
    ensures m == 0
  {
    if pick > 0 {
      MulMono(d, 1, pick);
    }
    if m > 0 {
      PowPos(10, x - u);
      PositiveFactor(m, Pow(10, x - u));
    }
  }

  lemma NonzeroPick(m: nat, x: int, pick: nat, d: nat, u: int, n: nat)
    requires d > 0 && TEN16 * d <= n && -(d as int) <= 2 * (pick * d - n) && Stands(m, x, pick, u)
    ensures m > 0
  {
  }

  /** %.16e, or any longer precision, printed and parsed to nearest. */
  lemma ScientificRoundTrip(bits: nat, t: string, sign: string, precision: int, upper: bool, r: Packed, end: nat)
    requires bits < 0x1_0000_0000_0000_0000 && Finite(MagnitudeOf(bits)) && precision >= 16
    requires Means(t, bits, Scientific, precision, upper, NearestEven) && SignText(NegativeOf(bits), sign)
    requires Answers(BINARY64, NearestEven, Read(sign + t), r, end)
    ensures r.bits == bits && end == |sign + t|
  {
    hide Read, MagnitudeOf, NegativeOf, Answers, HasPoint, ReadsRounded;
    assert Denotes(sign + t, Scientific, MagnitudeOf(bits), precision, NegativeOf(bits), NearestEven, upper);
    var first :| HasPoint(MagnitudeOf(bits), first)
              && ReadsRounded(sign + t, MagnitudeOf(bits), first - 1 - precision, NegativeOf(bits), NearestEven);
    RoundedParses(bits, sign + t, first, precision, r, end);
  }

  /** %.17g, or any longer precision, printed and parsed to nearest. */
  lemma GeneralRoundTrip(bits: nat, t: string, sign: string, precision: int, upper: bool, r: Packed, end: nat)
    requires bits < 0x1_0000_0000_0000_0000 && Finite(MagnitudeOf(bits)) && precision >= 17
    requires Means(t, bits, General, precision, upper, NearestEven) && SignText(NegativeOf(bits), sign)
    requires Answers(BINARY64, NearestEven, Read(sign + t), r, end)
    ensures r.bits == bits && end == |sign + t|
  {
    hide Read, MagnitudeOf, NegativeOf, Answers, HasPoint, ReadsRounded;
    assert Denotes(sign + t, General, MagnitudeOf(bits), precision, NegativeOf(bits), NearestEven, upper);
    var first :| HasPoint(MagnitudeOf(bits), first)
              && ReadsRounded(sign + t, MagnitudeOf(bits), first - precision, NegativeOf(bits), NearestEven);
    assert first - 1 - (precision - 1) == first - precision;
    RoundedParses(bits, sign + t, first, precision - 1, r, end);
  }
}
