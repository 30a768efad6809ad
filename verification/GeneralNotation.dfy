/** Which of the two notations of %g shows a number. */
module GeneralNotation {
  import opened Powers
  import opened Numeral
  import opened DigitText
  import opened NumberText
  import opened Rounding
  import opened DecimalLayout
  import opened ExactDecimal
  import opened FloatMeaning

  /** Digits in the buffer: a leading zero stands alone. */
  ghost predicate Buffered(s: string, point: int) {
    && s != "" && Decimals(s) && IsDigits(10, s) && (s[0] == '0' ==> |s| == 1 && point == 1)
  }

  lemma BufferedParts(s: string, point: int)
    requires Buffered(s, point)
    ensures s != "" && Decimals(s) && IsDigits(10, s)
  {
  }

  // ---------------------------------------------------------------- letters

  lemma ScientificShows(sign: string, s: string, point: int, precision: nat, alternate: bool, upper: bool)
    requires s != ""
    ensures HasExponent(sign + ScientificText(s, point, precision, alternate, upper))
  {
    var e := point - 1;
    ExponentShows(e, upper);
    hide ExponentText, Pointed, ScientificFraction;
    Later(Pointed(s[..1], precision > 0 || alternate, ScientificFraction(s, precision)), ExponentText(e, false, upper));
    Later(sign, ScientificText(s, point, precision, alternate, upper));
  }

  lemma ExponentShows(e: int, upper: bool)
    ensures HasExponent(ExponentText(e, false, upper))
  {
    hide ExponentDigits;
    assert ExponentText(e, false, upper)[0] == if upper then 'E' else 'e';
  }

  lemma Later(a: string, b: string)
    requires HasExponent(b)
    ensures HasExponent(a + b)
  {
  }

  lemma FixedHides(sign: string, negative: bool, s: string, point: int, precision: nat, alternate: bool)
    requires SignText(negative, sign) && Decimals(s)
    ensures !HasExponent(sign + FixedText(s, point, precision, alternate))
  {
    var a, b := IntegerPart(s, point), FractionPart(s, point, precision);
    assert Plain(a) && Plain(b) by {
      PartsPlain(s, point, precision);
    }
    assert Plain(sign) && Plain(".") && Plain("");
    PlainJoined(a, if precision > 0 || alternate then "." else "");
    PlainJoined(a + (if precision > 0 || alternate then "." else ""), b);
    PlainJoined(sign, FixedText(s, point, precision, alternate));
  }

  predicate Plain(t: string) {
    forall c :: c in t ==> c != 'e' && c != 'E'
  }

  lemma PlainJoined(a: string, b: string)
    requires Plain(a) && Plain(b)
    ensures Plain(a + b)
  {
  }

  lemma PartsPlain(s: string, point: int, precision: nat)
    requires Decimals(s)
    ensures Plain(IntegerPart(s, point)) && Plain(FractionPart(s, point, precision))
  {
    var a, b := IntegerPart(s, point), FractionPart(s, point, precision);
    forall i | 0 <= i < |a|
      ensures IsDecimal(a[i])
    {
    }
    forall i | 0 <= i < |b|
      ensures IsDecimal(b[i])
    {
    }
  }

  // ---------------------------------------------------------------- the exponent that is shown

  /** The leading digit gives the size of the number that digits stand for. */
  lemma LeadingSize(s: string)
    requires IsDigits(10, s) && s != "" && s[0] != '0'
    ensures Pow(10, |s| - 1) <= Horner(10, s) < Pow(10, |s|)
  {
    hide Pow;
    var rest := s[1..];
    assert s == s[..1] + rest;
    HornerConcat(10, s[..1], rest);
    OneHorner(s);
    HornerBound(10, s);
    var p, c := Pow(10, |s| - 1), DigitOf(s[0]);
    MulMono(p, 1, c);
    ShiftedProduct(10, c, |s| - 1);
    assert p * c == c * p;
  }

  /** A number whose first digit stands before 10^first is below it. */
  lemma BelowFirst(magnitude: nat, first: int)
    requires HasPoint(magnitude, first)
    ensures var v := first - 1;
      Unit(BINARY64, magnitude) * Pow(10, Most(-v, 0)) < 10 * (Pow2(SUBNORMAL) * Pow(10, Most(v, 0)))
  {
    hide Pow, Unit, IntegerPick;
    var v := first - 1;
    UnitPositive(v);
    if Unit(BINARY64, magnitude) != 0 {
      FloorAtMost(Unit(BINARY64, magnitude) * Pow(10, Most(-v, 0)), Pow2(SUBNORMAL) * Pow(10, Most(v, 0)), 9);
    } else {
      PowZero(10);
    }
  }

  /** Rounded to p digits it is at most 10^p. */
  lemma RoundedAtMost(magnitude: nat, first: int, p: nat, negative: bool, mode: Mode)
    requires HasPoint(magnitude, first)
    ensures AtUnit(magnitude, first - p, negative, mode) <= Pow(10, p)
  {
    hide Pow, Unit, IntegerPick, HasPoint;
    var u, v := first - p, first - 1;
    var unit, two := Unit(BINARY64, magnitude), Pow2(SUBNORMAL);
    UnitPositive(u);
    BelowFirst(magnitude, first);
    var a, b, c, d := Pow(10, Most(-v, 0)), Pow(10, Most(v, 0)), Pow(10, Most(-u, 0)), Pow(10, Most(u, 0));
    PowPos(10, Most(-v, 0));
    PowersMatch(first, p);
    CrossBound(unit, two, a, b, c, d, Pow(10, p));
    PickAtMost(mode, negative, unit * c, two * d, Pow(10, p));
  }

  lemma PowersMatch(first: int, p: nat)
    ensures var u, v := first - p, first - 1;
      (10 * Pow(10, Most(v, 0))) * Pow(10, Most(-u, 0)) == (Pow(10, Most(-v, 0)) * Pow(10, p)) * Pow(10, Most(u, 0))
  {
    hide Pow;
    var u, v := first - p, first - 1;
    PowStep(10, 1 + Most(v, 0));
    PowAdd(10, 1 + Most(v, 0), Most(-u, 0));
    PowAdd(10, Most(-v, 0), p);
    PowAdd(10, Most(-v, 0) + p, Most(u, 0));
    assert 1 + Most(v, 0) + Most(-u, 0) == Most(-v, 0) + p + Most(u, 0);
  }

  lemma CrossBound(unit: nat, two: nat, a: nat, b: nat, c: nat, d: nat, t: nat)
    requires a > 0 && unit * a < 10 * (two * b) && (10 * b) * c == (a * t) * d
    ensures unit * c <= t * (two * d)
  {
    MulMono(c, unit * a, 10 * (two * b));
    assert c * (unit * a) == a * (unit * c);
    assert c * (10 * (two * b)) == a * (t * (two * d)) by {
      assert c * (10 * (two * b)) == two * ((10 * b) * c);
      assert two * ((a * t) * d) == a * (t * (two * d)) by {
        assert (a * t) * d == a * (t * d);
        assert two * (a * (t * d)) == a * (two * (t * d));
        assert two * (t * d) == t * (two * d);
      }
    }
    MulCancel(a, unit * c, t * (two * d));
  }

  /** The digits' place is the exponent that the precision gives. */
  lemma ShownExponent(s: string, point: int, magnitude: nat, first: int, p: nat, negative: bool, mode: Mode)
    requires Buffered(s, point) && HasPoint(magnitude, first) && point >= first && p > 0
    requires Carries(s, point, magnitude, first - p, negative, mode)
    ensures RoundedExponent(magnitude, first, p, negative, mode) == point - 1
  {
    hide Pow, AtUnit, HasPoint, Decimals;
    var n, m := AtUnit(magnitude, first - p, negative, mode), Horner(10, s);
    RoundedAtMost(magnitude, first, p, negative, mode);
    PowPos(10, p);
    if s[0] == '0' {
      assert m == 0 && n == 0 by {
        ZeroDigits(10, s);
        assert !AnyNonzero(s);
      }
      ZeroFirst(magnitude, first, p, negative, mode);
    } else {
      LeadingSize(s);
      assert m > 0 by { PowPos(10, |s| - 1); }
      PlaceOf(m, |s|, point - |s| - (first - p), p, point - first, n);
    }
  }

  /** Digits of a number that is at most 10^p, when their last place is known. */
  lemma PlaceOf(m: nat, k: nat, x: nat, p: nat, more: nat, n: nat)
    requires k > 0 && Pow(10, k - 1) <= m < Pow(10, k) && m * Pow(10, x) == n <= Pow(10, p) && k + x == p + more
    ensures n < Pow(10, p) <==> more == 0
    ensures more <= 1
  {
    hide Pow;
    PowPos(10, x);
    MulMono(Pow(10, x), Pow(10, k - 1), m);
    MulStrictMono(Pow(10, x), m, Pow(10, k));
    PowAdd(10, k - 1, x);
    PowAdd(10, k, x);
    if more > 0 {
      PowMono(10, p, k - 1 + x);
    }
    if more > 1 {
      PowStrictMono(10, p, k - 1 + x);
    }
  }

  /** Only zero rounds to zero when its first digit is kept. */
  lemma ZeroFirst(magnitude: nat, first: int, p: nat, negative: bool, mode: Mode)
    requires HasPoint(magnitude, first) && p > 0 && AtUnit(magnitude, first - p, negative, mode) == 0
    ensures first == 1
  {
    hide Pow, Unit, IntegerPick;
    if Unit(BINARY64, magnitude) != 0 {
      RoundedAtLeast(magnitude, first, p, negative, mode);
      PowPos(10, p - 1);
    }
  }

  lemma RoundedAtLeast(magnitude: nat, first: int, p: nat, negative: bool, mode: Mode)
    requires HasPoint(magnitude, first) && p > 0 && Unit(BINARY64, magnitude) != 0
    ensures Pow(10, p - 1) <= AtUnit(magnitude, first - p, negative, mode)
  {
    hide Pow, Unit, IntegerPick;
    var u, v := first - p, first - 1;
    var unit, two := Unit(BINARY64, magnitude), Pow2(SUBNORMAL);
    UnitPositive(u);
    UnitPositive(v);
    FloorAtLeast(unit * Pow(10, Most(-v, 0)), two * Pow(10, Most(v, 0)));
    var a, b, c, d, t := Pow(10, Most(-v, 0)), Pow(10, Most(v, 0)), Pow(10, Most(-u, 0)), Pow(10, Most(u, 0)), Pow(10, p - 1);
    PowPos(10, Most(-v, 0));
    PowAdd(10, Most(v, 0), Most(-u, 0));
    PowAdd(10, Most(-v, 0), p - 1);
    PowAdd(10, Most(-v, 0) + (p - 1), Most(u, 0));
    assert Most(v, 0) + Most(-u, 0) == Most(-v, 0) + (p - 1) + Most(u, 0);
    AtLeastCross(unit, two, a, b, c, d, t);
    PickAtLeast(mode, negative, unit * c, two * d, t);
  }

  lemma AtLeastCross(unit: nat, two: nat, a: nat, b: nat, c: nat, d: nat, t: nat)
    requires a > 0 && two * b <= unit * a && b * c == (a * t) * d
    ensures t * (two * d) <= unit * c
  {
    MulMono(c, two * b, unit * a);
    assert c * (unit * a) == a * (unit * c);
    assert c * (two * b) == a * (t * (two * d)) by {
      assert c * (two * b) == two * (b * c);
      assert (a * t) * d == a * (t * d);
      assert two * (a * (t * d)) == a * (two * (t * d));
      assert two * (t * d) == t * (two * d);
    }
    MulCancel(a, t * (two * d), unit * c);
  }

  // ---------------------------------------------------------------- no number is that long

  /** The first digit of a finite number stands before 10^1025. */
  lemma FirstBelow(magnitude: nat, first: int)
    requires Finite(magnitude) && HasPoint(magnitude, first)
    ensures first <= 1025
  {
    hide Pow, Unit, IntegerPick, Scale;
    if first > 1 && Unit(BINARY64, magnitude) != 0 {
      var unit, two, v := Unit(BINARY64, magnitude), Pow2(SUBNORMAL), first - 1;
      UnitPositive(v);
      PowZero(10);
      FloorAtLeast(unit * Pow(10, Most(-v, 0)), two * Pow(10, Most(v, 0)));
      LargestUnit(magnitude);
      PowPos(2, SUBNORMAL);
      MulCancelStrict(two, Pow(10, v), Pow2(1024));
      PowBaseMono(2, 10, 1024);
      PowExponentLess(10, v, 1024);
    }
  }

  lemma LargestUnit(magnitude: nat)
    requires Finite(magnitude)
    ensures Unit(BINARY64, magnitude) < Pow2(SUBNORMAL) * Pow2(1024)
  {
    hide Pow, Unit, Scale;
    FiniteBelowInfinity(magnitude);
    UnitMono(BINARY64, magnitude, Infinity(BINARY64));
    UnitAt(BINARY64, 2046, One(BINARY64));
    assert Infinity(BINARY64) == 2046 * One(BINARY64) + One(BINARY64);
    ScaleProduct(One(BINARY64), 2046);
    PowAdd(2, 52, 2046);
    PowAdd(2, SUBNORMAL, 1024);
  }

  /** A working precision of 1200 tells the notations apart as any larger one does. */
  lemma PrecisionCapped(s: string, point: int, magnitude: nat, first: int, p: nat, q: nat, negative: bool, mode: Mode)
    requires Buffered(s, point) && HasPoint(magnitude, first) && point >= first && p > 0 && Finite(magnitude)
    requires Carries(s, point, magnitude, first - p, negative, mode) && (q == p || (p > 1200 && q == 1200))
    ensures point - 1 >= q <==> point - 1 >= p
  {
    hide Pow, AtUnit, HasPoint, Finite, Buffered, Carries;
    ShownExponent(s, point, magnitude, first, p, negative, mode);
    FirstBelow(magnitude, first);
  }
}
