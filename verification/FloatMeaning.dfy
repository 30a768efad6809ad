/** What the texts of the floating conversions must denote, and the emitters' digits denoting it. */
module FloatMeaning {
  import opened Powers
  import opened Numeral
  import opened DigitText
  import opened NumberText
  import opened Rounding
  import opened DecimalLayout
  import opened HexLayout
  import opened ExactDecimal

  /** The magnitude counted in units of 10^u and rounded to an integer. */
  function AtUnit(magnitude: nat, u: int, negative: bool, mode: Mode): nat {
    var d := Pow2(SUBNORMAL) * Pow(10, Most(u, 0));
    UnitPositive(u);
    IntegerPick(mode, negative, Unit(BINARY64, magnitude) * Pow(10, Most(-u, 0)), d)
  }

  lemma UnitPositive(u: int)
    ensures Pow2(SUBNORMAL) * Pow(10, Most(u, 0)) > 0
  {
    PowPos(2, SUBNORMAL);
    PowPos(10, Most(u, 0));
    MulStrictMono(Pow2(SUBNORMAL), 0, Pow(10, Most(u, 0)));
  }

  /** The first digit of the magnitude stands just before 10^point; zero counts as 0.0. */
  ghost predicate HasPoint(magnitude: nat, point: int) {
    if Unit(BINARY64, magnitude) == 0 then point == 1
    else 1 <= AtUnit(magnitude, point - 1, false, TowardZero) <= 9
  }

  /** Rounding exact digits to `keep` of them rounds the number to a multiple of 10^(point - keep). */
  lemma TargetAt(s: string, point: int, magnitude: nat, keep: int, negative: bool, mode: Mode)
    requires IsDigits(10, s) && Exactly(s, point, magnitude) && keep < |s|
    ensures Target(10, s, keep, negative, mode) == AtUnit(magnitude, point - keep, negative, mode)
  {
    hide Pow, Horner, IntegerPick, Unit;
    var m, k, t, u := Horner(10, s), |s| - point, |s| - keep, point - keep;
    UnitPositive(u);
    PowPos(10, t);
    var unit, two := Unit(BINARY64, magnitude), Pow2(SUBNORMAL);
    var up, down := Pow(10, Most(-u, 0)), Pow(10, Most(u, 0));
    PowAdd(10, k, Most(u, 0));
    PowAdd(10, t, Most(-u, 0));
    assert k + Most(u, 0) == t + Most(-u, 0);
    CrossRatio(m, two, unit, Pow(10, k), down, Pow(10, t), up);
    PickSame(mode, negative, m, Pow(10, t), unit * up, two * down);
  }

  lemma CrossRatio(m: nat, two: nat, unit: nat, k: nat, down: nat, t: nat, up: nat)
    requires m * two == unit * k && k * down == t * up
    ensures m * (two * down) == (unit * up) * t
  {
    assert m * (two * down) == (m * two) * down;
    assert (unit * k) * down == unit * (k * down);
    assert unit * (t * up) == (unit * up) * t by {
      assert t * up == up * t;
    }
  }

  /** With no digit dropped the number is a multiple of the unit. */
  lemma ExactAt(s: string, point: int, magnitude: nat, keep: int, negative: bool, mode: Mode)
    requires IsDigits(10, s) && Exactly(s, point, magnitude) && keep >= |s|
    ensures AtUnit(magnitude, point - keep, negative, mode) == Horner(10, s) * Pow(10, keep - |s|)
    ensures AtUnit(magnitude, point - keep, negative, mode) * (Pow2(SUBNORMAL) * Pow(10, Most(point - keep, 0)))
         == Unit(BINARY64, magnitude) * Pow(10, Most(keep - point, 0))
  {
    hide Pow, Horner, IntegerPick, Unit;
    var m, k, u := Horner(10, s), |s| - point, point - keep;
    var unit, two := Unit(BINARY64, magnitude), Pow2(SUBNORMAL);
    UnitPositive(u);
    PowAdd(10, k, keep - |s|);
    assert u <= 0;
    PowZero(10);
    CrossRatio(m, two, unit, Pow(10, k), Pow(10, keep - |s|), 1, Pow(10, -u));
    assert m * (two * Pow(10, keep - |s|)) == m * Pow(10, keep - |s|) * two;
    PickExact(mode, negative, m * Pow(10, keep - |s|), two);
  }

  // ---------------------------------------------------------------- rounded digits

  /** Digits that stand for the number rounded to a multiple of 10^u. */
  ghost predicate Carries(s: string, point: int, magnitude: nat, u: int, negative: bool, mode: Mode)
    requires IsDigits(10, s)
  {
    Stands(Horner(10, s), point - |s|, AtUnit(magnitude, u, negative, mode), u)
  }

  lemma UnroundedCarries(s: string, point: int, magnitude: nat, keep: int, negative: bool, mode: Mode)
    requires IsDigits(10, s) && Exactly(s, point, magnitude) && keep >= |s|
    ensures Carries(s, point, magnitude, point - keep, negative, mode)
  {
    hide Horner, Pow, AtUnit;
    ExactAt(s, point, magnitude, keep, negative, mode);
  }

  /** Zeros after the digits do not change the number. */
  lemma StandsWithZeros(m: nat, x: int, j: nat, pick: nat, u: int)
    requires Stands(m, x, pick, u) && (m == 0 || x - j >= u)
    ensures Stands(m * Pow(10, j), x - j, pick, u)
  {
    hide Pow;
    PowPos(10, j);
    if m > 0 {
      PowAdd(10, j, x - j - u);
      assert m * Pow(10, j) * Pow(10, x - j - u) == m * (Pow(10, j) * Pow(10, x - j - u));
      MulStrictMono(Pow(10, j), 0, m);
    }
  }

  lemma StandsWithout(m: nat, x: int, j: nat, pick: nat, u: int)
    requires Stands(m * Pow(10, j), x, pick, u)
    ensures Stands(m, x + j, pick, u)
  {
    hide Pow;
    PowPos(10, j);
    if m > 0 {
      MulStrictMono(Pow(10, j), 0, m);
      PowAdd(10, j, x - u);
      assert m * Pow(10, j) * Pow(10, x - u) == m * (Pow(10, j) * Pow(10, x - u));
    }
  }

  /** A zero at the end may be dropped. */
  lemma TrailingZero(s: string, point: int, magnitude: nat, u: int, negative: bool, mode: Mode)
    requires |s| > 1 && s[|s| - 1] == '0' && IsDigits(10, s) && Carries(s, point, magnitude, u, negative, mode)
    ensures IsDigits(10, s[..|s| - 1]) && Carries(s[..|s| - 1], point, magnitude, u, negative, mode)
  {
    hide AtUnit, Stands;
    var t := s[..|s| - 1];
    assert Horner(10, s) == Horner(10, t) * Pow(10, 1) by {
      PowStep(10, 1);
      PowZero(10);
    }
    StandsWithout(Horner(10, t), point - |s|, 1, AtUnit(magnitude, u, negative, mode), u);
  }

  /** Exact digits show the place of the first one. */
  lemma PointOf(s: string, point: int, magnitude: nat)
    requires Decimals(s) && IsDigits(10, s) && s != "" && Exactly(s, point, magnitude)
    requires s[0] == '0' ==> |s| == 1 && point == 1
    ensures HasPoint(magnitude, point)
  {
    hide Pow, AtUnit, Unit, Target, Decimals;
    var m := Horner(10, s);
    DecimalsFirst(s);
    PowPos(2, SUBNORMAL);
    PowPos(10, |s| - point);
    if s[0] == '0' {
      assert s == "0" && s[..0] == "" && m == 0;
      PositiveFactor(Unit(BINARY64, magnitude), Pow(10, |s| - point));
    } else {
      assert AnyNonzero(s);
      ZeroDigits(10, s);
      PositiveFactor(m, Pow2(SUBNORMAL));
      OneHorner(s);
      if |s| > 1 {
        DecisionCorrect(10, s, 1, false, TowardZero, DigitOf(s[1]), AnyNonzero(s[2..]), DigitOf(s[0]) % 2 == 1);
        TargetAt(s, point, magnitude, 1, false, TowardZero);
      } else {
        ExactAt(s, point, magnitude, 1, false, TowardZero);
        PowZero(10);
        assert s[..1] == s;
      }
    }
  }

  lemma PositiveFactor(a: nat, b: nat)
    requires b > 0
    ensures a * b == 0 <==> a == 0
  {
  }

  lemma DecimalsFirst(s: string)
    requires Decimals(s) && s != ""
    ensures 0 <= DigitOf(s[0]) <= 9 && (DigitOf(s[0]) == 0 <==> s[0] == '0')
    ensures |s| > 1 ==> 0 <= DigitOf(s[1])
  {
    if |s| > 1 {
      assert IsDecimal(s[1]);
    }
  }

  lemma OneHorner(s: string)
    requires IsDigits(10, s) && s != ""
    ensures IsDigits(10, s[..1]) && Horner(10, s[..1]) == DigitOf(s[0])
  {
    assert s[..1][..0] == "";
  }

  // ---------------------------------------------------------------- what each conversion denotes

  datatype Kind = Fixed | Scientific | General | Hexadecimal

  /** The text reads as the number rounded to a multiple of 10^u. */
  ghost predicate ReadsRounded(t: string, magnitude: nat, u: int, negative: bool, mode: Mode) {
    exists m: nat, x: int :: Read(t) == Number(negative, false, m, x, |t|)
                          && Stands(m, x, AtUnit(magnitude, u, negative, mode), u)
  }

  /** Whether a decimal text has an exponent. */
  predicate HasExponent(t: string) {
    'e' in t || 'E' in t
  }

  /** The exponent that %e would show with p digits: rounding can carry into one place more. */
  function RoundedExponent(magnitude: nat, point: int, p: nat, negative: bool, mode: Mode): int {
    if AtUnit(magnitude, point - p, negative, mode) < Pow(10, p) then point - 1 else point
  }

  /** Section 7.19.6.1 of C99: what the text after a sign denotes, for a finite number. For General the exponent is
      shown exactly when it is below -4 or at least the precision. */
  ghost predicate Denotes(t: string, kind: Kind, magnitude: nat, precision: int, negative: bool, mode: Mode, upper: bool)
  {
    match kind
    case Fixed =>
      var p := if precision < 0 then 6 else precision;
      Read(t) == Number(negative, false, AtUnit(magnitude, -p, negative, mode), -p, |t|)
    case Scientific =>
      var p := if precision < 0 then 6 else precision;
      exists point :: HasPoint(magnitude, point) && ReadsRounded(t, magnitude, point - 1 - p, negative, mode)
    case General =>
      var p := if precision < 0 then 6 else Most(precision, 1);
      exists point :: HasPoint(magnitude, point) && ReadsRounded(t, magnitude, point - p, negative, mode)
                      && (HasExponent(t) <==> !(-4 <= RoundedExponent(magnitude, point, p, negative, mode) < p))
    case Hexadecimal =>
      var p := HexPrecision(AllDigits(magnitude, upper), precision);
      Read(t) == Number(negative, true, HexMantissa(magnitude, p, negative, mode), HexExponent(magnitude) - p * 4, |t|)
  }

  /** Fixed notation reads as the number its digits stand for. */
  lemma FixedDenotes(sign: string, s: string, point: int, precision: nat, alternate: bool, magnitude: nat, u: int,
                     negative: bool, mode: Mode)
    requires SignText(negative, sign) && Decimals(s) && IsDigits(10, s) && s != "" && |s| - point <= precision
    requires Carries(s, point, magnitude, u, negative, mode) && u <= -(precision as int)
    ensures var t := sign + FixedText(s, point, precision, alternate);
      && Read(t) == Number(negative, false, Horner(10, s) * Pow(10, precision - (|s| - point)), -(precision as int), |t|)
      && ReadsRounded(t, magnitude, u, negative, mode)
    ensures u == -(precision as int) ==>
      Horner(10, s) * Pow(10, precision - (|s| - point)) == AtUnit(magnitude, u, negative, mode)
  {
    hide Pow, Horner, AtUnit, Read, FixedText, Decimals, IsDigits;
    var j := precision - (|s| - point);
    FixedReads(sign, negative, s, point, precision, alternate);
    StandsWithZeros(Horner(10, s), point - |s|, j, AtUnit(magnitude, u, negative, mode), u);
    PowZero(10);
  }

  lemma ScientificDenotes(sign: string, s: string, point: int, precision: nat, alternate: bool, upper: bool,
                          magnitude: nat, u: int, negative: bool, mode: Mode)
    requires SignText(negative, sign) && Decimals(s) && IsDigits(10, s) && s != "" && |s| - 1 <= precision
    requires Carries(s, point, magnitude, u, negative, mode) && u <= point - 1 - precision
    ensures ReadsRounded(sign + ScientificText(s, point, precision, alternate, upper), magnitude, u, negative, mode)
  {
    hide Pow, Horner, AtUnit, Read, ScientificText, Decimals, IsDigits;
    var j := precision - (|s| - 1);
    ScientificReads(sign, negative, s, point, precision, alternate, upper);
    StandsWithZeros(Horner(10, s), point - |s|, j, AtUnit(magnitude, u, negative, mode), u);
  }
}
