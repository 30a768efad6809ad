/** What the loops over the decimal digit buffer keep, and how a finished rounding stands for the
    number asked for. */
module DecimalSteps {
  import opened Powers
  import opened Numeral
  import opened DigitText
  import opened Rounding
  import opened DecimalRounding
  import opened DecimalLayout
  import opened HexLayout
  import opened ExactDecimal
  import opened FormatBuffers

  /** The digits taken so far, last first, and those of the number still to be divided. */
  ghost predicate Spelled(v: nat, left: nat, reverse: string) {
    Decimal(v) == Decimal(left) + Reverse(reverse)
  }

  lemma ReverseStart(empty: string, v: nat)
    requires empty == ""
    ensures Spelled(v, v, empty)
  {
  }

  lemma SpelledTurn(v: nat, left: nat, reverse: string)
    requires Spelled(v, left, reverse) && left > 0
    ensures Spelled(v, left / 10, reverse + [DigitChar(left % 10)])
  {
    hide IsDecimal, DigitOf;
    LowTurn(left, reverse);
  }

  lemma SpelledRoom(v: nat, left: nat, reverse: string)
    requires Spelled(v, left, reverse) && left > 0 && |Decimal(v)| <= MAX_DIGITS
    ensures |reverse| < MAX_DIGITS
  {
    DecimalLeading(left);
    ReverseLength(reverse);
  }

  lemma SpelledAll(v: nat, reverse: string)
    requires Spelled(v, 0, reverse)
    ensures Decimal(v) == Reverse(reverse) && |Reverse(reverse)| == |reverse|
  {
    ReverseLength(reverse);
    assert Decimal(0) == "";
  }

  lemma DigitsAt(s: string, i: nat)
    requires Decimals(s) && i < |s|
    ensures IsDecimal(s[i]) && DigitOf(s[i]) == s[i] as int - '0' as int
  {
  }

  // ---------------------------------------------------------------- the exact expansion

  lemma ExactZero(magnitude: nat)
    requires SignificandOf(magnitude) == 0
    ensures IsDigits(10, "0") && Decimals("0") && Exactly("0", 1, magnitude)
  {
    hide Pow;
    UnitOfSignificand(magnitude);
    ScaleZero(ScaleOf(magnitude) + SUBNORMAL);
    assert "0"[..0] == "" && Horner(10, "0") == 0;
  }

  lemma ExpandedPositive(magnitude: nat)
    requires SignificandOf(magnitude) > 0
    ensures Expanded(magnitude) > 0
  {
    hide Scale, Pow;
    var sig, x := SignificandOf(magnitude), ScaleOf(magnitude);
    if x >= 0 {
      ScaleProduct(sig, x);
      PowPos(2, x);
      MulStrictMono(Pow2(x), 0, sig);
    } else {
      PowPos(5, -x);
      MulStrictMono(Pow(5, -x), 0, sig);
    }
  }

  lemma ExactDigits(magnitude: nat)
    requires Expanded(magnitude) > 0
    ensures var s := Decimal(Expanded(magnitude));
      && s != "" && s[0] != '0' && Decimals(s) && IsDigits(10, s)
      && Exactly(s, |s| - Most(-ScaleOf(magnitude), 0), magnitude)
  {
    hide Pow, Unit, Expanded;
    var v := Expanded(magnitude);
    HornerDecimal(v);
    DecimalLeading(v);
    ExpandedValue(magnitude);
  }

  // ---------------------------------------------------------------- the carry loop

  /** Only the carry out of the first `i` digits is still to be added; the rest became zeros. */
  ghost predicate Carried(s: string, i: nat) {
    && i <= |s|
    && Bump(s).0 == Bump(s[..i]).0 + DigitText.Repeat('0', |s| - i)
    && Bump(s).1 == Bump(s[..i]).1
  }

  lemma CarriedStart(s: string)
    ensures Carried(s, |s|)
  {
    assert s[..|s|] == s;
  }

  lemma CarriedTurn(s: string, i: nat)
    requires 0 < i <= |s| && Carried(s, i) && s[i - 1] == '9'
    ensures Carried(s, i - 1)
  {
    assert s[..i][..i - 1] == s[..i - 1];
    var z := DigitText.Repeat('0', |s| - i);
    assert "0" + z == DigitText.Repeat('0', |s| - i + 1);
    Associate(Bump(s[..i - 1]).0, "0", z);
  }

  lemma CarriedEnd(s: string, i: nat)
    requires Carried(s, i) && Decimals(s) && (i > 0 ==> s[i - 1] != '9')
    ensures i == 0 ==> Bump(s) == (DigitText.Repeat('0', |s|), true)
    ensures i > 0 ==> s[i - 1] < '9'
    ensures i > 0 ==> Bump(s) == (s[..i - 1] + [s[i - 1] + 1 as char] + DigitText.Repeat('0', |s| - i), false)
  {
    if i > 0 {
      assert s[..i][..i - 1] == s[..i - 1] && s[..i][i - 1] == s[i - 1];
      assert IsDecimal(s[i - 1]);
    } else {
      assert s[..0] == "";
    }
  }

  // ---------------------------------------------------------------- the rounded number

  lemma OneDigit(c: char)
    requires IsDecimal(c)
    ensures IsDigits(10, [c]) && Decimals([c]) && Horner(10, [c]) == DigitOf(c)
  {
    assert [c][..0] == "";
  }

  lemma NoDigitKept(s: string, keep: int, negative: bool, mode: Mode, inc: bool, point: int)
    requires IsDigits(10, s) && keep <= 0 < |s|
    requires Target(10, s, keep, negative, mode) == if inc then 1 else 0
    ensures var t := [if inc then '1' else '0'];
      && IsDigits(10, t) && Decimals(t)
      && Stands(Horner(10, t), (if inc then point - keep + 1 else 1) - 1, Target(10, s, keep, negative, mode), point - keep)
  {
    hide Target, Horner;
    OneDigit('1');
    OneDigit('0');
    PowZero(10);
  }

  lemma KeptStands(m: nat, x: int)
    ensures Stands(m, x, m, x)
  {
    PowZero(10);
  }

  lemma PrefixDecimals(s: string, keep: nat)
    requires Decimals(s) && keep <= |s|
    ensures Decimals(s[..keep]) && IsDigits(10, s[..keep])
  {
  }

  lemma FirstOfPrefix(s: string, keep: nat)
    requires 0 < keep <= |s| && Decimals(s) && s[0] != '0'
    ensures Decimals(Bump(s[..keep]).0)
    ensures !Bump(s[..keep]).1 ==> Bump(s[..keep]).0[0] != '0'
  {
    BumpLeading(s[..keep]);
    BumpValue(s[..keep]);
  }

  lemma CarryIn(s: string, x: int)
    requires Decimals(s) && IsDigits(10, s) && !Bump(s).1
    ensures IsDigits(10, Bump(s).0) && Stands(Horner(10, Bump(s).0), x, Horner(10, s) + 1, x)
  {
    BumpValue(s);
    KeptStands(Horner(10, s) + 1, x);
  }

  /** All digits were nines: a one followed by zeros, with the point moved. */
  lemma CarryOut(s: string, x: int)
    requires s != "" && Decimals(s) && IsDigits(10, s) && Bump(s).1
    ensures Bump(s).0 == DigitText.Repeat('0', |s|)
    ensures var t := "1" + DigitText.Repeat('0', |s| - 1);
      && Decimals(t) && IsDigits(10, t)
      && Stands(Horner(10, t), x + 1, Horner(10, s) + 1, x)
  {
    hide Pow, Horner;
    BumpValue(s);
    HornerZeros(10, |s|);
    HornerOne(|s| - 1);
    PowPos(10, |s| - 1);
    PowStep(10, |s|);
    PowStep(10, 1);
    PowZero(10);
  }
}
