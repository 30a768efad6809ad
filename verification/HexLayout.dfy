/** What the hexadecimal emitter writes for a binary64 number, and the number it denotes. */
module HexLayout {
  import opened Powers
  import opened Numeral
  import opened DigitText
  import opened NumberText
  import opened Rounding
  import opened DecimalRounding
  import opened DecimalLayout

  const FRACTION_DIGITS: nat := 13

  function HexChar(d: nat, upper: bool): (c: char)
    requires d < 16
    ensures DigitOf(c) == d
    ensures c == '0' <==> d == 0
  {
    if d < 10 then ('0' as int + d) as char
    else if upper then ('A' as int + d - 10) as char
    else ('a' as int + d - 10) as char
  }

  /** The k low hexadecimal digits of a number. */
  function HexDigits(v: nat, k: nat, upper: bool): (s: string)
    ensures |s| == k && IsDigits(16, s)
  {
    if k == 0 then "" else HexDigits(v / 16, k - 1, upper) + [HexChar(v % 16, upper)]
  }

  lemma {:induction false} HexValue(v: nat, k: nat, upper: bool)
    requires v < Pow(16, k)
    ensures Horner(16, HexDigits(v, k, upper)) == v
  {
    if k > 0 {
      HexValue(v / 16, k - 1, upper);
      HornerSnoc(16, HexDigits(v / 16, k - 1, upper), HexChar(v % 16, upper));
    }
  }

  /** Digit i is found by shifting the digits after it out. */
  lemma {:induction false} HexDigitAt(v: nat, k: nat, i: nat, upper: bool)
    requires i < k
    ensures Pow(16, k - 1 - i) > 0
    ensures HexDigits(v, k, upper)[i] == HexChar(v / Pow(16, k - 1 - i) % 16, upper)
    decreases k
  {
    PowPos(16, k - 1 - i);
    if i < k - 1 {
      HexDigitAt(v / 16, k - 1, i, upper);
      DivDiv(v, Pow(16, k - 2 - i));
    } else {
      assert Pow(16, 0) == 1;
    }
  }

  lemma DivDiv(v: nat, p: nat)
    requires p > 0
    ensures v / 16 / p == v / (16 * p)
  {
    var q := v / (16 * p);
    DivMod(v, 16 * p);
    var r := v % (16 * p);
    assert v == 16 * (p * q) + r;
    DivUnique(v, 16, p * q + r / 16, r % 16);
    DivUnique(v / 16, p, q, r / 16);
  }

  /** Adding one to a digit string whose first digit is far from the last of the alphabet. */
  function HexBump(s: string, upper: bool): (r: string)
    requires s != "" && IsDigits(16, s) && DigitOf(s[0]) < 9
    ensures |r| == |s| && IsDigits(16, r)
  {
    var front, d := s[..|s| - 1], DigitOf(s[|s| - 1]);
    if |s| > 1 && d == 15 then HexBump(front, upper) + "0"
    else front + [HexChar(d + 1, upper)]
  }

  lemma {:induction false} HexBumpValue(s: string, upper: bool)
    requires s != "" && IsDigits(16, s) && DigitOf(s[0]) < 9
    ensures Horner(16, HexBump(s, upper)) == Horner(16, s) + 1
  {
    var front, d := s[..|s| - 1], DigitOf(s[|s| - 1]);
    if |s| > 1 && d == 15 {
      HexBumpValue(front, upper);
      HornerSnoc(16, HexBump(front, upper), '0');
    } else {
      HornerSnoc(16, front, HexChar(d + 1, upper));
    }
  }

  /** The digits up to the last that is not zero, counted after the first. */
  function Significant(s: string, p: nat): (r: nat)
    requires p < |s|
    ensures r <= p && forall i :: r < i <= p ==> s[i] == '0'
  {
    if p > 0 && s[p] == '0' then Significant(s, p - 1) else p
  }

  function RoundedHex(s: string, keep: nat, negative: bool, mode: Mode, upper: bool): (r: string)
    requires IsDigits(16, s) && 0 < keep < |s| && DigitOf(s[0]) < 9
    ensures |r| == keep && IsDigits(16, r)
  {
    if Increment(negative, mode, 8, DigitOf(s[keep]), AnyNonzero(s[keep + 1..]), DigitOf(s[keep - 1]) % 2 == 1)
    then HexBump(s[..keep], upper)
    else s[..keep]
  }

  lemma RoundedHexValue(s: string, keep: nat, negative: bool, mode: Mode, upper: bool)
    requires IsDigits(16, s) && 0 < keep < |s| && DigitOf(s[0]) < 9
    ensures Horner(16, RoundedHex(s, keep, negative, mode, upper)) == Target(16, s, keep, negative, mode)
  {
    hide Horner, Target, AnyNonzero;
    var first, rest, odd := DigitOf(s[keep]), AnyNonzero(s[keep + 1..]), DigitOf(s[keep - 1]) % 2 == 1;
    DecisionCorrect(16, s, keep, negative, mode, first, rest, odd);
    if Increment(negative, mode, 8, first, rest, odd) {
      HexBumpValue(s[..keep], upper);
    }
  }

  // ---------------------------------------------------------------- the fields of binary64

  const FRACTION_LIMIT: nat := 0x10_0000_0000_0000

  lemma FractionLimit()
    ensures FRACTION_LIMIT == Pow(16, FRACTION_DIGITS)
  {
    PowAdd(16, 7, 6);
    assert Pow(16, 6) == 0x100_0000;
    assert Pow(16, 7) == 0x1000_0000;
  }

  /** Exponent field and fraction of a magnitude. */
  function FieldOf(magnitude: nat): nat
  {
    magnitude / FRACTION_LIMIT
  }

  function FractionOf(magnitude: nat): (r: nat)
    ensures r < FRACTION_LIMIT
  {
    magnitude % FRACTION_LIMIT
  }

  /** The significand as an integer, and the exponent of its first digit. */
  function SignificandOf(magnitude: nat): nat {
    (if FieldOf(magnitude) > 0 then FRACTION_LIMIT else 0) + FractionOf(magnitude)
  }

  function HexExponent(magnitude: nat): int {
    if FieldOf(magnitude) > 0 then FieldOf(magnitude) - 1023 else if FractionOf(magnitude) > 0 then -1022 else 0
  }

  function AllDigits(magnitude: nat, upper: bool): (s: string)
    ensures |s| == FRACTION_DIGITS + 1 && IsDigits(16, s) && DigitOf(s[0]) < 9
  {
    [if FieldOf(magnitude) > 0 then '1' else '0'] + HexDigits(FractionOf(magnitude), FRACTION_DIGITS, upper)
  }

  lemma AllDigitsValue(magnitude: nat, upper: bool)
    ensures Horner(16, AllDigits(magnitude, upper)) == SignificandOf(magnitude)
  {
    hide Pow, Shifted;
    var lead := [if FieldOf(magnitude) > 0 then '1' else '0'];
    var tail := HexDigits(FractionOf(magnitude), FRACTION_DIGITS, upper);
    FractionLimit();
    HexValue(FractionOf(magnitude), FRACTION_DIGITS, upper);
    assert lead[..0] == "" && Horner(16, lead) == if FieldOf(magnitude) > 0 then 1 else 0;
    HornerConcat(16, lead, tail);
    ShiftedProduct(16, Horner(16, lead), FRACTION_DIGITS);
  }

  // ---------------------------------------------------------------- the text

  /** A negative precision asks for all the digits that matter. */
  function HexPrecision(digits: string, precision: int): nat
    requires |digits| == FRACTION_DIGITS + 1
  {
    if precision < 0 then Significant(digits, FRACTION_DIGITS) else precision
  }

  /** The digits written, rounded or followed by zeros. */
  function HexShown(digits: string, p: nat, negative: bool, mode: Mode, upper: bool): (r: string)
    requires |digits| == FRACTION_DIGITS + 1 && IsDigits(16, digits) && DigitOf(digits[0]) < 9
    ensures |r| == p + 1 && IsDigits(16, r)
  {
    if p < FRACTION_DIGITS then RoundedHex(digits, p + 1, negative, mode, upper)
    else
      HornerPadded(16, digits, p - FRACTION_DIGITS);
      digits + Repeat('0', p - FRACTION_DIGITS)
  }

  function HexText(magnitude: nat, negative: bool, precision: int, alternate: bool, upper: bool, mode: Mode): string {
    var p := HexPrecision(AllDigits(magnitude, upper), precision);
    var r := HexShown(AllDigits(magnitude, upper), p, negative, mode, upper);
    Pointed(r[..1], p > 0 || alternate, r[1..]) + ExponentText(HexExponent(magnitude), true, upper)
  }

  function HexPrefixText(upper: bool): string {
    if upper then "0X" else "0x"
  }

  /** The significand times 16^p over 16^13, rounded to an integer. */
  function HexMantissa(magnitude: nat, p: nat, negative: bool, mode: Mode): nat {
    IntegerPick(mode, negative, SignificandOf(magnitude) * Pow(16, p), FRACTION_LIMIT)
  }

  /** The digits written are the significand times 16^p over 16^13, rounded. */
  lemma ShownValue(magnitude: nat, p: nat, negative: bool, mode: Mode, upper: bool)
    ensures Horner(16, HexShown(AllDigits(magnitude, upper), p, negative, mode, upper))
         == HexMantissa(magnitude, p, negative, mode)
  {
    hide Pow, Horner, IntegerPick, AllDigits;
    var s, sig := AllDigits(magnitude, upper), SignificandOf(magnitude);
    AllDigitsValue(magnitude, upper);
    FractionLimit();
    if p < FRACTION_DIGITS {
      RoundedHexValue(s, p + 1, negative, mode, upper);
      PowAdd(16, p, FRACTION_DIGITS - p);
      PowPos(16, FRACTION_DIGITS - p);
      Assoc(sig, Pow(16, p), Pow(16, FRACTION_DIGITS - p));
      PickSame(mode, negative, sig, Pow(16, FRACTION_DIGITS - p), sig * Pow(16, p), FRACTION_LIMIT);
    } else {
      var k := p - FRACTION_DIGITS;
      HornerPadded(16, s, k);
      ShiftedProduct(16, sig, k);
      PowAdd(16, k, FRACTION_DIGITS);
      Assoc(sig, Pow(16, k), FRACTION_LIMIT);
      PickExact(mode, negative, sig * Pow(16, k), FRACTION_LIMIT);
    }
  }

  lemma Assoc(a: nat, b: nat, c: nat)
    ensures a * b * c == a * (b * c)
  {
  }

  /** %a text denotes the number, rounded to a multiple of 16^-p of its leading digit. */
  lemma HexReads(sign: string, magnitude: nat, negative: bool, precision: int, alternate: bool, upper: bool, mode: Mode)
    requires SignText(negative, sign)
    ensures var t := sign + HexPrefixText(upper) + HexText(magnitude, negative, precision, alternate, upper, mode);
      var p := HexPrecision(AllDigits(magnitude, upper), precision);
      Read(t) == Number(negative, true, HexMantissa(magnitude, p, negative, mode), HexExponent(magnitude) - p * 4, |t|)
  {
    hide Horner, Pow, HexShown, AllDigits, HexPrecision, ExponentText, HexMantissa, Read, SignificandOf, HexExponent;
    var p := HexPrecision(AllDigits(magnitude, upper), precision);
    var r := HexShown(AllDigits(magnitude, upper), p, negative, mode, upper);
    var e := HexExponent(magnitude);
    var body, x := Pointed(r[..1], p > 0 || alternate, r[1..]), ExponentText(e, true, upper);
    var prefix := HexPrefixText(upper);
    var t := sign + prefix + HexText(magnitude, negative, precision, alternate, upper, mode);
    assert t == sign + prefix + body + x;
    assert t[|sign + prefix + body|..] == x;
    assert r[..1] + r[1..] == r;
    ShownValue(magnitude, p, negative, mode, upper);
    TextReads(t, sign, negative, prefix, r[..1], p > 0 || alternate, r[1..], e);
  }

  /** Without a precision the number itself is written. */
  lemma HexExact(magnitude: nat, negative: bool, upper: bool, mode: Mode)
    ensures var p := HexPrecision(AllDigits(magnitude, upper), -1);
      p <= FRACTION_DIGITS
      && HexMantissa(magnitude, p, negative, mode) * Pow(16, FRACTION_DIGITS - p) == SignificandOf(magnitude)
  {
    hide Pow, Horner, IntegerPick, AllDigits;
    var s, sig := AllDigits(magnitude, upper), SignificandOf(magnitude);
    var p := HexPrecision(s, -1);
    FractionLimit();
    AllDigitsValue(magnitude, upper);
    var k := FRACTION_DIGITS - p;
    assert s == s[..p + 1] + Repeat('0', k);
    HornerPadded(16, s[..p + 1], k);
    ShiftedProduct(16, Horner(16, s[..p + 1]), k);
    var q := Horner(16, s[..p + 1]);
    assert sig == q * Pow(16, k);
    PowAdd(16, k, p);
    Assoc(q, Pow(16, k), Pow(16, p));
    PickExact(mode, negative, q, FRACTION_LIMIT);
  }
}
