/** How the text of a floating conversion is laid out, character by character. */
module TextLayout {
  import opened FloatMeaning

  /** The pieces of a number's text: a prefix, digits, perhaps a point, more digits, and an exponent. */
  datatype Parts = Parts(prefix: string, whole: string, dot: bool, fraction: string, exponent: string)

  function TextOf(p: Parts): string {
    p.prefix + p.whole + (if p.dot then "." else "") + p.fraction + p.exponent
  }

  /** A digit of the conversion: letters have the conversion's case. */
  predicate IsDigit(c: char, hex: bool, upper: bool) {
    '0' <= c <= '9' || (hex && if upper then 'A' <= c <= 'F' else 'a' <= c <= 'f')
  }

  predicate AllDigits(s: string, hex: bool, upper: bool) {
    forall i :: 0 <= i < |s| ==> IsDigit(s[i], hex, upper)
  }

  /** No zero at the end. */
  predicate Stripped(s: string) {
    s != "" ==> s[|s| - 1] != '0'
  }

  predicate AllZero(s: string) {
    forall i :: 0 <= i < |s| ==> s[i] == '0'
  }

  /** A letter, a sign that is a minus only below zero, and digits: at least so many, and no zero more in front. */
  predicate IsExponent(x: string, letter: char, least: nat) {
    && |x| >= 2 + least && x[0] == letter && (x[1] == '+' || x[1] == '-')
    && AllDigits(x[2..], false, false)
    && (|x| > 2 + least ==> x[2] != '0')
    && (x[1] == '-' ==> !AllZero(x[2..]))
  }

  /** Exactly p digits that count: leading zeros do not, unless there is nothing else. */
  ghost predicate ShowsDigits(whole: string, fraction: string, p: nat) {
    if whole != "0" || AllZero(fraction) then |whole| + |fraction| == p
    else exists z :: FirstDigit(fraction, z) && |fraction| - z == p
  }

  predicate FirstDigit(s: string, z: int) {
    0 <= z < |s| && s[z] != '0' && AllZero(s[..z])
  }

  /** What a conversion asks for: so many digits after the point for %f and %e, all together for %#g; %g and %a
      without precision leave out the zeros at the end. */
  ghost predicate Counts(p: Parts, kind: Kind, asked: int, alternate: bool) {
    match kind
    case Fixed => |p.fraction| == (if asked < 0 then 6 else asked)
    case Scientific => |p.fraction| == (if asked < 0 then 6 else asked)
    case General =>
      if alternate then ShowsDigits(p.whole, p.fraction, if asked < 0 then 6 else if asked == 0 then 1 else asked)
      else Stripped(p.fraction)
    case Hexadecimal => if asked < 0 then Stripped(p.fraction) else |p.fraction| == asked
  }

  /** The notation: one digit in front of the point where there is an exponent, no superfluous zero elsewhere. */
  predicate Notation(p: Parts, kind: Kind, upper: bool) {
    && p.whole != "" && (|p.whole| > 1 ==> p.whole[0] != '0')
    && (p.exponent != "" ==> |p.whole| == 1)
    && match kind
       case Fixed => p.prefix == "" && p.exponent == ""
       case Scientific => p.prefix == "" && IsExponent(p.exponent, if upper then 'E' else 'e', 2)
       case General => p.prefix == "" && (p.exponent != "" ==> IsExponent(p.exponent, if upper then 'E' else 'e', 2))
       case Hexadecimal => p.prefix == (if upper then "0X" else "0x") && IsExponent(p.exponent, if upper then 'P' else 'p', 1)
  }

  ghost predicate Laid(p: Parts, kind: Kind, asked: int, alternate: bool, upper: bool) {
    && AllDigits(p.whole, kind == Hexadecimal, upper) && AllDigits(p.fraction, kind == Hexadecimal, upper)
    && (p.dot <==> p.fraction != "" || alternate)
    && Notation(p, kind, upper) && Counts(p, kind, asked, alternate)
  }

  /** The words for what is not a number have three letters of the conversion's case. */
  predicate Word(t: string, upper: bool) {
    |t| == 3 && forall i :: 0 <= i < |t| ==> if upper then 'A' <= t[i] <= 'Z' else 'a' <= t[i] <= 'z'
  }

  /** The layout of the text of a finite number, or of a word. */
  ghost predicate LaidOut(t: string, finite: bool, kind: Kind, asked: int, alternate: bool, upper: bool) {
    if finite then exists p: Parts :: t == TextOf(p) && Laid(p, kind, asked, alternate, upper) else Word(t, upper)
  }

  // ---------------------------------------------------------------- a text has one layout

  /** Where a run of digits ends, in two readings of one text. */
  lemma SameRun(a: string, x: string, b: string, y: string, hex: bool, upper: bool)
    requires a + x == b + y && AllDigits(a, hex, upper) && AllDigits(b, hex, upper)
    requires x != "" ==> !IsDigit(x[0], hex, upper)
    requires y != "" ==> !IsDigit(y[0], hex, upper)
    ensures a == b && x == y
  {
    RunNotLonger(a, x, b, y, hex, upper);
    RunNotLonger(b, y, a, x, hex, upper);
    assert a == (a + x)[..|a|] && b == (b + y)[..|b|];
    assert x == (a + x)[|a|..] && y == (b + y)[|b|..];
  }

  lemma RunNotLonger(a: string, x: string, b: string, y: string, hex: bool, upper: bool)
    requires a + x == b + y && AllDigits(b, hex, upper) && (x != "" ==> !IsDigit(x[0], hex, upper))
    ensures |b| <= |a|
  {
    if |a| < |b| {
      Overrun(a, x, b, y, hex, upper);
    }
  }

  lemma Overrun(a: string, x: string, b: string, y: string, hex: bool, upper: bool)
    requires a + x == b + y && AllDigits(b, hex, upper) && |a| < |b|
    ensures x != "" && IsDigit(x[0], hex, upper)
  {
    assert |a + x| == |b + y|;
    assert (a + x)[|a|] == x[0] && (b + y)[|a|] == b[|a|];
  }

  /** The pieces are determined by the text. */
  lemma OneLayout(p: Parts, q: Parts, kind: Kind, asked: int, alternate: bool, upper: bool)
    requires Laid(p, kind, asked, alternate, upper) && Laid(q, kind, asked, alternate, upper) && TextOf(p) == TextOf(q)
    ensures p == q
  {
    hide Notation, Counts;
    var hex, n := kind == Hexadecimal, |p.prefix|;
    var x := (if p.dot then "." else "") + p.fraction + p.exponent;
    var y := (if q.dot then "." else "") + q.fraction + q.exponent;
    ExponentApart(p, kind, upper);
    ExponentApart(q, kind, upper);
    AfterPrefix(p, x);
    AfterPrefix(q, y);
    hide TextOf, IsDigit;
    assert x != "" ==> !IsDigit(x[0], hex, upper) by { TailApart(p, x, hex, upper); }
    assert y != "" ==> !IsDigit(y[0], hex, upper) by { TailApart(q, y, hex, upper); }
    SameRun(p.whole, x, q.whole, y, hex, upper);
    SameTail(p, q, x, y, hex, upper);
  }

  lemma AfterPrefix(p: Parts, x: string)
    requires x == (if p.dot then "." else "") + p.fraction + p.exponent
    ensures |p.prefix| <= |TextOf(p)| && TextOf(p)[|p.prefix|..] == p.whole + x
  {
    assert TextOf(p) == p.prefix + (p.whole + x);
  }

  lemma TailApart(p: Parts, x: string, hex: bool, upper: bool)
    requires x == (if p.dot then "." else "") + p.fraction + p.exponent && (!p.dot ==> p.fraction == "")
    requires p.exponent != "" ==> !IsDigit(p.exponent[0], hex, upper)
    ensures x != "" ==> !IsDigit(x[0], hex, upper)
  {
    if !p.dot {
      assert x == p.exponent;
    }
  }

  lemma ExponentApart(p: Parts, kind: Kind, upper: bool)
    requires Notation(p, kind, upper)
    ensures p.exponent != "" ==> !IsDigit(p.exponent[0], kind == Hexadecimal, upper) && p.exponent[0] != '.'
    ensures p.prefix == if kind != Hexadecimal then "" else if upper then "0X" else "0x"
  {
  }

  lemma SameTail(p: Parts, q: Parts, x: string, y: string, hex: bool, upper: bool)
    requires x == y && x == (if p.dot then "." else "") + p.fraction + p.exponent
    requires y == (if q.dot then "." else "") + q.fraction + q.exponent
    requires (!p.dot ==> p.fraction == "") && (!q.dot ==> q.fraction == "")
    requires AllDigits(p.fraction, hex, upper) && AllDigits(q.fraction, hex, upper)
    requires p.exponent != "" ==> !IsDigit(p.exponent[0], hex, upper) && p.exponent[0] != '.'
    requires q.exponent != "" ==> !IsDigit(q.exponent[0], hex, upper) && q.exponent[0] != '.'
    ensures p.dot == q.dot && p.fraction == q.fraction && p.exponent == q.exponent
  {
    assert p.dot <==> x != "" && x[0] == '.';
    assert q.dot <==> y != "" && y[0] == '.';
    if p.dot {
      assert x[1..] == p.fraction + p.exponent && y[1..] == q.fraction + q.exponent;
      SameRun(p.fraction, p.exponent, q.fraction, q.exponent, hex, upper);
    } else {
      assert x == p.exponent && y == q.exponent;
    }
  }
}

/** The texts of the emitters are laid out like that. */
module TextLaws {
  import opened Numeral
  import opened DigitText
  import opened NumberText
  import opened Rounding
  import opened DecimalRounding
  import opened DecimalLayout
  import opened HexLayout
  import opened FloatMeaning
  import opened GeneralNotation
  import opened HexSteps
  import T = TextLayout

  lemma DigitsOf(s: string, upper: bool)
    requires Decimals(s)
    ensures T.AllDigits(s, false, upper) && T.AllDigits(s, true, upper)
  {
  }

  /** The exponent has its letter, its sign and no superfluous zero. */
  lemma ExponentLaid(e: int, hex: bool, upper: bool)
    ensures T.IsExponent(ExponentText(e, hex, upper), if hex then (if upper then 'P' else 'p') else if upper then 'E' else 'e', if hex then 1 else 2)
  {
    var n := Magnitude(e);
    var x, s := ExponentText(e, hex, upper), ExponentDigits(n, hex);
    if n > 0 {
      DecimalLeading(n);
      var d := Decimal(n);
      assert s == if !hex && |d| < 2 then "0" + d else d;
      assert !T.AllZero(s) by {
        assert d[0] != '0';
        assert s[|s| - |d|] == d[0];
      }
    } else {
      assert s == if hex then "0" else "0" + "0";
    }
    assert x[2..] == s;
  }

  /** Fixed notation: the integer part has no superfluous zero. */
  lemma FixedParts(s: string, point: int, precision: nat, alternate: bool)
    requires Buffered(s, point)
    ensures var a, b := IntegerPart(s, point), FractionPart(s, point, precision);
      && FixedText(s, point, precision, alternate) == T.TextOf(T.Parts("", a, precision > 0 || alternate, b, ""))
      && Decimals(a) && Decimals(b) && a != "" && (|a| > 1 ==> a[0] != '0') && |b| == precision
  {
    var a, b := IntegerPart(s, point), FractionPart(s, point, precision);
    FixedDecimals(s, point, precision);
    assert "" + a + (if precision > 0 || alternate then "." else "") + b + "" == FixedText(s, point, precision, alternate);
    if point > 0 {
      assert a[0] == s[0];
    }
  }

  lemma FixedLaid(s: string, point: int, precision: nat, asked: int, alternate: bool, upper: bool)
    requires Buffered(s, point) && precision == if asked < 0 then 6 else asked
    ensures T.LaidOut(FixedText(s, point, precision, alternate), true, Fixed, asked, alternate, upper)
  {
    hide Buffered, FixedText, IntegerPart, FractionPart, Decimals;
    var a, b := IntegerPart(s, point), FractionPart(s, point, precision);
    FixedParts(s, point, precision, alternate);
    DigitsOf(a, upper);
    DigitsOf(b, upper);
    assert T.Laid(T.Parts("", a, precision > 0 || alternate, b, ""), Fixed, asked, alternate, upper);
  }

  lemma ScientificParts(s: string, point: int, precision: nat, alternate: bool, upper: bool)
    requires s != "" && Decimals(s)
    ensures var a, b, x := s[..1], ScientificFraction(s, precision), ExponentText(point - 1, false, upper);
      && ScientificText(s, point, precision, alternate, upper) == T.TextOf(T.Parts("", a, precision > 0 || alternate, b, x))
      && Decimals(a) && Decimals(b) && |a| == 1 && |b| == precision
  {
    hide ExponentText;
    var a, b := s[..1], ScientificFraction(s, precision);
    assert "" + a == a;
  }

  lemma ScientificLaid(s: string, point: int, precision: nat, asked: int, alternate: bool, upper: bool)
    requires s != "" && Decimals(s) && precision == if asked < 0 then 6 else asked
    ensures T.LaidOut(ScientificText(s, point, precision, alternate, upper), true, Scientific, asked, alternate, upper)
  {
    hide ScientificText, ScientificFraction, ExponentText, Decimals;
    var a, b, x := s[..1], ScientificFraction(s, precision), ExponentText(point - 1, false, upper);
    ScientificParts(s, point, precision, alternate, upper);
    ExponentLaid(point - 1, false, upper);
    DigitsOf(a, upper);
    DigitsOf(b, upper);
    assert T.Laid(T.Parts("", a, precision > 0 || alternate, b, x), Scientific, asked, alternate, upper);
  }

  /** %g in scientific notation. */
  lemma GeneralScientificLaid(s: string, point: int, precision: nat, asked: int, alternate: bool, upper: bool)
    requires Buffered(s, point) && precision == if alternate then (if asked < 0 then 5 else Most(asked, 1) - 1) else |s| - 1
    requires !alternate && |s| > 1 ==> s[|s| - 1] != '0'
    requires alternate ==> point != 1
    ensures s != "" && T.LaidOut(ScientificText(s, point, precision, alternate, upper), true, General, asked, alternate, upper)
  {
    hide ScientificText, ExponentText, Decimals;
    var a, b, x := s[..1], ScientificFraction(s, precision), ExponentText(point - 1, false, upper);
    ScientificParts(s, point, precision, alternate, upper);
    ExponentLaid(point - 1, false, upper);
    DigitsOf(a, upper);
    DigitsOf(b, upper);
    if !alternate && b != "" {
      assert b[|b| - 1] == s[|s| - 1];
    }
    assert a[0] == s[0];
    assert T.Laid(T.Parts("", a, precision > 0 || alternate, b, x), General, asked, alternate, upper);
  }

  /** %g in fixed notation. */
  lemma GeneralFixedLaid(s: string, point: int, precision: nat, asked: int, alternate: bool, upper: bool)
    requires Buffered(s, point)
    requires alternate ==> precision == (if asked < 0 then 6 else Most(asked, 1)) - point
    requires !alternate ==> precision == Most(|s| - point, 0) && (|s| > 1 ==> s[|s| - 1] != '0')
    ensures T.LaidOut(FixedText(s, point, precision, alternate), true, General, asked, alternate, upper)
  {
    hide FixedText, Decimals;
    var a, b := IntegerPart(s, point), FractionPart(s, point, precision);
    FixedParts(s, point, precision, alternate);
    DigitsOf(a, upper);
    DigitsOf(b, upper);
    if alternate {
      AlternateDigits(s, point, precision, if asked < 0 then 6 else Most(asked, 1));
    } else {
      StrippedFraction(s, point, precision);
    }
    hide IntegerPart, FractionPart;
    assert T.Laid(T.Parts("", a, precision > 0 || alternate, b, ""), General, asked, alternate, upper);
  }

  lemma StrippedFraction(s: string, point: int, precision: nat)
    requires Buffered(s, point) && precision == Most(|s| - point, 0) && (|s| > 1 ==> s[|s| - 1] != '0')
    ensures T.Stripped(FractionPart(s, point, precision))
  {
    var b := FractionPart(s, point, precision);
    if b != "" {
      assert b[|b| - 1] == s[|s| - 1];
    }
  }

  lemma AlternateDigits(s: string, point: int, precision: nat, p: nat)
    requires Buffered(s, point) && p > 0 && precision == p - point
    ensures T.ShowsDigits(IntegerPart(s, point), FractionPart(s, point, precision), p)
  {
    var a, b := IntegerPart(s, point), FractionPart(s, point, precision);
    if point <= 0 {
      var z := -point;
      assert b[z] == s[0];
      assert forall i :: 0 <= i < z ==> b[i] == '0';
      assert T.FirstDigit(b, z);
    } else {
      assert |a| == point && a[0] == s[0];
      if a == "0" {
        assert s[0] == '0' && |s| == 1;
        assert T.AllZero(b);
      }
    }
  }

  lemma WordLaid(word: string, kind: Kind, asked: int, alternate: bool, upper: bool)
    requires word in (if upper then {"NAN", "INF"} else {"nan", "inf"})
    ensures T.LaidOut(word, false, kind, asked, alternate, upper)
  {
  }

  // ---------------------------------------------------------------- hexadecimal notation

  lemma {:induction false} BumpInAlphabet(s: string, upper: bool)
    requires s != "" && IsDigits(16, s) && DigitOf(s[0]) < 9 && InAlphabet(s, upper)
    ensures InAlphabet(HexBump(s, upper), upper)
  {
    var front, d := s[..|s| - 1], DigitOf(s[|s| - 1]);
    if |s| > 1 && d == 15 {
      BumpInAlphabet(front, upper);
    }
  }

  lemma ShownInAlphabet(magnitude: nat, p: nat, negative: bool, mode: Mode, upper: bool)
    ensures InAlphabet(HexShown(AllDigits(magnitude, upper), p, negative, mode, upper), upper)
  {
    hide AllDigits, HexBump, Increment, HexChar;
    var s := AllDigits(magnitude, upper);
    AllInAlphabet(magnitude, upper);
    if p < FRACTION_DIGITS {
      PrefixDigits(16, s, p + 1);
      BumpInAlphabet(s[..p + 1], upper);
    } else {
      ZeroInAlphabet(upper);
    }
  }

  lemma ZeroInAlphabet(upper: bool)
    ensures DigitOf('0') == 0 && HexChar(0, upper) == '0'
  {
  }

  lemma AlphabetDigits(s: string, upper: bool)
    requires InAlphabet(s, upper)
    ensures T.AllDigits(s, true, upper)
  {
    forall i | 0 <= i < |s|
      ensures T.IsDigit(s[i], true, upper)
    {
      var d := DigitOf(s[i]);
      assert s[i] == HexChar(d, upper);
    }
  }

  /** Without a precision the digits up to the last one that matters stay as they are. */
  lemma ExactShown(magnitude: nat, negative: bool, mode: Mode, upper: bool)
    ensures var s := AllDigits(magnitude, upper);
      var p := Significant(s, FRACTION_DIGITS);
      HexShown(s, p, negative, mode, upper) == s[..p + 1] && (p > 0 ==> s[p] != '0')
  {
    hide AllDigits;
    var s := AllDigits(magnitude, upper);
    var p := Significant(s, FRACTION_DIGITS);
    SignificantLast(s, FRACTION_DIGITS);
    if p < FRACTION_DIGITS {
      assert s[p + 1] == '0';
      assert !AnyNonzero(s[p + 2..]) by {
        var rest := s[p + 2..];
        forall i | 0 <= i < |rest|
          ensures rest[i] == '0'
        {
          assert rest[i] == s[p + 2 + i];
        }
      }
      assert DigitOf('0') == 0;
    } else {
      assert s[..p + 1] == s && Repeat('0', 0) == "";
    }
  }

  lemma {:induction false} SignificantLast(s: string, p: nat)
    requires p < |s|
    ensures Significant(s, p) > 0 ==> s[Significant(s, p)] != '0'
  {
    if p > 0 && s[p] == '0' {
      SignificantLast(s, p - 1);
    }
  }

  lemma HexLaid(magnitude: nat, negative: bool, asked: int, alternate: bool, upper: bool, mode: Mode)
    ensures T.LaidOut(HexPrefixText(upper) + HexText(magnitude, negative, asked, alternate, upper, mode), true,
                      Hexadecimal, asked, alternate, upper)
  {
    hide HexShown, AllDigits, ExponentText, HexExponent, Significant;
    var s := AllDigits(magnitude, upper);
    var p := HexPrecision(s, asked);
    var r, x := HexShown(s, p, negative, mode, upper), ExponentText(HexExponent(magnitude), true, upper);
    var a, b := r[..1], r[1..];
    ShownInAlphabet(magnitude, p, negative, mode, upper);
    AlphabetDigits(r, upper);
    ExponentLaid(HexExponent(magnitude), true, upper);
    if asked < 0 {
      ExactShown(magnitude, negative, mode, upper);
      assert b != "" ==> b[|b| - 1] == s[p];
    }
    var parts := T.Parts(HexPrefixText(upper), a, p > 0 || alternate, b, x);
    HexPieces(magnitude, negative, asked, alternate, upper, mode);
    hide HexText, T.TextOf, T.IsExponent;
    assert T.Laid(parts, Hexadecimal, asked, alternate, upper);
  }

  lemma HexPieces(magnitude: nat, negative: bool, asked: int, alternate: bool, upper: bool, mode: Mode)
    ensures var p := HexPrecision(AllDigits(magnitude, upper), asked);
      var r := HexShown(AllDigits(magnitude, upper), p, negative, mode, upper);
      HexPrefixText(upper) + HexText(magnitude, negative, asked, alternate, upper, mode)
        == T.TextOf(T.Parts(HexPrefixText(upper), r[..1], p > 0 || alternate, r[1..], ExponentText(HexExponent(magnitude), true, upper)))
  {
    hide HexShown, AllDigits, ExponentText, HexExponent, HexPrecision;
    var p := HexPrecision(AllDigits(magnitude, upper), asked);
    var r := HexShown(AllDigits(magnitude, upper), p, negative, mode, upper);
    Joined(HexPrefixText(upper), r[..1], if p > 0 || alternate then "." else "", r[1..]);
    Joined(HexPrefixText(upper), Pointed(r[..1], p > 0 || alternate, r[1..]), ExponentText(HexExponent(magnitude), true, upper), "");
  }
}
