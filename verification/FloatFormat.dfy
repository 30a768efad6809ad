/** The floating conversions of runtime/decimal/format.c. */
module FloatFormat {
  import opened Powers
  import opened Numeral
  import opened DigitText
  import opened NumberText
  import opened Rounding
  import opened DecimalRounding
  import opened DecimalLayout
  import opened HexLayout
  import opened ExactDecimal
  import opened FormatBuffers
  import opened DecimalBuffer
  import opened FloatMeaning
  import opened GeneralNotation
  import opened HexSteps
  import opened DecimalSteps
  import opened FloatPromises
  import opened TextLaws
  import TextLayout

  /** cd_fixed. */
  method WriteFixed(o: CdOutput, d: CdDecimal, precision: nat, alternate: bool)
    requires o.Valid() && d.Valid() && o.data != d.digits
    modifies o`count, o`full, o.data
    ensures o.Valid() && o.full == old(o.full) + FixedText(d.Text(), d.point, precision, alternate)
  {
    hide Decimals, FractionPart, DigitText.Repeat;
    ghost var s, head := d.Text(), o.full;
    if d.point <= 0 {
      o.Put('0');
    } else {
      var n := Least(d.point, d.n);
      o.Str(d.digits[..n]);
      o.Repeat('0', d.point - n);
      assert d.digits[..n] == s[..n];
      IntegerPieces(s, d.point);
      Joined(head, s[..n], DigitText.Repeat('0', d.point - n), "");
    }
    assert o.full == head + IntegerPart(s, d.point);
    if precision > 0 || alternate {
      o.Put('.');
    }
    Fraction(o, d, precision);
    Joined(head, IntegerPart(s, d.point), if precision > 0 || alternate then "." else "", FractionPart(s, d.point, precision));
  }

  /** The digits after the point. */
  method Fraction(o: CdOutput, d: CdDecimal, precision0: nat)
    requires o.Valid() && d.Valid() && o.data != d.digits
    modifies o`count, o`full, o.data
    ensures o.Valid() && o.full == old(o.full) + FractionPart(d.Text(), d.point, precision0)
  {
    hide Decimals, FractionPart, DigitText.Repeat;
    ghost var s, fore := d.Text(), o.full;
    var precision: int := precision0;
    var start := d.point;
    if start < 0 {
      var n := Least(-start, precision);
      o.Repeat('0', n);
      precision := precision - n;
      start := 0;
    }
    ghost var lead := precision0 - precision;
    assert o.full == fore + DigitText.Repeat('0', lead) by {
      assert DigitText.Repeat('0', 0) == "";
    }
    var n := Least(Most(d.n - start, 0), precision);
    ghost var shown := s[Least(start, |s|)..];
    PutDigits(o, d, start, n, shown);
    o.Repeat('0', precision - n);
    FractionPieces(s, d.point, precision0, lead, start, n);
    Joined(fore, DigitText.Repeat('0', lead), shown[..n], DigitText.Repeat('0', precision - n));
  }

  method PutDigits(o: CdOutput, d: CdDecimal, start: nat, n: nat, ghost shown: string)
    requires o.Valid() && d.Valid() && o.data != d.digits && (n > 0 ==> start + n <= d.n)
    requires shown == d.Text()[Least(start, d.n)..]
    modifies o`count, o`full, o.data
    ensures o.Valid() && o.full == old(o.full) + shown[..n]
  {
    hide Decimals;
    for i := 0 to n
      invariant o.Valid() && d.Valid() && shown == d.Text()[Least(start, d.n)..]
      invariant o.full == old(o.full) + shown[..i]
    {
      assert shown[..i + 1] == shown[..i] + [shown[i]];
      o.Put(d.digits[start + i]);
    }
  }

  lemma SliceOfFront(t: string, m: nat, i: nat, j: nat)
    requires i <= j <= m <= |t|
    ensures t[..m][i..j] == t[i..j]
  {
    var a, b := t[..m][i..j], t[i..j];
    forall k | 0 <= k < j - i
      ensures a[k] == b[k]
    {
      assert a[k] == t[..m][i + k];
    }
  }

  /** cd_scientific. */
  method WriteScientific(o: CdOutput, d: CdDecimal, precision: nat, alternate: bool, upper: bool)
    requires o.Valid() && d.Valid() && o.data != d.digits
    modifies o`count, o`full, o.data
    ensures o.Valid() && o.full == old(o.full) + ScientificText(d.Text(), d.point, precision, alternate, upper)
  {
    hide Decimals, ExponentText, DigitText.Repeat, Pointed;
    var n := Least(d.n - 1, precision);
    ghost var s, head := d.Text(), o.full;
    o.Put(d.digits[0]);
    if precision > 0 || alternate {
      o.Put('.');
    }
    ghost var point := o.full;
    assert point == head + [s[0]] + if precision > 0 || alternate then "." else "";
    o.Str(d.digits[1..1 + n]);
    assert d.digits[..d.n] == s;
    SliceOfFront(d.digits[..], d.n, 1, 1 + n);
    o.Repeat('0', precision - n);
    Joined(point, s[1..1 + n], DigitText.Repeat('0', precision - n), "");
    assert o.full == point + ScientificFraction(s, precision);
    o.ExpOut(d.point - 1, false, upper);
    ScientificJoined(head, s, precision > 0 || alternate, ScientificFraction(s, precision),
      ExponentText(d.point - 1, false, upper));
  }

  /** cd_hex with its prefix. */
  method WriteHex(o: CdOutput, magnitude: nat, negative: bool, precision0: int, alternate: bool, upper: bool, mode: Mode)
    requires o.Valid() && Finite(magnitude)
    modifies o`count, o`full, o.data
    ensures o.Valid()
    ensures o.full == old(o.full) + HexPrefixText(upper) + HexText(magnitude, negative, precision0, alternate, upper, mode)
  {
    hide ExponentText, AllDigits, RoundedHex, HexBump, IsDigits, DigitOf, HexChar;
    ghost var s, head := AllDigits(magnitude, upper), o.full;
    var digits := new char[14];
    FillDigits(digits, magnitude, upper);
    var exp := if FieldOf(magnitude) > 0 then FieldOf(magnitude) - 1023
               else if FractionOf(magnitude) > 0 then -1022 else 0;
    var precision := precision0;
    if precision < 0 {
      precision := 13;
      while precision > 0 && digits[precision] == '0'
        invariant 0 <= precision <= 13 && digits[..] == s
        invariant Significant(s, 13) == Significant(s, precision)
      {
        precision := precision - 1;
      }
    }
    ghost var p := HexPrecision(s, precision0);
    if precision < 13 {
      RoundDigits(digits, magnitude, precision + 1, negative, mode, upper);
    }
    ghost var shown := HexShown(s, p, negative, mode, upper);
    var i := Least(precision, 13);
    ShownFront(s, p, negative, mode, upper, digits[..i + 1]);
    PutHex(o, digits, i, precision, exp, alternate, upper, shown);
  }

  method PutHex(o: CdOutput, digits: array<char>, i: nat, precision: nat, exp: int, alternate: bool, upper: bool,
                ghost shown: string)
    requires o.Valid() && digits.Length == 14 && digits != o.data && i == Least(precision, 13)
    requires shown == digits[..i + 1] + DigitText.Repeat('0', precision - i)
    modifies o`count, o`full, o.data
    ensures o.Valid()
    ensures o.full == old(o.full) + HexPrefixText(upper)
                    + (Pointed(shown[..1], precision > 0 || alternate, shown[1..]) + ExponentText(exp, true, upper))
  {
    hide ExponentText, DigitText.Repeat, Pointed;
    ghost var head := o.full;
    ghost var prefix, dot := HexPrefixText(upper), if precision > 0 || alternate then "." else "";
    o.Put('0');
    o.Put(if upper then 'X' else 'x');
    assert o.full == head + prefix;
    o.Put(digits[0]);
    if precision > 0 || alternate {
      o.Put('.');
    }
    assert o.full == head + prefix + [digits[0]] + dot;
    ghost var point := o.full;
    o.Str(digits[1..1 + i]);
    o.Repeat('0', precision - i);
    assert digits[..i + 1][1..] == digits[1..1 + i];
    ShownPieces(shown, digits[..i + 1], precision - i);
    Joined(point, digits[1..1 + i], DigitText.Repeat('0', precision - i), "");
    assert o.full == point + shown[1..];
    o.ExpOut(exp, true, upper);
    HexJoined(head, prefix, shown, precision > 0 || alternate, ExponentText(exp, true, upper));
  }

  method FillDigits(digits: array<char>, magnitude: nat, upper: bool)
    requires digits.Length == 14
    modifies digits
    ensures digits[..] == AllDigits(magnitude, upper)
  {
    hide HexChar, IsDigits, Pow;
    var fraction := FractionOf(magnitude);
    ghost var tail := HexDigits(fraction, 13, upper);
    digits[0] := if FieldOf(magnitude) > 0 then '1' else '0';
    for i := 0 to 13
      invariant digits[0] == if FieldOf(magnitude) > 0 then '1' else '0'
      invariant digits[1..i + 1] == tail[..i]
    {
      HexDigitAt(fraction, 13, i, upper);
      digits[i + 1] := HexChar(fraction / Pow(16, 12 - i) % 16, upper);
      assert tail[..i + 1] == tail[..i] + [tail[i]];
      assert digits[1..i + 2] == digits[1..i + 1] + [digits[i + 1]];
    }
    assert digits[..] == [digits[0]] + digits[1..14] && tail[..13] == tail;
  }

  /** Rounds the digits to the first `keep`. */
  method RoundDigits(digits: array<char>, ghost magnitude: nat, keep: nat, negative: bool, mode: Mode, upper: bool)
    requires digits.Length == 14 && 0 < keep < 14 && digits[..] == AllDigits(magnitude, upper)
    modifies digits
    ensures digits[..keep] == RoundedHex(AllDigits(magnitude, upper), keep, negative, mode, upper)
  {
    hide AllDigits, HexBump, IsDigits, DigitOf, AnyNonzero, Increment;
    ghost var s := AllDigits(magnitude, upper);
    HexDigitsAt(s, keep);
    var first := DigitOf(digits[keep]);
    var rest := false;
    for i := keep + 1 to 14
      invariant digits[..] == s && (rest <==> SomeNonzero(s, keep + 1, i))
    {
      SomeTurn(s, keep + 1, i);
      if digits[i] != '0' {
        rest := true;
      }
    }
    SomeAll(s, keep + 1);
    var odd := DigitOf(digits[keep - 1]) % 2 == 1;
    var inc := Increment(negative, mode, 8, first, rest, odd);
    assert digits[..keep] == s[..keep];
    if inc {
      AllInAlphabet(magnitude, upper);
      BumpDigits(digits, keep, s, upper);
    }
  }

  method BumpDigits(digits: array<char>, keep: nat, ghost s: string, upper: bool)
    requires digits.Length == |s| == 14 && 0 < keep < 14 && IsDigits(16, s) && DigitOf(s[0]) < 9
    requires digits[..keep] == s[..keep] && InAlphabet(s, upper)
    modifies digits
    ensures digits[..keep] == HexBump(s[..keep], upper)
  {
    hide IsDigits, InAlphabet, HexCarried, HexBump, HexChar, DigitOf;
    ghost var t := s[..keep];
    PrefixDigits(16, s, keep);
    HexCarriedStart(t, upper);
    var i := keep - 1;
    assert DigitText.Repeat('0', 0) == "" && t[..keep] == t;
    while i > 0 && digits[i] == HexChar(15, upper)
      invariant 0 <= i < keep == |t| && digits[..i + 1] == t[..i + 1]
      invariant HexCarried(t, i + 1, upper) && digits[i + 1..keep] == DigitText.Repeat('0', keep - 1 - i)
    {
      assert t[i] == s[i] == digits[..i + 1][i];
      HexCarriedTurn(t, i + 1, upper);
      digits[i] := '0';
      assert digits[i..keep] == ['0'] + digits[i + 1..keep];
      assert ['0'] + DigitText.Repeat('0', keep - 1 - i) == DigitText.Repeat('0', keep - i);
      assert digits[..i] == t[..i];
      i := i - 1;
    }
    assert t[i] == s[i] == digits[..i + 1][i];
    AlphabetAt(s, i, upper);
    HexCarriedEnd(t, i + 1, upper);
    digits[i] := HexChar(DigitOf(digits[i]) + 1, upper);
    assert digits[..i] == t[..i];
    assert digits[..keep] == digits[..i] + [digits[i]] + digits[i + 1..keep];
  }

  // ---------------------------------------------------------------- dispatch

  /** Drops the zeros at the end of the digits. */
  method Strip(d: CdDecimal, ghost magnitude: nat, ghost u: int, ghost negative: bool, ghost mode: Mode)
    requires d.Valid() && IsDigits(10, d.Text()) && Carries(d.Text(), d.point, magnitude, u, negative, mode)
    modifies d`n
    ensures d.Valid() && d.n <= old(d.n) && (d.n > 1 ==> d.digits[d.n - 1] != '0')
    ensures IsDigits(10, d.Text()) && Carries(d.Text(), d.point, magnitude, u, negative, mode)
  {
    hide Carries, IsDigits, Decimals;
    while d.n > 1 && d.digits[d.n - 1] == '0'
      invariant d.Valid() && d.n <= old(d.n)
      invariant IsDigits(10, d.Text()) && Carries(d.Text(), d.point, magnitude, u, negative, mode)
    {
      TrailingZero(d.Text(), d.point, magnitude, u, negative, mode);
      PrefixDecimals(d.Text(), d.n - 1);
      assert d.Text()[..d.n - 1] == d.digits[..d.n - 1];
      d.n := d.n - 1;
    }
  }

  /** The exact digits of a finite number, rounded to those a conversion keeps unless so many are
      asked for that all of them are kept. */
  method Expand(bits: nat, kind: Kind, precision: nat, mode: Mode, ghost wanted: nat) returns (d: CdDecimal, ghost first: int)
    requires Finite(MagnitudeOf(bits)) && Effective(kind, wanted, precision)
    ensures fresh(d) && fresh(d.digits) && d.Valid() && IsDigits(10, d.Text())
    ensures HasPoint(MagnitudeOf(bits), first)
    ensures Carries(d.Text(), d.point, MagnitudeOf(bits), first - Keep(kind, first, wanted), NegativeOf(bits), mode)
    ensures kind != Fixed && Keep(kind, first, precision) > 0 ==> d.point >= first && d.n <= Keep(kind, first, precision)
  {
    hide Exactly, Stands, Carries, HasPoint, Target, Horner, IsDigits, Decimals, Finite;
    var magnitude, negative := MagnitudeOf(bits), NegativeOf(bits);
    d := new CdDecimal();
    d.Exact(magnitude);
    first := d.point;
    ghost var s := d.Text();
    PointOf(s, first, magnitude);
    ExactLimits(s, first, magnitude);
    if precision < 1200 {
      d.Round(Keep(kind, d.point, precision), negative, mode);
    }
    RoundedCarries(s, first, magnitude, Keep(kind, first, wanted), negative, mode, d.Text(), d.point);
  }

  /** The decimal conversions of a finite number. */
  method WriteDecimal(o: CdOutput, bits: nat, kind: Kind, upper: bool, ghost asked: int, precision: nat, alternate: bool,
                      mode: Mode)
    returns (ghost t: string)
    requires o.Valid() && Finite(MagnitudeOf(bits)) && kind != Hexadecimal
    requires Effective(kind, Wanted(kind, asked), precision) && (kind == General ==> precision > 0)
    requires alternate ==> precision == Wanted(kind, asked)
    modifies o`count, o`full, o.data
    ensures o.Valid() && o.full == old(o.full) + t && Means(t, bits, kind, asked, upper, mode)
    ensures TextLayout.LaidOut(t, true, kind, asked, alternate, upper)
  {
    hide Means, Denotes, Finite, Carries, HasPoint, IsDigits, Decimals, FixedText, ScientificText, TextLayout.LaidOut;
    ghost var first;
    var d;
    d, first := Expand(bits, kind, precision, mode, Wanted(kind, asked));
    if kind == General {
      t := WriteGeneral(o, bits, d, upper, asked, precision, alternate, mode, first);
    } else if kind == Scientific {
      WriteScientific(o, d, precision, alternate, upper);
      t := ScientificText(d.Text(), d.point, precision, alternate, upper);
      ScientificMeans(d.Text(), d.point, bits, precision, alternate, upper, mode, first, asked);
      ScientificLaid(d.Text(), d.point, precision, asked, alternate, upper);
    } else {
      WriteFixed(o, d, precision, alternate);
      t := FixedText(d.Text(), d.point, precision, alternate);
      FixedMeans(d.Text(), d.point, bits, precision, alternate, upper, mode, asked);
      FixedLaid(d.Text(), d.point, precision, asked, alternate, upper);
    }
  }

  /** %g: the shorter of the two notations, without zeros at the end unless asked for. */
  method WriteGeneral(o: CdOutput, ghost bits: nat, d: CdDecimal, upper: bool, ghost asked: int, precision0: nat,
                      alternate: bool, ghost mode: Mode, ghost first: int)
    returns (ghost t: string)
    requires o.Valid() && d.Valid() && IsDigits(10, d.Text()) && o.data != d.digits && Finite(MagnitudeOf(bits))
    requires Effective(General, Wanted(General, asked), precision0) && 0 < precision0
    requires alternate ==> precision0 == Wanted(General, asked)
    requires HasPoint(MagnitudeOf(bits), first) && d.point >= first && d.n <= precision0
    requires Carries(d.Text(), d.point, MagnitudeOf(bits), first - Wanted(General, asked), NegativeOf(bits), mode)
    modifies o`count, o`full, o.data, d`n
    ensures o.Valid() && o.full == old(o.full) + t && Means(t, bits, General, asked, upper, mode)
    ensures TextLayout.LaidOut(t, true, General, asked, alternate, upper)
  {
    hide Means, Denotes, Finite, Carries, HasPoint, IsDigits, Decimals, FixedText, ScientificText, TextLayout.LaidOut;
    var exponent, precision := d.point - 1, precision0;
    if !alternate {
      Strip(d, MagnitudeOf(bits), first - Wanted(General, asked), NegativeOf(bits), mode);
    }
    PrecisionCapped(d.Text(), d.point, MagnitudeOf(bits), first, Wanted(General, asked), precision0, NegativeOf(bits), mode);
    if exponent < -4 || exponent >= precision {
      precision := if alternate then precision - 1 else d.n - 1;
      WriteScientific(o, d, precision, alternate, upper);
      t := ScientificText(d.Text(), d.point, precision, alternate, upper);
      GeneralScientific(d.Text(), d.point, bits, precision, alternate, upper, mode, first, asked);
      GeneralScientificLaid(d.Text(), d.point, precision, asked, alternate, upper);
    } else {
      precision := Most(if alternate then precision - d.point else d.n - d.point, 0);
      WriteFixed(o, d, precision, alternate);
      t := FixedText(d.Text(), d.point, precision, alternate);
      GeneralFixed(d.Text(), d.point, bits, precision, alternate, upper, mode, first, asked);
      GeneralFixedLaid(d.Text(), d.point, precision, asked, alternate, upper);
    }
  }

  /** cd_float. */
  method WriteFloat(o: CdOutput, bits: nat, kind: Kind, upper: bool, precision0: int, alternate: bool, mode: Mode)
    returns (ghost t: string)
    requires o.Valid() && bits < 0x1_0000_0000_0000_0000
    modifies o`count, o`full, o.data
    ensures Overlong(bits, kind, precision0, alternate) ==>
      o.count == old(o.count) + 0x8000_0000 && o.data[..] == old(o.data[..])
    ensures !Overlong(bits, kind, precision0, alternate) ==>
      o.Valid() && o.full == old(o.full) + t && Means(t, bits, kind, precision0, upper, mode)
    ensures !Overlong(bits, kind, precision0, alternate) ==>
      TextLayout.LaidOut(t, Finite(MagnitudeOf(bits)), kind, precision0, alternate, upper)
  {
    hide Means, Denotes, Finite, HexText, HexPrefixText, FractionOf, FieldOf, TextLayout.LaidOut;
    var magnitude, negative := MagnitudeOf(bits), NegativeOf(bits);
    t := "";
    FieldFinite(bits);
    if FieldOf(magnitude) == 2047 {
      var word := if FractionOf(magnitude) != 0 then (if upper then "NAN" else "nan") else if upper then "INF" else "inf";
      SpecialMeans(word, bits, kind, precision0, upper, mode);
      WordLaid(word, kind, precision0, alternate, upper);
      o.Str(word);
      t := word;
      return;
    }
    if kind == Hexadecimal {
      WriteHex(o, magnitude, negative, precision0, alternate, upper, mode);
      t := HexPrefixText(upper) + HexText(magnitude, negative, precision0, alternate, upper, mode);
      Joined(old(o.full), HexPrefixText(upper), HexText(magnitude, negative, precision0, alternate, upper, mode), "");
      HexMeans(t, bits, precision0, alternate, upper, mode);
      HexLaid(magnitude, negative, precision0, alternate, upper, mode);
      return;
    }
    var precision := if precision0 < 0 then 6 else precision0;
    if kind == General && precision == 0 {
      precision := 1;
    }
    if precision > 2147482000 {
      if kind != General || alternate {
        o.count := o.count + 0x8000_0000;
        return;
      }
      precision := 1200;
    }
    t := WriteDecimal(o, bits, kind, upper, precision0, precision, alternate, mode);
  }
}
