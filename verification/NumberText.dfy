/** Number texts as printf lays them out, and the reference grammar reading them. */
module NumberText {
  import opened Numeral
  import opened DigitText

  /** What precedes the digits: a sign, a blank or nothing. */
  predicate SignText(negative: bool, sign: string) {
    if negative then sign == "-" else sign == "" || sign == "+" || sign == " "
  }

  /** Digits with an optional point. */
  function Pointed(a: string, dot: bool, b: string): string {
    a + (if dot then "." else "") + b
  }

  /** Digits of an exponent, at least one, and at least two after e. */
  function ExponentDigits(e: nat, hex: bool): (s: string)
    ensures IsDigits(10, s) && s != "" && Horner(10, s) == e
  {
    HornerDecimal(e);
    var s := if e == 0 then "0" else Decimal(e);
    assert s != "" by {
      if e > 0 {
        DecimalLeading(e);
      }
    }
    assert Horner(10, s) == e by {
      assert "0"[..0] == "" && Horner(10, "") == 0;
    }
    if !hex && |s| < 2 then
      assert Repeat('0', 1) == "0";
      HornerLeadingZeros(10, 1, s);
      "0" + s
    else s
  }

  function Magnitude(e: int): nat {
    if e < 0 then -e else e
  }

  function ExponentText(e: int, hex: bool, upper: bool): string {
    [if hex then (if upper then 'P' else 'p') else if upper then 'E' else 'e']
    + [if e < 0 then '-' else '+'] + ExponentDigits(Magnitude(e), hex)
  }

  /** A part of a part of a text. */
  lemma Piece(s: string, i: nat, p: string, j: nat, q: string)
    requires i + |p| <= |s| && s[i..i + |p|] == p
    requires j + |q| <= |p| && p[j..j + |q|] == q
    ensures s[i + j..i + j + |q|] == q
    ensures q != "" ==> s[i + j] == q[0]
  {
    forall k | 0 <= k < |q|
      ensures s[i + j..i + j + |q|][k] == q[k]
    {
      assert s[i..i + |p|][j + k] == p[j + k] && p[j..j + |q|][k] == q[k];
    }
    if q != "" {
      assert s[i + j..i + j + |q|][0] == q[0];
    }
  }

  lemma ExponentReads(s: string, i: nat, e: int, hex: bool, upper: bool)
    requires i <= |s| && s[i..] == ExponentText(e, hex, upper)
    ensures ReadExponent(s, i, if hex then 'p' else 'e') == (e, |s|)
  {
    hide ExponentDigits, Shifted, Horner, ReadInteger;
    var t := ExponentDigits(Magnitude(e), hex);
    var x := ExponentText(e, hex, upper);
    assert |s| == i + |x| && s[i..i + |x|] == x;
    assert x[2..2 + |t|] == t;
    Piece(s, i, x, 0, [x[0]]);
    Piece(s, i, x, 1, [x[1]]);
    Piece(s, i, x, 2, t);
    ReadIntegerRun(s, i + 2, t, 0);
    ShiftedZero(10, |t|);
  }

  /** Neither a digit nor the point stands here. */
  predicate Stops(s: string, base: nat, i: nat) {
    var c := At(s, i);
    !(0 <= DigitOf(c) < base) && c != '.'
  }

  lemma DigitsStop(s: string, base: nat, d: Digits)
    requires Base(base) && Stops(s, base, d.end)
    ensures ReadDigits(s, base, d) == d
  {
  }

  lemma DotReads(s: string, base: nat, d: Digits)
    requires Base(base) && d.end < |s| && s[d.end] == '.' && !d.dot
    ensures ReadDigits(s, base, d) == ReadDigits(s, base, d.(dot := true, end := d.end + 1))
  {
  }

  lemma LeadingRun(s: string, base: nat, i: nat, a: string)
    requires Base(base) && IsDigits(base, a) && a != "" && i + |a| <= |s| && s[i..i + |a|] == a
    ensures ReadDigits(s, base, Digits(0, 0, false, false, i))
         == ReadDigits(s, base, Digits(Horner(base, a), 0, true, false, i + |a|))
  {
    hide Horner, Shifted, ReadDigits, IsDigits;
    ReadRun(s, base, a, Digits(0, 0, false, false, i));
    ShiftedZero(base, |a|);
  }

  lemma FractionRun(s: string, base: nat, i: nat, a: string, b: string)
    requires Base(base) && IsDigits(base, a) && IsDigits(base, b)
    requires i + |b| <= |s| && s[i..i + |b|] == b && Stops(s, base, i + |b|)
    ensures IsDigits(base, a + b)
    ensures ReadDigits(s, base, Digits(Horner(base, a), 0, true, true, i))
         == Digits(Horner(base, a + b), |b|, true, true, i + |b|)
  {
    hide Horner, Shifted, ReadDigits, IsDigits, Stops;
    var d := Digits(Horner(base, a), 0, true, true, i);
    ReadRun(s, base, b, d);
    HornerConcat(base, a, b);
    DigitsStop(s, base, Ran(base, d, b));
  }

  lemma DottedReads(s: string, base: nat, i: nat, j: nat, a: string, b: string)
    requires Base(base) && IsDigits(base, a) && IsDigits(base, b) && a != ""
    requires j == i + |a| && j + 1 + |b| <= |s|
    requires s[i..j] == a && s[j] == '.' && s[j + 1..j + 1 + |b|] == b && Stops(s, base, j + 1 + |b|)
    ensures IsDigits(base, a + b)
    ensures ReadDigits(s, base, Digits(0, 0, false, false, i))
         == Digits(Horner(base, a + b), |b|, true, true, j + 1 + |b|)
  {
    hide Horner, ReadDigits, IsDigits, Stops;
    LeadingRun(s, base, i, a);
    DotReads(s, base, Digits(Horner(base, a), 0, true, false, j));
    FractionRun(s, base, j + 1, a, b);
  }

  /** The digits, the point and more digits, up to something that is neither. */
  lemma PointedReads(s: string, base: nat, i: nat, a: string, dot: bool, b: string)
    requires Base(base) && IsDigits(base, a) && IsDigits(base, b) && a != "" && (dot || b == "")
    requires i + |Pointed(a, dot, b)| <= |s| && s[i..i + |Pointed(a, dot, b)|] == Pointed(a, dot, b)
    requires Stops(s, base, i + |Pointed(a, dot, b)|)
    ensures IsDigits(base, a + b)
    ensures ReadDigits(s, base, Digits(0, 0, false, false, i))
         == Digits(Horner(base, a + b), |b|, true, dot, i + |Pointed(a, dot, b)|)
  {
    hide Horner, ReadDigits, IsDigits, Stops;
    if dot {
      PointedParts(s, i, a, b);
      DottedReads(s, base, i, i + |a|, a, b);
    } else {
      assert a + b == a == Pointed(a, dot, b);
      LeadingRun(s, base, i, a);
      DigitsStop(s, base, Digits(Horner(base, a), 0, true, false, i + |a|));
    }
  }

  lemma PointedParts(s: string, i: nat, a: string, b: string)
    requires i + |Pointed(a, true, b)| <= |s| && s[i..i + |Pointed(a, true, b)|] == Pointed(a, true, b)
    ensures |Pointed(a, true, b)| == |a| + 1 + |b|
    ensures s[i..i + |a|] == a && s[i + |a|] == '.' && s[i + |a| + 1..i + |a| + 1 + |b|] == b
  {
    var p := Pointed(a, true, b);
    assert p[0..|a|] == a;
    Piece(s, i, p, 0, a);
    assert p[|a|..|a| + 1] == ".";
    Piece(s, i, p, |a|, ".");
    assert p[|a| + 1..|a| + 1 + |b|] == b;
    Piece(s, i, p, |a| + 1, b);
  }

  /** The value of the exponent at the end of a text, zero when there is none. */
  ghost predicate EndsWith(s: string, i: nat, hex: bool, e: int) {
    i <= |s| && ((e == 0 && s[i..] == "") || exists upper :: s[i..] == ExponentText(e, hex, upper))
  }

  lemma EndReads(s: string, i: nat, hex: bool, e: int)
    requires EndsWith(s, i, hex, e)
    ensures ReadExponent(s, i, if hex then 'p' else 'e') == (e, |s|)
    ensures Stops(s, if hex then 16 else 10, i) && At(s, i) != 'x' && At(s, i) != 'X'
  {
    if e == 0 && s[i..] == "" {
      assert |s| == i;
    } else {
      var upper :| s[i..] == ExponentText(e, hex, upper);
      assert s[i] == s[i..][0];
      ExponentReads(s, i, e, hex, upper);
    }
  }

  /** What a number text is made of: a sign, the prefix of hexadecimal numbers, digits with a
      point, an exponent. */
  ghost predicate Laid(s: string, sign: string, negative: bool, prefix: string, a: string, dot: bool, b: string, e: int) {
    && SignText(negative, sign) && (prefix == "" || prefix == "0x" || prefix == "0X")
    && a != "" && (dot || b == "") && (prefix != "" ==> |a| == 1)
    && sign + prefix + Pointed(a, dot, b) <= s
    && EndsWith(s, |sign + prefix + Pointed(a, dot, b)|, prefix != "", e)
  }

  /** It denotes the number its digits spell, scaled. */
  lemma TextReads(s: string, sign: string, negative: bool, prefix: string, a: string, dot: bool, b: string, e: int)
    requires Laid(s, sign, negative, prefix, a, dot, b, e)
    requires var base := if prefix == "" then 10 else 16; IsDigits(base, a) && IsDigits(base, b)
    ensures IsDigits(if prefix == "" then 10 else 16, a + b)
    ensures Read(s) == Number(negative, prefix != "", Horner(if prefix == "" then 10 else 16, a + b),
                              e - |b| * Step(prefix != ""), |s|)
  {
    hide Horner, ReadExponent, ReadDigits, ReadNan, Spells, ReadSign, HexPrefix, EndsWith, Stops, At, IsDigits, Laid;
    var hex, base := prefix != "", if prefix == "" then 10 else 16;
    var p := Pointed(a, dot, b);
    LaidKinds(s, sign, negative, prefix, a, dot, b, e);
    LaidParts(s, sign, negative, prefix, a, dot, b, e);
    EndReads(s, |sign + prefix + p|, hex, e);
    PointedReads(s, base, |sign + prefix|, a, dot, b);
    SignReads(s, sign, negative);
  }

  lemma LaidKinds(s: string, sign: string, negative: bool, prefix: string, a: string, dot: bool, b: string, e: int)
    requires Laid(s, sign, negative, prefix, a, dot, b, e)
    ensures SignText(negative, sign) && sign <= s && a != "" && (dot || b == "")
    ensures prefix != "" ==> |prefix| == 2
    ensures EndsWith(s, |sign + prefix + Pointed(a, dot, b)|, prefix != "", e)
  {
    hide EndsWith;
    assert s[..|sign|] == (sign + prefix + Pointed(a, dot, b))[..|sign|];
  }

  lemma LaidParts(s: string, sign: string, negative: bool, prefix: string, a: string, dot: bool, b: string, e: int)
    requires Laid(s, sign, negative, prefix, a, dot, b, e)
    requires var base := if prefix == "" then 10 else 16; IsDigits(base, a) && IsDigits(base, b)
    ensures var p := Pointed(a, dot, b);
      && |sign + prefix| + |p| == |sign + prefix + p| <= |s|
      && s[|sign + prefix|..|sign + prefix| + |p|] == p
    ensures IsDecimal(At(s, |sign|)) && HexPrefix(s, |sign|) == (prefix != "")
  {
    hide EndsWith, IsDigits, Stops;
    var i, p := |sign|, Pointed(a, dot, b);
    var whole := sign + prefix + p;
    assert s[0..|whole|] == whole;
    assert whole[|sign + prefix|..|sign + prefix| + |p|] == p;
    Piece(s, 0, whole, |sign + prefix|, p);
    assert p[0] == a[0] && 0 <= DigitOf(a[0]) < if prefix == "" then 10 else 16 by {
      assert IsDigits(if prefix == "" then 10 else 16, a);
      FirstOf(if prefix == "" then 10 else 16, a);
    }
    if prefix != "" {
      assert whole[i..i + 2] == prefix;
      Piece(s, 0, whole, i, prefix);
      assert s[i..i + 2][1] == s[i + 1];
    } else {
      NoPrefix(s, i, a, dot, b, e);
    }
  }

  lemma FirstOf(base: nat, a: string)
    requires IsDigits(base, a) && a != ""
    ensures 0 <= DigitOf(a[0]) < base
  {
  }

  /** Nothing that looks like the hexadecimal prefix follows the first decimal digit. */
  lemma NoPrefix(s: string, i: nat, a: string, dot: bool, b: string, e: int)
    requires var p := Pointed(a, dot, b);
      i + |p| <= |s| && s[i..i + |p|] == p && EndsWith(s, i + |p|, false, e)
    requires IsDigits(10, a) && a != "" && (dot || b == "")
    ensures !HexPrefix(s, i)
  {
    hide EndsWith, Stops;
    var p := Pointed(a, dot, b);
    if |p| > 1 {
      assert p[1..2] == [p[1]];
      Piece(s, i, p, 1, [p[1]]);
      assert p[1] == if |a| > 1 then a[1] else '.';
    } else {
      EndReads(s, i + |p|, false, e);
    }
  }

  /** White space and sign end at the first digit. */
  lemma SignReads(s: string, sign: string, negative: bool)
    requires SignText(negative, sign) && sign <= s && IsDecimal(At(s, |sign|))
    ensures ReadSign(s) == (|sign|, negative)
    ensures !Spells(s, |sign|, "inf") && !Spells(s, |sign|, "nan")
  {
    if sign != "" {
      assert s[0] == sign[0];
    }
    if sign == " " {
      assert SkipSpace(s, 0) == SkipSpace(s, 1) == 1;
    } else {
      assert SkipSpace(s, 0) == 0;
    }
  }
}
