/** The promise of the floating conversions, and each branch of cd_float keeping it. */
module FloatPromises {
  import opened Powers
  import opened Numeral
  import opened DigitText
  import opened NumberText
  import opened Rounding
  import opened DecimalLayout
  import opened HexLayout
  import opened ExactDecimal
  import opened FloatMeaning
  import opened GeneralNotation

  /** The magnitude of a binary64 encoding, and its sign. */
  function MagnitudeOf(bits: nat): nat {
    bits % 0x8000_0000_0000_0000
  }

  function NegativeOf(bits: nat): bool {
    bits / 0x8000_0000_0000_0000 == 1
  }

  /** Whatever sign the caller writes before it, the text reads as it should. */
  ghost predicate Means(t: string, bits: nat, kind: Kind, precision: int, upper: bool, mode: Mode) {
    forall sign: string :: SignText(NegativeOf(bits), sign) ==>
      if Finite(MagnitudeOf(bits)) then
        Denotes(sign + t, kind, MagnitudeOf(bits), precision, NegativeOf(bits), mode, upper)
      else if FractionOf(MagnitudeOf(bits)) == 0 then
        Read(sign + t) == Infinite(NegativeOf(bits), |sign + t|)
      else
        Read(sign + t) == NotNumber(NegativeOf(bits), |sign + t|)
  }

  /** Precisions whose text is longer than any permitted result are only counted. */
  predicate Overlong(bits: nat, kind: Kind, precision: int, alternate: bool) {
    Finite(MagnitudeOf(bits)) && kind != Hexadecimal && precision > 2147482000 && (kind != General || alternate)
  }

  lemma FieldFinite(bits: nat)
    ensures Finite(MagnitudeOf(bits)) <==> FieldOf(MagnitudeOf(bits)) != 2047
  {
  }

  /** How many digits a conversion keeps, counted from the first. */
  function Keep(kind: Kind, point: int, precision: nat): int {
    if kind == Fixed then point + precision else if kind == Scientific then precision + 1 else precision
  }

  /** The precision a directive asks for; without one it is six. */
  function Wanted(kind: Kind, asked: int): nat {
    if asked < 0 then 6 else if kind == General then Most(asked, 1) else asked
  }

  /** The precision cd_float works with: beyond 1200 digits all are shown anyway. */
  predicate Effective(kind: Kind, wanted: nat, precision: nat) {
    precision == wanted || (kind == General && wanted > 1200 && precision == 1200)
  }

  // ---------------------------------------------------------------- words

  lemma SignEnds(s: string, sign: string, negative: bool)
    requires SignText(negative, sign) && sign <= s
    requires var c := At(s, |sign|); !IsSpace(c) && c != '+' && c != '-'
    ensures ReadSign(s) == (|sign|, negative)
  {
    if sign != "" {
      assert s[0] == sign[0];
    }
    if sign == " " {
      assert SkipSpace(s, 0) == SkipSpace(s, 1) == 1;
    } else {
      assert SkipSpace(s, 0) == 0;
    }
  }

  lemma WordReads(sign: string, negative: bool, t: string)
    requires SignText(negative, sign) && t in {"inf", "INF", "nan", "NAN"}
    ensures Read(sign + t) == if t == "inf" || t == "INF" then Infinite(negative, |sign + t|)
                              else NotNumber(negative, |sign + t|)
  {
    var s, i := sign + t, |sign|;
    assert s[i] == t[0] && s[i + 1] == t[1] && s[i + 2] == t[2];
    SignEnds(s, sign, negative);
    Letters(s, i, 'i', 'n', 'f');
    Letters(s, i, 'n', 'a', 'n');
  }

  lemma Letters(s: string, i: nat, a: char, b: char, c: char)
    ensures Spells(s, i, [a, b, c]) <==> Lower(At(s, i)) == a && Lower(At(s, i + 1)) == b && Lower(At(s, i + 2)) == c
  {
    assert [a, b, c][1..] == [b, c] && [b, c][1..] == [c] && [c][1..] == [];
    assert Spells(s, i + 2, [c]) <==> Lower(At(s, i + 2)) == c;
    assert Spells(s, i + 1, [b, c]) <==> Lower(At(s, i + 1)) == b && Spells(s, i + 2, [c]);
  }

  lemma SpecialMeans(t: string, bits: nat, kind: Kind, precision: int, upper: bool, mode: Mode)
    requires !Finite(MagnitudeOf(bits))
    requires t == if FractionOf(MagnitudeOf(bits)) != 0 then (if upper then "NAN" else "nan") else if upper then "INF" else "inf"
    ensures Means(t, bits, kind, precision, upper, mode)
  {
    hide Read;
    forall sign: string | SignText(NegativeOf(bits), sign) {
      WordReads(sign, NegativeOf(bits), t);
    }
  }

  // ---------------------------------------------------------------- numbers

  lemma HexMeans(t: string, bits: nat, precision: int, alternate: bool, upper: bool, mode: Mode)
    requires Finite(MagnitudeOf(bits))
    requires t == HexPrefixText(upper) + HexText(MagnitudeOf(bits), NegativeOf(bits), precision, alternate, upper, mode)
    ensures Means(t, bits, Hexadecimal, precision, upper, mode)
  {
    hide Read, HexText, HexPrefixText, HexPrecision, HexMantissa, AllDigits, MagnitudeOf, NegativeOf, HexExponent;
    var m, negative := MagnitudeOf(bits), NegativeOf(bits);
    forall sign: string | SignText(negative, sign)
      ensures Denotes(sign + t, Hexadecimal, m, precision, negative, mode, upper)
    {
      HexReads(sign, m, negative, precision, alternate, upper, mode);
      assert sign + t == sign + HexPrefixText(upper) + HexText(m, negative, precision, alternate, upper, mode);
    }
  }

  /** An exact expansion never has more digits than the buffer, or than 1074 places. */
  lemma ExactLimits(s: string, point: int, magnitude: nat)
    requires IsDigits(10, s) && Exactly(s, point, magnitude)
    ensures |s| - point <= SUBNORMAL
  {
  }

  lemma RoundedCarries(s0: string, point0: int, magnitude: nat, keep: int, negative: bool, mode: Mode, s: string, point: int)
    requires IsDigits(10, s0) && Exactly(s0, point0, magnitude) && IsDigits(10, s)
    requires keep >= |s0| ==> s == s0 && point == point0
    requires keep < |s0| ==> Stands(Horner(10, s), point - |s|, Target(10, s0, keep, negative, mode), point0 - keep)
    ensures Carries(s, point, magnitude, point0 - keep, negative, mode)
  {
    hide Exactly, Stands, Target, AtUnit, Horner;
    if keep >= |s0| {
      UnroundedCarries(s0, point0, magnitude, keep, negative, mode);
    } else {
      TargetAt(s0, point0, magnitude, keep, negative, mode);
    }
  }

  lemma PlacesCarried(s: string, point: int, magnitude: nat, u: int, negative: bool, mode: Mode)
    requires Buffered(s, point) && Carries(s, point, magnitude, u, negative, mode)
    ensures |s| - point <= Most(-u, 0)
  {
    hide AtUnit, Decimals, Pow;
    if s[0] != '0' {
      assert AnyNonzero(s);
      ZeroDigits(10, s);
    }
  }

  lemma FixedMeans(s: string, point: int, bits: nat, precision: nat, alternate: bool, upper: bool, mode: Mode, asked: int)
    requires Finite(MagnitudeOf(bits)) && Buffered(s, point) && precision == Wanted(Fixed, asked)
    requires Carries(s, point, MagnitudeOf(bits), -(precision as int), NegativeOf(bits), mode)
    ensures Means(FixedText(s, point, precision, alternate), bits, Fixed, asked, upper, mode)
  {
    hide Read, FixedText, Carries, MagnitudeOf, NegativeOf, AtUnit, Finite, Horner, Pow;
    var m, negative, t := MagnitudeOf(bits), NegativeOf(bits), FixedText(s, point, precision, alternate);
    PlacesCarried(s, point, m, -(precision as int), negative, mode);
    forall sign: string | SignText(negative, sign)
      ensures Denotes(sign + t, Fixed, m, asked, negative, mode, upper)
    {
      FixedDenotes(sign, s, point, precision, alternate, m, -(precision as int), negative, mode);
    }
  }

  lemma ScientificMeans(s: string, point: int, bits: nat, precision: nat, alternate: bool, upper: bool, mode: Mode, first: int,
                        asked: int)
    requires Finite(MagnitudeOf(bits)) && Buffered(s, point) && precision == Wanted(Scientific, asked)
    requires HasPoint(MagnitudeOf(bits), first) && point >= first && |s| <= precision + 1
    requires Carries(s, point, MagnitudeOf(bits), first - (precision + 1), NegativeOf(bits), mode)
    ensures Means(ScientificText(s, point, precision, alternate, upper), bits, Scientific, asked, upper, mode)
  {
    hide Read, ScientificText, Carries, HasPoint, MagnitudeOf, NegativeOf, AtUnit, Finite, ReadsRounded;
    var m, negative, t := MagnitudeOf(bits), NegativeOf(bits), ScientificText(s, point, precision, alternate, upper);
    forall sign: string | SignText(negative, sign)
      ensures Denotes(sign + t, Scientific, m, asked, negative, mode, upper)
    {
      ScientificDenotes(sign, s, point, precision, alternate, upper, m, first - (precision + 1), negative, mode);
      assert first - (precision + 1) == first - 1 - precision;
    }
  }

  lemma GeneralScientific(s: string, point: int, bits: nat, precision: nat, alternate: bool, upper: bool, mode: Mode,
                          first: int, asked: int)
    requires Finite(MagnitudeOf(bits)) && Buffered(s, point)
    requires HasPoint(MagnitudeOf(bits), first) && point >= first && |s| - 1 <= precision < Wanted(General, asked)
    requires Carries(s, point, MagnitudeOf(bits), first - Wanted(General, asked), NegativeOf(bits), mode)
    requires point - 1 < -4 || point - 1 >= Wanted(General, asked)
    ensures s != "" && Means(ScientificText(s, point, precision, alternate, upper), bits, General, asked, upper, mode)
  {
    hide Read, ScientificText, Carries, HasPoint, MagnitudeOf, NegativeOf, AtUnit, Finite, ReadsRounded;
    hide Buffered, HasExponent, RoundedExponent;
    BufferedParts(s, point);
    var m, negative, t := MagnitudeOf(bits), NegativeOf(bits), ScientificText(s, point, precision, alternate, upper);
    ShownExponent(s, point, m, first, Wanted(General, asked), negative, mode);
    forall sign: string | SignText(negative, sign)
      ensures Denotes(sign + t, General, m, asked, negative, mode, upper)
    {
      ScientificShows(sign, s, point, precision, alternate, upper);
      ScientificDenotes(sign, s, point, precision, alternate, upper, m, first - Wanted(General, asked), negative, mode);
    }
  }

  lemma GeneralFixed(s: string, point: int, bits: nat, precision: nat, alternate: bool, upper: bool, mode: Mode,
                     first: int, asked: int)
    requires Finite(MagnitudeOf(bits)) && Buffered(s, point)
    requires HasPoint(MagnitudeOf(bits), first) && point >= first && |s| - point <= precision <= Wanted(General, asked) - first
    requires Carries(s, point, MagnitudeOf(bits), first - Wanted(General, asked), NegativeOf(bits), mode)
    requires -4 <= point - 1 < Wanted(General, asked)
    ensures Means(FixedText(s, point, precision, alternate), bits, General, asked, upper, mode)
  {
    hide Read, FixedText, Carries, HasPoint, MagnitudeOf, NegativeOf, AtUnit, Finite, ReadsRounded;
    hide Buffered, HasExponent, RoundedExponent;
    var m, negative, t := MagnitudeOf(bits), NegativeOf(bits), FixedText(s, point, precision, alternate);
    ShownExponent(s, point, m, first, Wanted(General, asked), negative, mode);
    forall sign: string | SignText(negative, sign)
      ensures Denotes(sign + t, General, m, asked, negative, mode, upper)
    {
      BufferedParts(s, point);
      FixedHides(sign, negative, s, point, precision, alternate);
      FixedDenotes(sign, s, point, precision, alternate, m, first - Wanted(General, asked), negative, mode);
    }
  }
}
