/** What the decimal emitters write, as functions of the digits, and what rounding a digit string
    to fewer digits does to its value. */
module DecimalLayout {
  import opened Powers
  import opened Numeral
  import opened DigitText
  import opened NumberText
  import opened Rounding
  import opened DecimalRounding

  predicate Decimals(s: string) {
    forall i :: 0 <= i < |s| ==> IsDecimal(s[i])
  }

  lemma DecimalsAreDigits(s: string)
    requires Decimals(s)
    ensures IsDigits(10, s)
  {
  }

  predicate AnyNonzero(s: string) {
    exists i :: 0 <= i < |s| && s[i] != '0'
  }

  lemma {:induction false} ZeroDigits(base: nat, s: string)
    requires Base(base) && IsDigits(base, s)
    ensures Horner(base, s) > 0 <==> AnyNonzero(s)
  {
    if s != "" {
      var front, last := s[..|s| - 1], s[|s| - 1];
      ZeroDigits(base, front);
      assert DigitOf(last) > 0 <==> last != '0';
      assert last != '0' ==> AnyNonzero(s);
      assert forall i :: 0 <= i < |front| ==> front[i] == s[i];
      if AnyNonzero(front) {
        var i :| 0 <= i < |front| && front[i] != '0';
        assert s[i] != '0';
      }
    }
  }

  /** A digit string cut at `keep`: what stays, the first dropped digit and what follows it. */
  lemma Cut(base: nat, s: string, keep: nat)
    requires Base(base) && keep < |s| && IsDigits(base, s)
    ensures IsDigits(base, s[..keep]) && IsDigits(base, s[keep + 1..])
    ensures var p, u := Pow(base, |s| - keep - 1), Horner(base, s[keep + 1..]);
      && p > 0 && u < p && Pow(base, |s| - keep) == base * p
      && Horner(base, s) == Horner(base, s[..keep]) * (base * p) + (DigitOf(s[keep]) * p + u)
    ensures Horner(base, s[..keep]) % 2 == if keep > 0 then DigitOf(s[keep - 1]) % 2 else 0
  {
    hide Horner, Pow, Shifted;
    var front, c, back := s[..keep], s[keep], s[keep + 1..];
    var p, q := Pow(base, |back|), Horner(base, front);
    PowPos(base, |back|);
    PowStep(base, |s| - keep);
    assert IsDigits(base, front) && IsDigits(base, back) && IsDigits(base, front + [c]);
    HornerBound(base, back);
    assert s == (front + [c]) + back;
    HornerSnoc(base, front, c);
    HornerConcat(base, front + [c], back);
    ShiftedProduct(base, Append(base, q, DigitOf(c)), |back|);
    AppendProduct(base, q, DigitOf(c));
    CutProduct(base, q, DigitOf(c), p);
    LastParity(base, front);
    assert keep > 0 ==> front[|front| - 1] == s[keep - 1];
  }

  lemma LastParity(base: nat, s: string)
    requires Base(base) && IsDigits(base, s)
    ensures Horner(base, s) % 2 == if s != "" then DigitOf(s[|s| - 1]) % 2 else 0
  {
    hide DigitOf, Append;
    if s != "" {
      AppendParity(base, Horner(base, s[..|s| - 1]), DigitOf(s[|s| - 1]));
    }
  }

  lemma AppendParity(base: nat, m: nat, v: nat)
    requires Base(base)
    ensures Append(base, m, v) % 2 == v % 2
  {
    var k := if base == 16 then 8 * m else 5 * m;
    assert Append(base, m, v) == 2 * k + v;
  }

  lemma CutProduct(base: nat, q: nat, c: nat, p: nat)
    ensures (q * base + c) * p == q * (base * p) + c * p
  {
    assert (q * base) * p == q * (base * p);
  }

  /** The number rounding to `keep` digits must produce. */
  function Target(base: nat, s: string, keep: int, negative: bool, mode: Mode): nat
    requires Base(base) && IsDigits(base, s) && keep < |s|
  {
    PowPos(base, |s| - keep);
    IntegerPick(mode, negative, Horner(base, s), Pow(base, |s| - keep))
  }

  function Half(base: nat): nat {
    if base == 16 then 8 else 5
  }

  /** The first dropped digit, whether more follows and whether the last kept digit is odd decide
      the rounding, also when no digit is kept. */
  lemma DecisionCorrect(base: nat, s: string, keep: int, negative: bool, mode: Mode, first: nat, rest: bool, odd: bool)
    requires Base(base) && s != "" && IsDigits(base, s) && keep < |s| && (keep < 0 ==> s[0] != '0')
    requires keep < 0 ==> first == 0 && rest && !odd
    requires keep >= 0 ==> first == DigitOf(s[keep]) && (rest <==> AnyNonzero(s[keep + 1..]))
    requires keep >= 0 ==> (odd <==> keep > 0 && DigitOf(s[keep - 1]) % 2 == 1)
    ensures IsDigits(base, if keep > 0 then s[..keep] else "")
    ensures Target(base, s, keep, negative, mode) == Horner(base, if keep > 0 then s[..keep] else "")
         + if Increment(negative, mode, Half(base), first, rest, odd) then 1 else 0
  {
    hide IntegerPick, Horner, Pow, Increment, AnyNonzero;
    HornerEmpty(base);
    if keep < 0 {
      LeadingBelow(base, s, -keep);
      IncrementIsPick(mode, negative, Half(base), 0, 0, Horner(base, s), Pow(base, |s| - keep - 1));
      PowStep(base, |s| - keep);
    } else {
      Cut(base, s, keep);
      ZeroDigits(base, s[keep + 1..]);
      var q := Horner(base, s[..keep]);
      IncrementIsPick(mode, negative, Half(base), q, first, Horner(base, s[keep + 1..]), Pow(base, |s| - keep - 1));
      assert keep == 0 ==> s[..keep] == "";
    }
  }

  lemma HornerEmpty(base: nat)
    requires Base(base)
    ensures Horner(base, "") == 0
  {
  }

  lemma PowStep(b: nat, e: nat)
    requires e > 0
    ensures Pow(b, e) == b * Pow(b, e - 1)
  {
  }

  lemma LeadingBelow(base: nat, s: string, k: nat)
    requires Base(base) && s != "" && IsDigits(base, s) && s[0] != '0' && k > 0
    ensures 0 < Horner(base, s) < Pow(base, |s| + k - 1)
  {
    HornerBound(base, s);
    PowMono(base, |s|, |s| + k - 1);
    assert AnyNonzero(s);
    ZeroDigits(base, s);
  }

  /** m units of 10^x' are the integer pick counted in units of 10^x, which is no coarser. */
  ghost predicate Stands(m: nat, x': int, pick: nat, x: int) {
    if m == 0 then pick == 0 else x' >= x && m * Pow(10, x' - x) == pick
  }

  // ---------------------------------------------------------------- fixed notation

  function Least(a: int, b: int): int {
    if a < b then a else b
  }

  function Most(a: int, b: int): int {
    if a < b then b else a
  }

  function IntegerPart(s: string, point: int): string {
    if point <= 0 then "0"
    else if point <= |s| then s[..point]
    else s + Repeat('0', point - |s|)
  }

  function FractionPart(s: string, point: int, precision: nat): (r: string)
    ensures |r| == precision
  {
    var lead := Least(Most(-point, 0), precision);
    var start := Most(point, 0);
    var n := Least(Most(|s| - start, 0), precision - lead);
    Repeat('0', lead) + (if n > 0 then s[start..start + n] else "") + Repeat('0', precision - lead - n)
  }

  function FixedText(s: string, point: int, precision: nat, alternate: bool): string {
    Pointed(IntegerPart(s, point), precision > 0 || alternate, FractionPart(s, point, precision))
  }

  /** When every digit fits, the digits of the text are the digits of the number and zeros. */
  lemma FixedDigits(s: string, point: int, precision: nat)
    requires |s| - point <= precision && s != ""
    ensures IntegerPart(s, point) + FractionPart(s, point, precision)
         == Repeat('0', Most(1 - point, 0)) + s + Repeat('0', precision - (|s| - point))
  {
    var a, b := IntegerPart(s, point), FractionPart(s, point, precision);
    if point <= 0 {
      assert s[0..|s|] == s;
      assert a == "0" && b == Repeat('0', -point) + s + Repeat('0', precision - (|s| - point));
      assert "0" + Repeat('0', -point) == Repeat('0', 1 - point);
    } else if point < |s| {
      assert s[..point] + s[point..point + (|s| - point)] == s;
    } else {
      assert Repeat('0', point - |s|) + Repeat('0', precision) == Repeat('0', precision - (|s| - point));
      assert point == |s| ==> s[..point] == s && Repeat('0', point - |s|) == "";
    }
  }

  lemma FixedDecimals(s: string, point: int, precision: nat)
    requires Decimals(s) && s != ""
    ensures Decimals(IntegerPart(s, point)) && IntegerPart(s, point) != ""
    ensures Decimals(FractionPart(s, point, precision))
  {
  }

  /** Digits surrounded by zeros. */
  lemma PaddedValue(j: nat, s: string, k: nat)
    requires IsDigits(10, s)
    ensures IsDigits(10, Repeat('0', j) + s + Repeat('0', k))
    ensures Horner(10, Repeat('0', j) + s + Repeat('0', k)) == Horner(10, s) * Pow(10, k)
  {
    hide Horner, Shifted, IsDigits, Pow;
    HornerLeadingZeros(10, j, s);
    HornerPadded(10, Repeat('0', j) + s, k);
    ShiftedProduct(10, Horner(10, s), k);
  }

  /** %f text denotes its digits times a power of ten, counted in units of 10^-precision. */
  lemma FixedReads(sign: string, negative: bool, s: string, point: int, precision: nat, alternate: bool)
    requires Decimals(s) && IsDigits(10, s) && s != "" && |s| - point <= precision && SignText(negative, sign)
    ensures var t := sign + FixedText(s, point, precision, alternate);
      Read(t) == Number(negative, false, Horner(10, s) * Pow(10, precision - (|s| - point)), -(precision as int), |t|)
  {
    hide Horner, Read, IntegerPart, FractionPart, Pow, Decimals, IsDigits;
    var a, b := IntegerPart(s, point), FractionPart(s, point, precision);
    var dot := precision > 0 || alternate;
    var t := sign + FixedText(s, point, precision, alternate);
    assert t == sign + "" + Pointed(a, dot, b);
    FixedDecimals(s, point, precision);
    DecimalsAreDigits(a);
    DecimalsAreDigits(b);
    FixedDigits(s, point, precision);
    PaddedValue(Most(1 - point, 0), s, precision - (|s| - point));
    TextReads(t, sign, negative, "", a, dot, b, 0);
  }

  // ---------------------------------------------------------------- scientific notation

  function ScientificFraction(s: string, precision: nat): (r: string)
    requires s != ""
    ensures |r| == precision
  {
    var n := Least(|s| - 1, precision);
    s[1..1 + n] + Repeat('0', precision - n)
  }

  function ScientificText(s: string, point: int, precision: nat, alternate: bool, upper: bool): string
    requires s != ""
  {
    Pointed(s[..1], precision > 0 || alternate, ScientificFraction(s, precision))
    + ExponentText(point - 1, false, upper)
  }

  /** %e text denotes its digits times a power of ten, counted in units of its last digit. */
  lemma ScientificReads(sign: string, negative: bool, s: string, point: int, precision: nat, alternate: bool, upper: bool)
    requires Decimals(s) && IsDigits(10, s) && s != "" && |s| - 1 <= precision && SignText(negative, sign)
    ensures var t := sign + ScientificText(s, point, precision, alternate, upper);
      Read(t) == Number(negative, false, Horner(10, s) * Pow(10, precision - (|s| - 1)), point - 1 - precision, |t|)
  {
    hide Horner, Read, Pow, ExponentText;
    var a, b := s[..1], ScientificFraction(s, precision);
    var dot := precision > 0 || alternate;
    var t := sign + ScientificText(s, point, precision, alternate, upper);
    var p := Pointed(a, dot, b);
    var x := ExponentText(point - 1, false, upper);
    assert t == sign + "" + p + x;
    assert t[|sign + "" + p|..] == x;
    assert a + b == Repeat('0', 0) + s + Repeat('0', precision - (|s| - 1));
    PaddedValue(0, s, precision - (|s| - 1));
    TextReads(t, sign, negative, "", a, dot, b, point - 1);
  }
}
