/** Digit strings in base ten and sixteen: the numbers they spell, and how the reference grammar
    reads them back. */
module DigitText {
  import opened Powers
  import opened Numeral

  predicate Base(b: nat) {
    b == 10 || b == 16
  }

  predicate IsDigits(base: nat, s: string) {
    forall i :: 0 <= i < |s| ==> 0 <= DigitOf(s[i]) < base
  }

  /** The number a digit string spells. */
  function Horner(base: nat, s: string): nat
    requires Base(base) && IsDigits(base, s)
  {
    if s == "" then 0 else Append(base, Horner(base, s[..|s| - 1]), DigitOf(s[|s| - 1]))
  }

  function DigitChar(d: nat): (c: char)
    requires d < 10
    ensures IsDecimal(c) && DigitOf(c) == d
  {
    ('0' as int + d) as char
  }

  /** A number in base ten without leading zeros; empty for zero. */
  function Decimal(v: nat): (s: string)
    ensures forall i :: 0 <= i < |s| ==> IsDecimal(s[i])
  {
    if v == 0 then "" else Decimal(v / 10) + [DigitChar(v % 10)]
  }

  lemma {:induction false} HornerDecimal(v: nat)
    ensures IsDigits(10, Decimal(v)) && Horner(10, Decimal(v)) == v
  {
    if v > 0 {
      HornerDecimal(v / 10);
      assert Decimal(v)[..|Decimal(v)| - 1] == Decimal(v / 10);
    }
  }

  lemma {:induction false} DecimalLeading(v: nat)
    requires v > 0
    ensures Decimal(v) != "" && Decimal(v)[0] != '0'
  {
    if v >= 10 {
      DecimalLeading(v / 10);
    } else {
      assert Decimal(v / 10) == "";
    }
  }

  lemma {:induction false} DecimalLength(v: nat, k: nat)
    requires v < Pow(10, k)
    ensures |Decimal(v)| <= k
  {
    if v > 0 {
      assert k > 0;
      DecimalLength(v / 10, k - 1);
    }
  }

  lemma HornerSnoc(base: nat, s: string, c: char)
    requires Base(base) && IsDigits(base, s) && 0 <= DigitOf(c) < base
    ensures IsDigits(base, s + [c]) && Horner(base, s + [c]) == Append(base, Horner(base, s), DigitOf(c))
  {
    assert (s + [c])[..|s|] == s;
  }

  /** h * base^k + t, by appending zeros. */
  function Shifted(base: nat, h: nat, k: nat): nat
    requires Base(base)
  {
    if k == 0 then h else Append(base, Shifted(base, h, k - 1), 0)
  }

  lemma {:induction false} ShiftedProduct(base: nat, h: nat, k: nat)
    requires Base(base)
    ensures Shifted(base, h, k) == h * Pow(base, k)
  {
    if k > 0 {
      ShiftedProduct(base, h, k - 1);
      ProductStep(base, h, Pow(base, k - 1));
    }
  }

  lemma ProductStep(base: nat, h: nat, p: nat)
    ensures (h * p) * base == h * (base * p)
  {
  }

  lemma {:induction false} ShiftedZero(base: nat, k: nat)
    requires Base(base)
    ensures Shifted(base, 0, k) == 0
  {
    if k > 0 {
      ShiftedZero(base, k - 1);
    }
  }

  lemma {:induction false} ShiftedAppend(base: nat, h: nat, v: nat, k: nat)
    requires Base(base)
    ensures Shifted(base, Append(base, h, v), k) == Shifted(base, h, k + 1) + Shifted(base, v, k)
  {
    if k > 0 {
      ShiftedAppend(base, h, v, k - 1);
    }
  }

  lemma {:induction false} HornerConcat(base: nat, s: string, t: string)
    requires Base(base) && IsDigits(base, s) && IsDigits(base, t)
    ensures IsDigits(base, s + t)
    ensures Horner(base, s + t) == Shifted(base, Horner(base, s), |t|) + Horner(base, t)
    decreases |t|
  {
    if t == "" {
      assert s + t == s;
    } else {
      var t', c := t[..|t| - 1], t[|t| - 1];
      HornerConcat(base, s, t');
      assert s + t == (s + t') + [c];
      HornerSnoc(base, s + t', c);
      assert t == t' + [c];
    }
  }

  lemma {:induction false} HornerBound(base: nat, s: string)
    requires Base(base) && IsDigits(base, s)
    ensures Horner(base, s) < Pow(base, |s|)
  {
    if s != "" {
      HornerBound(base, s[..|s| - 1]);
      BoundStep(base, Horner(base, s[..|s| - 1]), Pow(base, |s| - 1));
    }
  }

  lemma BoundStep(base: nat, h: nat, p: nat)
    requires h < p
    ensures h * base + base <= base * p
  {
    MulMono(base, h + 1, p);
  }

  function Repeat(c: char, k: nat): (s: string)
    ensures |s| == k && forall i :: 0 <= i < k ==> s[i] == c
  {
    seq(k, _ => c)
  }

  lemma {:induction false} HornerZeros(base: nat, k: nat)
    requires Base(base)
    ensures IsDigits(base, Repeat('0', k)) && Horner(base, Repeat('0', k)) == 0
  {
    if k > 0 {
      HornerZeros(base, k - 1);
      assert Repeat('0', k)[..k - 1] == Repeat('0', k - 1);
    }
  }

  lemma HornerPadded(base: nat, s: string, k: nat)
    requires Base(base) && IsDigits(base, s)
    ensures IsDigits(base, s + Repeat('0', k))
    ensures Horner(base, s + Repeat('0', k)) == Shifted(base, Horner(base, s), k)
  {
    HornerZeros(base, k);
    HornerConcat(base, s, Repeat('0', k));
  }

  lemma HornerLeadingZeros(base: nat, k: nat, s: string)
    requires Base(base) && IsDigits(base, s)
    ensures IsDigits(base, Repeat('0', k) + s) && Horner(base, Repeat('0', k) + s) == Horner(base, s)
  {
    HornerZeros(base, k);
    HornerConcat(base, Repeat('0', k), s);
    ShiftedZero(base, |s|);
  }

  // ---------------------------------------------------------------- reading digits back

  /** The digit state after a run of digits. */
  function Ran(base: nat, d: Digits, t: string): Digits
    requires Base(base) && IsDigits(base, t)
  {
    Digits(Shifted(base, d.mantissa, |t|) + Horner(base, t), if d.dot then d.places + |t| else d.places,
           d.seen || t != "", d.dot, d.end + |t|)
  }

  /** Taking the first digit of a run into the running number. */
  lemma AppendFirst(base: nat, h: nat, t: string)
    requires Base(base) && IsDigits(base, t) && t != ""
    ensures Shifted(base, Append(base, h, DigitOf(t[0])), |t| - 1) + Horner(base, t[1..])
         == Shifted(base, h, |t|) + Horner(base, t)
  {
    var v, rest := DigitOf(t[0]), t[1..];
    assert t == [t[0]] + rest && Horner(base, [t[0]]) == v by {
      assert [t[0]][..0] == "";
    }
    HornerConcat(base, [t[0]], rest);
    ShiftedAppend(base, h, v, |rest|);
  }

  lemma RanStep(base: nat, d: Digits, t: string)
    requires Base(base) && IsDigits(base, t) && t != ""
    ensures Ran(base, PushDigit(base, d, DigitOf(t[0])), t[1..]) == Ran(base, d, t)
  {
    hide Shifted, Horner;
    AppendFirst(base, d.mantissa, t);
  }

  /** Reading a run of digits. */
  lemma {:induction false} ReadRun(s: string, base: nat, t: string, d: Digits)
    requires Base(base) && IsDigits(base, t) && d.end + |t| <= |s| && s[d.end..d.end + |t|] == t
    ensures ReadDigits(s, base, d) == ReadDigits(s, base, Ran(base, d, t))
    decreases |t|
  {
    if t == "" {
      assert Ran(base, d, t) == d;
    } else {
      assert s[d.end] == t[0];
      var next := PushDigit(base, d, DigitOf(t[0]));
      assert s[next.end..next.end + |t[1..]|] == t[1..];
      ReadRun(s, base, t[1..], next);
      RanStep(base, d, t);
    }
  }

  /** A run of decimal digits as an exponent. */
  lemma {:induction false} ReadIntegerRun(s: string, i: nat, t: string, v: nat)
    requires i + |t| <= |s| && s[i..i + |t|] == t && IsDigits(10, t)
    requires !IsDecimal(At(s, i + |t|))
    ensures ReadInteger(s, i, v) == (Shifted(10, v, |t|) + Horner(10, t), i + |t|)
    decreases |t|
  {
    if t != "" {
      var c, rest := t[0], t[1..];
      assert s[i] == c && s[i + 1..i + 1 + |rest|] == rest;
      ReadIntegerRun(s, i + 1, rest, v * 10 + DigitOf(c));
      AppendFirst(10, v, t);
    }
  }
}
