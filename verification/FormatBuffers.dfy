/** The numeric emitters of runtime/decimal/format.c: an output record, a decimal digit buffer
    rounded in place, and the texts written from it. */
module FormatBuffers {
  import opened Numeral
  import opened DigitText
  import opened NumberText
  import opened DecimalLayout

  /** Counts everything written; stores what fits, leaving room for the terminator. */
  class CdOutput {
    const data: array<char>
    const size: nat
    var count: nat
    ghost var full: string

    ghost predicate Valid()
      reads this, data
    {
      && size <= data.Length && count == |full|
      && forall i :: 0 <= i < |full| && i + 1 < size ==> data[i] == full[i]
    }

    constructor (data: array<char>, size: nat)
      requires size <= data.Length
      ensures Valid() && full == "" && this.data == data && this.size == size
    {
      this.data, this.size := data, size;
      count, full := 0, "";
    }

    method Put(c: char)
      requires Valid()
      modifies this`count, this`full, data
      ensures Valid() && full == old(full) + [c]
    {
      if count + 1 < size {
        data[count] := c;
      }
      count := count + 1;
      full := full + [c];
    }

    /** Writes what there is room for and counts the rest. */
    method Repeat(c: char, n: int)
      requires Valid()
      modifies this`count, this`full, data
      ensures Valid() && full == old(full) + DigitText.Repeat(c, Most(n, 0))
    {
      if n <= 0 {
        assert DigitText.Repeat(c, 0) == "";
        return;
      }
      var room := if count < size then size - 1 - count else 0;
      var emit := if n > room then room else n;
      var left := n;
      while emit > 0
        invariant Valid() && 0 <= emit <= left <= n
        invariant full == old(full) + DigitText.Repeat(c, n - left)
        invariant left > emit ==> count + emit + 1 >= size
      {
        Put(c);
        assert DigitText.Repeat(c, n - left + 1) == DigitText.Repeat(c, n - left) + [c];
        emit, left := emit - 1, left - 1;
      }
      full := full + DigitText.Repeat(c, left);
      count := count + left;
      assert DigitText.Repeat(c, n - left) + DigitText.Repeat(c, left) == DigitText.Repeat(c, n);
    }

    method Str(s: string)
      requires Valid()
      modifies this`count, this`full, data
      ensures Valid() && full == old(full) + s
    {
      for i := 0 to |s|
        invariant Valid() && full == old(full) + s[..i]
      {
        Put(s[i]);
        assert s[..i + 1] == s[..i] + [s[i]];
      }
    }

    /** The exponent, its digits produced from the last. */
    method ExpOut(exponent: int, hex: bool, upper: bool)
      requires Valid()
      modifies this`count, this`full, data
      ensures Valid() && full == old(full) + ExponentText(exponent, hex, upper)
    {
      hide ExponentDigits, Reverse;
      Put(if hex then (if upper then 'P' else 'p') else if upper then 'E' else 'e');
      Put(if exponent < 0 then '-' else '+');
      var digits := LowDigits(Magnitude(exponent), hex);
      PutReversed(digits);
    }

    method PutReversed(digits: string)
      requires Valid()
      modifies this`count, this`full, data
      ensures Valid() && full == old(full) + Reverse(digits)
    {
      assert digits[..|digits|] == digits;
      var n := |digits|;
      while n > 0
        invariant 0 <= n <= |digits| && Valid()
        invariant full + Reverse(digits[..n]) == old(full) + Reverse(digits)
      {
        n := n - 1;
        assert digits[..n + 1][..n] == digits[..n];
        Put(digits[n]);
      }
    }
  }

  /** The digits of an exponent, last first. */
  method LowDigits(magnitude0: nat, hex: bool) returns (digits: string)
    ensures Reverse(digits) == ExponentDigits(magnitude0, hex)
  {
    hide Decimal, ExponentDigits, IsDigits;
    var magnitude := magnitude0;
    digits := [DigitChar(magnitude % 10)];
    LowTurn(magnitude, "");
    assert "" + digits == digits && Reverse("") == "";
    magnitude := magnitude / 10;
    while magnitude > 0
      invariant digits != "" && Decimal(magnitude) + Reverse(digits) == LeastDigits(magnitude0)
    {
      LowTurn(magnitude, digits);
      digits := digits + [DigitChar(magnitude % 10)];
      magnitude := magnitude / 10;
    }
    PadTurn(magnitude0, digits, hex);
    if !hex && |digits| < 2 {
      digits := digits + "0";
    }
  }

  lemma LowTurn(m: nat, digits: string)
    ensures Decimal(m / 10) + Reverse(digits + [DigitChar(m % 10)])
         == (if m == 0 then "0" else Decimal(m)) + Reverse(digits)
  {
    hide IsDecimal, DigitOf;
    var c := DigitChar(m % 10);
    ReverseSnoc(digits, c);
    if m > 0 {
      DecimalSnoc(m);
      Associate(Decimal(m / 10), [c], Reverse(digits));
    } else {
      assert Decimal(0) == "" && [c] == "0";
    }
  }

  lemma Associate(a: string, b: string, c: string)
    ensures a + (b + c) == (a + b) + c
  {
  }

  lemma DecimalSnoc(m: nat)
    requires m > 0
    ensures Decimal(m) == Decimal(m / 10) + [DigitChar(m % 10)]
  {
  }

  lemma ReverseSnoc(s: string, c: char)
    ensures Reverse(s + [c]) == [c] + Reverse(s)
  {
    assert (s + [c])[..|s|] == s;
  }

  lemma PadTurn(v: nat, digits: string, hex: bool)
    requires Decimal(0) + Reverse(digits) == LeastDigits(v)
    ensures Reverse(if !hex && |digits| < 2 then digits + "0" else digits) == ExponentDigits(v, hex)
  {
    ReverseLength(digits);
    assert (digits + "0")[..|digits|] == digits;
  }

  function Reverse(s: string): string {
    if s == "" then "" else [s[|s| - 1]] + Reverse(s[..|s| - 1])
  }

  lemma {:induction false} ReverseLength(s: string)
    ensures |Reverse(s)| == |s|
  {
    if s != "" {
      ReverseLength(s[..|s| - 1]);
    }
  }

  lemma {:induction false} ReverseAt(s: string, k: nat)
    requires k < |s|
    ensures |Reverse(s)| == |s| && Reverse(s)[k] == s[|s| - 1 - k]
  {
    ReverseLength(s);
    if k > 0 {
      ReverseAt(s[..|s| - 1], k - 1);
    }
  }

  /** The digits of a number, at least one. */
  function LeastDigits(v: nat): string {
    if v == 0 then "0" else Decimal(v)
  }
}
