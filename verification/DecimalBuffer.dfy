/** The decimal digit buffer of runtime/decimal/format.c. */
module DecimalBuffer {
  import opened Powers
  import opened Numeral
  import opened DigitText
  import opened Rounding
  import opened DecimalRounding
  import opened DecimalLayout
  import opened HexLayout
  import opened ExactDecimal
  import opened BigInt
  import opened Limbs
  import opened FormatBuffers
  import opened DecimalSteps

  class CdDecimal {
    const digits: array<char>
    var n: nat
    var point: int

    ghost predicate Shaped()
      reads this
    {
      digits.Length == MAX_DIGITS && n <= MAX_DIGITS
    }

    ghost predicate Valid()
      reads this, digits
    {
      && Shaped() && n > 0 && Decimals(digits[..n])
      && (digits[0] == '0' ==> n == 1 && point == 1)
    }

    ghost function Text(): (s: string)
      requires Shaped()
      reads this, digits
    {
      digits[..n]
    }

    constructor ()
      ensures Shaped() && fresh(digits)
    {
      digits := new char[MAX_DIGITS];
      n, point := 0, 0;
    }

    /** cd_exact: the digits of a finite number, whatever its sign. */
    method Exact(magnitude: nat)
      requires Shaped() && Finite(magnitude)
      modifies this`n, this`point, digits
      ensures Valid() && IsDigits(10, Text()) && Exactly(Text(), point, magnitude)
    {
      hide Decimal, Exactly, Scale, Unit, Pow, IsDigits, DigitOf;
      var sig, exp: int := FractionOf(magnitude), FieldOf(magnitude);
      if exp > 0 {
        sig := sig + FRACTION_LIMIT;
        exp := exp - 1075;
      } else {
        exp := -1074;
      }
      if sig == 0 {
        digits[0] := '0';
        n, point := 1, 1;
        ExactZero(magnitude);
        assert Text() == "0";
        return;
      }
      ExpandedPositive(magnitude);
      var a := new CdBig();
      a.U64(sig);
      ExpandedBound(magnitude);
      BufferCapacity();
      if exp >= 0 {
        a.Shift(exp);
      } else {
        SignificandBound(magnitude);
        TimesFive(a, -exp);
      }
      TakeDigits(a);
      ExactDigits(magnitude);
      point := n + if exp < 0 then exp else 0;
    }

    /** The decimal digits of a big integer, by repeated division. */
    method TakeDigits(a: CdBig)
      requires Shaped() && a.Valid() && 0 < a.Value() < Pow(10, MAX_DIGITS)
      modifies this`n, digits, a`n, a.w
      ensures Shaped() && Text() == Decimal(old(a.Value()))
    {
      hide Pow, Decimal, Reverse, Val, Trimmed;
      ghost var v := a.Value();
      DecimalLength(v, MAX_DIGITS);
      var reverse := new char[MAX_DIGITS];
      n := 0;
      var empty := a.Empty();
      ReverseStart(reverse[..0], v);
      while !empty
        invariant Shaped() && a.Valid() && (empty <==> a.Value() == 0)
        invariant Spelled(v, a.Value(), reverse[..n])
        decreases a.Value()
      {
        SpelledRoom(v, a.Value(), reverse[..n]);
        SpelledTurn(v, a.Value(), reverse[..n]);
        var rem := a.DivSmall(10);
        reverse[n] := DigitChar(rem);
        assert reverse[..n + 1] == reverse[..n] + [DigitChar(rem)];
        n := n + 1;
        empty := a.Empty();
      }
      SpelledAll(v, reverse[..n]);
      ghost var last := reverse[..n];
      for i := 0 to n
        invariant Shaped() && n == |last| == |Reverse(last)| && reverse[..n] == last
        invariant digits[..i] == Reverse(last)[..i]
      {
        ReverseAt(last, i);
        digits[i] := reverse[n - 1 - i];
        assert digits[..i + 1] == digits[..i] + [digits[i]];
      }
    }

    /** cd_round: the nearest number with `keep` digits in the given mode. */
    method Round(keep: int, negative: bool, mode: Mode)
      requires Valid() && IsDigits(10, Text()) && (keep < 0 ==> digits[0] != '0')
      modifies this`n, this`point, digits
      ensures Valid() && IsDigits(10, Text())
      ensures keep >= old(n) ==> Text() == old(Text()) && point == old(point)
      ensures keep < old(n) ==> n == Most(keep, 1)
      ensures keep > 0 ==> point >= old(point)
      ensures keep < old(n) ==>
        Stands(Horner(10, Text()), point - n, Target(10, old(Text()), keep, negative, mode), old(point) - keep)
    {
      hide Horner, Target, Stands, Increment, Decimals, IsDigits, AnyNonzero, Bump;
      if keep >= n {
        return;
      }
      ghost var s := Text();
      var first, rest, odd := 0, true, false;
      if keep >= 0 {
        DigitsAt(s, keep);
        first := DigitOf(digits[keep]);
        rest := RestAfter(keep);
        if keep > 0 {
          DigitsAt(s, keep - 1);
          odd := DigitOf(digits[keep - 1]) % 2 == 1;
        }
      }
      var inc := Increment(negative, mode, 5, first, rest, odd);
      DecisionCorrect(10, s, keep, negative, mode, first, rest, odd);
      if keep <= 0 {
        HornerEmpty(10);
        digits[0] := if inc then '1' else '0';
        n, point := 1, if inc then point - keep + 1 else 1;
        assert Text() == [digits[0]];
        NoDigitKept(s, keep, negative, mode, inc, old(point));
        return;
      }
      n := keep;
      assert digits[..keep] == s[..keep] && digits[0] == s[0];
      PrefixDecimals(s, keep);
      if !inc {
        KeptStands(Horner(10, s[..keep]), old(point) - keep);
        return;
      }
      var overflow := CarryInto(keep);
      FirstOfPrefix(s, keep);
      if overflow {
        digits[0] := '1';
        point := point + 1;
        CarryOut(s[..keep], old(point) - keep);
        assert Text() == "1" + DigitText.Repeat('0', keep - 1);
      } else {
        CarryIn(s[..keep], old(point) - keep);
      }
    }

    method RestAfter(keep: nat) returns (rest: bool)
      requires Valid() && keep < n
      ensures rest <==> AnyNonzero(Text()[keep + 1..])
    {
      rest := false;
      ghost var tail := Text()[keep + 1..];
      for i := keep + 1 to n
        invariant rest <==> exists k :: 0 <= k < i - keep - 1 && tail[k] != '0'
      {
        assert tail[i - keep - 1] == digits[i];
        if digits[i] != '0' {
          rest := true;
        }
      }
    }

    /** Adds one to the last of the first `keep` digits; true when the carry left the first. */
    method CarryInto(keep: nat) returns (overflow: bool)
      requires Shaped() && n == keep > 0 && Decimals(Text())
      modifies digits
      ensures Shaped() && (Text(), overflow) == old(Bump(Text()))
    {
      hide Decimals, Bump, Carried, DigitOf;
      ghost var s := Text();
      CarriedStart(s);
      var i: int := keep - 1;
      assert s[..keep] == s && DigitText.Repeat('0', 0) == "";
      while i >= 0 && digits[i] == '9'
        invariant -1 <= i < keep == |s| && Shaped() && n == keep
        invariant digits[..i + 1] == s[..i + 1]
        invariant Carried(s, i + 1) && digits[i + 1..keep] == DigitText.Repeat('0', keep - 1 - i)
      {
        assert s[i] == '9' by {
          assert digits[..i + 1][i] == s[..i + 1][i];
        }
        CarriedTurn(s, i + 1);
        digits[i] := '0';
        assert digits[i..keep] == ['0'] + digits[i + 1..keep];
        assert ['0'] + DigitText.Repeat('0', keep - 1 - i) == DigitText.Repeat('0', keep - i);
        assert digits[..i] == s[..i];
        i := i - 1;
      }
      overflow := i < 0;
      CarriedEnd(s, i + 1);
      if i >= 0 {
        assert digits[..i + 1][i] == s[..i + 1][i];
        DigitsAt(s, i);
        digits[i] := digits[i] + 1 as char;
        assert digits[..i] == s[..i];
        assert digits[..keep] == digits[..i] + [digits[i]] + digits[i + 1..keep];
      } else {
        assert digits[..keep] == digits[0..keep];
      }
    }
  }

  /** Multiplies by five `count` times. */
  method TimesFive(a: CdBig, count: nat)
    requires a.Valid() && a.Value() < Pow(10, 53) && count <= SUBNORMAL
    modifies a`n, a.w
    ensures a.Valid() && a.Value() == old(a.Value()) * Pow(5, count)
  {
    hide Pow;
    PowZero(5);
    for i := 0 to count
      invariant a.Valid() && a.Value() == old(a.Value()) * Pow(5, i)
    {
      FivesTurn(old(a.Value()), i);
      FivesFit(old(a.Value()), i + 1);
      a.Mul(5);
    }
  }
}
