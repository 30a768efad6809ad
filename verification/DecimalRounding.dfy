/** Rounding a number to an integer, and rounding a decimal digit string in place. */
module DecimalRounding {
  import opened Powers
  import opened Numeral
  import opened DigitText
  import opened Rounding

  // ---------------------------------------------------------------- the decision digit by digit

  /** cd_increment: whether the digits dropped after `first` push the number up. */
  predicate Increment(negative: bool, mode: Mode, middle: nat, first: nat, rest: bool, odd: bool) {
    if first == 0 && !rest then false
    else match mode
      case Upward => !negative
      case Downward => negative
      case TowardZero => false
      case NearestEven => first > middle || (first == middle && (rest || odd))
  }

  /** The decision from one digit and what follows it is correct rounding. */
  lemma IncrementIsPick(mode: Mode, negative: bool, half: nat, q: nat, first: nat, u: nat, p: nat)
    requires half > 0 && p > 0 && first < 2 * half && u < p
    ensures IntegerPick(mode, negative, q * (2 * half * p) + (first * p + u), 2 * half * p)
         == if Increment(negative, mode, half, first, u > 0, q % 2 == 1) then q + 1 else q
  {
    var d, r := 2 * half * p, first * p + u;
    TailCompare(half, first, u, p);
    PickFromParts(mode, negative, q, d, r);
  }

  lemma TailCompare(half: nat, first: nat, u: nat, p: nat)
    requires half > 0 && p > 0 && first < 2 * half && u < p
    ensures var d, r := 2 * half * p, first * p + u;
      && d > 0 && r < d && (r == 0 <==> first == 0 && u == 0)
      && (2 * r < d <==> first < half) && (2 * r == d <==> first == half && u == 0)
  {
    assert 2 * half * p == 2 * (p * half) && first * p == p * first;
    MulStrictMono(p, 0, half);
    MulMono(p, 0, first);
    if first > 0 {
      MulMono(p, 1, first);
    }
    MulMono(p, first + 1, 2 * half);
    if first < half {
      MulMono(p, first + 1, half);
    } else if first > half {
      MulMono(p, half + 1, first);
    }
  }

  lemma PickFromParts(mode: Mode, negative: bool, q: nat, d: nat, r: nat)
    requires d > 0 && r < d
    ensures IntegerPick(mode, negative, q * d + r, d)
         == if r == 0 then q
            else match mode
              case TowardZero => q
              case Upward => if negative then q else q + 1
              case Downward => if negative then q + 1 else q
              case NearestEven =>
                if 2 * r < d then q else if 2 * r > d then q + 1 else if q % 2 == 0 then q else q + 1
  {
    DivUnique(q * d + r, d, q, r);
  }

  // ---------------------------------------------------------------- the carry

  /** Adding one to the last digit, with the carry out of the first. */
  function Bump(s: string): (r: (string, bool))
    ensures |r.0| == |s|
  {
    if s == "" then ("", true)
    else
      var front, last := s[..|s| - 1], s[|s| - 1];
      if last == '9' then (Bump(front).0 + "0", Bump(front).1)
      else if last < '9' then (front + [last + 1 as char], false)
      else (s, false)
  }

  lemma {:induction false} BumpValue(s: string)
    requires IsDigits(10, s) && forall i :: 0 <= i < |s| ==> IsDecimal(s[i])
    ensures forall i :: 0 <= i < |s| ==> IsDecimal(Bump(s).0[i])
    ensures IsDigits(10, Bump(s).0)
    ensures Horner(10, Bump(s).0) + (if Bump(s).1 then Pow(10, |s|) else 0) == Horner(10, s) + 1
    ensures Bump(s).1 ==> Bump(s).0 == Repeat('0', |s|)
  {
    if s != "" {
      var front, last := s[..|s| - 1], s[|s| - 1];
      if last == '9' {
        BumpValue(front);
        HornerSnoc(10, Bump(front).0, '0');
      } else {
        HornerSnoc(10, front, last + 1 as char);
      }
    }
  }

  /** The first digit does not become zero unless the carry leaves the string. */
  lemma {:induction false} BumpLeading(s: string)
    requires s != "" && s[0] != '0' && forall i :: 0 <= i < |s| ==> IsDecimal(s[i])
    ensures !Bump(s).1 ==> Bump(s).0[0] != '0'
  {
    if |s| > 1 {
      var front := s[..|s| - 1];
      BumpLeading(front);
      assert Bump(s).0[0] == if s[|s| - 1] == '9' then Bump(front).0[0] else front[0];
    } else {
      assert s[..0] == "";
    }
  }

  lemma {:induction false} HornerOne(k: nat)
    ensures IsDigits(10, "1" + Repeat('0', k)) && Horner(10, "1" + Repeat('0', k)) == Pow(10, k)
  {
    assert "1"[..0] == "";
    assert Horner(10, "1") == 1;
    HornerPadded(10, "1", k);
    ShiftedProduct(10, 1, k);
  }
}
