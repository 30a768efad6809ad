/** The arithmetic behind runtime/decimal/parse.c: dropped digits, magnitude limits, the binary
    exponent and the jammed significand of an exact ratio. */
module ParseMath {
  import opened Powers
  import opened Numeral

  const CD_DIGITS: nat := 1200

  // ---------------------------------------------------------------- digits kept and dropped

  /** num has exactly kept digits. */
  ghost predicate HasDigits(base: nat, num: nat, kept: nat) {
    if kept == 0 then num == 0 else Pow(base, kept - 1) <= num < Pow(base, kept)
  }

  /** tail is the number formed by the dropped digits. */
  ghost predicate Tail(base: nat, mantissa: nat, num: nat, dropped: nat, tail: nat) {
    tail < Pow(base, dropped) && mantissa == num * Pow(base, dropped) + tail
  }

  /** What the digit loop knows of the whole digit string from the part it keeps. */
  ghost predicate Scanned(base: nat, mantissa: nat, num: nat, kept: nat, dropped: nat, sticky: bool) {
    && HasDigits(base, num, kept) && kept <= CD_DIGITS && (dropped > 0 ==> kept == CD_DIGITS)
    && exists tail: nat :: Tail(base, mantissa, num, dropped, tail) && (sticky <==> tail > 0)
  }

  lemma ScannedKeep(base: nat, mantissa: nat, num: nat, kept: nat, v: nat)
    requires (base == 10 || base == 16) && v < base && Scanned(base, mantissa, num, kept, 0, false) && kept < CD_DIGITS
    requires kept > 0 || v > 0
    ensures Scanned(base, Append(base, mantissa, v), num * base + v, kept + 1, 0, false)
  {
    assert mantissa == num;
    AppendProduct(base, mantissa, v);
    if kept > 0 {
      MulMono(base, Pow(base, kept - 1), num);
      MulMono(base, num + 1, Pow(base, kept));
      MulAdd(base, num, 1);
    }
    assert Tail(base, mantissa * base + v, num * base + v, 0, 0);
  }

  lemma ScannedDrop(base: nat, mantissa: nat, num: nat, dropped: nat, sticky: bool, v: nat)
    requires (base == 10 || base == 16) && v < base && Scanned(base, mantissa, num, CD_DIGITS, dropped, sticky)
    ensures Scanned(base, Append(base, mantissa, v), num, CD_DIGITS, dropped + 1, sticky || v > 0)
  {
    var tail: nat :| Tail(base, mantissa, num, dropped, tail) && (sticky <==> tail > 0);
    DropTail(base, mantissa, num, dropped, tail, v);
    AppendProduct(base, mantissa, v);
  }

  lemma DropTail(base: nat, mantissa: nat, num: nat, dropped: nat, tail: nat, v: nat)
    requires base >= 2 && v < base && Tail(base, mantissa, num, dropped, tail)
    ensures Tail(base, mantissa * base + v, num, dropped + 1, tail * base + v)
    ensures tail * base + v > 0 <==> tail > 0 || v > 0
  {
    var t := Pow(base, dropped);
    assert tail * base + v < base * t by {
      MulMono(base, tail + 1, t);
      MulAdd(base, tail, 1);
    }
    DropDigit(base, num, t, tail);
    assert Pow(base, dropped + 1) == base * t;
    if tail > 0 {
      MulMono(base, 1, tail);
    }
  }

  lemma DropDigit(base: nat, num: nat, t: nat, tail: nat)
    ensures (num * t + tail) * base == num * (base * t) + tail * base
  {
  }

  lemma ScannedCases(base: nat, mantissa: nat, num: nat, kept: nat, dropped: nat, sticky: bool)
    requires base > 0 && Scanned(base, mantissa, num, kept, dropped, sticky)
    ensures HasDigits(base, num, kept) && kept <= CD_DIGITS
    ensures kept < CD_DIGITS ==> dropped == 0 && !sticky
    ensures kept == 0 ==> num == 0 && mantissa == 0
    ensures mantissa == 0 <==> num == 0
  {
    var tail: nat :| Tail(base, mantissa, num, dropped, tail) && (sticky <==> tail > 0);
    if num > 0 {
      MulMono(Pow(base, dropped), 1, num);
    } else if kept > 0 {
      PowPos(base, kept - 1);
    }
  }

  lemma ScannedStart(base: nat)
    ensures Scanned(base, 0, 0, 0, 0, false)
  {
    assert Tail(base, 0, 0, 0, 0);
  }

  lemma KeptBound(base: nat, num: nat, kept: nat)
    requires 2 <= base <= 16 && HasDigits(base, num, kept) && kept <= CD_DIGITS
    ensures num < Pow2(4 * kept)
    ensures kept > 0 ==> num > 0
  {
    PowBaseMono(base, 16, kept);
    PowMul(2, 4, kept);
    assert Pow(2, 4) == 16;
    if kept > 0 {
      PowPos(base, kept - 1);
    }
  }
}
