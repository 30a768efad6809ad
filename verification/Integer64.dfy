/** 64-bit arithmetic on pairs of 32-bit words: runtime/primitives.c and runtime/integer64.c. */
module Integer64 {
  import opened Powers
  import opened SoftFloat
  import opened Words
  import opened WordSteps

  /** One place to the left: the words with a bit shifted in, and the bit shifted out. */
  method ShiftLeftOne(w: Words64, bit: nat) returns (carry: nat, r: Words64)
    requires Valid(w) && bit < 2
    ensures Valid(r) && carry < 2 && carry * W64 + Value(r) == 2 * Value(w) + bit
  {
    hide Or;
    ShiftIn(w, bit);
    carry := w.high / HALF32;
    r := Words64(Or(w.low * 2 % W32, bit), Or(w.high * 2 % W32, w.low / HALF32));
  }

  method Add(a: Words64, b: Words64) returns (r: Words64)
    requires Valid(a) && Valid(b) && Value(a) + Value(b) < W64
    ensures Valid(r) && Value(r) == Value(a) + Value(b)
  {
    AddWords(a, b);
    var low := (a.low + b.low) % W32;
    r := Words64(low, (a.high + b.high + if low < a.low then 1 else 0) % W32);
  }

  method Subtract(a: Words64, b: Words64) returns (r: Words64)
    requires Valid(a) && Valid(b)
    ensures Valid(r) && Value(r) == if Value(a) >= Value(b) then Value(a) - Value(b) else Value(a) - Value(b) + W64
  {
    SubtractWords(a, b);
    var borrow := if a.low < b.low then 1 else 0;
    r := Words64((a.low - b.low) % W32, (a.high - b.high - borrow) % W32);
  }

  /** cosmic_mul32_wide: the full product, by shifting and adding. */
  method Mul32Wide(a0: nat, b0: nat) returns (out: Words64)
    requires a0 < W32 && b0 < W32
    ensures Valid(out) && Value(out) == a0 * b0
  {
    var r, a := Words64(0, 0), Words64(a0, 0);
    var b: nat := b0;
    ghost var i: nat := 0;
    hide Value, Valid, Scale;
    WordValue(a0);
    while b != 0
      invariant Valid(r) && Valid(a) && b < W32 && Multiplying(a0, b0, Value(r), Value(a), b, i)
      decreases b
    {
      MulTurn(a0, b0, Value(r), Value(a), b, i);
      if b % 2 != 0 {
        r := Add(r, a);
      }
      var carry;
      carry, a := ShiftLeftOne(a, 0);
      b := b / 2;
      i := i + 1;
    }
    out := r;
  }

  /** cosmic_mul64: the product of two 64-bit numbers, without the bits that do not fit. */
  method Mul64(a: Words64, b: Words64) returns (out: Words64)
    requires Valid(a) && Valid(b)
    ensures Valid(out) && Value(out) == (Value(a) * Value(b)) % W64
  {
    var product := Mul32Wide(a.low, b.low);
    out := Words64(product.low, (product.high + a.high * b.low % W32 + a.low * b.high % W32) % W32);
    ProductWords(a, b, product, out);
  }

  /** One turn of restoring division; the carry is the 65th bit of the remainder. */
  method DivStep(n0: Words64, q0: Words64, r0: Words64, d: Words64, ghost numerator: nat, ghost i: nat)
    returns (n: Words64, q: Words64, r: Words64)
    requires Valid(n0) && Valid(q0) && Valid(r0) && Valid(d) && i < 64
    requires Restoring(numerator, Value(d), Value(n0), Value(q0), Value(r0), i)
    ensures Valid(n) && Valid(q) && Valid(r)
    ensures Restoring(numerator, Value(d), Value(n), Value(q), Value(r), i + 1)
  {
    hide Or, Restoring, Value;
    var bit, carry, lost;
    bit, n := ShiftLeftOne(n0, 0);
    DivTurn(numerator, Value(d), Value(n0), Value(q0), Value(r0), i, bit, Value(n));
    carry, r := ShiftLeftOne(r0, bit);
    lost, q := ShiftLeftOne(q0, 0);
    CompareWords(r, d);
    RemainderBelow(numerator, Value(d), Value(n0), Value(q0), Value(r0), i);
    var difference := Subtract(r, d);
    WideSubtract(2 * Value(r0) + bit, carry, Value(r), Value(d), Value(difference));
    if carry != 0 || r.high > d.high || (r.high == d.high && r.low >= d.low) {
      r := difference;
      EvenLow(q, Value(q0));
      OrSame(q.low);
      SetLow(q);
      q := q.(low := Or(q.low, 1));
    }
  }

  /** cosmic_udivmod64: restoring division; false for a zero divisor. */
  method UDivMod64(n0: Words64, d: Words64) returns (ok: bool, quotient: Words64, remainder: Words64)
    requires Valid(n0) && Valid(d)
    ensures ok <==> Value(d) != 0
    ensures ok ==> Valid(quotient) && Valid(remainder)
    ensures ok ==> Value(n0) == Value(quotient) * Value(d) + Value(remainder) && Value(remainder) < Value(d)
  {
    var q, r, n := Words64(0, 0), Words64(0, 0), n0;
    if Or(d.low, d.high) == 0 {
      OrNothing(d.low, d.high);
      return false, q, r;
    }
    OrNothing(d.low, d.high);
    DivStart(Value(n0), Value(d));
    for i := 0 to 64
      invariant Valid(n) && Valid(q) && Valid(r)
      invariant Restoring(Value(n0), Value(d), Value(n), Value(q), Value(r), i)
    {
      n, q, r := DivStep(n, q, r, d, Value(n0), i);
    }
    DivEnd(Value(n0), Value(d), Value(n), Value(q), Value(r));
    ok, quotient, remainder := true, q, r;
  }

  /** Two's complement negation of a pair of words. */
  method Negate(w: Words64) returns (r: Words64)
    requires Valid(w)
    ensures Valid(r) && Value(r) == Negated(Value(w))
  {
    NegateWords(w);
    var low := (W32 - 1 - w.low + 1) % W32;
    r := Words64(low, (W32 - 1 - w.high + if low == 0 then 1 else 0) % W32);
  }

  /** cosmic_sdivmod64: 1 for a zero divisor, 2 for the quotient that does not fit, otherwise 0 and
      division truncated toward zero. */
  method SDivMod64(n0: Words64, d0: Words64) returns (failure: nat, quotient: Words64, remainder: Words64)
    requires Valid(n0) && Valid(d0)
    ensures failure == if Value(d0) == 0 then 1 else if AsSigned(Value(n0)) == -(HALF64 as int) && AsSigned(Value(d0)) == -1 then 2 else 0
    ensures failure == 0 ==> Valid(quotient) && Valid(remainder)
    ensures failure == 0 ==>
      Truncates(AsSigned(Value(n0)), AsSigned(Value(d0)), AsSigned(Value(quotient)), AsSigned(Value(remainder)))
  {
    quotient, remainder := Words64(0, 0), Words64(0, 0);
    var nNegative, dNegative := n0.high / HALF32, d0.high / HALF32;
    OrNothing(d0.low, d0.high);
    if Or(d0.low, d0.high) == 0 {
      return 1, quotient, remainder;
    }
    if n0.low == 0 && n0.high == HALF32 && d0.low == 0xffff_ffff && d0.high == 0xffff_ffff {
      return 2, quotient, remainder;
    }
    var n, d := n0, d0;
    if nNegative != 0 {
      n := Negate(n);
    }
    if dNegative != 0 {
      d := Negate(d);
    }
    MagnitudeAbs(Value(n0));
    MagnitudeAbs(Value(d0));
    var ok, q, r := UDivMod64(n, d);
    SignedResult(Value(n0), Value(d0), Value(q), Value(r));
    if nNegative != dNegative {
      q := Negate(q);
    }
    if nNegative != 0 {
      r := Negate(r);
    }
    failure, quotient, remainder := 0, q, r;
  }

  /** cosmic_shift_right_jam64: the number shifted right with the bits shifted out jammed into the
      last place. */
  method ShiftRightJam64(v: Words64, distance: nat) returns (out: Words64)
    requires Valid(v)
    ensures Pow2(distance) > 0 && Valid(out) && Value(out) == Jam(Value(v), Pow2(distance))
  {
    hide Or, Pow;
    PowPos(2, distance);
    if distance == 0 {
      out := v;
      PowZero(2);
    } else if distance < 32 {
      JamSmall(v, distance);
      var back := Pow2(32 - distance);
      out := Words64(
        Or(Or(v.low / Pow2(distance), v.high * back % W32), if v.low * back % W32 != 0 then 1 else 0),
        v.high / Pow2(distance));
    } else if distance == 32 {
      JamWord(v);
      out := Words64(Or(v.high, if v.low != 0 then 1 else 0), 0);
    } else if distance < 64 {
      JamLarge(v, distance);
      var extra, back := Pow2(distance - 32), Pow2(64 - distance);
      out := Words64(Or(v.high / extra, if v.high * back % W32 != 0 || v.low != 0 then 1 else 0), 0);
    } else {
      BeyondWords(Value(v), distance);
      out := Words64(if v.low != 0 || v.high != 0 then 1 else 0, 0);
    }
  }
}
