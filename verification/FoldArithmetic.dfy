/** The folder's arithmetic on constants is that of the evaluation. */
module FoldArithmetic {
  import opened Options
  import opened Hir
  import opened Powers
  import Words
  import Constants
  import opened Evaluation

  // ---------------------------------------------------------------- bits

  lemma ModUnique(x: int, d: nat, q: int, r: int)
    requires d > 0 && x == q * d + r && 0 <= r < d
    ensures x / d == q && x % d == r
  {
    var p, s := x / d, x % d;
    assert x == p * d + s && 0 <= s < d;
    if p < q {
      MulMono(d, p + 1, q);
      MulAdd(d, p, 1);
    } else if q < p {
      MulMono(d, q + 1, p);
      MulAdd(d, q, 1);
    }
  }

  lemma HalfMod(x: int, p: nat)
    requires p > 0
    ensures x % (2 * p) == 2 * (x / 2 % p) + x % 2 && x / 2 / p == x / (2 * p)
  {
    var h := x / 2;
    var q, r := h / p, h % p;
    ModUnique(h, p, q, r);
    assert x == q * (2 * p) + (2 * r + x % 2) by { assert h == q * p + r; assert q * (2 * p) == 2 * (q * p); }
    ModUnique(x, 2 * p, q, 2 * r + x % 2);
  }

  lemma {:induction false} LowBitsMod(x: int, n: nat)
    ensures Pow2(n) > 0 && LowBits(x, n) == x % Pow2(n)
    decreases n
  {
    PowPos(2, n);
    if n > 0 {
      LowBitsMod(x / 2, n - 1);
      HalfMod(x, Pow2(n - 1));
    }
  }

  lemma Widths()
    ensures Pow2(8) == 256 && Pow2(64) == Words.W64
  {
    assert Pow2(8) == 256;
    PowAdd(2, 8, 8);
    PowAdd(2, 16, 16);
    PowAdd(2, 32, 32);
  }

  lemma Low64(x: int)
    ensures LowBits(x, 64) == x % Words.W64
  {
    Widths();
    LowBitsMod(x, 64);
  }

  lemma Low8(x: int)
    ensures LowBits(x, 8) == x % 256
  {
    Widths();
    LowBitsMod(x, 8);
  }

  /** Wrapping an integer keeps its 64 low bits. */
  lemma WrappedBits(x: int)
    ensures Constants.Wrapped(x) == SignedOf(LowBits(x, 64)) && LEAST <= Constants.Wrapped(x) <= MOST
    ensures Constants.Wrapped(x % Words.W64) == Constants.Wrapped(x)
  {
    hide LowBits;
    Low64(x);
    WrappedMod(x);
    var r := x % Words.W64;
    ModUnique(r, Words.W64, 0, r);
    WrappedMod(r);
    hide Constants.Wrapped;
  }

  lemma WrappedMod(x: int)
    ensures Constants.Wrapped(x) == SignedOf(x % Words.W64)
  {
    var q, r := x / Words.W64, x % Words.W64;
    var h := Words.HALF64;
    if r < h {
      ModUnique(x + h, Words.W64, q, r + h);
    } else {
      ModUnique(x + h, Words.W64, q + 1, r - h);
    }
  }

  lemma BitwiseStep(op: BinaryOp, a: nat, b: nat)
    requires Bitwise(op)
    ensures Constants.Bitwise(op, a, b)
      == 2 * Constants.Bitwise(op, a / 2, b / 2) + if Gate(op, a % 2 == 1, b % 2 == 1) then 1 else 0
  {
    if op.Xor? {
      Words.XorStep(a, b);
    }
  }

  lemma {:induction false} BitsAgree(op: BinaryOp, x: int, y: int, n: nat)
    requires Bitwise(op)
    ensures Pow2(n) > 0 && Constants.Bitwise(op, x % Pow2(n), y % Pow2(n)) == BitByBit(op, x, y, n)
    decreases n
  {
    PowPos(2, n);
    if n > 0 {
      var p := Pow2(n - 1);
      PowPos(2, n - 1);
      BitsAgree(op, x / 2, y / 2, n - 1);
      HalfMod(x, p);
      HalfMod(y, p);
      BitwiseStep(op, x % Pow2(n), y % Pow2(n));
      HalfAgain(x % Pow2(n), x / 2 % p, x % 2);
      HalfAgain(y % Pow2(n), y / 2 % p, y % 2);
    } else {
      assert Pow2(0) == 1;
    }
  }

  lemma HalfAgain(a: nat, h: nat, bit: nat)
    requires a == 2 * h + bit && bit < 2
    ensures a / 2 == h && a % 2 == bit
  {
  }

  lemma {:induction false} Turned(x: int, n: nat)
    ensures BitByBit(Xor, x, -1, n) == Pow2(n) - 1 - LowBits(x, n)
    decreases n
  {
    if n > 0 {
      Turned(x / 2, n - 1);
    }
  }

  lemma {:induction false} DoubledIs(x: int, n: nat)
    ensures Doubled(x, n) == x * Pow2(n)
    decreases n
  {
    if n > 0 {
      DoubledIs(2 * x, n - 1);
      assert 2 * x * Pow2(n - 1) == x * (2 * Pow2(n - 1));
    } else {
      assert Pow2(0) == 1;
    }
  }

  lemma {:induction false} HalvedIs(x: int, n: nat)
    ensures Pow2(n) > 0 && Halved(x, n) == x / Pow2(n)
    decreases n
  {
    PowPos(2, n);
    if n > 0 {
      HalvedIs(x / 2, n - 1);
      HalfMod(x, Pow2(n - 1));
    } else {
      assert Pow2(0) == 1;
    }
  }

  lemma {:induction false} HalvedRange(x: int, n: nat)
    ensures x >= 0 ==> 0 <= Halved(x, n) <= x
    ensures x < 0 ==> x <= Halved(x, n) < 0
    decreases n
  {
    if n > 0 {
      HalvedRange(x / 2, n - 1);
    }
  }

  lemma DivideSame(x: int, y: int)
    requires y != 0
    ensures Constants.TruncatedQuotient(x, y) == TowardZero(x, y)
  {
  }

  // ---------------------------------------------------------------- arithmetic

  /** Signed arithmetic: the exact result, or a report that it is not a 64-bit integer. */
  lemma SignedArithmetic(op: BinaryOp, x: int, y: int)
    requires Arithmetic(op) && !op.Mod? && (op.Div? ==> y != 0)
    ensures var z := Exact(op, x, y);
      Constants.IntOp(op, x, y)
        == if LEAST <= z <= MOST then Ok(Some(IntLit(z))) else Err(ConstOverflow(SignedOf(LowBits(z, 64)) < 0))
  {
    hide LowBits, SignedOf, TowardZero, Constants.TruncatedQuotient;
    if op.Div? {
      DivideSame(x, y);
    }
    WrappedBits(Exact(op, x, y));
  }

  lemma SignedRemainder(x: int, y: int)
    requires y != 0 && InRange(IntLit(x)) && InRange(IntLit(y))
    ensures Constants.IntOp(Mod, x, y)
      == if LEAST <= TowardZero(x, y) <= MOST then Ok(Some(IntLit(Exact(Mod, x, y)))) else Err(ConstOverflow(false))
    ensures LEAST <= Exact(Mod, x, y) <= MOST
  {
    hide TowardZero, Constants.TruncatedQuotient;
    DivideSame(x, y);
    QuotientRange(x, y);
  }

  /** The quotient of two 64-bit integers is one, but for the least divided by -1. */
  lemma QuotientRange(x: int, y: int)
    requires y != 0 && InRange(IntLit(x)) && InRange(IntLit(y))
    ensures LEAST <= TowardZero(x, y) <= MOST <==> !(x == LEAST && y == -1)
    ensures LEAST <= x - y * TowardZero(x, y) <= MOST
  {
    hide TowardZero;
    var q, r := QuotientSigned(x, y);
    QuotientLimits(x, y, q);
    RemainderRange(x, y, TowardZero(x, y), r);
  }

  lemma QuotientSigned(x: int, y: int) returns (q: nat, r: int)
    requires y != 0
    ensures TowardZero(x, y) == if (x < 0) != (y < 0) then 0 - q as int else q
    ensures Words.Truncates(x, y, TowardZero(x, y), r)
    ensures q <= Words.Abs(x) && (Words.Abs(y) > 1 && x != 0 ==> q < Words.Abs(x)) && (Words.Abs(y) == 1 ==> q == Words.Abs(x))
  {
    hide *;
    var m: nat;
    q, m := Divided(x, y, Words.Abs(x), Words.Abs(y));
    r := if x < 0 then 0 - m as int else m;
    Words.SignsBack(x, y, q, m);
  }

  /** The quotient and the remainder of the absolute values. */
  lemma Divided(x: int, y: int, a: nat, b: nat) returns (q: nat, m: nat)
    requires y != 0 && a == Words.Abs(x) && b == Words.Abs(y)
    ensures TowardZero(x, y) == if (x < 0) != (y < 0) then 0 - q as int else q
    ensures a == q * b + m && m < b
    ensures q <= a && (b > 1 && x != 0 ==> q < a) && (b == 1 ==> q == a)
  {
    hide TowardZero;
    assert b > 0 && (x != 0 ==> a != 0);
    q, m := Parts(a, b);
    SignOfQuotient(x, y, a, b, q);
    QuotientBound(a, b, q, m);
  }

  lemma Parts(a: nat, b: nat) returns (q: nat, m: nat)
    requires b > 0
    ensures q == a / b && m == a % b && a == q * b + m && m < b
  {
    DivMod(a, b);
    q, m := a / b, a % b;
    assert q * b == b * q;
  }

  lemma SignOfQuotient(x: int, y: int, a: nat, b: nat, q: nat)
    requires y != 0 && a == Words.Abs(x) && b == Words.Abs(y) && b > 0 && q == a / b
    ensures TowardZero(x, y) == if (x < 0) != (y < 0) then 0 - q as int else q
  {
  }

  lemma QuotientLimits(x: int, y: int, q: nat)
    requires y != 0 && InRange(IntLit(x)) && InRange(IntLit(y))
    requires q <= Words.Abs(x) && (Words.Abs(y) > 1 && x != 0 ==> q < Words.Abs(x)) && (Words.Abs(y) == 1 ==> q == Words.Abs(x))
    ensures LEAST <= (if (x < 0) != (y < 0) then 0 - q as int else q) <= MOST <==> !(x == LEAST && y == -1)
  {
  }

  lemma RemainderRange(x: int, y: int, q: int, r: int)
    requires y != 0 && Words.Truncates(x, y, q, r) && InRange(IntLit(y))
    ensures LEAST <= x - y * q <= MOST
  {
    assert q * y == y * q;
  }

  lemma QuotientBound(a: nat, b: nat, q: nat, m: nat)
    requires b > 0 && a == q * b + m
    ensures q <= a && (b > 1 && a > 0 ==> q < a) && (b == 1 && m == 0 ==> q == a)
  {
    MulMono(q, 1, b);
    if b > 1 {
      MulMono(q, 2, b);
    }
  }

  lemma SignedBits(op: BinaryOp, x: int, y: int)
    requires Bitwise(op)
    ensures Constants.IntOp(op, x, y) == Ok(Some(IntLit(SignedOf(BitByBit(op, x, y, 64)))))
    ensures LEAST <= SignedOf(BitByBit(op, x, y, 64)) <= MOST
  {
    Widths();
    BitsAgree(op, x, y, 64);
    BitByBitRange(op, x, y, 64);
    var w := BitByBit(op, x, y, 64);
    WrappedMod(w);
    ModUnique(w, Words.W64, 0, w);
  }

  lemma {:induction false} BitByBitRange(op: BinaryOp, x: int, y: int, n: nat)
    ensures BitByBit(op, x, y, n) < Pow2(n)
    decreases n
  {
    if n > 0 {
      BitByBitRange(op, x / 2, y / 2, n - 1);
    } else {
      assert Pow2(0) == 1;
    }
  }

  /** Unsigned arithmetic of n bits. */
  lemma UnsignedArithmetic(op: BinaryOp, x: nat, y: nat, n: nat)
    requires (Arithmetic(op) || Bitwise(op)) && x < Pow2(n) && y < Pow2(n)
    ensures var r := UnsignedBinary(op, x, y, n);
      && Constants.NatOp(op, x, y, Pow2(n)) == (if r.Some? then Ok(r) else Err(Abort))
      && (r.Some? ==> r.value < Pow2(n))
  {
    if Bitwise(op) {
      BitsAgree(op, x, y, n);
      BitByBitRange(op, x, y, n);
      ModUnique(x, Pow2(n), 0, x);
      ModUnique(y, Pow2(n), 0, y);
    } else if op.Div? || op.Mod? {
      if y != 0 {
        UnsignedQuotient(op, x, y, n);
      }
    } else {
      LowBitsMod(Exact(op, x, y), n);
    }
  }

  /** Quotients and remainders of n bits need no truncation. */
  lemma UnsignedQuotient(op: BinaryOp, x: nat, y: nat, n: nat)
    requires (op.Div? || op.Mod?) && y != 0 && x < Pow2(n)
    ensures Constants.NatOp(op, x, y, Pow2(n)) == Ok(Some(LowBits(Exact(op, x, y), n)))
    ensures LowBits(Exact(op, x, y), n) < Pow2(n)
  {
    var q, m := Parts(x, y);
    QuotientBound(x, y, q, m);
    var z := if op.Div? then q else m;
    assert z <= x;
    UnsignedExact(op, x, y, q, m);
    LowBitsMod(z, n);
    ModUnique(z, Pow2(n), 0, z);
  }

  lemma UnsignedExact(op: BinaryOp, x: nat, y: nat, q: nat, m: nat)
    requires (op.Div? || op.Mod?) && y != 0 && q == x / y && m == x % y && x == q * y + m
    ensures Exact(op, x, y) == if op.Div? then q else m
    ensures forall w: nat | w > 0 :: Constants.NatOp(op, x, y, w) == Ok(Some(if op.Div? then q else m))
  {
  }
}
