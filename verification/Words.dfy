/** Machine words as naturals: bitwise operations, pairs of words and two's complement. */
module Words {
  import opened Powers

  const W32: nat := 0x1_0000_0000
  const HALF32: nat := 0x8000_0000
  const W64: nat := 0x1_0000_0000_0000_0000
  const HALF64: nat := 0x8000_0000_0000_0000

  // ---------------------------------------------------------------- bit by bit

  function Or(a: nat, b: nat): nat {
    if a == 0 then b else if b == 0 then a
    else 2 * Or(a / 2, b / 2) + if a % 2 == 1 || b % 2 == 1 then 1 else 0
  }

  function And(a: nat, b: nat): nat {
    if a == 0 || b == 0 then 0
    else 2 * And(a / 2, b / 2) + if a % 2 == 1 && b % 2 == 1 then 1 else 0
  }

  function Xor(a: nat, b: nat): nat {
    if a == 0 then b else if b == 0 then a
    else 2 * Xor(a / 2, b / 2) + if a % 2 != b % 2 then 1 else 0
  }

  /** Words without a common bit are joined by adding them. */
  lemma {:induction false} OrDisjoint(t: nat, b: nat, k: nat)
    requires b < Pow2(k)
    ensures Or(t * Pow2(k), b) == t * Pow2(k) + b
  {
    if k == 0 {
      assert t * Pow2(0) == t;
    } else {
      var p := Pow2(k - 1);
      TwiceProduct(t, p);
      if t * Pow2(k) != 0 && b != 0 {
        OrDisjoint(t, b / 2, k - 1);
      }
    }
  }

  lemma TwiceProduct(t: nat, p: nat)
    ensures t * (2 * p) == 2 * (t * p) && (t * (2 * p)) / 2 == t * p && (t * (2 * p)) % 2 == 0
  {
  }

  lemma OrBit(a: nat, b: nat)
    requires a % 2 == 0 && b < 2
    ensures Or(a, b) == a + b
  {
    assert Pow2(1) == 2 by { assert Pow2(0) == 1; }
    OrDisjoint(a / 2, b, 1);
    assert a / 2 * Pow2(1) == a;
  }

  lemma {:induction false} OrSame(a: nat)
    ensures Or(a, 1) == if a % 2 == 1 then a else a + 1
  {
    if a != 0 {
      assert Or(a / 2, 0) == a / 2;
    }
  }

  lemma {:induction false} XorTwice(a: nat, b: nat)
    ensures Xor(b, Xor(a, b)) == a
  {
    if a != 0 && b != 0 {
      XorTwice(a / 2, b / 2);
      XorStep(a, b);
      XorStep(b, Xor(a, b));
    } else {
      XorSelf(a);
      XorSelf(b);
    }
  }

  lemma XorStep(a: nat, b: nat)
    ensures Xor(a, b) == 2 * Xor(a / 2, b / 2) + if a % 2 != b % 2 then 1 else 0
    ensures Xor(a, b) / 2 == Xor(a / 2, b / 2) && Xor(a, b) % 2 == if a % 2 != b % 2 then 1 else 0
  {
  }

  lemma {:induction false} XorSelf(a: nat)
    ensures Xor(a, a) == 0
  {
    if a != 0 {
      XorSelf(a / 2);
    }
  }

  /** The word of k ones. */
  function Ones(k: nat): nat {
    if k == 0 then 0 else 2 * Ones(k - 1) + 1
  }

  lemma {:induction false} OnesValue(k: nat)
    ensures Ones(k) + 1 == Pow2(k)
  {
    if k > 0 {
      OnesValue(k - 1);
    }
  }

  lemma {:induction false} AndOnes(a: nat, k: nat)
    requires a < Pow2(k)
    ensures And(a, Ones(k)) == a
  {
    if k > 0 && a != 0 {
      AndOnes(a / 2, k - 1);
    }
  }

  /** Keeping the k low bits is the remainder. */
  lemma {:induction false} AndMask(a: nat, k: nat)
    ensures Pow2(k) > 0 && And(a, Ones(k)) == a % Pow2(k)
    decreases k
  {
    PowPos(2, k);
    if k == 0 {
      assert a % 1 == 0;
    } else {
      PowPos(2, k - 1);
      if a != 0 {
        AndMask(a / 2, k - 1);
        HalfRemainder(a, Pow2(k - 1));
      }
    }
  }

  lemma HalfRemainder(a: nat, p: nat)
    requires p > 0
    ensures a % (2 * p) == 2 * (a / 2 % p) + a % 2
  {
    DivMod(a / 2, p);
    DivUnique(a, 2 * p, a / 2 / p, 2 * (a / 2 % p) + a % 2);
  }

  lemma {:induction false} XorOnes(a: nat, k: nat)
    requires a < Pow2(k)
    ensures Xor(a, Ones(k)) == Ones(k) - a
  {
    hide Xor;
    if k > 0 {
      XorOnes(a / 2, k - 1);
      XorStep(a, Ones(k));
    } else {
      XorSelf(0);
    }
  }

  // ---------------------------------------------------------------- pairs of words

  /** cosmic_words64. */
  datatype Words64 = Words64(low: nat, high: nat)

  predicate Valid(w: Words64) {
    w.low < W32 && w.high < W32
  }

  function Value(w: Words64): (v: nat)
    requires Valid(w)
    ensures v < W64
  {
    w.low + w.high * W32
  }

  // ---------------------------------------------------------------- two's complement

  function AsSigned(v: nat): int
    requires v < W64
  {
    if v >= HALF64 then v - W64 else v
  }

  function Negated(v: nat): (r: nat)
    requires v < W64
    ensures r < W64
  {
    if v == 0 then 0 else W64 - v
  }

  function Magnitude(v: nat): (r: nat)
    requires v < W64
    ensures r <= HALF64
  {
    if v >= HALF64 then W64 - v else v
  }

  /** q and r are quotient and remainder of n and d, truncated toward zero: the remainder has the
      sign of the numerator. */
  ghost predicate Truncates(n: int, d: int, q: int, r: int)
    requires d != 0
  {
    && n == q * d + r
    && (if d > 0 then -d < r < d else d < r < -d)
    && (n >= 0 ==> r >= 0) && (n <= 0 ==> r <= 0)
  }

  function Abs(x: int): nat {
    if x < 0 then -x else x
  }

  /** Truncating division has one result: quotient and remainder of the magnitudes, with signs. */
  lemma TruncatesUnique(n: int, d: int, q: int, r: int)
    requires d != 0 && Truncates(n, d, q, r)
    ensures q == (if (n < 0) != (d < 0) then -(Abs(n) / Abs(d)) else Abs(n) / Abs(d))
    ensures r == if n < 0 then -(Abs(n) % Abs(d)) else Abs(n) % Abs(d)
  {
    var q', r' := if (n < 0) != (d < 0) then -q else q, if n < 0 then -r else r;
    assert Abs(n) == q' * Abs(d) + r' by {
      assert -(q * d) == (-q) * d == q * (-d);
    }
    DivUnique(Abs(n), Abs(d), q', r');
  }

  /** Signs put back after dividing magnitudes. */
  lemma SignsBack(n: int, d: int, q: nat, r: nat)
    requires d != 0 && Abs(n) == q * Abs(d) + r && r < Abs(d)
    ensures Truncates(n, d, if (n < 0) != (d < 0) then -(q as int) else q, if n < 0 then -(r as int) else r)
  {
  }
}
