/** Powers of a natural base, bit lengths and the few product facts the arithmetic models need. */
module Powers {

  function Pow(b: nat, e: nat): (p: nat)
  {
    if e == 0 then 1 else b * Pow(b, e - 1)
  }

  function Pow2(e: nat): nat {
    Pow(2, e)
  }

  /** b * 2^k, by repeated doubling. */
  function Scale(b: nat, k: nat): nat {
    if k == 0 then b else 2 * Scale(b, k - 1)
  }

  lemma {:induction false} ScaleProduct(b: nat, k: nat)
    ensures Scale(b, k) == b * Pow2(k)
  {
    if k > 0 {
      ScaleProduct(b, k - 1);
    }
  }

  lemma {:induction false} ScaleZero(k: nat)
    ensures Scale(0, k) == 0
  {
    if k > 0 {
      ScaleZero(k - 1);
    }
  }

  lemma {:induction false} ScaleAdd(b: nat, j: nat, k: nat)
    ensures Scale(b, j + k) == Scale(Scale(b, j), k)
  {
    if k > 0 {
      ScaleAdd(b, j, k - 1);
    }
  }

  lemma {:induction false} ScaleMono(a: nat, b: nat, k: nat)
    requires a <= b
    ensures Scale(a, k) <= Scale(b, k)
  {
    if k > 0 {
      ScaleMono(a, b, k - 1);
    }
  }

  lemma {:induction false} ScaleStrictMono(a: nat, b: nat, k: nat)
    requires a < b
    ensures Scale(a, k) < Scale(b, k)
  {
    if k > 0 {
      ScaleStrictMono(a, b, k - 1);
    }
  }

  lemma {:induction false} ScaleGrows(b: nat, j: nat, k: nat)
    requires j <= k
    ensures Scale(b, j) <= Scale(b, k)
  {
    if j < k {
      ScaleGrows(b, j, k - 1);
    }
  }

  /** Of two scalings of a positive number the larger has the larger exponent. */
  lemma ScaleExponentLess(b: nat, j: nat, k: nat)
    requires Scale(b, j) < Scale(b, k)
    ensures j < k
  {
    if k <= j {
      ScaleGrows(b, k, j);
    }
  }

  lemma MulMono(a: nat, x: int, y: int)
    requires x <= y
    ensures a * x <= a * y
  {
  }

  lemma MulStrictMono(a: nat, x: int, y: int)
    requires x < y && a > 0
    ensures a * x < a * y
  {
  }

  lemma MulAdd(a: int, x: int, y: int)
    ensures a * (x + y) == a * x + a * y
    ensures a * (x - y) == a * x - a * y
  {
  }

  /** Cancels a positive factor from an inequality. */
  lemma MulCancel(a: nat, x: int, y: int)
    requires a > 0 && a * x <= a * y
    ensures x <= y
  {
    if y < x {
      MulStrictMono(a, y, x);
    }
  }

  lemma MulCancelStrict(a: nat, x: int, y: int)
    requires a * x < a * y
    ensures x < y
  {
    if y <= x {
      MulMono(a, y, x);
    }
  }

  lemma {:induction false} PowPos(b: nat, e: nat)
    requires b > 0
    ensures Pow(b, e) > 0
  {
    if e > 0 {
      PowPos(b, e - 1);
      MulStrictMono(b, 0, Pow(b, e - 1));
    }
  }

  lemma PowZero(b: nat)
    ensures Pow(b, 0) == 1
  {
  }

  lemma {:induction false} PowAdd(b: nat, x: nat, y: nat)
    ensures Pow(b, x + y) == Pow(b, x) * Pow(b, y)
  {
    if x > 0 {
      PowAdd(b, x - 1, y);
      assert x + y - 1 == x - 1 + y;
      calc {
        Pow(b, x + y);
        b * (Pow(b, x - 1) * Pow(b, y));
        (b * Pow(b, x - 1)) * Pow(b, y);
      }
    }
  }

  lemma PowMono(b: nat, x: nat, y: nat)
    requires b > 0 && x <= y
    ensures Pow(b, x) <= Pow(b, y)
  {
    PowAdd(b, x, y - x);
    PowPos(b, x);
    PowPos(b, y - x);
    MulMono(Pow(b, x), 1, Pow(b, y - x));
  }

  lemma PowStrictMono(b: nat, x: nat, y: nat)
    requires b > 1 && x < y
    ensures Pow(b, x) < Pow(b, y)
  {
    PowMono(b, x, y - 1);
    PowPos(b, y - 1);
    MulStrictMono(Pow(b, y - 1), 1, b);
  }

  /** The exponent of a power that lies strictly below another power of the same base is smaller. */
  lemma PowExponentLess(b: nat, x: nat, y: nat)
    requires b > 1 && Pow(b, x) < Pow(b, y)
    ensures x < y
  {
    if y <= x {
      PowMono(b, y, x);
    }
  }

  lemma {:induction false} PowMul(b: nat, x: nat, y: nat)
    ensures Pow(Pow(b, x), y) == Pow(b, x * y)
  {
    if y > 0 {
      PowMul(b, x, y - 1);
      assert x * y == x + x * (y - 1);
      assert x * (y - 1) >= 0;
      PowAdd(b, x, x * (y - 1));
    } else {
      assert x * y == 0;
    }
  }

  lemma Interchange(a: nat, b: nat, p: nat, q: nat)
    ensures (a * b) * (p * q) == (a * p) * (b * q)
  {
    var t := p * q;
    assert (a * b) * t == a * (b * t);
    assert b * t == p * (b * q);
    var u := b * q;
    assert a * (p * u) == (a * p) * u;
  }

  lemma {:induction false} PowProduct(a: nat, b: nat, e: nat)
    ensures Pow(a * b, e) == Pow(a, e) * Pow(b, e)
  {
    if e > 0 {
      PowProduct(a, b, e - 1);
      var p, q := Pow(a, e - 1), Pow(b, e - 1);
      Interchange(a, b, p, q);
    }
  }

  lemma {:induction false} PowBaseMono(a: nat, b: nat, e: nat)
    requires a <= b
    ensures Pow(a, e) <= Pow(b, e)
  {
    if e > 0 {
      PowBaseMono(a, b, e - 1);
      MulMono(a, Pow(a, e - 1), Pow(b, e - 1));
      MulMono(Pow(b, e - 1), a, b);
    }
  }

  /** Number of binary digits of v, zero for zero. */
  function BitLen(v: nat): nat {
    if v == 0 then 0 else 1 + BitLen(v / 2)
  }

  lemma {:induction false} BitLenBounds(v: nat)
    requires v > 0
    ensures BitLen(v) > 0
    ensures Pow2(BitLen(v) - 1) <= v < Pow2(BitLen(v))
  {
    if v > 1 {
      BitLenBounds(v / 2);
    }
  }

  /** The bounds determine the bit length. */
  lemma BitLenUnique(v: nat, k: nat)
    requires k > 0 && Pow2(k - 1) <= v < Pow2(k)
    ensures BitLen(v) == k
  {
    PowPos(2, k - 1);
    BitLenBounds(v);
    PowExponentLess(2, k - 1, BitLen(v));
    PowExponentLess(2, BitLen(v) - 1, k);
  }

  lemma BitLenMono(u: nat, v: nat)
    requires u <= v
    ensures BitLen(u) <= BitLen(v)
  {
    if u > 0 {
      BitLenBounds(u);
      BitLenBounds(v);
      PowExponentLess(2, BitLen(u) - 1, BitLen(v));
    } else {
      assert BitLen(u) == 0;
    }
  }

  /** A value bracketed by lo and hi, with a part below p added, after scaling by p. */
  lemma ScaledBounds(low: nat, top: nat, lo: nat, hi: nat, p: nat)
    requires low < p && lo <= top < hi
    ensures lo * p <= low + top * p < hi * p
  {
    MulMono(p, lo, top);
    MulMono(p, top + 1, hi);
  }

  lemma BitLenScaled(low: nat, top: nat, k: nat)
    requires top > 0 && low < Pow2(k)
    ensures BitLen(low + top * Pow2(k)) == BitLen(top) + k
  {
    var l := BitLen(top);
    BitLenBounds(top);
    ScaledBounds(low, top, Pow2(l - 1), Pow2(l), Pow2(k));
    PowAdd(2, l - 1, k);
    PowAdd(2, l, k);
    assert l - 1 + k == l + k - 1;
    BitLenUnique(low + top * Pow2(k), l + k);
  }

  lemma DivMod(x: nat, q: nat)
    requires q > 0
    ensures x == q * (x / q) + x % q && 0 <= x % q < q && x / q >= 0
  {
  }

  /** Quotient and remainder are determined by their defining equation. */
  lemma DivUnique(a: nat, d: nat, q: int, r: int)
    requires d > 0 && a == q * d + r && 0 <= r < d
    ensures q == a / d && r == a % d
  {
    var q', r' := a / d, a % d;
    assert a == q' * d + r';
    assert d * (q + 1) == q * d + d && d * (q' + 1) == q' * d + d;
    if q < q' {
      MulMono(d, q + 1, q');
    } else if q' < q {
      MulMono(d, q' + 1, q);
    }
  }
}
