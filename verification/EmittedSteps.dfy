/** Facts about words that the emitted 64-bit operations rest on. */
module EmittedSteps {
  import opened Bytes
  import opened Powers
  import opened Words
  import opened WordSteps

  lemma TopBit(v: nat)
    requires v < W64
    ensures v / HALF64 < 2 && v / HALF64 * W64 + v * 2 % W64 == 2 * v && v * 2 % W64 < W64 && (v * 2 % W64) % 2 == 0
  {
  }

  lemma Difference(a: nat, b: nat)
    requires a < W64 && b < W64
    ensures (a - b) % W64 == if a >= b then a - b else a - b + W64
  {
  }

  lemma AllOnes()
    ensures Ones(64) == W64 - 1 && Pow2(64) == W64 && Ones(32) == W32 - 1 && Pow2(32) == W32 && Pow2(16) == 0x1_0000
    ensures Ones(16) == 0xffff && Ones(6) == 63 && Pow2(6) == 64
  {
    ScaleSteps(0);
    ScaleProduct(1, 64);
    ScaleProduct(1, 32);
    OnesValue(64);
    OnesValue(32);
    assert Pow2(8) == 0x100;
    PowAdd(2, 8, 8);
    OnesValue(16);
    OnesValue(6);
  }

  /** Xor with a mask of ones and subtracting it is negation; with zero it changes nothing. */
  lemma MaskNegates(v: nat)
    requires v < W64
    ensures (Xor(v, 0) - 0) % W64 == v
    ensures (Xor(v, W64 - 1) - (W64 - 1)) % W64 == Negated(v)
  {
    hide Xor, Ones, Pow;
    AllOnes();
    XorZero(v);
    XorOnes(v, 64);
  }

  lemma SignsXor(a: nat, b: nat)
    requires (a == 0 || a == W64 - 1) && (b == 0 || b == W64 - 1)
    ensures Xor(a, b) == if a == b then 0 else W64 - 1
  {
    XorSelf(a);
  }

  lemma MaskHalf(v: nat)
    requires v < W32
    ensures And(v, 65535) == v % 0x1_0000
  {
    AllOnes();
    AndMask(v, 16);
  }

  lemma MaskCount(v: nat)
    requires v < W64
    ensures And(v % W32, 63) == v % 64
  {
    hide And, Ones, Pow;
    AllOnes();
    AndMask(v % W32, 6);
  }

  // ---------------------------------------------------------------- multiplication

  /** The products, shifted, without dropping anything. */
  function Sum(terms: seq<(nat, nat, nat)>): nat {
    if terms == [] then 0
    else
      var t := terms[|terms| - 1];
      Sum(terms[..|terms| - 1]) + t.0 * t.1 % W32 * Pow2(t.2)
  }

  lemma SumStart(terms: seq<(nat, nat, nat)>)
    ensures Sum(terms[..0]) % W64 == 0
  {
  }

  lemma SumTurn(terms: seq<(nat, nat, nat)>, i: nat)
    requires i < |terms|
    ensures var t := terms[i];
      (Sum(terms[..i]) % W64 + t.0 * t.1 % W32 * Pow2(t.2) % W64) % W64 == Sum(terms[..i + 1]) % W64
  {
    hide Pow;
    assert terms[..i + 1][..i] == terms[..i];
    AddModulo(Sum(terms[..i]), terms[i].0 * terms[i].1 % W32 * Pow2(terms[i].2));
  }

  lemma AddModulo(a: nat, b: nat)
    ensures (a % W64 + b % W64) % W64 == (a + b) % W64
  {
  }

  lemma SixTerms(a: (nat, nat, nat), b: (nat, nat, nat), c: (nat, nat, nat), d: (nat, nat, nat), e: (nat, nat, nat),
                 f: (nat, nat, nat))
    ensures Sum([a, b, c, d, e, f]) == OneTerm(a) + OneTerm(b) + OneTerm(c) + OneTerm(d) + OneTerm(e) + OneTerm(f)
  {
    hide OneTerm;
    SumSnoc([], a);
    SumSnoc([a], b);
    SumSnoc([a, b], c);
    SumSnoc([a, b, c], d);
    SumSnoc([a, b, c, d], e);
    SumSnoc([a, b, c, d, e], f);
    assert [] + [a] == [a] && [a] + [b] == [a, b] && [a, b] + [c] == [a, b, c];
    assert [a, b, c] + [d] == [a, b, c, d] && [a, b, c, d] + [e] == [a, b, c, d, e];
    assert [a, b, c, d, e] + [f] == [a, b, c, d, e, f];
  }

  function OneTerm(t: (nat, nat, nat)): nat {
    t.0 * t.1 % W32 * Pow2(t.2)
  }

  lemma SumSnoc(terms: seq<(nat, nat, nat)>, t: (nat, nat, nat))
    ensures Sum(terms + [t]) == Sum(terms) + OneTerm(t)
  {
    hide Pow;
    assert (terms + [t])[..|terms|] == terms;
  }

  lemma SumIsProduct(al: nat, ah: nat, bl: nat, bh: nat, a0: nat, a1: nat, b0: nat, b1: nat)
    requires a0 < 0x1_0000 && a1 < 0x1_0000 && b0 < 0x1_0000 && b1 < 0x1_0000
    requires al == a0 + a1 * 0x1_0000 && bl == b0 + b1 * 0x1_0000
    ensures Sum([(a0, b0, 0), (a0, b1, 16), (a1, b0, 16), (a1, b1, 32), (ah, bl, 32), (al, bh, 32)]) % W64
         == ((al + ah * W32) * (bl + bh * W32)) % W64
  {
    hide Pow, Sum, OneTerm;
    SumOfProducts(al, ah, bl, bh, a0, a1, b0, b1);
    ProductModulo(al, ah, bl, bh, a0, a1, b0, b1);
  }

  lemma ProductModulo(al: nat, ah: nat, bl: nat, bh: nat, a0: nat, a1: nat, b0: nat, b1: nat)
    requires al == a0 + a1 * 0x1_0000 && bl == b0 + b1 * 0x1_0000
    ensures ((a0 * b0) * 1 + (a0 * b1) * 0x1_0000 + (a1 * b0) * 0x1_0000 + (a1 * b1) * W32
          + (ah * bl) % W32 * W32 + (al * bh) % W32 * W32) % W64
         == ((al + ah * W32) * (bl + bh * W32)) % W64
  {
    HalvesExpand(a0, a1, b0, b1);
    Expand(al, ah, bl, bh);
    SixProducts(al * bl, a0 * b0, a0 * b1, a1 * b0, a1 * b1, ah * bl, al * bh, ah * bh);
  }

  lemma Halves(v: nat)
    requires v < W32
    ensures v == v % 0x1_0000 + v / 0x1_0000 * 0x1_0000 && v / 0x1_0000 < 0x1_0000
  {
  }

  lemma SumOfProducts(al: nat, ah: nat, bl: nat, bh: nat, a0: nat, a1: nat, b0: nat, b1: nat)
    requires a0 < 0x1_0000 && a1 < 0x1_0000 && b0 < 0x1_0000 && b1 < 0x1_0000
    ensures Sum([(a0, b0, 0), (a0, b1, 16), (a1, b0, 16), (a1, b1, 32), (ah, bl, 32), (al, bh, 32)])
         == (a0 * b0) * 1 + (a0 * b1) * 0x1_0000 + (a1 * b0) * 0x1_0000 + (a1 * b1) * W32
          + (ah * bl) % W32 * W32 + (al * bh) % W32 * W32
  {
    hide Pow, Sum, OneTerm;
    SixTerms((a0, b0, 0), (a0, b1, 16), (a1, b0, 16), (a1, b1, 32), (ah, bl, 32), (al, bh, 32));
    HalfTerm(a0, b0, 0, 1);
    HalfTerm(a0, b1, 16, 0x1_0000);
    HalfTerm(a1, b0, 16, 0x1_0000);
    HalfTerm(a1, b1, 32, W32);
    WordTerm(ah, bl);
    WordTerm(al, bh);
  }

  lemma SixProducts(low: nat, p: nat, q: nat, r: nat, s: nat, x: nat, y: nat, z: nat)
    requires low == p + q * 0x1_0000 + r * 0x1_0000 + s * W32
    ensures (p * 1 + q * 0x1_0000 + r * 0x1_0000 + s * W32 + x % W32 * W32 + y % W32 * W32) % W64
         == (low + (x + y) * W32 + z * W64) % W64
  {
    DropCarries(low, x, y, z);
  }

  lemma WordTerm(x: nat, y: nat)
    ensures OneTerm((x, y, 32)) == x * y % W32 * W32
  {
    hide Pow;
    AllOnes();
  }

  lemma HalfTerm(x: nat, y: nat, k: nat, p: nat)
    requires x < 0x1_0000 && y < 0x1_0000 && ((k == 0 && p == 1) || (k == 16 && p == 0x1_0000) || (k == 32 && p == W32))
    ensures OneTerm((x, y, k)) == (x * y) * p
  {
    hide Pow;
    AllOnes();
    PowZero(2);
    HalfProduct(x, y);
    Small(x * y);
  }

  lemma HalfProduct(x: nat, y: nat)
    requires x < 0x1_0000 && y < 0x1_0000
    ensures x * y < W32
  {
    MulMono(x, y, 0xffff);
  }

  lemma Small(v: nat)
    requires v < W32
    ensures v % W32 == v
  {
  }

  lemma HalvesExpand(a0: nat, a1: nat, b0: nat, b1: nat)
    ensures (a0 + a1 * 0x1_0000) * (b0 + b1 * 0x1_0000)
         == a0 * b0 + (a0 * b1) * 0x1_0000 + (a1 * b0) * 0x1_0000 + (a1 * b1) * W32
  {
    var x, y := a1 * 0x1_0000, b1 * 0x1_0000;
    assert (a0 + x) * (b0 + y) == a0 * b0 + a0 * y + x * b0 + x * y;
    assert a0 * y == (a0 * b1) * 0x1_0000;
    assert x * b0 == (a1 * b0) * 0x1_0000;
    assert x * y == (a1 * b1) * W32 by {
      assert x * (b1 * 0x1_0000) == (x * b1) * 0x1_0000;
      assert x * b1 == (a1 * b1) * 0x1_0000;
    }
  }

  lemma DropCarries(p: nat, x: nat, y: nat, z: nat)
    ensures (p + x % W32 * W32 + y % W32 * W32) % W64 == (p + (x + y) * W32 + z * W64) % W64
  {
    var k := x / W32 + y / W32 + z;
    var s := p + x % W32 * W32 + y % W32 * W32;
    assert p + (x + y) * W32 + z * W64 == s + k * W64;
    DivUnique(s + k * W64, W64, s / W64 + k, s % W64);
  }

  // ---------------------------------------------------------------- selection

  lemma Selected(yes: nat, no: nat, condition: bool)
    requires yes < W32 && no < W32
    ensures Xor(no, And(Xor(yes, no), (0 - if condition then 1 else 0) % W32)) == if condition then yes else no
  {
    hide Xor, And;
    AllOnes();
    if condition {
      XorBound(yes, no, 32);
      AndOnes(Xor(yes, no), 32);
      XorTwice(yes, no);
    } else {
      AndZero(Xor(yes, no));
      XorZero(no);
    }
  }

  lemma AndZero(a: nat)
    ensures And(a, 0) == 0
  {
  }

  lemma XorZero(a: nat)
    ensures Xor(a, 0) == a
  {
  }

  lemma {:induction false} XorBound(a: nat, b: nat, k: nat)
    requires a < Pow2(k) && b < Pow2(k)
    ensures Xor(a, b) < Pow2(k)
  {
    if k > 0 && a != 0 && b != 0 {
      XorBound(a / 2, b / 2, k - 1);
    }
  }

  lemma JoinWords(low: nat, high: nat)
    requires low < W32 && high < W32
    ensures Or(low, high * W32 % W64) == low + high * W32
  {
    hide Or;
    AllOnes();
    OrCommutes(low, high * W32);
    OrDisjoint(high, low, 32);
  }

  // ---------------------------------------------------------------- shifts

  /** Word shifts; a count of 32 or more yields anything. */
  function Ishl(x: nat, c: nat, junk: nat): (r: nat)
    requires junk < W32
    ensures r < W32
  {
    if c < 32 then x * Pow2(c) % W32 else junk
  }

  function Ushr(x: nat, c: nat, junk: nat): (r: nat)
    requires junk < W32 && x < W32
    ensures r < W32
  {
    if c < 32 then PowPos(2, c); QuotientBelow(x, Pow2(c)); Floored(x, Pow2(c)) else junk
  }

  /** Division that rounds down. */
  function Floored(a: int, d: nat): int
    requires d > 0
  {
    a / d
  }

  function Sshr(x: nat, c: nat, junk: nat): (r: nat)
    requires junk < W32
    ensures r < W32
  {
    if c < 32 then PowPos(2, c); Floored(Signed32(x), Pow2(c)) % W32 else junk
  }

  lemma QuotientBelow(x: nat, p: nat)
    requires p > 0
    ensures 0 <= x / p <= x
  {
    DivMod(x, p);
    MulMono(x / p, 1, p);
  }

  /** The shift of a 64-bit number. */
  function ShiftSpec(v: nat, k: nat, signedRight: bool, left: bool): nat
    requires v < W64
  {
    PowPos(2, k);
    if left then v * Pow2(k) % W64
    else if signedRight then Floored(AsSigned(v), Pow2(k)) % W64
    else Shrinks(v, Pow2(k)); Floored(v, Pow2(k))
  }

  lemma Shrinks(v: nat, p: nat)
    requires p > 0
    ensures 0 <= Floored(v, p) <= v
  {
    QuotientBelow(v, p);
  }

  /** A word times p drops its leading digits in base s, where p and s make up a whole word. */
  lemma ScaledParts(x: nat, p: nat, s: nat)
    requires x < W32 && p > 0 && s > 0 && p * s == W32
    ensures x * p == x % s * p + W32 * (x / s)
    ensures x % s * p + p <= W32 && x * p % W32 == x % s * p && x / s < p
  {
    DivMod(x, s);
    assert x * p == x % s * p + W32 * (x / s) by {
      assert (s * (x / s)) * p == (p * s) * (x / s);
      MulAdd(p, s * (x / s), x % s);
    }
    MulMono(p, x % s + 1, s);
    MulAdd(p, x % s, 1);
    DivUnique(x * p, W32, x / s, x % s * p);
    MulCancelStrict(s, x / s, p);
  }

  lemma LeftParts(lo: nat, hi: nat, p: nat, s: nat)
    requires lo < W32 && hi < W32 && p > 0 && s > 0 && p * s == W32
    ensures lo * p % W32 + (hi % s * p + lo / s) * W32 == (lo + hi * W32) * p % W64
    ensures hi % s * p + lo / s < W32
  {
    ScaledParts(lo, p, s);
    ScaledParts(hi, p, s);
    assert (lo + hi * W32) * p == lo * p + W32 * (hi * p);
    DropTop(lo % s * p, lo / s, hi % s * p, hi / s);
  }

  lemma DropTop(low: nat, a: nat, high: nat, b: nat)
    requires low < W32 && high + a < W32
    ensures (low + W32 * a + W32 * (high + W32 * b)) % W64 == low + (high + a) * W32
  {
    DivUnique(low + W32 * a + W32 * (high + W32 * b), W64, b, low + (high + a) * W32);
  }

  lemma RightParts(lo: nat, h: int, p: nat, s: nat)
    requires lo < W32 && p > 0 && s > 0 && p * s == W32
    ensures lo / p + h % p * s < W32 && (lo + h * W32) / p == lo / p + h % p * s + h / p * W32
  {
    DivMod(lo, p);
    LowBelow(lo / p, h % p, p, s, lo % p);
    RegroupRight(lo / p, lo % p, h / p, h % p, p, s);
    assert h == p * (h / p) + h % p;
    FloorUnique(lo + h * W32, p, lo / p + h % p * s + h / p * W32, lo % p);
  }

  lemma LowBelow(a: nat, b: nat, p: nat, s: nat, r: nat)
    requires p * a + r < p * s && b < p && p * s == W32
    ensures a + b * s < W32
  {
    MulCancelStrict(p, a, s);
    MulMono(s, b + 1, p);
    MulAdd(s, b, 1);
  }

  lemma RegroupRight(a: nat, r: nat, h: int, b: nat, p: nat, s: nat)
    requires p * s == W32
    ensures p * a + r + (p * h + b) * W32 == p * (a + b * s + h * W32) + r
  {
    MulAdd(p, a + b * s, h * W32);
    MulAdd(p, a, b * s);
    assert p * (b * s) == (p * s) * b;
    assert p * (h * W32) == (p * h) * W32;
  }

  /** Division that rounds down, of a negative number too. */
  lemma FloorUnique(a: int, d: nat, q: int, r: int)
    requires d > 0 && a == d * q + r && 0 <= r < d
    ensures q == a / d && r == a % d
  {
    var q', r' := a / d, a % d;
    assert a == d * q' + r';
    if q < q' {
      MulMono(d, q + 1, q');
      MulAdd(d, q, 1);
    } else if q' < q {
      MulMono(d, q' + 1, q);
      MulAdd(d, q', 1);
    }
  }

  lemma WordPowers(k: nat)
    requires k <= 32
    ensures Pow2(k) > 0 && Pow2(32 - k) > 0 && Pow2(k) * Pow2(32 - k) == W32
  {
    hide Pow;
    AllOnes();
    PowPos(2, k);
    PowPos(2, 32 - k);
    PowAdd(2, k, 32 - k);
  }

  lemma LongPower(k: nat)
    requires 32 <= k < 64
    ensures 0 < Pow2(k - 32) <= W32 && Pow2(k) == Pow2(k - 32) * W32
  {
    hide Pow;
    AllOnes();
    PowPos(2, k - 32);
    PowAdd(2, k - 32, 32);
    PowMono(2, k - 32, 32);
  }

  lemma OrBelow(a: nat, b: nat)
    requires a < W32 && b < W32
    ensures Or(a, b) < W32
  {
    hide Or, Pow;
    AllOnes();
    OrBound(a, b, 32);
  }

  lemma {:induction false} OrBound(a: nat, b: nat, k: nat)
    requires a < Pow2(k) && b < Pow2(k)
    ensures Or(a, b) < Pow2(k)
  {
    if k > 0 && a != 0 && b != 0 {
      OrBound(a / 2, b / 2, k - 1);
    }
  }

  ghost predicate Junk(junk: seq<nat>) {
    |junk| == 5 && junk[0] < W32 && junk[1] < W32 && junk[2] < W32 && junk[3] < W32 && junk[4] < W32
  }

  lemma LeftSmall(lo: nat, hi: nat, k: nat, signedRight: bool, junk: seq<nat>)
    requires lo < W32 && hi < W32 && k < 32 && Junk(junk)
    ensures var high := Or(Ishl(hi, k, junk[2]), if k == 0 then 0 else Ushr(lo, (32 - k) % W32, junk[1]));
      high < W32 && Ishl(lo, k, junk[0]) + high * W32 == ShiftSpec(lo + hi * W32, k, signedRight, true)
  {
    hide Or, Pow;
    var p, s := Pow2(k), Pow2(32 - k);
    WordPowers(k);
    CarryUp(lo, hi, k, p, s);
    LeftParts(lo, hi, p, s);
  }

  /** The high word of a left shift: what is left of hi, joined with the bits that lo gives up. */
  lemma CarryUp(lo: nat, hi: nat, k: nat, p: nat, s: nat)
    requires lo < W32 && hi < W32 && k < 32 && p == Pow2(k) && s == Pow2(32 - k) && p > 0 && s > 0 && p * s == W32
    ensures Or(hi * p % W32, if k == 0 then 0 else lo / s) == hi % s * p + lo / s
  {
    hide Or, Pow;
    ScaledParts(lo, p, s);
    ScaledParts(hi, p, s);
    OrDisjoint(hi % s, lo / s, k);
    if k == 0 {
      PowZero(2);
    }
  }

  lemma LeftLarge(lo: nat, hi: nat, k: nat, signedRight: bool, junk: seq<nat>)
    requires lo < W32 && hi < W32 && 32 <= k < 64 && Junk(junk)
    ensures Ishl(lo, (k - 32) % W32, junk[3]) * W32 == ShiftSpec(lo + hi * W32, k, signedRight, true)
  {
    hide Pow;
    LongPower(k);
    LongLeft(lo, hi, Pow2(k - 32));
  }

  lemma LongLeft(lo: nat, hi: nat, q: nat)
    ensures (lo + hi * W32) * (q * W32) % W64 == lo * q % W32 * W32
  {
    DivMod(lo * q, W32);
    assert (lo + hi * W32) * (q * W32) == lo * q * W32 + hi * q * W64 by {
      assert (lo + hi * W32) * (q * W32) == ((lo + hi * W32) * q) * W32;
      assert (lo + hi * W32) * q == lo * q + (hi * W32) * q;
      assert (hi * W32) * q == hi * q * W32;
    }
    DivUnique((lo + hi * W32) * (q * W32), W64, lo * q / W32 + hi * q, lo * q % W32 * W32);
  }

  lemma RightSmall(lo: nat, hi: nat, k: nat, signedRight: bool, junk: seq<nat>)
    requires lo < W32 && hi < W32 && k < 32 && Junk(junk)
    ensures var low := Or(Ushr(lo, k, junk[0]), if k == 0 then 0 else Ishl(hi, (32 - k) % W32, junk[1]));
      var high := if signedRight then Sshr(hi, k, junk[2]) else Ushr(hi, k, junk[2]);
      low < W32 && low + high * W32 == ShiftSpec(lo + hi * W32, k, signedRight, false)
  {
    hide Or, Pow, Signed32, AsSigned, Floored;
    WordPowers(k);
    ShortRight(lo, hi, k, Pow2(k), Pow2(32 - k));
  }

  lemma ShortRight(lo: nat, hi: nat, k: nat, p: nat, s: nat)
    requires lo < W32 && hi < W32 && k < 32 && p == Pow2(k) && s == Pow2(32 - k) && p > 0 && s > 0 && p * s == W32
    ensures 0 <= Floored(lo, p)
    ensures var low := Or(Floored(lo, p), if k == 0 then 0 else hi * s % W32);
      && low < W32 && Floored(lo + hi * W32, p) == low + Floored(hi, p) * W32
      && Floored(AsSigned(lo + hi * W32), p) % W64 == low + Floored(Signed32(hi), p) % W32 * W32
  {
    hide Or, Pow, Signed32, AsSigned;
    CarryDown(lo, hi, k, p, s);
    RightParts(lo, hi, p, s);
    Shrinks(lo, p);
    SignedWords(lo, hi);
    SameRemainder(hi, p, s);
    RightParts(lo, Signed32(hi), p, s);
    WrapHigh(lo / p + hi % p * s, Signed32(hi) / p);
  }

  lemma SameRemainder(hi: nat, p: nat, s: nat)
    requires hi < W32 && p > 0 && p * s == W32
    ensures Signed32(hi) % p == hi % p
  {
    ShareRemainder(hi, p, s);
  }

  /** The low word of a right shift: what is left of lo, joined with the bits that hi gives up. */
  lemma CarryDown(lo: nat, hi: nat, k: nat, p: nat, s: nat)
    requires lo < W32 && hi < W32 && k < 32 && p == Pow2(k) && s == Pow2(32 - k) && p > 0 && s > 0 && p * s == W32
    ensures Or(lo / p, if k == 0 then 0 else hi * s % W32) == lo / p + hi % p * s
  {
    hide Or, Pow;
    ScaledParts(hi, s, p);
    MulCommutes(s, p);
    DivMod(lo, p);
    MulCancelStrict(p, lo / p, s);
    OrCommutes(lo / p, hi % p * s);
    OrDisjoint(hi % p, lo / p, 32 - k);
    if k == 0 {
      PowZero(2);
      assert hi % p == 0;
    }
  }

  lemma MulCommutes(a: nat, b: nat)
    ensures a * b == b * a
  {
  }

  lemma SignedWords(lo: nat, hi: nat)
    requires lo < W32 && hi < W32
    ensures lo + hi * W32 < W64 && AsSigned(lo + hi * W32) == lo + Signed32(hi) * W32
  {
  }

  lemma ShareRemainder(hi: nat, p: nat, s: nat)
    requires p > 0 && p * s == W32
    ensures (hi - W32) % p == hi % p && 0 <= hi / p <= hi
  {
    assert hi - W32 == p * (hi / p - s) + hi % p by {
      MulAdd(p, hi / p, s);
      DivMod(hi, p);
    }
    FloorUnique(hi - W32, p, hi / p - s, hi % p);
    QuotientBelow(hi, p);
  }

  lemma WrapHigh(low: nat, h: int)
    requires low < W32
    ensures (low + h * W32) % W64 == low + h % W32 * W32
  {
    FloorUnique(low + h * W32, W64, h / W32, low + h % W32 * W32);
  }

  lemma RightLarge(lo: nat, hi: nat, k: nat, signedRight: bool, junk: seq<nat>)
    requires lo < W32 && hi < W32 && 32 <= k < 64 && Junk(junk)
    ensures var extra := (k - 32) % W32;
      (if signedRight then Sshr(hi, extra, junk[3]) + Sshr(hi, 31, junk[4]) * W32 else Ushr(hi, extra, junk[3]))
      == ShiftSpec(lo + hi * W32, k, signedRight, false)
  {
    hide Pow, Signed32, AsSigned, Floored;
    LongPower(k);
    HalfPower();
    LongRight(lo, hi, Pow2(k - 32));
  }

  lemma LongRight(lo: nat, hi: nat, q: nat)
    requires lo < W32 && hi < W32 && q > 0
    ensures lo + hi * W32 < W64 && Floored(lo + hi * W32, q * W32) == Floored(hi, q)
    ensures Floored(AsSigned(lo + hi * W32), q * W32) % W64
         == Floored(Signed32(hi), q) % W32 + Floored(Signed32(hi), HALF32) % W32 * W32
  {
    hide Signed32, AsSigned;
    SignedWords(lo, hi);
    FloorFloor(lo, Signed32(hi), q);
    SignFill(hi, q);
    FloorFloor(lo, hi, q);
  }

  lemma HalfPower()
    ensures Pow2(31) == HALF32
  {
    AllOnes();
    assert Pow(2, 32) == 2 * Pow(2, 31);
  }

  lemma FloorFloor(lo: nat, h: int, q: nat)
    requires lo < W32 && q > 0
    ensures (lo + h * W32) / (q * W32) == h / q
  {
    MulMono(W32, h % q + 1, q);
    MulAdd(W32, h % q, 1);
    assert h * W32 == (q * W32) * (h / q) + h % q * W32 by {
      assert h == q * (h / q) + h % q;
      assert (q * (h / q)) * W32 == (q * W32) * (h / q);
    }
    FloorUnique(lo + h * W32, q * W32, h / q, lo + h % q * W32);
  }

  lemma SignFill(hi: nat, q: nat)
    requires hi < W32 && q > 0
    ensures (Signed32(hi) / q) % W64
         == (Signed32(hi) / q) % W32 + (Signed32(hi) / HALF32) % W32 * W32
  {
    var h := Signed32(hi);
    if h >= 0 {
      QuotientBelow(h, q);
    } else {
      NegativeQuotient(h, q);
      FloorUnique(h / q, W64, -1, h / q + W64);
      FloorUnique(h / q, W32, -1, h / q + W32);
      FloorUnique(h, HALF32, -1, h + HALF32);
    }
  }

  lemma NegativeQuotient(h: int, q: nat)
    requires -(HALF32 as int) <= h < 0 && q > 0
    ensures -(HALF32 as int) <= h / q < 0
  {
    assert h == q * (h / q) + h % q;
    if h / q >= 0 {
      MulMono(q, 0, h / q);
    } else {
      MulMono(h % q, 0, 1);
      if h / q < -(HALF32 as int) {
        MulMono(q, h / q, -(HALF32 as int) - 1);
        MulAdd(q, -(HALF32 as int), -1);
        MulMono(HALF32, 1, q);
      }
    }
  }
}
