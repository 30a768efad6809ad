/** What the loops over pairs of words keep. */
module WordSteps {
  import opened Powers
  import opened Words
  import opened SoftFloat

  // ---------------------------------------------------------------- words at a time

  /** One place to the left, with a bit shifted in and one out. */
  lemma ShiftIn(w: Words64, bit: nat)
    requires Valid(w) && bit < 2
    ensures var r := Words64(Or(w.low * 2 % W32, bit), Or(w.high * 2 % W32, w.low / HALF32));
      Valid(r) && w.high / HALF32 < 2 && w.high / HALF32 * W64 + Value(r) == 2 * Value(w) + bit
    ensures Or(w.low * 2 % W32, 0) == w.low * 2 % W32
  {
    hide Or;
    WordTop(w.low);
    WordTop(w.high);
    OrBit(w.low * 2 % W32, bit);
    OrBit(w.low * 2 % W32, 0);
    OrBit(w.high * 2 % W32, w.low / HALF32);
  }

  lemma WordTop(v: nat)
    requires v < W32
    ensures v / HALF32 < 2 && v / HALF32 * W32 + v * 2 % W32 == 2 * v && v * 2 % W32 < W32 && (v * 2 % W32) % 2 == 0
  {
  }

  lemma AddWords(a: Words64, b: Words64)
    requires Valid(a) && Valid(b) && Value(a) + Value(b) < W64
    ensures var low := (a.low + b.low) % W32;
      var r := Words64(low, (a.high + b.high + if low < a.low then 1 else 0) % W32);
      Valid(r) && Value(r) == Value(a) + Value(b)
  {
  }

  lemma SubtractWords(a: Words64, b: Words64)
    requires Valid(a) && Valid(b)
    ensures var borrow := if a.low < b.low then 1 else 0;
      var r := Words64((a.low - b.low) % W32, (a.high - b.high - borrow) % W32);
      Valid(r) && Value(r) == if Value(a) >= Value(b) then Value(a) - Value(b) else Value(a) - Value(b) + W64
  {
  }

  lemma CompareWords(a: Words64, b: Words64)
    requires Valid(a) && Valid(b)
    ensures Value(a) >= Value(b) <==> a.high > b.high || (a.high == b.high && a.low >= b.low)
  {
  }

  /** The carry and the comparison of words compare all 65 bits, and subtracting words is exact. */
  lemma WideSubtract(big: nat, carry: nat, r: nat, d: nat, difference: nat)
    requires carry * W64 + r == big < 2 * d && carry < 2 && r < W64 && d < W64
    requires difference == if r >= d then r - d else r - d + W64
    ensures carry != 0 || r >= d <==> big >= d
    ensures big >= d ==> difference == big - d
  {
  }

  lemma RemainderBelow(n: nat, d: nat, num: nat, q: nat, r: nat, i: nat)
    requires Restoring(n, d, num, q, r, i)
    ensures r < d
  {
  }

  lemma EvenLow(q: Words64, half: nat)
    requires Valid(q) && Value(q) == 2 * half
    ensures q.low % 2 == 0
  {
  }

  lemma WordValue(a: nat)
    requires a < W32
    ensures Valid(Words64(a, 0)) && Value(Words64(a, 0)) == a && Valid(Words64(0, 0)) && Value(Words64(0, 0)) == 0
    ensures Scale(a, 0) == a
  {
  }

  lemma SetLow(q: Words64)
    requires Valid(q) && q.low % 2 == 0
    ensures Valid(q.(low := q.low + 1)) && Value(q.(low := q.low + 1)) == Value(q) + 1
  {
  }

  lemma OrNothing(a: nat, b: nat)
    ensures Or(a, b) == 0 <==> a == 0 && b == 0
  {
  }

  // ---------------------------------------------------------------- multiplication

  /** result + a * b is the product; a is a0 shifted i times. */
  ghost predicate Multiplying(a0: nat, b0: nat, result: nat, a: nat, b: nat, i: nat) {
    a == Scale(a0, i) && result + a * b == a0 * b0 && Scale(b, i) <= b0
  }

  lemma ProductBound(a: nat, b: nat)
    requires a < W32 && b < W32
    ensures a * b < W64
  {
    MulMono(a, b, W32 - 1);
  }

  lemma MulTurn(a0: nat, b0: nat, result: nat, a: nat, b: nat, i: nat)
    requires a0 < W32 && b0 < W32 && b > 0 && Multiplying(a0, b0, result, a, b, i)
    ensures i < 32 && a < HALF64 && (b % 2 == 1 ==> result + a < W64)
    ensures Multiplying(a0, b0, if b % 2 == 1 then result + a else result, 2 * a, b / 2, i + 1)
  {
    ScaleMono(1, b, i);
    ScaleSteps(i);
    if i >= 32 {
      ScaleGrows(1, 32, i);
    }
    ScaleGrows(1, i, 31);
    ScaleProduct(a0, i);
    ScaleProduct(1, i);
    MulMono(a0, Scale(1, i), HALF32);
    ProductBound(a0, b0);
    MulHalves(a, b);
    ScaleHalf(b, i);
  }

  lemma ScaleSteps(i: nat)
    ensures Scale(1, 31) == HALF32 && Scale(1, 32) == W32 && Scale(1, 63) == HALF64 && Scale(1, 64) == W64
  {
    assert Scale(1, 8) == 0x100;
    ScaleProduct(1, 8);
    ScaleAdd(1, 8, 8);
    ScaleProduct(0x100, 8);
    ScaleAdd(1, 16, 16);
    ScaleProduct(1, 16);
    ScaleProduct(0x1_0000, 16);
    ScaleAdd(1, 32, 32);
    ScaleProduct(1, 32);
    ScaleProduct(W32, 32);
  }

  lemma MulHalves(a: nat, b: nat)
    requires b > 0
    ensures a * b >= a
    ensures a * b == (if b % 2 == 1 then a else 0) + (2 * a) * (b / 2)
  {
    MulMono(a, 1, b);
    var h := b / 2;
    assert b == 2 * h + b % 2;
    assert a * (2 * h) == (2 * a) * h;
    MulAdd(a, 2 * h, b % 2);
  }

  lemma ScaleHalf(b: nat, i: nat)
    ensures Scale(b / 2, i + 1) <= Scale(b, i)
  {
    ScaleAdd(b / 2, 1, i);
    assert Scale(b / 2, 1) == 2 * (b / 2);
    ScaleMono(2 * (b / 2), b, i);
  }

  /** The low half of a product from products of words. */
  lemma ProductWords(a: Words64, b: Words64, p: Words64, out: Words64)
    requires Valid(a) && Valid(b) && Valid(p) && Value(p) == a.low * b.low
    requires out == Words64(p.low, (p.high + a.high * b.low % W32 + a.low * b.high % W32) % W32)
    ensures Valid(out) && Value(out) == (Value(a) * Value(b)) % W64
  {
    var x, y, z := a.high * b.low, a.low * b.high, a.high * b.high;
    var s := p.high + x % W32 + y % W32;
    var k := s / W32 + x / W32 + y / W32 + z;
    Expand(a.low, a.high, b.low, b.high);
    assert Value(a) * Value(b) == k * W64 + Value(out);
    DivUnique(Value(a) * Value(b), W64, k, Value(out));
  }

  lemma Expand(al: nat, ah: nat, bl: nat, bh: nat)
    ensures (al + ah * W32) * (bl + bh * W32) == al * bl + (ah * bl + al * bh) * W32 + (ah * bh) * W64
  {
    var x, y := ah * W32, bh * W32;
    assert (al + x) * (bl + y) == al * bl + al * y + x * bl + x * y;
    assert al * y == (al * bh) * W32;
    assert x * bl == (ah * bl) * W32;
    assert x * y == (ah * bh) * W64 by {
      assert x * (bh * W32) == (x * bh) * W32;
      assert x * bh == (ah * bh) * W32;
    }
  }

  // ---------------------------------------------------------------- restoring division

  /** The i leading bits of the numerator are divided; the others are still in num. */
  ghost predicate Restoring(n: nat, d: nat, num: nat, q: nat, r: nat, i: nat) {
    Scale(n, i) == (q * d + r) * W64 + num && r < d && q < Scale(1, i) && num < W64
  }

  lemma DivStart(n: nat, d: nat)
    requires n < W64 && d > 0
    ensures Restoring(n, d, n, 0, 0, 0)
  {
  }

  /** One bit more. `big` has up to 65 bits. */
  lemma DivTurn(n: nat, d: nat, num: nat, q: nat, r: nat, i: nat, bit: nat, num': nat)
    requires Restoring(n, d, num, q, r, i) && i < 64 && d < W64
    requires bit < 2 && num' < W64 && bit * W64 + num' == 2 * num
    ensures q < HALF64
    ensures var big := 2 * r + bit;
      if big >= d then Restoring(n, d, num', 2 * q + 1, big - d, i + 1) else Restoring(n, d, num', 2 * q, big, i + 1)
  {
    ScaleGrows(1, i, 63);
    ScaleSteps(i);
    assert (2 * q) * d == 2 * (q * d);
    MulAdd(d, 2 * q, 1);
    assert (2 * q + 1) * d == 2 * (q * d) + d;
  }

  lemma DivEnd(n: nat, d: nat, num: nat, q: nat, r: nat)
    requires n < W64 && Restoring(n, d, num, q, r, 64)
    ensures n == q * d + r
  {
    ScaleSteps(0);
    ScaleProduct(n, 64);
    ScaleProduct(1, 64);
    assert Scale(n, 64) == n * W64;
    DivUnique(n * W64, W64, n, 0);
    DivUnique(n * W64, W64, q * d + r, num);
  }

  // ---------------------------------------------------------------- negation

  /** Complement and increment, word by word. */
  lemma NegateWords(w: Words64)
    requires Valid(w)
    ensures var low := (W32 - 1 - w.low + 1) % W32;
      var r := Words64(low, (W32 - 1 - w.high + if low == 0 then 1 else 0) % W32);
      Valid(r) && Value(r) == Negated(Value(w))
  {
  }

  lemma MagnitudeAbs(v: nat)
    requires v < W64
    ensures Magnitude(v) == Abs(AsSigned(v)) && (v / HALF64 != 0 <==> AsSigned(v) < 0)
    ensures Magnitude(v) == if v / HALF64 != 0 then Negated(v) else v
  {
  }

  /** Signs put back on quotient and remainder of magnitudes, in two's complement. */
  lemma SignedResult(n: nat, d: nat, q: nat, r: nat)
    requires n < W64 && d < W64 && q < W64 && r < W64 && d != 0 && !(AsSigned(n) == -(HALF64 as int) && AsSigned(d) == -1)
    requires Magnitude(n) == q * Magnitude(d) + r && r < Magnitude(d)
    ensures AsSigned(d) != 0
    ensures Truncates(AsSigned(n), AsSigned(d),
              AsSigned(if (AsSigned(n) < 0) != (AsSigned(d) < 0) then Negated(q) else q),
              AsSigned(if AsSigned(n) < 0 then Negated(r) else r))
  {
    MagnitudeAbs(n);
    MagnitudeAbs(d);
    SignsBack(AsSigned(n), AsSigned(d), q, r);
    MulMono(q, 1, Magnitude(d));
    if q >= HALF64 && Magnitude(d) > 1 {
      MulMono(q, 2, Magnitude(d));
    }
  }

  // ---------------------------------------------------------------- shifting with a sticky bit

  lemma OrOneWord(k: nat, sticky: bool)
    ensures Or(k, if sticky then 1 else 0) == if sticky then OrOne(k) else k
  {
    OrSame(k);
  }

  /** v as p * quotient + remainder when words are shifted by less than their width. */
  lemma ShiftParts(low: nat, high: nat, p: nat, s: nat)
    requires low < W32 && high < W32 && p > 0 && s > 0 && p * s == W32
    ensures high * s % W32 == (high % p) * s && low * s % W32 == (low % p) * s
    ensures low / p < s && (low % p) * s < W32
    ensures (low + high * W32) / p == low / p + (high % p) * s + (high / p) * W32
    ensures (low + high * W32) % p == low % p
    ensures low * s % W32 != 0 <==> low % p != 0
  {
    ShiftedOut(high, p, s, W32);
    ShiftedOut(low, p, s, W32);
    DivMod(low, p);
    DivMod(high, p);
    HighTimes(high % p, high / p, p, s);
    MulAdd(p, low / p, (high % p) * s + (high / p) * W32);
    DivUnique(low + high * W32, p, low / p + ((high % p) * s + (high / p) * W32), low % p);
    MulCancelStrict(p, low / p, s);
    if low % p != 0 {
      MulMono(s, 1, low % p);
    }
  }

  lemma HighTimes(a: nat, b: nat, p: nat, s: nat)
    requires p * s == W32
    ensures (p * b + a) * W32 == p * (a * s + b * W32)
  {
    assert a * (p * s) == p * (a * s);
    assert (p * b) * W32 == p * (b * W32);
    MulAdd(p, a * s, b * W32);
  }

  lemma ShiftedOut(x: nat, p: nat, s: nat, whole: nat)
    requires p > 0 && s > 0 && p * s == whole
    ensures x * s % whole == (x % p) * s && (x % p) * s < whole
  {
    DivMod(x, p);
    MulStrictMono(s, x % p, p);
    assert x * s == (x / p) * whole + (x % p) * s by {
      assert (p * (x / p)) * s == (p * s) * (x / p);
    }
    DivUnique(x * s, whole, x / p, (x % p) * s);
  }

  lemma WordPower(k: nat)
    requires k <= 32
    ensures Pow2(k) > 0 && Pow2(32 - k) > 0 && Pow2(k) * Pow2(32 - k) == W32
    ensures k < 32 ==> Pow2(k) < W32
  {
    PowPos(2, k);
    PowPos(2, 32 - k);
    PowAdd(2, k, 32 - k);
    ScaleSteps(0);
    ScaleProduct(1, 32);
    if k < 32 {
      PowStrictMono(2, k, 32);
    }
  }

  /** The words shifted right by less than their width, p being the power shifted by and s the one
      that is left, with a sticky bit. */
  function ShiftedWords(v: Words64, p: nat, s: nat): Words64
    requires p > 0
  {
    Words64(Or(Or(v.low / p, v.high * s % W32), if v.low * s % W32 != 0 then 1 else 0), v.high / p)
  }

  /** 0 < distance < 32. */
  lemma JamSmall(v: Words64, k: nat)
    requires Valid(v) && 0 < k < 32
    ensures Pow2(k) > 0 && Valid(ShiftedWords(v, Pow2(k), Pow2(32 - k)))
    ensures Value(ShiftedWords(v, Pow2(k), Pow2(32 - k))) == Jam(Value(v), Pow2(k))
  {
    hide Or, Pow, Jam;
    WordPower(k);
    EvenPower(32 - k);
    var p, s := Pow2(k), Pow2(32 - k);
    ShiftParts(v.low, v.high, p, s);
    OrCommutes(v.low / p, (v.high % p) * s);
    OrDisjoint(v.high % p, v.low / p, 32 - k);
    JamJoined(v, p, s);
  }

  lemma EvenPower(k: nat)
    requires k > 0
    ensures Pow2(k) % 2 == 0
  {
  }

  lemma JamJoined(v: Words64, p: nat, s: nat)
    requires Valid(v) && p > 0 && s > 0 && p * s == W32 && s % 2 == 0
    requires Or(v.low / p, (v.high % p) * s) == (v.high % p) * s + v.low / p
    ensures Valid(ShiftedWords(v, p, s)) && Value(ShiftedWords(v, p, s)) == Jam(Value(v), p)
  {
    hide Or, Jam;
    ShiftParts(v.low, v.high, p, s);
    KeptBounds(v.low / p, v.high, p, s);
    JamAssemble(v, p, (v.high % p) * s + v.low / p, v.high / p, v.low * s % W32 != 0);
  }

  lemma JamAssemble(v: Words64, p: nat, x: nat, y: nat, sticky: bool)
    requires Valid(v) && p > 0 && Value(v) / p == x + y * W32 && (sticky <==> Value(v) % p != 0) && x < W32 && y < W32
    ensures var r := Words64(Or(x, if sticky then 1 else 0), y); Valid(r) && Value(r) == Jam(Value(v), p)
  {
    hide Or, OrOne;
    OrOneWord(x, sticky);
    KeptEven(x, y);
  }

  lemma KeptBounds(l: nat, high: nat, p: nat, s: nat)
    requires p > 0 && p * s == W32 && l < s && high < W32
    ensures (high % p) * s + l < W32 && high / p < W32
  {
    MulMono(s, high % p + 1, p);
    DivMod(high, p);
    MulMono(high / p, 1, p);
  }

  /** The sticky bit stays in the low word. */
  lemma KeptEven(low: nat, high: nat)
    requires low < W32
    ensures OrOne(low) < W32 && OrOne(low + high * W32) == OrOne(low) + high * W32
  {
    SameParity(low, high * HALF32);
  }

  lemma SameParity(x: nat, k: nat)
    ensures (x + 2 * k) % 2 == x % 2
  {
  }

  lemma {:induction false} OrCommutes(a: nat, b: nat)
    ensures Or(a, b) == Or(b, a)
  {
    if a != 0 && b != 0 {
      OrCommutes(a / 2, b / 2);
    }
  }

  lemma LargeParts(v: Words64, k: nat)
    requires Valid(v) && 32 <= k < 64
    ensures Pow2(k - 32) > 0 && Pow2(k) > 0
    ensures var p := Pow2(k - 32);
      Value(v) / Pow2(k) == v.high / p && Value(v) % Pow2(k) == (v.high % p) * W32 + v.low && v.high / p < W32
  {
    hide Pow;
    var p := Pow2(k - 32);
    PowPos(2, k - 32);
    PowPos(2, k);
    PowAdd(2, k - 32, 32);
    ScaleSteps(0);
    ScaleProduct(1, 32);
    DivMod(v.high, p);
    MulMono(W32, v.high % p + 1, p);
    assert (p * (v.high / p)) * W32 == (p * W32) * (v.high / p);
    DivUnique(Value(v), p * W32, v.high / p, (v.high % p) * W32 + v.low);
    MulMono(v.high / p, 1, p);
  }

  lemma JamWord(v: Words64)
    requires Valid(v)
    ensures Pow2(32) > 0
    ensures var low := Or(v.high, if v.low != 0 then 1 else 0); low < W32 && low == Jam(Value(v), Pow2(32))
  {
    hide Pow, Or;
    LargeParts(v, 32);
    PowZero(2);
    OrOneWord(v.high, v.low != 0);
    KeptEven(v.high, 0);
  }

  /** 32 < distance < 64. */
  lemma JamLarge(v: Words64, k: nat)
    requires Valid(v) && 32 < k < 64
    ensures Pow2(k - 32) > 0 && Pow2(k) > 0
    ensures var p, s := Pow2(k - 32), Pow2(64 - k);
      var low := Or(v.high / p, if v.high * s % W32 != 0 || v.low != 0 then 1 else 0);
      low < W32 && low == Jam(Value(v), Pow2(k))
  {
    hide Pow, Or;
    var p, s := Pow2(k - 32), Pow2(64 - k);
    LargeParts(v, k);
    WordPower(k - 32);
    ShiftedOut(v.high, p, s, W32);
    if v.high % p != 0 {
      MulMono(s, 1, v.high % p);
      MulMono(W32, 1, v.high % p);
    }
    OrOneWord(v.high / p, v.high * s % W32 != 0 || v.low != 0);
    KeptEven(v.high / p, 0);
  }

  lemma BeyondWords(v: nat, k: nat)
    requires v < W64 && k >= 64
    ensures Pow2(k) > 0 && Jam(v, Pow2(k)) == if v != 0 then 1 else 0
  {
    hide Pow;
    ScaleSteps(0);
    ScaleProduct(1, 64);
    PowMono(2, 64, k);
    DivUnique(v, Pow2(k), 0, v);
  }
}
