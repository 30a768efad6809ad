/** The carry and borrow loops of runtime/decimal/bigint.h as functions on word sequences,
    each with the number it computes. The methods of CdBig run these loops in place. */
module WordLoops {
  import opened Powers
  import opened Limbs

  const HALF: nat := 0x1_0000

  /** The words a loop has produced and what it hands to the next word. */
  datatype Carried = Carried(words: seq<Word>, carry: nat)

  function Init(s: seq<Word>): seq<Word>
    requires s != []
  {
    s[..|s| - 1]
  }

  function Last(s: seq<Word>): Word
    requires s != []
  {
    s[|s| - 1]
  }

  lemma ValInitLast(s: seq<Word>)
    requires s != []
    ensures Val(s) == Val(Init(s)) + Last(s) * W(|s| - 1)
  {
    ValTop(s);
  }

  // ---------------------------------------------------------------- multiplication by a small number

  /** One word of a product from 16-bit halves, exact for multipliers up to 2^16. */
  function MulStep(x: Word, b: nat, carry: nat): (r: (Word, nat))
    requires b <= HALF && carry < HALF
    ensures r.1 < HALF
    ensures r.0 + r.1 * WORD == x * b + carry
  {
    MulHalf(x % HALF, b, carry);
    var lo := ((x % HALF) * b + carry) % WORD;
    MulHalf(x / HALF, b, lo / HALF);
    var hi := ((x / HALF) * b + lo / HALF) % WORD;
    MulJoin(x, b, carry, lo, hi);
    (lo % HALF + hi * HALF % WORD, hi / HALF)
  }

  lemma MulHalf(h: nat, b: nat, c: nat)
    requires h < HALF && b <= HALF && c < HALF
    ensures 0 <= h * b + c < WORD
  {
    MulMono(h, 0, b);
    MulMono(b, h, 0xffff);
    var t := h * b;
    assert 0 <= t <= 0xffff * b;
  }

  /** A word moved up by half a word: what stays, and what moves out. */
  lemma HighHalf(hi: nat)
    requires hi < WORD
    ensures hi / HALF < HALF && hi * HALF % WORD == hi % HALF * HALF
    ensures hi * HALF == hi / HALF * WORD + hi % HALF * HALF
  {
    assert hi == hi / HALF * HALF + hi % HALF;
    DivUnique(hi * HALF, WORD, hi / HALF, hi % HALF * HALF);
  }

  lemma HalfProduct(l: nat, h: nat, b: nat)
    ensures (l + HALF * h) * b == l * b + HALF * (h * b)
  {
    MulAdd(b, l, HALF * h);
    var t := h * b;
    assert b * (HALF * h) == HALF * t;
  }

  lemma LowHalf(lo: nat, t: nat, carry: nat, product: nat)
    requires lo == product + carry
    ensures lo % HALF + (t + lo / HALF) * HALF == product + HALF * t + carry
  {
  }

  lemma MulJoin(x: Word, b: nat, carry: nat, lo: nat, hi: nat)
    requires carry < HALF && lo < WORD && hi < WORD
    requires lo == (x % HALF) * b + carry && hi == (x / HALF) * b + lo / HALF
    ensures hi / HALF < HALF
    ensures 0 <= lo % HALF + hi * HALF % WORD < WORD
    ensures lo % HALF + hi * HALF % WORD + hi / HALF * WORD == x * b + carry
  {
    var h, l := x / HALF, x % HALF;
    var t := h * b;
    HalfProduct(l, h, b);
    HighHalf(hi);
    LowHalf(lo, t, carry, l * b);
  }

  function MulWords(s: seq<Word>, b: nat): (r: Carried)
    requires b <= HALF
    ensures |r.words| == |s| && r.carry < HALF
    ensures Val(r.words) + r.carry * W(|s|) == Val(s) * b
    decreases |s|
  {
    if s == [] then
      Carried([], 0)
    else
      var p := MulWords(Init(s), b);
      var (x, carry) := MulStep(Last(s), b, p.carry);
      MulGrow(p, s, x, carry, b);
      Carried(p.words + [x], carry)
  }

  lemma MulGrow(p: Carried, s: seq<Word>, x: Word, carry: nat, b: nat)
    requires s != [] && |p.words| == |s| - 1
    requires Val(p.words) + p.carry * W(|s| - 1) == Val(Init(s)) * b
    requires x + carry * WORD == Last(s) * b + p.carry
    ensures Val(p.words + [x]) + carry * W(|s|) == Val(s) * b
  {
    ValSnoc(p.words, x);
    ValInitLast(s);
    WeighProduct(Val(p.words), x, p.carry, carry, Val(Init(s)), Last(s), b, W(|s| - 1));
  }

  lemma WeighProduct(v: nat, x: nat, c: nat, carry: nat, low: nat, y: nat, b: nat, p: nat)
    requires v + c * p == low * b
    requires x + carry * WORD == y * b + c
    ensures v + x * p + carry * (WORD * p) == (low + y * p) * b
  {
    calc {
      v + x * p + carry * (WORD * p);
      v + (x + carry * WORD) * p;
      v + (y * b + c) * p;
      v + c * p + y * b * p;
      low * b + y * b * p;
      { assert y * b * p == y * p * b; }
      low * b + y * p * b;
      (low + y * p) * b;
    }
  }

  // ---------------------------------------------------------------- adding one word

  /** A 32-bit sum of two words. */
  function WrapAdd(x: Word, y: Word): Word {
    if x + y < WORD then x + y else x + y - WORD
  }

  function AddWords(s: seq<Word>, b: Word): (r: seq<Word>)
    ensures Val(r) == Val(s) + b
    ensures |s| <= |r| <= |s| + 1
    ensures |r| > |s| && (s != [] || b != 0) ==> Last(r) != 0
    decreases |s|
  {
    if s == [] then
      ValOne(b);
      [b]
    else
      var x := WrapAdd(s[0], b);
      var t := if x < s[0] then AddWords(s[1..], 1) else s[1..];
      assert ([x] + t)[1..] == t;
      assert s[0] + b == x + (if x < s[0] then WORD else 0);
      [x] + t
  }

  // ---------------------------------------------------------------- subtraction

  function WordAt(b: seq<Word>, i: nat): Word {
    if i < |b| then b[i] else 0
  }

  /** The value of the first i words, reading zeros beyond the end. */
  function LowVal(b: seq<Word>, i: nat): nat {
    Val(if i < |b| then b[..i] else b)
  }

  lemma LowValNext(b: seq<Word>, i: nat)
    ensures LowVal(b, i + 1) == LowVal(b, i) + WordAt(b, i) * W(i)
  {
    if i < |b| {
      ValTake(b, i);
      assert i + 1 == |b| ==> b[..i + 1] == b;
    }
  }

  function SubStep(old_: Word, word: Word, borrow: nat): (r: (Word, nat))
    requires borrow <= 1
    ensures r.1 <= 1
    ensures r.0 + word + borrow == old_ + r.1 * WORD
  {
    ((old_ - word - borrow) % WORD, if old_ < word || (borrow == 1 && old_ == word) then 1 else 0)
  }

  /** a minus the first |a| words of b, with the borrow out of the top. */
  function SubWords(a: seq<Word>, b: seq<Word>): (r: Carried)
    ensures |r.words| == |a| && r.carry <= 1
    ensures Val(r.words) + LowVal(b, |a|) == Val(a) + r.carry * W(|a|)
    decreases |a|
  {
    if a == [] then
      assert LowVal(b, 0) == 0;
      Carried([], 0)
    else
      var i := |a| - 1;
      var p := SubWords(Init(a), b);
      var (x, borrow) := SubStep(a[i], WordAt(b, i), p.carry);
      LowValNext(b, i);
      ValSnoc(p.words, x);
      ValInitLast(a);
      WeighBorrow(x, WordAt(b, i), p.carry, a[i], borrow, W(i));
      Carried(p.words + [x], borrow)
  }

  lemma WeighBorrow(x: nat, word: nat, borrow: nat, old_: nat, borrow': nat, p: nat)
    requires x + word + borrow == old_ + borrow' * WORD
    ensures x * p + word * p + borrow * p == old_ * p + borrow' * (WORD * p)
  {
    calc {
      x * p + word * p + borrow * p;
      (x + word + borrow) * p;
      (old_ + borrow' * WORD) * p;
      old_ * p + borrow' * WORD * p;
      old_ * p + borrow' * (WORD * p);
    }
  }

  // ---------------------------------------------------------------- shifts

  /** One word of a left shift by part bits, 0 < part < 32: p is 2^part and q is 2^(32 - part),
      so that shifting left multiplies by p and shifting right by 32 - part divides by q. */
  function ShlStep(x: Word, p: nat, q: nat, carry: nat): (r: (Word, nat))
    requires p * q == WORD && q > 0 && carry < p
    ensures r.1 < p
    ensures r.0 + r.1 * WORD == x * p + carry
  {
    ShlSplit(x, p, q, carry);
    (x * p % WORD + carry, x / q)
  }

  lemma ShlSplit(x: Word, p: nat, q: nat, carry: nat)
    requires p * q == WORD && q > 0 && carry < p
    ensures x / q < p
    ensures 0 <= x * p % WORD + carry < WORD
    ensures x * p % WORD + carry + x / q * WORD == x * p + carry
  {
    var h, l := x / q, x % q;
    DivMod(x, q);
    SplitProduct(x, p, q, h, l);
    DivUnique(x * p, WORD, h, l * p);
  }

  lemma SplitProduct(x: nat, p: nat, q: nat, h: nat, l: nat)
    requires p * q == WORD && x == q * h + l && l < q && x < WORD
    ensures x * p == h * WORD + l * p
    ensures l * p + p <= WORD && h < p
  {
    assert x * p == h * WORD + l * p by {
      MulAdd(p, q * h, l);
      assert p * (q * h) == (p * q) * h;
    }
    MulMono(p, l + 1, q);
    MulCancelStrict(q, h, p);
  }

  function ShlWords(s: seq<Word>, p: nat, q: nat): (r: Carried)
    requires p * q == WORD && p > 0 && q > 0
    ensures |r.words| == |s| && r.carry < p
    ensures Val(r.words) + r.carry * W(|s|) == Val(s) * p
    decreases |s|
  {
    if s == [] then
      Carried([], 0)
    else
      var done := ShlWords(Init(s), p, q);
      var (x, carry) := ShlStep(Last(s), p, q, done.carry);
      MulGrow(done, s, x, carry, p);
      Carried(done.words + [x], carry)
  }

  /** The two multipliers of a shift by part bits. */
  lemma ShiftFactors(part: nat)
    requires 0 < part < 32
    ensures Pow2(part) * Pow2(32 - part) == WORD && Pow2(part) > 0 && Pow2(32 - part) > 0
  {
    PowAdd(2, part, 32 - part);
    Pow2Word();
    PowPos(2, part);
    PowPos(2, 32 - part);
  }

  /** Halving, from the top word down; the carry is the bit that moves to the next word. */
  function HalfWords(s: seq<Word>): (r: Carried)
    ensures |r.words| == |s|
    ensures r.carry == if s == [] then 0 else s[0] % 2 * 0x8000_0000
    ensures 2 * Val(r.words) + (if s == [] then 0 else s[0] % 2) == Val(s)
    decreases |s|
  {
    if s == [] then
      Carried([], 0)
    else
      var p := HalfWords(s[1..]);
      var x := s[0] / 2 + p.carry;
      assert ([x] + p.words)[1..] == p.words;
      Carried([x] + p.words, s[0] * 0x8000_0000 % WORD)
  }

  // ---------------------------------------------------------------- division by a small number

  /** One 16-bit digit of a short division. */
  function DivHalf(rem: nat, d: nat, h: nat): (r: (nat, nat))
    requires 0 < d <= HALF && rem < d && h < HALF
    ensures r.0 < HALF && r.1 < d
    ensures r.0 * d + r.1 == rem * HALF + h
  {
    var v := rem * HALF % WORD + h;
    assert v == rem * HALF + h && v < d * HALF;
    assert d * (v / d) <= v;
    MulCancelStrict(d, v / d, HALF);
    (v / d, v % d)
  }

  function DivStep(x: Word, d: nat, rem: nat): (r: (Word, nat))
    requires 0 < d <= HALF && rem < d
    ensures r.1 < d
    ensures r.0 * d + r.1 == rem * WORD + x
  {
    var (hi, mid) := DivHalf(rem, d, x / HALF);
    var (lo, rem') := DivHalf(mid, d, x % HALF);
    assert (hi * HALF + lo) * d == hi * d * HALF + lo * d;
    (hi * HALF + lo, rem')
  }

  /** Short division, from the top word down; the carry is the remainder. */
  function DivWords(s: seq<Word>, d: nat): (r: Carried)
    requires 0 < d <= HALF
    ensures |r.words| == |s| && r.carry < d
    ensures Val(r.words) * d + r.carry == Val(s)
    decreases |s|
  {
    if s == [] then
      Carried([], 0)
    else
      var p := DivWords(s[1..], d);
      var (x, rem) := DivStep(s[0], d, p.carry);
      assert ([x] + p.words)[1..] == p.words;
      WeighQuotient(Val(p.words), p.carry, Val(s[1..]), x, rem, s[0], d);
      Carried([x] + p.words, rem)
  }

  lemma WeighQuotient(q: nat, c: nat, high: nat, x: nat, rem: nat, y: nat, d: nat)
    requires q * d + c == high
    requires x * d + rem == c * WORD + y
    ensures (x + WORD * q) * d + rem == y + WORD * high
  {
    assert (x + WORD * q) * d == x * d + WORD * (q * d);
  }
}
