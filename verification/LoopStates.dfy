/** The states of the in-place loops of runtime/decimal/bigint.h: what each loop has established
    at its cursor, and the lemma that carries it over one turn. */
module LoopStates {
  import opened Powers
  import opened Limbs
  import opened WordLoops

  const CD_WORDS := 256

  /** The first number that needs a 257th word. */
  function Capacity(): nat {
    W(CD_WORDS)
  }

  lemma CapacityBits()
    ensures Capacity() == Pow2(32 * CD_WORDS)
  {
    W32(CD_WORDS);
  }

  /** A word above the top still has a place while the number is below capacity. */
  lemma Fits(n: nat, carry: nat, low: nat)
    requires carry > 0 && low + carry * W(n) < Capacity()
    ensures n < CD_WORDS
  {
    MulMono(W(n), 1, carry);
    PowExponentLess(WORD, n, CD_WORDS);
  }

  /** A number at least as large, of the same length, keeps a nonzero top word. */
  lemma KeepsTop(s: seq<Word>, t: seq<Word>)
    requires Trimmed(s) && |t| == |s| && Val(t) >= Val(s)
    ensures Trimmed(t)
  {
    if |s| > 1 {
      TrimmedLow(s);
      TopNonzero(t);
    }
  }

  /** The words of a product with its carry word appended, when there is one. */
  function Spill(c: Carried): seq<Word>
    requires c.carry < WORD
  {
    if c.carry != 0 then c.words + [c.carry] else c.words
  }

  lemma SpillTrimmed(s: seq<Word>, c: Carried, b: nat)
    requires Trimmed(s) && |c.words| == |s| && c.carry < WORD && b > 0
    requires Val(c.words) + c.carry * W(|s|) == Val(s) * b
    ensures Val(Spill(c)) == Val(s) * b
    ensures Trimmed(Spill(c))
    ensures Val(s) * b < Capacity() && |s| <= CD_WORDS ==> |Spill(c)| <= CD_WORDS
  {
    if c.carry != 0 {
      ValSnoc(c.words, c.carry);
      if Val(s) * b < Capacity() {
        Fits(|s|, c.carry, Val(c.words));
      }
    } else {
      assert 0 * W(|s|) == 0;
      MulMono(Val(s), 1, b);
      KeepsTop(s, c.words);
    }
  }

  lemma AddTrimmed(s: seq<Word>, b: Word)
    requires Trimmed(s) && Val(s) + b < Capacity()
    ensures Trimmed(AddWords(s, b)) && |AddWords(s, b)| <= CD_WORDS
  {
    var r := AddWords(s, b);
    if |r| == |s| {
      KeepsTop(s, r);
    }
    TrimmedFits(r, CD_WORDS);
  }

  // ---------------------------------------------------------------- loop states

  /** An upward loop at word i: the words below are done, the others untouched. */
  ghost predicate Prefix(m: seq<Word>, s: seq<Word>, i: nat, done: Carried, carry: nat) {
    i <= |m| == |s| && m[i..] == s[i..] && done == Carried(m[..i], carry)
  }

  /** A downward loop at word i: the words from i up are done, the others untouched. */
  ghost predicate Suffix(m: seq<Word>, s: seq<Word>, i: nat, done: Carried, carry: nat) {
    i <= |m| == |s| && m[..i] == s[..i] && done == Carried(m[i..], carry)
  }

  lemma PrefixTurn(m: seq<Word>, s: seq<Word>, i: nat, done: Carried, carry: nat, x: Word)
    requires Prefix(m, s, i, done, carry) && i < |s|
    ensures m[i] == s[i]
    ensures s[..i + 1] != [] && Init(s[..i + 1]) == s[..i] && Last(s[..i + 1]) == s[i]
    ensures m[i := x][i + 1..] == s[i + 1..] && m[i := x][..i + 1] == m[..i] + [x]
  {
    assert m[i] == m[i..][0] && m[i..][1..] == m[i + 1..] && s[i..][1..] == s[i + 1..];
  }

  lemma SuffixTurn(m: seq<Word>, s: seq<Word>, i: nat, done: Carried, carry: nat, x: Word)
    requires i < |s| && Suffix(m, s, i + 1, done, carry)
    ensures m[i] == s[i] && s[i..] != [] && s[i..][0] == s[i] && s[i..][1..] == s[i + 1..]
    ensures m[i := x][..i] == s[..i] && m[i := x][i..] == [x] + m[i + 1..]
  {
    assert m[i] == m[..i + 1][i] && m[..i + 1][..i] == m[..i] && s[..i + 1][..i] == s[..i];
  }

  lemma MulTurn(m: seq<Word>, s: seq<Word>, i: nat, b: nat, carry: nat, x: Word, next: nat)
    requires b <= HALF && carry < HALF && i < |s|
    requires Prefix(m, s, i, MulWords(s[..i], b), carry)
    requires i < |m| && (x, next) == MulStep(m[i], b, carry)
    ensures Prefix(m[i := x], s, i + 1, MulWords(s[..i + 1], b), next)
  {
    PrefixTurn(m, s, i, MulWords(s[..i], b), carry, x);
  }

  lemma ShlTurn(m: seq<Word>, s: seq<Word>, i: nat, p: nat, q: nat, carry: nat, x: Word, next: nat)
    requires p * q == WORD && p > 0 && q > 0 && carry < p && i < |s|
    requires Prefix(m, s, i, ShlWords(s[..i], p, q), carry)
    requires i < |m| && (x, next) == ShlStep(m[i], p, q, carry)
    ensures Prefix(m[i := x], s, i + 1, ShlWords(s[..i + 1], p, q), next)
  {
    PrefixTurn(m, s, i, ShlWords(s[..i], p, q), carry, x);
  }

  lemma ShlWhole(m: seq<Word>, s: seq<Word>, i: nat, p: nat, q: nat, carry: nat)
    requires p * q == WORD && p > 0 && q > 0 && i == |s|
    requires Prefix(m, s, i, ShlWords(s[..i], p, q), carry)
    ensures ShlWords(s, p, q) == Carried(m, carry) && carry < WORD
  {
    assert s[..i] == s && m[..i] == m;
    MulMono(p, 1, q);
  }

  function ZeroWords(k: nat): (z: seq<Word>)
    ensures |z| == k
  {
    seq(k, _ => 0)
  }

  lemma {:induction false} ShlZeros(k: nat, p: nat, q: nat)
    requires p * q == WORD && p > 0 && q > 0
    ensures ShlWords(ZeroWords(k), p, q) == Carried(ZeroWords(k), 0)
  {
    if k > 0 {
      ShlZeros(k - 1, p, q);
      assert Init(ZeroWords(k)) == ZeroWords(k - 1) && ZeroWords(k - 1) + [0] == ZeroWords(k);
    }
  }

  /** A nonzero number keeps its place when zeros come in below it. */
  lemma ShiftRoom(s: seq<Word>, bits: nat)
    requires Trimmed(s) && Val(s) > 0 && Scale(Val(s), bits) < Capacity()
    ensures |s| + bits / 32 <= CD_WORDS
    ensures Trimmed(ZeroWords(bits / 32) + s)
    ensures Scale(Val(ZeroWords(bits / 32) + s), bits % 32) == Scale(Val(s), bits)
  {
    var words, moved := bits / 32, ZeroWords(bits / 32) + s;
    ValUnder(s, words);
    W32(words);
    ScaleProduct(Val(s), 32 * words);
    ScaleAdd(Val(s), 32 * words, bits % 32);
    ScaleGrows(Val(moved), 0, bits % 32);
    TrimmedFits(moved, CD_WORDS);
  }

  /** Zeros below a nonzero number multiply it and leave its top word in place. */
  lemma ValUnder(s: seq<Word>, k: nat)
    requires Trimmed(s) && Val(s) > 0
    ensures Val(ZeroWords(k) + s) == W(k) * Val(s) && Trimmed(ZeroWords(k) + s)
  {
    ValConcat(ZeroWords(k), s);
    ValZeros(ZeroWords(k));
    if |s| == 1 {
      ValOne(s[0]);
      assert s == [s[0]];
    }
  }

  lemma SubTurn(m: seq<Word>, s: seq<Word>, t: seq<Word>, i: nat, borrow: nat, x: Word, next: nat)
    requires borrow <= 1 && i < |s|
    requires Prefix(m, s, i, SubWords(s[..i], t), borrow)
    requires i < |m| && (x, next) == SubStep(m[i], WordAt(t, i), borrow)
    ensures Prefix(m[i := x], s, i + 1, SubWords(s[..i + 1], t), next)
  {
    PrefixTurn(m, s, i, SubWords(s[..i], t), borrow, x);
  }

  lemma HalfTurn(m: seq<Word>, s: seq<Word>, i: nat, carry: nat, x: Word)
    requires i < |s| && Suffix(m, s, i + 1, HalfWords(s[i + 1..]), carry)
    requires carry == 0 || carry == 0x8000_0000
    requires i < |m| && x == m[i] / 2 + carry
    ensures Suffix(m[i := x], s, i, HalfWords(s[i..]), m[i] * 0x8000_0000 % WORD)
  {
    SuffixTurn(m, s, i, HalfWords(s[i + 1..]), carry, x);
  }

  lemma DivTurn(m: seq<Word>, s: seq<Word>, i: nat, d: nat, rem: nat, x: Word, next: nat)
    requires 0 < d <= HALF && rem < d
    requires i < |s| && Suffix(m, s, i + 1, DivWords(s[i + 1..], d), rem)
    requires i < |m| && (x, next) == DivStep(m[i], d, rem)
    ensures Suffix(m[i := x], s, i, DivWords(s[i..], d), next)
  {
    SuffixTurn(m, s, i, DivWords(s[i + 1..], d), rem, x);
  }

  /** The subtraction loop over every word of s leaves no borrow when t is not larger. */
  lemma SubWhole(s: seq<Word>, t: seq<Word>)
    requires Trimmed(s) && Trimmed(t) && Val(t) <= Val(s)
    ensures SubWords(s, t).carry == 0 && Val(SubWords(s, t).words) == Val(s) - Val(t)
  {
    if |t| > |s| {
      ValLonger(s, t);
    }
    var r := SubWords(s, t);
    assert LowVal(t, |s|) == Val(t) by {
      assert |t| == |s| ==> t[..|s|] == t;
    }
    ValBound(r.words);
    NoBorrow(Val(r.words), Val(s) - Val(t), r.carry, W(|s|));
  }

  lemma NoBorrow(result: nat, difference: nat, borrow: nat, top: nat)
    requires result == difference + borrow * top && result < top
    ensures borrow == 0 && result == difference
  {
    if borrow > 0 {
      MulMono(top, 1, borrow);
    }
  }

  /** The state of the addition loop: the words below the cursor are final, and the word still
      to be added goes into the rest. */
  ghost predicate Adding(m: seq<Word>, i: nat, b: Word, total: seq<Word>) {
    && i <= |m| <= |total|
    && m[..i] == total[..i]
    && total[i..] == if i > 0 && b == 0 then m[i..] else AddWords(m[i..], b)
  }

  /** The loop body at word i: the words, grown by a zero past the end, with b added in place. */
  function Grown(m: seq<Word>, i: nat): seq<Word> {
    if i == |m| then m + [0] else m
  }

  lemma AddRoom(m: seq<Word>, i: nat, b: Word, total: seq<Word>)
    requires Adding(m, i, b, total) && (i > 0 ==> b != 0) && i == |m|
    ensures |m| < |total|
  {
    assert AddWords(m[i..], b) == [b];
    assert |total[i..]| == 1;
  }

  lemma AddTurn(m: seq<Word>, i: nat, b: Word, total: seq<Word>, x: Word)
    requires Adding(m, i, b, total) && (i > 0 ==> b != 0)
    requires x == WrapAdd(Grown(m, i)[i], b)
    ensures Adding(Grown(m, i)[i := x], i + 1, if x < Grown(m, i)[i] then 1 else 0, total)
  {
    var grown, rest := Grown(m, i), m[i..];
    var b' := if x < grown[i] then 1 else 0;
    AddSplit(rest, b, grown[i], x, grown[i + 1..]);
    var after := if b' == 0 then grown[i + 1..] else AddWords(grown[i + 1..], b');
    HeadTail(total, i, x, after);
    assert grown[i := x][i + 1..] == grown[i + 1..];
    assert grown[i := x][..i + 1] == m[..i] + [x];
  }

  lemma AddSplit(rest: seq<Word>, b: Word, word: Word, x: Word, after: seq<Word>)
    requires if rest == [] then word == 0 && after == [] else word == rest[0] && after == rest[1..]
    requires x == WrapAdd(word, b)
    ensures AddWords(rest, b) == [x] + (if x < word then AddWords(after, 1) else after)
  {
  }

  lemma HeadTail(total: seq<Word>, i: nat, x: Word, after: seq<Word>)
    requires i <= |total| && total[i..] == [x] + after
    ensures i < |total| && total[i + 1..] == after && total[..i + 1] == total[..i] + [x]
  {
    assert total[i] == total[i..][0] && total[i + 1..] == total[i..][1..];
  }

  lemma AddDone(m: seq<Word>, i: nat, total: seq<Word>)
    requires i > 0 && Adding(m, i, 0, total)
    ensures m == total
  {
    assert total == total[..i] + total[i..] && m == m[..i] + m[i..];
  }

  // ---------------------------------------------------------------- comparison

  ghost predicate SameFrom(s: seq<Word>, t: seq<Word>, i: nat) {
    |s| == |t| && forall k :: i <= k < |s| ==> s[k] == t[k]
  }

  lemma LengthDecides(s: seq<Word>, t: seq<Word>)
    requires Trimmed(s) && Trimmed(t) && |s| != |t|
    ensures Val(s) != Val(t) && (|s| > |t| <==> Val(s) > Val(t))
  {
    if |s| > |t| {
      ValLonger(t, s);
    } else {
      ValLonger(s, t);
    }
  }

  lemma WordDecides(s: seq<Word>, t: seq<Word>, i: nat)
    requires i < |s| && SameFrom(s, t, i + 1) && s[i] != t[i]
    ensures Val(s) != Val(t) && (s[i] > t[i] <==> Val(s) > Val(t))
  {
    assert s[i + 1..] == t[i + 1..];
    if s[i] > t[i] {
      ValCompare(t, s, i);
    } else {
      ValCompare(s, t, i);
    }
  }

  // ---------------------------------------------------------------- long division

  /** Sets bit i of a 64-bit word in which that bit is still clear. */
  function SetBit(q: nat, i: nat): nat
    requires i < 64 && Pow2(i) > 0 && q / Pow2(i) % 2 == 0
  {
    q + Pow2(i)
  }

  /** Restoring division with k quotient bits left to find: the shifted divisor stands under the
      highest of them. */
  ghost predicate Dividing(a0: nat, b: nat, q: nat, a: nat, shifted: nat, k: nat) {
    && a0 == q * b + a && a < Scale(b, k)
    && (exists c: nat :: q == Scale(c, k))
    && (k > 0 ==> shifted == Scale(b, k - 1))
  }

  lemma DividingTurn(a0: nat, b: nat, q: nat, a: nat, shifted: nat, k: nat)
    requires Dividing(a0, b, q, a, shifted, k + 1) && a0 < Scale(b, 64)
    ensures Pow2(k) > 0 && q / Pow2(k) % 2 == 0
    ensures a < shifted ==> Dividing(a0, b, q, a, shifted / 2, k)
    ensures shifted <= a ==> k < 64 && Dividing(a0, b, q + Pow2(k), a - shifted, shifted / 2, k)
  {
    var c: nat :| q == Scale(c, k + 1);
    PowPos(2, k);
    ScaleAdd(c, 1, k);
    assert Scale(c, 1) == 2 * c;
    ScaleProduct(2 * c, k);
    ScaleProduct(2 * c + 1, k);
    ScaleProduct(b, k);
    TurnNumbers(a0, b, q, a, c, Pow2(k));
    if shifted <= a {
      ScaleExponentLess(b, k, 64);
    }
  }

  lemma TurnNumbers(a0: nat, b: nat, q: nat, a: nat, c: nat, p: nat)
    requires p > 0 && a0 == q * b + a && q == (2 * c) * p
    ensures q / p % 2 == 0 && q + p == (2 * c + 1) * p
    ensures a0 == (q + p) * b + (a - b * p) && a <= a0
  {
    DivUnique(q, p, 2 * c, 0);
    assert (q + p) * b == q * b + b * p;
    assert q * b >= 0;
  }

  /** Aligning the divisor under the top bit of the dividend brackets the quotient. */
  lemma DividingStart(a0: nat, b: nat, shift: nat)
    requires a0 > 0 && b > 0 && BitLen(a0) == BitLen(b) + shift && a0 < Capacity()
    ensures Scale(b, shift) < Capacity()
    ensures Dividing(a0, b, 0, a0, Scale(b, shift), shift + 1)
  {
    BitLenBounds(a0);
    CapacityLen(a0);
    ScaleBracket(b, shift);
    ScaleZero(shift + 1);
  }

  lemma CapacityLen(a: nat)
    requires 0 < a < Capacity()
    ensures Pow2(BitLen(a)) <= Capacity()
  {
    CapacityBits();
    BitLenWithin(a, 32 * CD_WORDS);
  }

  lemma BitLenWithin(a: nat, k: nat)
    requires 0 < a < Pow2(k)
    ensures BitLen(a) <= k && Pow2(BitLen(a)) <= Pow2(k)
  {
    BitLenBounds(a);
    PowExponentLess(2, BitLen(a) - 1, k);
    PowMono(2, BitLen(a), k);
  }

  /** A number scaled by a power of two lies just below a power of two. */
  lemma {:induction false} ScaleBracket(b: nat, k: nat)
    requires b > 0
    ensures Scale(b, k) < Pow2(BitLen(b) + k) <= Scale(b, k + 1)
  {
    hide BitLen;
    if k == 0 {
      BitLenBounds(b);
    } else {
      ScaleBracket(b, k - 1);
    }
  }

  lemma QuotientDone(a0: nat, d: nat, q: nat, a: nat, shifted: nat)
    requires d > 0 && Dividing(a0, d, q, a, shifted, 0)
    ensures q == a0 / d && a == a0 % d
  {
    DivUnique(a0, d, q, a);
  }

  lemma QuotientZero(a: nat, b: nat)
    requires BitLen(a) < BitLen(b)
    ensures a < b && a / b == 0 && a % b == a
  {
    if b <= a {
      BitLenMono(b, a);
    }
    DivUnique(a, b, 0, a);
  }
}
