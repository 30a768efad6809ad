/** Little-endian sequences of 32-bit words and the natural numbers they denote. */
module Limbs {
  import opened Powers

  const WORD: nat := 0x1_0000_0000

  type Word = w: int | 0 <= w < 0x1_0000_0000

  /** The natural number whose base 2^32 digits, least significant first, are s. */
  function Val(s: seq<Word>): nat
  {
    if s == [] then 0 else s[0] + WORD * Val(s[1..])
  }

  lemma ValOne(w: Word)
    ensures Val([w]) == w
  {
    assert [w][1..] == [];
  }

  function W(i: nat): nat {
    Pow(WORD, i)
  }

  lemma {:induction false} ValConcat(s: seq<Word>, t: seq<Word>)
    ensures Val(s + t) == Val(s) + W(|s|) * Val(t)
  {
    if s == [] {
      assert s + t == t;
    } else {
      ValConcat(s[1..], t);
      assert (s + t)[1..] == s[1..] + t;
      assert WORD * (W(|s| - 1) * Val(t)) == (WORD * W(|s| - 1)) * Val(t);
    }
  }

  lemma ValSnoc(s: seq<Word>, w: Word)
    ensures Val(s + [w]) == Val(s) + w * W(|s|)
  {
    ValConcat(s, [w]);
    ValOne(w);
  }

  /** A prefix one word longer adds that word at its weight. */
  lemma ValTake(s: seq<Word>, i: nat)
    requires i < |s|
    ensures Val(s[..i + 1]) == Val(s[..i]) + s[i] * W(i)
  {
    assert s[..i + 1] == s[..i] + [s[i]];
    ValSnoc(s[..i], s[i]);
  }

  /** A suffix one word longer starts with that word. */
  lemma ValDrop(s: seq<Word>, i: nat)
    requires i < |s|
    ensures Val(s[i..]) == s[i] + WORD * Val(s[i + 1..])
  {
    assert s[i..][1..] == s[i + 1..];
  }

  lemma {:induction false} ValBound(s: seq<Word>)
    ensures Val(s) < W(|s|)
  {
    if s != [] {
      ValBound(s[1..]);
    }
  }

  /** No leading zero word, except in the one-word zero. */
  ghost predicate Trimmed(s: seq<Word>) {
    |s| >= 1 && (|s| > 1 ==> s[|s| - 1] != 0)
  }

  /** The top word of a number with more than one word is worth its weight. */
  lemma ValTop(s: seq<Word>)
    requires |s| >= 1
    ensures Val(s) >= s[|s| - 1] * W(|s| - 1)
    ensures Val(s) == Val(s[..|s| - 1]) + s[|s| - 1] * W(|s| - 1)
  {
    ValTake(s, |s| - 1);
    assert s[..|s|] == s;
  }

  lemma TrimmedLow(s: seq<Word>)
    requires Trimmed(s) && (|s| > 1 || Val(s) > 0)
    ensures Val(s) >= W(|s| - 1)
  {
    ValTop(s);
    if |s| == 1 {
      assert Val(s) == s[0];
    }
    MulMono(W(|s| - 1), 1, s[|s| - 1]);
  }

  /** A number worth at least its top weight has a nonzero top word. */
  lemma TopNonzero(s: seq<Word>)
    requires |s| >= 1 && Val(s) >= W(|s| - 1)
    ensures s[|s| - 1] != 0
  {
    ValTop(s);
    ValBound(s[..|s| - 1]);
    assert 0 * W(|s| - 1) == 0;
  }

  /** A trimmed number below W(m) fits in m words. */
  lemma TrimmedFits(s: seq<Word>, m: nat)
    requires Trimmed(s) && m > 0 && Val(s) < W(m)
    ensures |s| <= m
  {
    if |s| > 1 {
      TrimmedLow(s);
      PowExponentLess(WORD, |s| - 1, m);
    }
  }

  /** Numbers of the same length compare by their highest differing word. */
  lemma ValCompare(s: seq<Word>, t: seq<Word>, i: nat)
    requires |s| == |t| && i < |s| && s[i] < t[i] && s[i + 1..] == t[i + 1..]
    ensures Val(s) < Val(t)
  {
    assert s == s[..i] + s[i..] && t == t[..i] + t[i..];
    ValConcat(s[..i], s[i..]);
    ValConcat(t[..i], t[i..]);
    ValDrop(s, i);
    ValDrop(t, i);
    ValBound(s[..i]);
    var rest := WORD * Val(s[i + 1..]);
    MulMono(W(i), s[i] + rest + 1, t[i] + rest);
    assert W(i) * (s[i] + rest + 1) == W(i) * (s[i] + rest) + W(i);
  }

  /** A trimmed number with more words is larger. */
  lemma ValLonger(s: seq<Word>, t: seq<Word>)
    requires Trimmed(s) && Trimmed(t) && |s| < |t|
    ensures Val(s) < Val(t)
  {
    ValBound(s);
    TrimmedLow(t);
    PowMono(WORD, |s|, |t| - 1);
  }

  lemma ValZeros(s: seq<Word>)
    requires forall i :: 0 <= i < |s| ==> s[i] == 0
    ensures Val(s) == 0
  {
    if s != [] {
      ValZeros(s[1..]);
    }
  }

  /** Dropping a zero top word keeps the value. */
  lemma ValDropZeroTop(s: seq<Word>)
    requires |s| >= 1 && s[|s| - 1] == 0
    ensures Val(s) == Val(s[..|s| - 1])
  {
    ValTop(s);
    assert 0 * W(|s| - 1) == 0;
  }

  lemma Pow2Word()
    ensures Pow2(16) == 0x1_0000 && Pow2(32) == WORD && Pow2(64) == WORD * WORD
  {
    assert Pow2(4) == 16;
    PowAdd(2, 4, 4);
    PowAdd(2, 8, 8);
    PowAdd(2, 16, 16);
    PowAdd(2, 32, 32);
  }

  lemma W32(i: nat)
    ensures W(i) == Pow2(32 * i)
  {
    PowMul(2, 32, i);
    Pow2Word();
  }

  /** The bit length of a trimmed number from its length and its top word. */
  lemma BitLenTop(s: seq<Word>)
    requires Trimmed(s)
    ensures BitLen(Val(s)) == 32 * (|s| - 1) + BitLen(s[|s| - 1])
  {
    var n, top := |s| - 1, s[|s| - 1];
    ValTop(s);
    ValBound(s[..n]);
    W32(n);
    if top > 0 {
      BitLenScaled(Val(s[..n]), top, 32 * n);
    }
  }
}
