/** The bounded big integer of runtime/decimal/bigint.h: 256 words, edited in place. */
module BigInt {
  import opened Powers
  import opened Limbs
  import opened WordLoops
  import opened LoopStates

  class CdBig {
    const w: array<Word>
    var n: int

    ghost predicate Shaped()
      reads this
    {
      w.Length == CD_WORDS && 1 <= n <= CD_WORDS
    }

    ghost predicate Valid()
      reads this, w
    {
      Shaped() && Trimmed(w[..n])
    }

    ghost function Value(): (v: nat)
      requires Shaped()
      reads this, w
    {
      Val(w[..n])
    }

    constructor ()
      ensures Valid() && fresh(w) && Value() == 0
    {
      w := new Word[CD_WORDS];
      n := 1;
      new;
      w[0] := 0;
      assert w[..1] == [0];
      ValOne(0);
    }

    /** Structure assignment. */
    constructor Copy(a: CdBig)
      requires a.Valid()
      ensures Valid() && fresh(w) && Value() == a.Value()
    {
      w := new Word[CD_WORDS];
      n := a.n;
      new;
      forall i | 0 <= i < CD_WORDS {
        w[i] := a.w[i];
      }
      assert w[..n] == a.w[..n];
    }

    method Assign(a: CdBig)
      requires Valid() && a.Valid() && a.w != w
      modifies this`n, w
      ensures Valid() && Value() == a.Value()
    {
      n := a.n;
      forall i | 0 <= i < CD_WORDS {
        w[i] := a.w[i];
      }
      assert w[..n] == a.w[..n];
    }

    method U64(v: nat)
      requires Valid() && v < WORD * WORD
      modifies this`n, w
      ensures Valid() && Value() == v
    {
      w[0] := v % WORD;
      w[1] := v / WORD;
      n := if w[1] != 0 then 2 else 1;
      assert w[..1] == [v % WORD] && w[..2] == [v % WORD, v / WORD];
      ValOne(v % WORD);
      ValOne(v / WORD);
      assert w[..2][1..] == [v / WORD];
    }

    method Empty() returns (r: bool)
      requires Valid()
      ensures r <==> Value() == 0
    {
      r := n == 1 && w[0] == 0;
      if n > 1 {
        TrimmedLow(w[..n]);
        PowPos(WORD, n - 1);
      } else {
        assert w[..n] == [w[0]];
        ValOne(w[0]);
      }
    }

    method Trim()
      requires Shaped()
      modifies this`n
      ensures Valid() && Value() == old(Value())
    {
      while n > 1 && w[n - 1] == 0
        invariant Shaped()
        invariant Value() == old(Value())
      {
        ValDropZeroTop(w[..n]);
        assert w[..n][..n - 1] == w[..n - 1];
        n := n - 1;
      }
    }

    method Mul(b: nat)
      requires Valid() && 0 < b <= HALF && Value() * b < Capacity()
      modifies this`n, w
      ensures Valid() && Value() == old(Value()) * b
    {
      ghost var s := w[..n];
      var carry: nat, i := 0, 0;
      while i < n
        invariant Shaped() && 0 <= i <= n == |s| && carry < HALF
        invariant Prefix(w[..n], s, i, MulWords(s[..i], b), carry)
      {
        ghost var m := w[..n];
        var (x, next) := MulStep(w[i], b, carry);
        w[i] := x;
        MulTurn(m, s, i, b, carry, x, next);
        assert w[..n] == m[i := x];
        carry, i := next, i + 1;
      }
      assert s[..i] == s;
      FinishSpill(s, MulWords(s, b), b, carry);
    }

    /** Appends a nonzero carry word: the tail of multiplication and of the left shift. */
    method FinishSpill(ghost s: seq<Word>, ghost c: Carried, ghost b: nat, carry: nat)
      requires Shaped() && carry < WORD && Trimmed(s) && b > 0
      requires |s| == n && c == Carried(w[..n], carry)
      requires Val(c.words) + c.carry * W(|s|) == Val(s) * b < Capacity()
      modifies this`n, w
      ensures Valid() && Value() == Val(s) * b
    {
      SpillTrimmed(s, c, b);
      ghost var m := w[..n];
      if carry != 0 {
        w[n] := carry;
        n := n + 1;
        assert w[..n] == m + [carry];
      }
    }

    /** The body of the addition loop: appends a zero at the end, adds b, returns the carry. */
    method AddAt(i: nat, b: Word) returns (carry: Word)
      requires Shaped() && i <= n && (i == n ==> n < CD_WORDS)
      modifies this`n, w
      ensures Shaped() && i < n
      ensures w[..n] == Grown(old(w[..n]), i)[i := w[i]]
      ensures w[i] == WrapAdd(Grown(old(w[..n]), i)[i], b)
      ensures carry == if w[i] < Grown(old(w[..n]), i)[i] then 1 else 0
    {
      if i == n {
        w[i] := 0;
        n := n + 1;
      }
      var word := w[i];
      w[i] := WrapAdd(w[i], b);
      carry := if w[i] < word then 1 else 0;
    }

    method Add(b0: Word)
      requires Valid() && Value() + b0 < Capacity()
      modifies this`n, w
      ensures Valid() && Value() == old(Value()) + b0
    {
      ghost var s := w[..n];
      ghost var total := AddWords(s, b0);
      AddTrimmed(s, b0);
      var b, i := b0, 0;
      var again := true;
      while again
        invariant Shaped() && 0 <= i
        invariant Adding(w[..n], i, b, total)
        invariant again <==> i == 0 || b != 0
        decreases CD_WORDS - i, again
      {
        ghost var m := w[..n];
        if i == n {
          AddRoom(m, i, b, total);
        }
        ghost var added := b;
        b := AddAt(i, b);
        AddTurn(m, i, added, total, w[i]);
        i := i + 1;
        again := b != 0;
      }
      AddDone(w[..n], i, total);
    }

    method Sub(b: CdBig)
      requires Valid() && b.Valid() && b.w != w && b.Value() <= Value()
      modifies this`n, w
      ensures Valid() && Value() == old(Value()) - b.Value()
    {
      ghost var s, t := w[..n], b.w[..b.n];
      var borrow: nat, i := 0, 0;
      while i < n
        invariant Shaped() && 0 <= i <= n == |s| && borrow <= 1 && b.w[..b.n] == t
        invariant Prefix(w[..n], s, i, SubWords(s[..i], t), borrow)
      {
        ghost var m := w[..n];
        var word := if i < b.n then b.w[i] else 0;
        var (x, next) := SubStep(w[i], word, borrow);
        w[i] := x;
        SubTurn(m, s, t, i, borrow, x, next);
        assert w[..n] == m[i := x];
        borrow, i := next, i + 1;
      }
      assert s[..i] == s && w[..n][..i] == w[..n];
      SubWhole(s, t);
      Trim();
    }

    method Bits() returns (r: nat)
      requires Valid()
      ensures r == BitLen(Value())
    {
      r := (n - 1) * 32;
      var top: nat := w[n - 1];
      while top != 0
        invariant r + BitLen(top) == 32 * (n - 1) + BitLen(w[n - 1])
        decreases top
      {
        r, top := r + 1, top / 2;
      }
      BitLenTop(w[..n]);
    }

    /** The word moves of a left shift: words zeros come in at the bottom. */
    method MoveUp(words: nat)
      requires Shaped() && n + words <= CD_WORDS
      modifies this`n, w
      ensures Shaped() && n == old(n) + words && w[..n] == ZeroWords(words) + old(w[..n])
    {
      ghost var s := w[..n];
      CopyUp(words);
      assert w[words..n + words] == w[words..][..n];
      ClearLow(words);
      assert w[words..n + words] == w[words..][..n];
      n := n + words;
      assert w[..n] == w[..words] + w[words..n];
    }

    method CopyUp(words: nat)
      requires Shaped() && n + words <= CD_WORDS
      modifies w
      ensures w[words..n + words] == old(w[..n])
    {
      var i := n - 1;
      while i >= 0
        invariant -1 <= i < n
        invariant forall k :: 0 <= k <= i ==> w[k] == old(w[k])
        invariant forall k :: i + words < k < n + words ==> w[k] == old(w[k - words])
      {
        w[i + words] := w[i];
        i := i - 1;
      }
    }

    method ClearLow(words: nat)
      requires w.Length == CD_WORDS && words <= CD_WORDS
      modifies w
      ensures w[..words] == ZeroWords(words) && w[words..] == old(w[words..])
    {
      var i := 0;
      while i < words
        invariant 0 <= i <= words
        invariant forall k :: 0 <= k < i ==> w[k] == 0
        invariant forall k :: words <= k < CD_WORDS ==> w[k] == old(w[k])
      {
        w[i] := 0;
        i := i + 1;
      }
    }

    method Shift(bits: nat)
      requires Valid() && Scale(Value(), bits) < Capacity()
      modifies this`n, w
      ensures Valid() && Value() == Scale(old(Value()), bits)
    {
      var words, part := bits / 32, bits % 32;
      var empty := Empty();
      if empty {
        ScaleZero(bits);
        return;
      }
      ghost var s := w[..n];
      ShiftRoom(s, bits);
      MoveUp(words);
      if part != 0 {
        ShiftFactors(part);
        ScaleProduct(Value(), part);
        ShiftPart(words, Pow2(part), Pow2(32 - part));
      }
    }

    /** The bit moves of a left shift, over the words above the zeros: p is 2^part and q is
        2^(32 - part). */
    method ShiftPart(words: nat, p: nat, q: nat)
      requires Valid() && p * q == WORD && p > 0 && q > 0 && Value() * p < Capacity()
      requires words <= n && w[..words] == ZeroWords(words)
      modifies this`n, w
      ensures Valid() && Value() == old(Value()) * p
    {
      ghost var s := w[..n];
      assert s[..words] == ZeroWords(words);
      var carry: nat, i := 0, words;
      ShlZeros(words, p, q);
      while i < n
        invariant Shaped() && words <= i <= n == |s| && carry < p
        invariant Prefix(w[..n], s, i, ShlWords(s[..i], p, q), carry)
      {
        ghost var m := w[..n];
        var (x, next) := ShlStep(w[i], p, q, carry);
        w[i] := x;
        ShlTurn(m, s, i, p, q, carry, x, next);
        assert w[..n] == m[i := x];
        carry, i := next, i + 1;
      }
      ShlWhole(w[..n], s, i, p, q, carry);
      FinishSpill(s, ShlWords(s, p, q), p, carry);
    }

    method Right1()
      requires Valid()
      modifies this`n, w
      ensures Valid() && Value() == old(Value()) / 2
    {
      hide HalfWords;
      ghost var s := w[..n];
      var carry: nat, i := 0, n - 1;
      assert s[n..] == [];
      while i >= 0
        invariant Shaped() && -1 <= i < n
        invariant Suffix(w[..n], s, i + 1, HalfWords(s[i + 1..]), carry)
        invariant carry == 0 || carry == 0x8000_0000
      {
        ghost var m := w[..n];
        var next := w[i] * 0x8000_0000 % WORD;
        w[i] := w[i] / 2 + carry;
        HalfTurn(m, s, i, carry, w[i]);
        assert w[..n] == m[i := w[i]];
        carry, i := next, i - 1;
      }
      assert s[0..] == s;
      Trim();
    }

    method DivSmall(divisor: nat) returns (rem: nat)
      requires Valid() && 0 < divisor <= HALF
      modifies this`n, w
      ensures Valid() && Value() == old(Value()) / divisor && rem == old(Value()) % divisor
    {
      ghost var s := w[..n];
      rem := 0;
      var i := n - 1;
      assert s[n..] == [];
      while i >= 0
        invariant Shaped() && -1 <= i < n && rem < divisor
        invariant Suffix(w[..n], s, i + 1, DivWords(s[i + 1..], divisor), rem)
      {
        ghost var m := w[..n];
        var (x, next) := DivStep(w[i], divisor, rem);
        w[i] := x;
        DivTurn(m, s, i, divisor, rem, x, next);
        assert w[..n] == m[i := x];
        rem, i := next, i - 1;
      }
      assert s[0..] == s;
      DivUnique(Val(s), divisor, Val(w[..n]), rem);
      Trim();
    }
  }

  method Cmp(a: CdBig, b: CdBig) returns (r: int)
    requires a.Valid() && b.Valid()
    ensures r > 0 <==> a.Value() > b.Value()
    ensures r < 0 <==> a.Value() < b.Value()
  {
    ghost var s, t := a.w[..a.n], b.w[..b.n];
    if a.n != b.n {
      LengthDecides(s, t);
      return if a.n > b.n then 1 else -1;
    }
    var i := a.n - 1;
    while i >= 0
      invariant -1 <= i < |s| && SameFrom(s, t, i + 1)
    {
      var x, y := a.w[i], b.w[i];
      assert x == s[i] && y == t[i];
      if x != y {
        WordDecides(s, t, i);
        return if x > y then 1 else -1;
      }
      i := i - 1;
    }
    assert s == t;
    return 0;
  }

  method ShiftedCopy(b: CdBig, bits: nat) returns (shifted: CdBig)
    requires b.Valid() && Scale(b.Value(), bits) < Capacity()
    ensures shifted.Valid() && fresh(shifted) && fresh(shifted.w)
    ensures shifted.Value() == Scale(b.Value(), bits)
  {
    shifted := new CdBig.Copy(b);
    shifted.Shift(bits);
  }

  method Quotient(a: CdBig, b: CdBig) returns (q: nat)
    requires a.Valid() && b.Valid() && a.w != b.w
    requires 0 < b.Value() && a.Value() < Scale(b.Value(), 64)
    modifies a`n, a.w
    ensures a.Valid() && q == old(a.Value()) / b.Value() && a.Value() == old(a.Value()) % b.Value()
  {
    ghost var a0, d := a.Value(), b.Value();
    q := 0;
    var abits := a.Bits();
    var bbits := b.Bits();
    var shift: int := abits as int - bbits;
    if shift < 0 {
      QuotientZero(a0, d);
      return;
    }
    ValBound(a.w[..a.n]);
    PowMono(WORD, a.n, CD_WORDS);
    BitLenBounds(d);
    DividingStart(a0, d, shift);
    var shifted := ShiftedCopy(b, shift);
    var i := shift;
    while i >= 0
      invariant -1 <= i && fresh(shifted) && fresh(shifted.w)
      invariant a.Valid() && shifted.Valid()
      invariant Dividing(a0, d, q, a.Value(), shifted.Value(), i + 1)
    {
      q := QuotientBit(a, shifted, q, i, a0, d);
      i := i - 1;
    }
    QuotientDone(a0, d, q, a.Value(), shifted.Value());
  }

  /** The body of the division loop: decides bit i of the quotient and halves the divisor. */
  method QuotientBit(a: CdBig, shifted: CdBig, q: nat, i: nat, ghost a0: nat, ghost d: nat) returns (r: nat)
    requires a.Valid() && shifted.Valid() && a.w != shifted.w && a != shifted
    requires Dividing(a0, d, q, a.Value(), shifted.Value(), i + 1) && a0 < Scale(d, 64)
    modifies a`n, a.w, shifted`n, shifted.w
    ensures a.Valid() && shifted.Valid()
    ensures Dividing(a0, d, r, a.Value(), shifted.Value(), i)
  {
    DividingTurn(a0, d, q, a.Value(), shifted.Value(), i);
    r := q;
    var order := Cmp(a, shifted);
    if order >= 0 {
      a.Sub(shifted);
      r := SetBit(q, i);
    }
    shifted.Right1();
  }
}
