/** The meaning of the 64-bit operations that saltwater-sia/integer.rs emits from 32-bit ones. */
module Emitted64 {
  import opened Powers
  import opened Words
  import opened WordSteps
  import opened EmittedSteps

  // ---------------------------------------------------------------- division

  datatype Outcome = DivisionByZero | IntegerOverflow | Result(value: nat)

  /** What one turn of the emitted loop moves: the 65-bit remainder is compared and reduced right. */
  lemma TurnBits(numerator: nat, d: nat, n: nat, q: nat, r: nat, i: nat)
    requires n < W64 && q < W64 && r < W64 && d < W64 && i < 64 && Restoring(numerator, d, n, q, r, i)
    ensures var carry, bit := r / HALF64, n / HALF64;
      var big, shifted := 2 * r + bit, Or(r * 2 % W64, bit);
      && shifted < W64 && (carry != 0 || shifted >= d <==> big >= d) && (big < d ==> shifted == big)
      && (big >= d ==> (shifted - d) % W64 == big - d && Restoring(numerator, d, n * 2 % W64, 2 * q + 1, big - d, i + 1))
      && (big < d ==> Restoring(numerator, d, n * 2 % W64, 2 * q, big, i + 1))
    ensures q < HALF64
  {
    hide Or, Restoring;
    var carry, bit := r / HALF64, n / HALF64;
    TopBit(r);
    TopBit(n);
    OrBit(r * 2 % W64, bit);
    var shifted := Or(r * 2 % W64, bit);
    DivTurn(numerator, d, n, q, r, i, bit, n * 2 % W64);
    RemainderBelow(numerator, d, n, q, r, i);
    Difference(shifted, d);
    WideSubtract(2 * r + bit, carry, shifted, d, (shifted - d) % W64);
  }

  /** The block that one turn of the emitted loop runs through. */
  method LoopTurn(n0: nat, q0: nat, r0: nat, d: nat, ghost numerator: nat, ghost i: nat)
    returns (n: nat, q: nat, r: nat)
    requires n0 < W64 && q0 < W64 && r0 < W64 && d < W64 && i < 64
    requires Restoring(numerator, d, n0, q0, r0, i)
    ensures n < W64 && q < W64 && r < W64 && Restoring(numerator, d, n, q, r, i + 1)
  {
    hide Or, Restoring;
    var carry, bit := r0 / HALF64, n0 / HALF64;
    var shifted := Or(r0 * 2 % W64, bit);
    n := n0 * 2 % W64;
    var qNext := q0 * 2 % W64;
    var difference := (shifted - d) % W64;
    TurnBits(numerator, d, n0, q0, r0, i);
    if carry != 0 || shifted >= d {
      OrSame(qNext);
      q, r := Or(qNext, 1), difference;
    } else {
      q, r := qNext, shifted;
    }
  }

  /** The emitted loop: 64 turns over block parameters numerator, remainder, count and quotient. */
  method DivisionLoop(n0: nat, d: nat) returns (q: nat, r: nat)
    requires n0 < W64 && 0 < d < W64
    ensures q < W64 && n0 == q * d + r && r < d
  {
    hide Restoring;
    var n: nat, count: nat, again := n0, 64, true;
    q, r := 0, 0;
    DivStart(n0, d);
    while again
      invariant n < W64 && q < W64 && r < W64 && count <= 64 && (again <==> count != 0)
      invariant Restoring(n0, d, n, q, r, 64 - count)
      decreases count
    {
      n, q, r := LoopTurn(n, q, r, d, n0, 64 - count);
      count := count - 1;
      again := count != 0;
    }
    DivEnd(n0, d, n, q, r);
    RemainderBelow(n0, d, n, q, r, 64);
  }

  /** An arithmetic shift by 63: the sign as a mask. */
  function SignMask(v: nat): nat {
    if v >= HALF64 then W64 - 1 else 0
  }

  /** divrem64. */
  method Divrem64(numerator: nat, denominator: nat, isSigned: bool, quotient: bool) returns (o: Outcome)
    requires numerator < W64 && denominator < W64
    ensures o.DivisionByZero? <==> denominator == 0
    ensures o.IntegerOverflow? <==>
      denominator != 0 && isSigned && AsSigned(numerator) == -(HALF64 as int) && AsSigned(denominator) == -1
    ensures o.Result? ==> o.value < W64
    ensures o.Result? ==> denominator > 0
    ensures o.Result? && !isSigned ==> o.value == if quotient then numerator / denominator else numerator % denominator
    ensures o.Result? && isSigned ==> AsSigned(denominator) != 0 && exists q, r ::
      Truncates(AsSigned(numerator), AsSigned(denominator), q, r) && AsSigned(o.value) == if quotient then q else r
  {
    hide Xor, Truncates;
    if denominator == 0 {
      return DivisionByZero;
    }
    if isSigned && numerator == HALF64 && denominator == W64 - 1 {
      return IntegerOverflow;
    }
    var sign := if isSigned then SignMask(numerator) else 0;
    var n := (Xor(numerator, sign) - sign) % W64;
    var dSign := if isSigned then SignMask(denominator) else 0;
    var resultSign := if quotient then Xor(sign, dSign) else sign;
    var d := if isSigned then (Xor(denominator, dSign) - dSign) % W64 else denominator;
    MaskNegates(numerator);
    MaskNegates(denominator);
    SignsXor(sign, dSign);
    var q, r := DivisionLoop(n, d);
    var unsigned := if quotient then q else r;
    MaskNegates(unsigned);
    var value := (Xor(unsigned, resultSign) - resultSign) % W64;
    if isSigned {
      MagnitudeAbs(numerator);
      MagnitudeAbs(denominator);
      SignedResult(numerator, denominator, q, r);
    } else {
      DivUnique(numerator, denominator, q, r);
    }
    o := Result(value);
  }

  // ---------------------------------------------------------------- multiplication

  /** multiply64: six products of words and half words, shifted and added. */
  method Multiply64(a: nat, b: nat) returns (result: nat)
    requires a < W64 && b < W64
    ensures result == (a * b) % W64
  {
    hide And, Sum;
    var al, ah, bl, bh := a % W32, a / W32, b % W32, b / W32;
    MaskHalf(al);
    MaskHalf(bl);
    var a0, a1, b0, b1 := And(al, 65535), al / 0x1_0000, And(bl, 65535), bl / 0x1_0000;
    var terms := [(a0, b0, 0), (a0, b1, 16), (a1, b0, 16), (a1, b1, 32), (ah, bl, 32), (al, bh, 32)];
    result := 0;
    SumStart(terms);
    for i := 0 to |terms|
      invariant result == Sum(terms[..i]) % W64
    {
      var (x, y, shift) := terms[i];
      var product := x * y % W32;
      SumTurn(terms, i);
      result := (result + product * Pow2(shift) % W64) % W64;
    }
    assert terms[..|terms|] == terms;
    Halves(al);
    Halves(bl);
    SumIsProduct(al, ah, bl, bh, a0, a1, b0, b1);
    assert a == al + ah * W32 && b == bl + bh * W32;
  }

  // ---------------------------------------------------------------- shifts

  /** choose_word: selection with a mask. */
  method ChooseWord(condition: bool, yes: nat, no: nat) returns (r: nat)
    requires yes < W32 && no < W32
    ensures r == if condition then yes else no
  {
    hide Xor, And;
    var bit := if condition then 1 else 0;
    var mask := (0 - bit) % W32;
    var difference := Xor(yes, no);
    var selected := And(difference, mask);
    Selected(yes, no, condition);
    r := Xor(no, selected);
  }

  /** shift64, with whatever the word shifts yield when their count is not below 32. */
  method Shift64(value: nat, count0: nat, signedRight: bool, left: bool, junk: seq<nat>) returns (r: nat)
    requires value < W64 && count0 < W64 && Junk(junk)
    ensures r == ShiftSpec(value, count0 % 64, signedRight, left)
  {
    hide Or, And, Pow, ShiftSpec, Ishl, Ushr, Sshr;
    var lo, hi := value % W32, value / W32;
    MaskCount(count0);
    var count := And(count0 % W32, 63);
    var large, isZero := count >= 32, count == 0;
    var back, extra := (32 - count) % W32, (count - 32) % W32;
    var smallLow, smallHigh, largeLow, largeHigh;
    if left {
      smallLow := Ishl(lo, count, junk[0]);
      var carry := ChooseWord(isZero, 0, Ushr(lo, back, junk[1]));
      smallHigh := Or(Ishl(hi, count, junk[2]), carry);
      OrBelow(Ishl(hi, count, junk[2]), carry);
      largeLow, largeHigh := 0, Ishl(lo, extra, junk[3]);
      if count < 32 {
        LeftSmall(lo, hi, count, signedRight, junk);
      } else {
        LeftLarge(lo, hi, count, signedRight, junk);
      }
    } else {
      var carry := ChooseWord(isZero, 0, Ishl(hi, back, junk[1]));
      smallLow := Or(Ushr(lo, count, junk[0]), carry);
      OrBelow(Ushr(lo, count, junk[0]), carry);
      smallHigh := if signedRight then Sshr(hi, count, junk[2]) else Ushr(hi, count, junk[2]);
      largeLow := if signedRight then Sshr(hi, extra, junk[3]) else Ushr(hi, extra, junk[3]);
      largeHigh := if signedRight then Sshr(hi, 31, junk[4]) else 0;
      if count < 32 {
        RightSmall(lo, hi, count, signedRight, junk);
      } else {
        RightLarge(lo, hi, count, signedRight, junk);
      }
    }
    var low := ChooseWord(large, largeLow, smallLow);
    var high := ChooseWord(large, largeHigh, smallHigh);
    JoinWords(low, high);
    assert value == lo + hi * W32 && count == count0 % 64;
    assert low + high * W32 == ShiftSpec(lo + hi * W32, count, signedRight, left);
    r := Or(low, high * W32 % W64);
  }
}
