/** What the loops of the floating emitters keep. */
module HexSteps {
  import opened Numeral
  import opened DigitText
  import opened NumberText
  import opened Rounding
  import opened DecimalLayout
  import opened HexLayout
  import opened FormatBuffers

  // ---------------------------------------------------------------- pieces of the texts

  lemma IntegerPieces(s: string, point: int)
    requires point > 0
    ensures var n := Least(point, |s|); IntegerPart(s, point) == s[..n] + DigitText.Repeat('0', point - n)
  {
    var n := Least(point, |s|);
    if point <= |s| {
      assert DigitText.Repeat('0', 0) == "";
    } else {
      assert s[..n] == s;
    }
  }

  lemma FractionPieces(s: string, point: int, precision: nat, lead: nat, start: nat, n: nat)
    requires lead == Least(Most(-point, 0), precision) && start == Most(point, 0)
    requires n == Least(Most(|s| - start, 0), precision - lead)
    ensures FractionPart(s, point, precision)
         == DigitText.Repeat('0', lead) + s[Least(start, |s|)..][..n] + DigitText.Repeat('0', precision - lead - n)
  {
    if n > 0 {
      assert s[start..][..n] == s[start..start + n];
    } else {
      assert s[Least(start, |s|)..][..0] == "";
    }
  }

  lemma ShownPieces(shown: string, front: string, k: nat)
    requires front != "" && shown == front + DigitText.Repeat('0', k)
    ensures shown[..1] == [front[0]] && shown[1..] == front[1..] + DigitText.Repeat('0', k)
  {
  }

  /** Writing piece after piece writes their concatenation. */
  lemma Joined(head: string, a: string, b: string, c: string)
    ensures head + a + b + c == head + (a + b + c) == head + (a + (b + c))
  {
  }

  lemma ScientificJoined(head: string, s: string, dot: bool, fraction: string, exponent: string)
    requires s != ""
    ensures head + [s[0]] + (if dot then "." else "") + fraction + exponent
         == head + (Pointed(s[..1], dot, fraction) + exponent)
  {
    assert [s[0]] == s[..1];
    Joined(head, s[..1], if dot then "." else "", fraction);
    Joined(head, Pointed(s[..1], dot, fraction), exponent, "");
  }

  lemma HexJoined(head: string, prefix: string, shown: string, dot: bool, exponent: string)
    requires shown != ""
    ensures head + prefix + [shown[0]] + (if dot then "." else "") + shown[1..] + exponent
         == head + prefix + (Pointed(shown[..1], dot, shown[1..]) + exponent)
  {
    var h, p := head + prefix, if dot then "." else "";
    assert [shown[0]] == shown[..1];
    Joined(h, shown[..1], p, shown[1..]);
    Joined(h, Pointed(shown[..1], dot, shown[1..]), exponent, "");
  }

  // ---------------------------------------------------------------- hexadecimal digits

  lemma PrefixDigits(base: nat, s: string, keep: nat)
    requires IsDigits(base, s) && keep <= |s|
    ensures IsDigits(base, s[..keep])
  {
  }

  /** The digits written are those in the buffer and zeros. */
  lemma ShownFront(s: string, p: nat, negative: bool, mode: Mode, upper: bool, front: string)
    requires |s| == FRACTION_DIGITS + 1 && IsDigits(16, s) && DigitOf(s[0]) < 9
    requires front == if p < FRACTION_DIGITS then RoundedHex(s, p + 1, negative, mode, upper) else s
    ensures HexShown(s, p, negative, mode, upper) == front + DigitText.Repeat('0', p - Least(p, FRACTION_DIGITS))
  {
    hide RoundedHex;
    if p < FRACTION_DIGITS {
      assert DigitText.Repeat('0', 0) == "";
    }
  }

  lemma HexDigitsAt(s: string, i: nat)
    requires IsDigits(16, s) && 0 < i < |s|
    ensures 0 <= DigitOf(s[i]) < 16 && 0 <= DigitOf(s[i - 1]) < 16
  {
  }

  ghost predicate SomeNonzero(s: string, from: nat, to: nat) {
    exists k :: from <= k < to && k < |s| && s[k] != '0'
  }

  lemma SomeTurn(s: string, from: nat, i: nat)
    requires from <= i < |s|
    ensures SomeNonzero(s, from, i + 1) <==> SomeNonzero(s, from, i) || s[i] != '0'
  {
  }

  lemma SomeAll(s: string, from: nat)
    requires from <= |s|
    ensures SomeNonzero(s, from, |s|) <==> AnyNonzero(s[from..])
  {
    if SomeNonzero(s, from, |s|) {
      var k :| from <= k < |s| && s[k] != '0';
      assert s[from..][k - from] != '0';
    }
  }

  /** Every digit is the one the alphabet has for its value. */
  ghost predicate InAlphabet(s: string, upper: bool)
  {
    forall i :: 0 <= i < |s| ==> 0 <= DigitOf(s[i]) < 16 && s[i] == HexChar(DigitOf(s[i]), upper)
  }

  lemma AlphabetAt(s: string, i: nat, upper: bool)
    requires InAlphabet(s, upper) && i < |s|
    ensures 0 <= DigitOf(s[i]) < 16 && s[i] == HexChar(DigitOf(s[i]), upper)
  {
  }

  lemma {:induction false} DigitsInAlphabet(v: nat, k: nat, upper: bool)
    ensures InAlphabet(HexDigits(v, k, upper), upper)
  {
    if k > 0 {
      DigitsInAlphabet(v / 16, k - 1, upper);
    }
  }

  lemma AllInAlphabet(magnitude: nat, upper: bool)
    ensures InAlphabet(AllDigits(magnitude, upper), upper)
  {
    DigitsInAlphabet(FractionOf(magnitude), FRACTION_DIGITS, upper);
  }

  /** Only the carry out of the first `i` digits is still to be added. */
  ghost predicate HexCarried(s: string, i: nat, upper: bool) {
    && 0 < i <= |s| && IsDigits(16, s) && DigitOf(s[0]) < 9
    && HexBump(s, upper) == HexBump(s[..i], upper) + DigitText.Repeat('0', |s| - i)
  }

  lemma HexCarriedStart(s: string, upper: bool)
    requires s != "" && IsDigits(16, s) && DigitOf(s[0]) < 9
    ensures HexCarried(s, |s|, upper)
  {
    assert s[..|s|] == s;
  }

  lemma HexCarriedTurn(s: string, i: nat, upper: bool)
    requires 1 < i <= |s| && HexCarried(s, i, upper) && s[i - 1] == HexChar(15, upper)
    ensures HexCarried(s, i - 1, upper)
  {
    hide HexChar;
    assert s[..i][..i - 1] == s[..i - 1] && s[..i][i - 1] == s[i - 1];
    var z := DigitText.Repeat('0', |s| - i);
    assert "0" + z == DigitText.Repeat('0', |s| - i + 1);
    Associate(HexBump(s[..i - 1], upper), "0", z);
  }

  lemma HexCarriedEnd(s: string, i: nat, upper: bool)
    requires HexCarried(s, i, upper) && 0 <= DigitOf(s[i - 1]) < 16
    requires i == 1 || (s[i - 1] == HexChar(DigitOf(s[i - 1]), upper) && s[i - 1] != HexChar(15, upper))
    ensures DigitOf(s[i - 1]) < 15
    ensures HexBump(s, upper) == s[..i - 1] + [HexChar(DigitOf(s[i - 1]) + 1, upper)] + DigitText.Repeat('0', |s| - i)
  {
    hide HexChar;
    assert s[..i][..i - 1] == s[..i - 1] && s[..i][i - 1] == s[i - 1];
  }
}
