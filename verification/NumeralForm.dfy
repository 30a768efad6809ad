/** The forms a numeral may have (section 7.20.1.3 of C99) as a grammar over stretches of a text, and that reading
    takes the longest stretch behind the white space that has one. */
module NumeralForm {
  import opened Numeral

  // ---------------------------------------------------------------- the grammar

  /** The characters from a on and before b. */
  predicate Stretch(s: string, a: int, b: int) {
    0 <= a <= b <= |s|
  }

  predicate Digit(c: char, base: nat) {
    0 <= DigitOf(c) < base
  }

  predicate AllDigits(s: string, a: int, b: int, base: nat)
    requires Stretch(s, a, b)
  {
    forall i :: a <= i < b ==> Digit(s[i], base)
  }

  predicate IsSign(c: char) {
    c == '+' || c == '-'
  }

  /** Digits with a point at k. */
  predicate Pointed(s: string, a: int, b: int, base: nat, k: int)
    requires Stretch(s, a, b)
  {
    a <= k < b && b - a > 1 && s[k] == '.' && AllDigits(s, a, k, base) && AllDigits(s, k + 1, b, base)
  }

  /** At least one digit, with a point somewhere or without. */
  predicate Significand(s: string, a: int, b: int, base: nat)
    requires Stretch(s, a, b)
  {
    (a < b && AllDigits(s, a, b, base)) || exists k :: a <= k < b && Pointed(s, a, b, base, k)
  }

  /** A letter, perhaps a sign, and at least one decimal digit. */
  predicate Exponent(s: string, a: int, b: int, marker: char)
    requires Stretch(s, a, b)
  {
    && b - a > 1 && Lower(s[a]) == marker
    && if IsSign(s[a + 1]) then b - a > 2 && AllDigits(s, a + 2, b, 10) else AllDigits(s, a + 1, b, 10)
  }

  /** A significand up to k and what follows it, an exponent or nothing. */
  predicate Cut(s: string, a: int, b: int, base: nat, marker: char, k: int)
    requires Stretch(s, a, b)
  {
    a <= k <= b && Significand(s, a, k, base) && (k < b ==> Exponent(s, k, b, marker))
  }

  predicate Scaled(s: string, a: int, b: int, base: nat, marker: char)
    requires Stretch(s, a, b)
  {
    exists k :: a <= k <= b && Cut(s, a, b, base, marker, k)
  }

  predicate NumberForm(s: string, a: int, b: int)
    requires Stretch(s, a, b)
  {
    Scaled(s, a, b, 10, 'e') || (b - a > 2 && s[a] == '0' && Lower(s[a + 1]) == 'x' && Scaled(s, a + 2, b, 16, 'p'))
  }

  /** A word in either case. */
  predicate WordForm(s: string, a: int, b: int, word: string)
    requires Stretch(s, a, b)
  {
    b - a == |word| && forall i :: 0 <= i < |word| ==> Lower(s[a + i]) == word[i]
  }

  predicate NanForm(s: string, a: int, b: int)
    requires Stretch(s, a, b)
  {
    || WordForm(s, a, b, "nan")
    || (b - a > 4 && WordForm(s, a, a + 3, "nan") && s[a + 3] == '(' && s[b - 1] == ')'
        && forall i :: a + 4 <= i < b - 1 ==> IsName(s[i]))
  }

  predicate InfinityForm(s: string, a: int, b: int)
    requires Stretch(s, a, b)
  {
    WordForm(s, a, b, "inf") || WordForm(s, a, b, "infinity")
  }

  predicate UnsignedForm(s: string, a: int, b: int) {
    Stretch(s, a, b) && (NumberForm(s, a, b) || InfinityForm(s, a, b) || NanForm(s, a, b))
  }

  /** What may follow white space. */
  predicate Form(s: string, a: int, b: int) {
    Stretch(s, a, b) && a < b && UnsignedForm(s, if IsSign(s[a]) then a + 1 else a, b)
  }

  // ---------------------------------------------------------------- significands

  /** What reading digits passed over: digits up to a point, if there was one, and digits behind it. */
  ghost predicate Passed(s: string, base: nat, d: Digits, r: Digits, k: int) {
    && d.end <= k <= r.end <= |s| && AllDigits(s, d.end, k, base) && !Digit(At(s, r.end), base)
    && (if r.dot && !d.dot then k < r.end && s[k] == '.' && AllDigits(s, k + 1, r.end, base)
        else k == r.end && (d.dot || At(s, r.end) != '.'))
    && (r.seen <==> d.seen || r.end - d.end > if k < r.end then 1 else 0)
    && (d.dot ==> r.dot)
  }

  lemma {:induction false} DigitsPassed(s: string, base: nat, d: Digits)
    requires (base == 10 || base == 16) && d.end <= |s|
    ensures exists k :: Passed(s, base, d, ReadDigits(s, base, d), k)
    decreases |s| - d.end
  {
    var c, r := At(s, d.end), ReadDigits(s, base, d);
    if Digit(c, base) {
      var e := PushDigit(base, d, DigitOf(c));
      DigitsPassed(s, base, e);
      var k :| Passed(s, base, e, r, k);
      assert Passed(s, base, d, r, k);
    } else if c == '.' && !d.dot {
      var e := d.(dot := true, end := d.end + 1);
      DigitsPassed(s, base, e);
      var k :| Passed(s, base, e, r, k);
      assert Passed(s, base, d, r, d.end);
    } else {
      assert Passed(s, base, d, r, d.end);
    }
  }

  function Scan(s: string, base: nat, a: nat): Digits
    requires base == 10 || base == 16
  {
    ReadDigits(s, base, Digits(0, 0, false, false, a))
  }

  /** Reading digits takes the longest significand. */
  lemma LongestSignificand(s: string, base: nat, a: nat, b: int)
    requires (base == 10 || base == 16) && a <= |s|
    ensures a <= Scan(s, base, a).end <= |s|
    ensures Scan(s, base, a).seen ==> Significand(s, a, Scan(s, base, a).end, base)
    ensures Stretch(s, a, b) && Significand(s, a, b, base) ==> Scan(s, base, a).seen && b <= Scan(s, base, a).end
    ensures forall i :: a <= i < Scan(s, base, a).end ==> Digit(s[i], base) || s[i] == '.'
  {
    var d, r := Digits(0, 0, false, false, a), Scan(s, base, a);
    DigitsPassed(s, base, d);
    var k :| Passed(s, base, d, r, k);
    if r.seen {
      assert r.dot ==> Pointed(s, a, r.end, base, k);
    }
    if Stretch(s, a, b) && Significand(s, a, b, base) {
      if b > r.end || !r.seen {
        SignificandPassed(s, base, a, b, r, k);
      }
    }
  }

  lemma SignificandPassed(s: string, base: nat, a: nat, b: int, r: Digits, k: int)
    requires (base == 10 || base == 16) && Stretch(s, a, b) && Significand(s, a, b, base)
    requires Passed(s, base, Digits(0, 0, false, false, a), r, k)
    ensures r.seen && b <= r.end
  {
    if a < b && AllDigits(s, a, b, base) {
      NoDigit(s, a, b, base, r.end);
      NoDigit(s, a, b, base, k);
    } else {
      var p :| a <= p < b && Pointed(s, a, b, base, p);
      NoDigit(s, a, k, base, p);
      NoDigit(s, a, p, base, k);
      NoDigit(s, p + 1, b, base, r.end);
    }
  }

  lemma NoDigit(s: string, a: int, b: int, base: nat, i: nat)
    requires (base == 10 || base == 16) && Stretch(s, a, b) && AllDigits(s, a, b, base) && !Digit(At(s, i), base)
    ensures !(a <= i < b)
  {
  }

  // ---------------------------------------------------------------- exponents

  lemma {:induction false} IntegerPassed(s: string, i: nat, v: nat)
    requires i <= |s|
    ensures var (_, end) := ReadInteger(s, i, v);
      i <= end <= |s| && AllDigits(s, i, end, 10) && !Digit(At(s, end), 10)
    decreases |s| - i
  {
    if IsDecimal(At(s, i)) {
      IntegerPassed(s, i + 1, v * 10 + DigitOf(At(s, i)));
    }
  }

  /** Reading an exponent takes the longest one, or nothing. */
  lemma LongestExponent(s: string, i: nat, marker: char, b: int)
    requires i <= |s| && marker != '\0'
    ensures var (_, end) := ReadExponent(s, i, marker);
      && i <= end <= |s| && (i < end ==> Exponent(s, i, end, marker))
      && (Stretch(s, i, b) && Exponent(s, i, b, marker) ==> b <= end)
  {
    if Lower(At(s, i)) == marker {
      var j := if IsSign(At(s, i + 1)) then i + 2 else i + 1;
      IntegerPassed(s, j, 0);
      var (_, end) := ReadInteger(s, j, 0);
      if Stretch(s, i, b) && Exponent(s, i, b, marker) {
        assert AllDigits(s, j, b, 10) && Digit(s[j], 10);
        NoDigit(s, j, b, 10, end);
      }
    }
  }

  // ---------------------------------------------------------------- numbers

  /** Where a number with a point or an exponent ends when its digits start at a. */
  function ScaledEnd(s: string, base: nat, marker: char, a: nat): nat
    requires base == 10 || base == 16
  {
    ReadExponent(s, Scan(s, base, a).end, marker).1
  }

  lemma LongestScaled(s: string, base: nat, marker: char, a: nat, b: int)
    requires a <= |s| && ((base == 10 && marker == 'e') || (base == 16 && marker == 'p'))
    ensures a <= ScaledEnd(s, base, marker, a) <= |s|
    ensures Scan(s, base, a).seen ==> Scaled(s, a, ScaledEnd(s, base, marker, a), base, marker)
    ensures Stretch(s, a, b) && Scaled(s, a, b, base, marker) ==>
      Scan(s, base, a).seen && b <= ScaledEnd(s, base, marker, a)
  {
    var r, end := Scan(s, base, a), ScaledEnd(s, base, marker, a);
    LongestSignificand(s, base, a, a);
    LongestExponent(s, r.end, marker, b);
    if r.seen {
      assert Cut(s, a, end, base, marker, r.end);
    }
    if Stretch(s, a, b) && Scaled(s, a, b, base, marker) {
      var k :| a <= k <= b && Cut(s, a, b, base, marker, k);
      LongestSignificand(s, base, a, k);
      if k < b {
        MarkerStops(s, a, k, b, base, marker);
        assert k == r.end;
      }
    }
  }

  lemma MarkerStops(s: string, a: nat, k: int, b: int, base: nat, marker: char)
    requires Stretch(s, a, b) && Cut(s, a, b, base, marker, k) && k < b && ((base == 10 && marker == 'e') || (base == 16 && marker == 'p'))
    ensures k < b && !Digit(s[k], base) && s[k] != '.'
  {
  }

  /** The prefix is taken for one exactly when a hexadecimal significand follows. */
  lemma PrefixFound(s: string, a: nat)
    requires a <= |s|
    ensures HexPrefix(s, a) <==> a + 2 <= |s| && s[a] == '0' && Lower(s[a + 1]) == 'x' && Scan(s, 16, a + 2).seen
  {
    if a + 2 <= |s| {
      var d, r := Digits(0, 0, false, false, a + 2), Scan(s, 16, a + 2);
      DigitsPassed(s, 16, d);
      var k :| Passed(s, 16, d, r, k);
      assert r.end == a + 2 || Digit(s[a + 2], 16) || s[a + 2] == '.';
    }
  }

  lemma LongestNumber(s: string, a: nat, b: int, negative: bool)
    requires a <= |s|
    ensures var r := ReadNumber(s, a, negative);
      && (!r.Nothing? ==> r.Number? && r.negative == negative && a <= r.end <= |s| && NumberForm(s, a, r.end) && Kind(s, a, r))
      && (Stretch(s, a, b) && NumberForm(s, a, b) ==> !r.Nothing? && b <= r.end)
  {
    PrefixFound(s, a);
    LongestScaled(s, 10, 'e', a, b);
    if a + 2 <= |s| {
      LongestScaled(s, 16, 'p', a + 2, b);
    }
    if HexPrefix(s, a) && Stretch(s, a, b) && Scaled(s, a, b, 10, 'e') {
      OnlyZero(s, a, b);
    }
  }

  /** In front of an x the only decimal number is the zero. */
  lemma OnlyZero(s: string, a: nat, b: int)
    requires a + 2 <= |s| && s[a] == '0' && Lower(s[a + 1]) == 'x' && Stretch(s, a, b) && Scaled(s, a, b, 10, 'e')
    ensures b <= a + 1
  {
    var k :| a <= k <= b && Cut(s, a, b, 10, 'e', k);
    LongestSignificand(s, 10, a, k);
    assert !Digit(s[a + 1], 10) && s[a + 1] != '.';
  }

  // ---------------------------------------------------------------- words

  lemma {:induction false} SpellsIs(s: string, i: nat, word: string)
    requires forall k :: 0 <= k < |word| ==> word[k] != '\0'
    ensures Spells(s, i, word) <==> word == [] || (i + |word| <= |s| && WordForm(s, i, i + |word|, word))
    decreases |word|
  {
    if word != [] {
      SpellsIs(s, i + 1, word[1..]);
      assert forall k :: 0 < k < |word| ==> word[k] == word[1..][k - 1];
      if Spells(s, i, word) {
        forall k | 0 <= k < |word|
          ensures i + k < |s| && Lower(s[i + k]) == word[k]
        {
          if k > 0 {
            assert Lower(s[i + 1 + (k - 1)]) == word[1..][k - 1];
          }
        }
      }
      if i + |word| <= |s| && WordForm(s, i, i + |word|, word) {
        assert Lower(s[i + 0]) == word[0];
        forall k | 0 <= k < |word[1..]|
          ensures Lower(s[i + 1 + k]) == word[1..][k]
        {
          assert Lower(s[i + (k + 1)]) == word[k + 1];
        }
      }
    }
  }

  lemma {:induction false} NamePassed(s: string, i: nat)
    requires i <= |s|
    ensures i <= SkipName(s, i) <= |s| && !IsName(At(s, SkipName(s, i)))
    ensures forall k :: i <= k < SkipName(s, i) ==> IsName(s[k])
    decreases |s| - i
  {
    if i < |s| && IsName(s[i]) {
      NamePassed(s, i + 1);
    }
  }

  /** A number starts with a digit or a point. */
  lemma NumberStarts(s: string, a: nat, b: int)
    requires Stretch(s, a, b) && NumberForm(s, a, b)
    ensures a < b && (Digit(s[a], 10) || s[a] == '.')
  {
    if Scaled(s, a, b, 10, 'e') {
      var k :| a <= k <= b && Cut(s, a, b, 10, 'e', k);
      LongestSignificand(s, 10, a, k);
      assert a < k;
    }
  }

  lemma LongestNan(s: string, i: nat, b: int, negative: bool)
    requires i + 3 <= |s| && WordForm(s, i, i + 3, "nan")
    ensures var r := ReadNan(s, i, negative);
      r.end <= |s| && NanForm(s, i, r.end) && (Stretch(s, i, b) && NanForm(s, i, b) ==> b <= r.end)
  {
    if At(s, i + 3) == '(' {
      NamePassed(s, i + 4);
      var close := SkipName(s, i + 4);
      if Stretch(s, i, b) && b - i > 4 && s[b - 1] == ')' && forall k :: i + 4 <= k < b - 1 ==> IsName(s[k]) {
        assert !(i + 4 <= close < b - 1);
      }
    }
  }

  lemma LongestInfinity(s: string, i: nat, b: int)
    requires i + 3 <= |s| && WordForm(s, i, i + 3, "inf")
    ensures var end := if Spells(s, i + 3, "inity") then i + 8 else i + 3;
      end <= |s| && InfinityForm(s, i, end) && (Stretch(s, i, b) && InfinityForm(s, i, b) ==> b <= end)
  {
    SpellsIs(s, i + 3, "inity");
    if Spells(s, i + 3, "inity") {
      forall k | 0 <= k < 8
        ensures Lower(s[i + k]) == "infinity"[k]
      {
        if k < 3 {
          assert Lower(s[i + k]) == "inf"[k];
        } else {
          assert Lower(s[i + 3 + (k - 3)]) == "inity"[k - 3];
        }
      }
    }
    if Stretch(s, i, b) && WordForm(s, i, b, "infinity") {
      forall k | 0 <= k < 5
        ensures Lower(s[i + 3 + k]) == "inity"[k]
      {
        assert Lower(s[i + (3 + k)]) == "infinity"[3 + k];
      }
    }
  }

  // ---------------------------------------------------------------- the whole text

  /** White space in the C locale: the blank and the five controls from tab to carriage return. */
  predicate White(c: char) {
    c == ' ' || 9 <= c as int <= 13
  }

  /** The start of what is behind the white space. */
  ghost predicate StartsAt(s: string, a: int) {
    0 <= a <= |s| && (forall i :: 0 <= i < a ==> White(s[i])) && !White(At(s, a))
  }

  lemma {:induction false} SpacePassed(s: string, i: nat)
    requires i <= |s|
    ensures i <= SkipSpace(s, i) <= |s| && !White(At(s, SkipSpace(s, i)))
    ensures forall k :: i <= k < SkipSpace(s, i) ==> White(s[k])
    decreases |s| - i
  {
    if i < |s| && IsSpace(s[i]) {
      SpacePassed(s, i + 1);
    }
  }

  /** What kind of form a reading says it has found. */
  predicate Kind(s: string, a: int, r: Reading) {
    match r
    case Nothing => true
    case Infinite(_, end) => Stretch(s, a, end) && InfinityForm(s, a, end)
    case NotNumber(_, end) => Stretch(s, a, end) && NanForm(s, a, end)
    case Number(_, hex, _, _, end) => Stretch(s, a, end) && if hex then a + 2 <= end && Scaled(s, a + 2, end, 16, 'p') else Scaled(s, a, end, 10, 'e')
  }

  function Unsigned(s: string, i: nat, negative: bool): Reading {
    if Spells(s, i, "inf") then Infinite(negative, if Spells(s, i + 3, "inity") then i + 8 else i + 3)
    else if Spells(s, i, "nan") then ReadNan(s, i, negative)
    else ReadNumber(s, i, negative)
  }

  lemma FirstLetters(s: string, i: nat, b: int)
    requires i <= |s|
    ensures Spells(s, i, "inf") <==> i + 3 <= |s| && WordForm(s, i, i + 3, "inf")
    ensures Spells(s, i, "nan") <==> i + 3 <= |s| && WordForm(s, i, i + 3, "nan")
    ensures Stretch(s, i, b) && InfinityForm(s, i, b) ==> Spells(s, i, "inf") && Lower(s[i]) == 'i'
    ensures Stretch(s, i, b) && NanForm(s, i, b) ==> Spells(s, i, "nan") && Lower(s[i]) == 'n'
    ensures Stretch(s, i, b) && NumberForm(s, i, b) ==> i < b && Lower(s[i]) != 'i' && Lower(s[i]) != 'n'
    ensures Spells(s, i, "inf") ==> Lower(s[i]) == 'i'
    ensures Spells(s, i, "nan") ==> Lower(s[i]) == 'n'
  {
    SpellsIs(s, i, "inf");
    SpellsIs(s, i, "nan");
    if Stretch(s, i, b) && NumberForm(s, i, b) {
      NumberStarts(s, i, b);
    }
    if i + 3 <= |s| && WordForm(s, i, i + 3, "inf") {
      assert Lower(s[i + 0]) == "inf"[0];
    }
    if i + 3 <= |s| && WordForm(s, i, i + 3, "nan") {
      assert Lower(s[i + 0]) == "nan"[0];
    }
    if Stretch(s, i, b) && WordForm(s, i, b, "infinity") {
      forall k | 0 <= k < 3
        ensures Lower(s[i + k]) == "inf"[k]
      {
        assert Lower(s[i + k]) == "infinity"[k];
      }
    }
  }

  lemma LongestUnsigned(s: string, i: nat, b: int, negative: bool)
    requires i <= |s|
    ensures var r := Unsigned(s, i, negative);
      && (!r.Nothing? ==> r.negative == negative && UnsignedForm(s, i, r.end) && Kind(s, i, r))
      && (UnsignedForm(s, i, b) ==> !r.Nothing? && b <= r.end)
  {
    FirstLetters(s, i, b);
    if Spells(s, i, "inf") {
      LongestInfinity(s, i, b);
    } else if Spells(s, i, "nan") {
      LongestNan(s, i, b, negative);
    } else {
      LongestNumber(s, i, b, negative);
    }
  }

  /** strtod reads the longest stretch behind the white space that has a form, and nothing when there is none; the
      form tells what it finds, and a minus in front is the sign. */
  lemma LongestForm(s: string, a: int, b: int)
    requires StartsAt(s, a)
    ensures match Read(s)
      case Nothing => !Form(s, a, b)
      case r => Form(s, a, r.end) && (Form(s, a, b) ==> b <= r.end) && r.negative == (At(s, a) == '-')
                && Kind(s, if IsSign(At(s, a)) then a + 1 else a, r)
  {
    SpacePassed(s, 0);
    assert a == SkipSpace(s, 0);
    var (i, negative) := ReadSign(s);
    hide ReadNumber, Spells, ReadNan, UnsignedForm;
    LongestUnsigned(s, i, b, negative);
    assert Read(s) == Unsigned(s, i, negative);
  }
}
