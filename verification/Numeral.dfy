/** The subject sequence of strtod (section 7.20.1.3 of C99) as a reference definition: which
    characters are read and which exact number they denote. Text ends at a NUL, written or implied. */
module Numeral {
  import opened Powers

  function At(s: string, i: nat): char {
    if i < |s| then s[i] else '\0'
  }

  predicate IsSpace(c: char) {
    c == ' ' || c == '\t' || c == '\n' || c == '\r' || c == 12 as char || c == 11 as char
  }

  /** The value of a hexadecimal digit, -1 for any other character. */
  function DigitOf(c: char): int {
    if '0' <= c <= '9' then c as int - '0' as int
    else if 'a' <= c <= 'f' then c as int - 'a' as int + 10
    else if 'A' <= c <= 'F' then c as int - 'A' as int + 10
    else -1
  }

  function Lower(c: char): char {
    if 'A' <= c <= 'Z' then (c as int + 32) as char else c
  }

  predicate IsDecimal(c: char) {
    '0' <= c <= '9'
  }

  predicate IsName(c: char) {
    IsDecimal(c) || 'a' <= c <= 'z' || 'A' <= c <= 'Z' || c == '_'
  }

  /** The characters from i on spell a lower-case word, in either case. */
  predicate Spells(s: string, i: nat, word: string)
    decreases |word|
  {
    word == [] || (Lower(At(s, i)) == word[0] && Spells(s, i + 1, word[1..]))
  }

  function SkipSpace(s: string, i: nat): nat
    decreases |s| - i
  {
    if i < |s| && IsSpace(s[i]) then SkipSpace(s, i + 1) else i
  }

  function SkipName(s: string, i: nat): (j: nat)
    ensures i <= j
    decreases |s| - i
  {
    if i < |s| && IsName(s[i]) then SkipName(s, i + 1) else i
  }

  /** Digits read so far: the integer they form without the point, how many follow the point,
      whether there was any, and where reading stopped. */
  datatype Digits = Digits(mantissa: nat, places: nat, seen: bool, dot: bool, end: nat)

  function ReadDigits(s: string, base: nat, d: Digits): (r: Digits)
    requires base == 10 || base == 16
    decreases |s| - d.end
  {
    var c := At(s, d.end);
    var v := DigitOf(c);
    if 0 <= v < base then
      ReadDigits(s, base, PushDigit(base, d, v))
    else if c == '.' && !d.dot then
      ReadDigits(s, base, d.(dot := true, end := d.end + 1))
    else
      d
  }

  /** A number with one more digit. */
  function Append(base: nat, m: nat, v: nat): nat
    requires base == 10 || base == 16
  {
    (if base == 16 then 16 * m else 10 * m) + v
  }

  lemma AppendProduct(base: nat, m: nat, v: nat)
    requires base == 10 || base == 16
    ensures Append(base, m, v) == m * base + v
  {
  }

  function PushDigit(base: nat, d: Digits, v: nat): Digits
    requires base == 10 || base == 16
  {
    Digits(Append(base, d.mantissa, v), if d.dot then d.places + 1 else d.places, true, d.dot, d.end + 1)
  }

  /** Decimal digits as a number, from a running value. */
  function ReadInteger(s: string, i: nat, v: nat): (nat, nat)
    decreases |s| - i
  {
    if IsDecimal(At(s, i)) then ReadInteger(s, i + 1, v * 10 + DigitOf(At(s, i))) else (v, i)
  }

  /** An optional exponent after the marker letter: its value and the end of what was read. */
  function ReadExponent(s: string, i: nat, marker: char): (int, nat) {
    if Lower(At(s, i)) != marker then (0, i)
    else
      var signed := At(s, i + 1) == '+' || At(s, i + 1) == '-';
      var j := if signed then i + 2 else i + 1;
      if !IsDecimal(At(s, j)) then (0, i)
      else
        var (v, end) := ReadInteger(s, j, 0);
        var e: int := if At(s, i + 1) == '-' then -(v as int) else v;
        (e, end)
  }

  predicate HexPrefix(s: string, i: nat) {
    && At(s, i) == '0' && (At(s, i + 1) == 'x' || At(s, i + 1) == 'X')
    && DigitOf(At(s, if At(s, i + 2) == '.' then i + 3 else i + 2)) >= 0
  }

  /** What a text denotes. A number is mantissa * 10^exponent, or mantissa * 2^exponent when
      hexadecimal. */
  datatype Reading =
    | Nothing
    | Infinite(negative: bool, end: nat)
    | NotNumber(negative: bool, end: nat)
    | Number(negative: bool, hex: bool, mantissa: nat, exponent: int, end: nat)

  /** How far one digit moves the exponent. */
  function Step(hex: bool): nat {
    if hex then 4 else 1
  }

  function ReadNumber(s: string, i: nat, negative: bool): Reading {
    var hex := HexPrefix(s, i);
    var base := if hex then 16 else 10;
    var d := ReadDigits(s, base, Digits(0, 0, false, false, if hex then i + 2 else i));
    if !d.seen then Nothing
    else
      var (e, end) := ReadExponent(s, d.end, if hex then 'p' else 'e');
      Number(negative, hex, d.mantissa, e - d.places * Step(hex), end)
  }

  function ReadNan(s: string, i: nat, negative: bool): Reading {
    var close := SkipName(s, i + 4);
    NotNumber(negative, if At(s, i + 3) == '(' && At(s, close) == ')' then close + 1 else i + 3)
  }

  /** White space and sign. */
  function ReadSign(s: string): (nat, bool) {
    var start := SkipSpace(s, 0);
    var negative := At(s, start) == '-';
    (if At(s, start) == '+' || negative then start + 1 else start, negative)
  }

  function Read(s: string): Reading {
    var (i, negative) := ReadSign(s);
    if Spells(s, i, "inf") then
      Infinite(negative, if Spells(s, i + 3, "inity") then i + 8 else i + 3)
    else if Spells(s, i, "nan") then
      ReadNan(s, i, negative)
    else
      ReadNumber(s, i, negative)
  }

  /** mantissa * radix^exponent as a ratio. */
  function RatioN(radix: nat, mantissa: nat, exponent: int): nat {
    if exponent >= 0 then mantissa * Pow(radix, exponent) else mantissa
  }

  function RatioD(radix: nat, exponent: int): (d: nat)
    requires radix > 0
    ensures d > 0
  {
    if exponent >= 0 then 1 else PowPos(radix, -exponent); Pow(radix, -exponent)
  }
}
