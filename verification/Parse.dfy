/** strtof and strtod: cosmic_decimal_parse_bits of runtime/decimal/parse.c. */
module Parse {
  import opened Powers
  import opened Limbs
  import opened LoopStates
  import opened BigInt
  import opened Numeral
  import opened Rounding
  import opened SoftFloat
  import opened Ratios
  import opened ParseMath
  import opened ParseRatio
  import opened ParseResult
  import opened ParseBounds
  import opened ParseRoom
  import opened ParseCases

  // ---------------------------------------------------------------- reading characters

  method WordAt(s: string, i: nat, word: string) returns (r: bool)
    ensures r <==> Spells(s, i, word)
  {
    var k := 0;
    while k < |word|
      invariant 0 <= k <= |word|
      invariant Spells(s, i, word) <==> Spells(s, i + k, word[k..])
    {
      if Lower(At(s, i + k)) != word[k] {
        return false;
      }
      assert word[k..][1..] == word[k + 1..];
      k := k + 1;
    }
    return true;
  }

  method ParseExponent(s: string, i: nat, marker: char) returns (e: int, end: nat)
    ensures end == ReadExponent(s, i, marker).1
    ensures Saturated(ReadExponent(s, i, marker).0, e)
  {
    if Lower(At(s, i)) != marker {
      return 0, i;
    }
    var q, sign := i + 1, 1;
    if At(s, q) == '+' || At(s, q) == '-' {
      if At(s, q) == '-' {
        sign := -1;
      }
      q := q + 1;
    }
    if !IsDecimal(At(s, q)) {
      return 0, i;
    }
    ghost var v: nat := 0;
    ghost var goal := ReadInteger(s, q, 0);
    e := 0;
    while IsDecimal(At(s, q))
      invariant ReadInteger(s, q, v) == goal
      invariant 0 <= e && Saturated(v, e)
      decreases |s| - q
    {
      v := v * 10 + DigitOf(At(s, q));
      if e < SATURATION {
        e := e * 10 + DigitOf(At(s, q));
      }
      q := q + 1;
    }
    return sign * e, q;
  }

  /** The digit loop: the first 1200 significant digits go into num, the rest leave a count and a
      sticky flag. */
  method ScanDigits(s: string, base: nat, start: nat, num: CdBig)
    returns (kept: nat, dropped: nat, sticky: bool, frac: nat, seen: bool, end: nat)
    requires (base == 10 || base == 16) && start <= |s| && num.Valid() && num.Value() == 0
    modifies num`n, num.w
    ensures num.Valid()
    ensures var d := ReadDigits(s, base, Digits(0, 0, false, false, start));
      && seen == d.seen && end == d.end && frac == d.places
      && Scanned(base, d.mantissa, num.Value(), kept, dropped, sticky)
    ensures end <= |s| && dropped <= |s| && frac <= |s|
  {
    hide Scanned;
    ghost var goal := ReadDigits(s, base, Digits(0, 0, false, false, start));
    ghost var m: nat := 0;
    kept, dropped, sticky, frac, seen, end := 0, 0, false, 0, false, start;
    var dot := false;
    ScannedStart(base);
    while true
      invariant num.Valid()
      invariant ReadDigits(s, base, Digits(m, frac, seen, dot, end)) == goal
      invariant Scanned(base, m, num.Value(), kept, dropped, sticky)
      invariant end <= |s| && dropped <= end && frac <= end
      decreases |s| - end
    {
      var c := At(s, end);
      var v := DigitOf(c);
      if 0 <= v < base {
        seen := true;
        if dot {
          frac := frac + 1;
        }
        kept, dropped, sticky := TakeDigit(base, v, num, kept, dropped, sticky, m);
        m := Append(base, m, v);
        end := end + 1;
      } else if c == '.' && !dot {
        dot := true;
        end := end + 1;
      } else {
        return;
      }
    }
  }

  /** One digit of the loop: skip leading zeros, keep up to 1200 digits, drop the rest. */
  method TakeDigit(base: nat, v: nat, num: CdBig, kept0: nat, dropped0: nat, sticky0: bool, ghost mantissa: nat)
    returns (kept: nat, dropped: nat, sticky: bool)
    requires (base == 10 || base == 16) && v < base && num.Valid()
    requires Scanned(base, mantissa, num.Value(), kept0, dropped0, sticky0)
    modifies num`n, num.w
    ensures num.Valid() && Scanned(base, Append(base, mantissa, v), num.Value(), kept, dropped, sticky)
    ensures dropped0 <= dropped <= dropped0 + 1
  {
    hide Scanned, Pow;
    ScannedCases(base, mantissa, num.Value(), kept0, dropped0, sticky0);
    kept, dropped, sticky := kept0, dropped0, sticky0;
    if kept == 0 && v == 0 {
      return;
    }
    if kept < CD_DIGITS {
      KeepFits(base, num.Value(), kept, v);
      ScannedKeep(base, mantissa, num.Value(), kept, v);
      num.Mul(base);
      num.Add(v);
      kept := kept + 1;
    } else {
      ScannedDrop(base, mantissa, num.Value(), dropped, sticky, v);
      dropped := dropped + 1;
      if v != 0 {
        sticky := true;
      }
    }
  }

  lemma KeepFits(base: nat, num: nat, kept: nat, v: nat)
    requires (base == 10 || base == 16) && v < base && HasDigits(base, num, kept) && kept < CD_DIGITS
    ensures num * base + v < Capacity()
  {
    hide Pow;
    KeptBound(base, num, kept);
    PowMono(2, 4 * kept, 4 * CD_DIGITS);
    CapacityBits();
    PowPos(2, 4 * CD_DIGITS);
    PowAdd(2, 4 * CD_DIGITS, 5);
    PowMono(2, 4 * CD_DIGITS + 5, 32 * CD_WORDS);
    ThirtyTwo();
  }

  lemma ThirtyTwo()
    ensures Pow2(5) == 32
  {
    assert Pow(2, 5) == 32;
  }

  // ---------------------------------------------------------------- the exact ratio

  method TimesTen(a: CdBig, count: nat)
    requires a.Valid() && a.Value() * Pow(10, count) < Capacity()
    modifies a`n, a.w
    ensures a.Valid() && a.Value() == old(a.Value()) * Pow(10, count)
  {
    ghost var v := a.Value();
    var i := 0;
    while i < count
      invariant 0 <= i <= count && a.Valid() && a.Value() == v * Pow(10, i)
    {
      TenRoom(v, i, count);
      a.Mul(10);
      i := i + 1;
    }
  }

  lemma TenRoom(v: nat, i: nat, count: nat)
    requires i < count && v * Pow(10, count) < Capacity()
    ensures v * Pow(10, i) * 10 == v * Pow(10, i + 1) < Capacity()
  {
    PowMono(10, i + 1, count);
    MulMono(v, Pow(10, i + 1), Pow(10, count));
  }

  /** Multiplies the radix power into the numerator or the denominator. */
  method MakeRatio(hex: bool, num: CdBig, den: CdBig, exp: int)
    requires num.Valid() && den.Valid() && num != den && num.w != den.w && den.Value() == 1
    requires 0 < Raised(hex, num.Value(), exp) < Pow2(SAFE_BITS)
    requires RatioD(Radix(hex), exp) < Pow2(SAFE_BITS)
    modifies num`n, num.w, den`n, den.w
    ensures num.Valid() && num.Value() == Raised(hex, old(num.Value()), exp)
    ensures den.Valid() && den.Value() == RatioD(Radix(hex), exp)
  {
    SafeCapacity();
    if exp > 0 {
      if hex {
        ScaleProduct(num.Value(), exp);
        num.Shift(exp);
      } else {
        TimesTen(num, exp);
      }
    } else if exp < 0 {
      if hex {
        ScaleProduct(1, -exp);
        den.Shift(-exp);
      } else {
        TimesTen(den, -exp);
      }
    }
  }

  lemma SafeCapacity()
    ensures Pow2(SAFE_BITS) * Pow2(100) <= Capacity() && Pow2(SAFE_BITS) <= Capacity()
  {
    CapacityBits();
    PowAdd(2, SAFE_BITS, 100);
    PowMono(2, SAFE_BITS + 100, 32 * CD_WORDS);
    PowMono(2, SAFE_BITS, 32 * CD_WORDS);
  }

  /** The binary exponent of num / den from the bit lengths and one comparison. */
  method BinaryExponent(num: CdBig, den: CdBig) returns (e: int)
    requires num.Valid() && den.Valid() && num.Value() > 0 && den.Value() > 0
    ensures Log2(num.Value(), den.Value(), e)
    ensures -(32 * CD_WORDS) - 1 <= e <= 32 * CD_WORDS
  {
    hide BitLen, Scale, Pow;
    ghost var a, b := num.Value(), den.Value();
    var nbits := num.Bits();
    var dbits := den.Bits();
    Log2FromBits(a, b);
    BitsWithin(num);
    BitsWithin(den);
    e := nbits as int - dbits;
    var order: int;
    if e >= 0 {
      AlignFits(b, a, e);
      var copy := ShiftedCopy(den, e);
      order := Cmp(num, copy);
    } else {
      AlignFits(a, b, -e);
      var copy := ShiftedCopy(num, -e);
      order := Cmp(copy, den);
    }
    if order < 0 {
      e := e - 1;
    }
  }

  lemma BitsWithin(a: CdBig)
    requires a.Valid() && a.Value() > 0
    ensures BitLen(a.Value()) <= 32 * CD_WORDS && a.Value() < Capacity()
  {
    ValBound(a.w[..a.n]);
    PowMono(WORD, a.n, CD_WORDS);
    CapacityBits();
    BitLenWithin(a.Value(), 32 * CD_WORDS);
  }

  /** Shifting b to the bit length of a keeps it below capacity. */
  lemma AlignFits(b: nat, a: nat, shift: nat)
    requires b > 0 && 0 < a < Capacity() && BitLen(b) + shift == BitLen(a)
    ensures Scale(b, shift) < Capacity()
  {
    hide Pow, BitLen, Scale;
    CapacityLen(a);
    ScaleBracket(b, shift);
  }

  // ---------------------------------------------------------------- the significand

  /** Aligns the ratio, divides and jams: the significand handed to the packing step. */
  method Quotients(f: Format, num: CdBig, den: CdBig, e: int, sticky: bool) returns (sig: nat)
    requires Supported(f) && num.Valid() && den.Valid() && num != den && num.w != den.w
    requires 0 < num.Value() < Pow2(SAFE_BITS) && 0 < den.Value() < Pow2(SAFE_BITS)
    requires Log2(num.Value(), den.Value(), e)
    modifies num`n, num.w, den`n, den.w
    ensures AlignedD(f, old(den.Value()), e) > 0
    ensures sig == Significand(AlignedN(f, old(num.Value()), e), AlignedD(f, old(den.Value()), e), sticky)
  {
    ghost var a, b := num.Value(), den.Value();
    AlignedNormal(f, a, b, e, sticky);
    AlignedFits(f, a, b, e);
    var scale := f.frac + f.drop - e;
    if scale >= 0 {
      num.Shift(scale);
    } else {
      den.Shift(-scale);
    }
    sig := Quotient(num, den);
    var exact := num.Empty();
    if !exact || sticky {
      sig := OrOne(sig);
    }
  }

  lemma AlignedFits(f: Format, a: nat, b: nat, e: int)
    requires Supported(f) && 0 < a < Pow2(SAFE_BITS) && 0 < b < Pow2(SAFE_BITS) && Log2(a, b, e)
    ensures AlignedN(f, a, e) < Capacity() && AlignedD(f, b, e) < Capacity()
    ensures AlignedN(f, a, e) < Scale(AlignedD(f, b, e), 64)
  {
    var n, d, p := AlignedN(f, a, e), AlignedD(f, b, e), f.frac + f.drop;
    AlignedBracket(f, a, b, e);
    ScaleGrows(d, p + 1, 64);
    SafeCapacity();
    if Aligned(f, e) >= 0 {
      ScaleSafe(b);
    } else {
      ScaleGrows(d, 0, p);
    }
  }

  lemma ScaleSafe(b: nat)
    requires b < Pow2(SAFE_BITS)
    ensures Scale(b, 64) < Capacity()
  {
    hide Pow;
    ScaleGrows(b, 64, 100);
    ScaleProduct(b, 100);
    PowPos(2, 100);
    MulStrictMono(Pow2(100), b, Pow2(SAFE_BITS));
    SafeCapacity();
  }

  // ---------------------------------------------------------------- the conversion

  /** From the kept digits and the exponent to the packed result. */
  method PackNumber(f: Format, mode: Mode, negative: bool, hex: bool, num: CdBig, den: CdBig, kept: nat,
                    ghost dropped: nat, sticky: bool, exp: int, ghost mantissa: nat, ghost exponent: int)
    returns (r: Packed)
    requires Supported(f) && num.Valid() && den.Valid() && num != den && num.w != den.w && den.Value() == 1
    requires Held(hex, mantissa, exponent, num.Value(), kept, dropped, sticky, exp)
    modifies num`n, num.w, den`n, den.w
    ensures Rounds(f, mode, negative, hex, mantissa, exponent, r)
  {
    ghost var a := num.Value();
    var bits := num.Bits();
    var order := if hex then bits + exp else kept + exp;
    assert order == WidthOf(hex, a, kept) + exp;
    var e, sig: nat;
    if order > (if hex then 2000 else 400) {
      e, sig := 2000, Pow2(f.frac + f.drop);
      HugeOrder(f, mode, negative, hex, mantissa, exponent, a, kept, dropped, sticky, exp);
    } else if order < (if hex then -2000 else -400) {
      e, sig := -2000, Pow2(f.frac + f.drop);
      TinyOrder(f, mode, negative, hex, mantissa, exponent, a, kept, dropped, sticky, exp);
    } else {
      e, sig := PackRatio(f, mode, negative, hex, num, den, kept, dropped, sticky, exp, mantissa, exponent);
    }
    r := RoundPack(f, mode, negative, e + f.bias - 1, sig);
  }

  /** Orders within the limits: the exact ratio, its binary exponent and its significand. */
  method PackRatio(f: Format, ghost mode: Mode, ghost negative: bool, hex: bool, num: CdBig, den: CdBig, ghost kept: nat,
                   ghost dropped: nat, sticky: bool, exp: int, ghost mantissa: nat, ghost exponent: int)
    returns (e: int, sig: nat)
    requires Supported(f) && num.Valid() && den.Valid() && num != den && num.w != den.w && den.Value() == 1
    requires Held(hex, mantissa, exponent, num.Value(), kept, dropped, sticky, exp)
    requires -(Limit(hex) as int) <= WidthOf(hex, num.Value(), kept) + exp <= Limit(hex)
    modifies num`n, num.w, den`n, den.w
    ensures -0x4000 <= e < 0x4000
    ensures Rounds(f, mode, negative, hex, mantissa, exponent, RoundPack(f, mode, negative, e + f.bias - 1, sig))
  {
    hide Held, WidthOf, Raised, RatioD, Rounds, RoundPack, Log2, Significand, AlignedN, AlignedD, Pow;
    ghost var a := num.Value();
    RangeFits(hex, mantissa, exponent, a, kept, dropped, sticky, exp);
    MakeRatio(hex, num, den, exp);
    e := BinaryExponent(num, den);
    if e > 1100 || e < -1200 {
      sig := Pow2(f.frac + f.drop);
      ExtremeExponent(f, mode, negative, hex, mantissa, exponent, a, kept, dropped, sticky, exp, e);
    } else {
      OrdinaryExponent(f, mode, negative, hex, mantissa, exponent, a, kept, dropped, sticky, exp, e);
      sig := Quotients(f, num, den, e, sticky);
    }
  }

  lemma HexStart(s: string, i: nat)
    requires i <= |s| && HexPrefix(s, i)
    ensures i + 2 <= |s|
  {
  }

  method ParseNumber(s: string, i: nat, negative: bool, f: Format, mode: Mode) returns (r: Packed, end: nat)
    requires Supported(f) && |s| <= MAX_TEXT && i <= |s|
    ensures Answers(f, mode, ReadNumber(s, i, negative), r, end)
  {
    hide Held, Scanned, Saturated, Rounds, ReadDigits, ReadExponent, HexPrefix, Step, Val, Trimmed, Signed, HasDigits;
    var hex := HexPrefix(s, i);
    var base := if hex then 16 else 10;
    var start := if hex then i + 2 else i;
    if hex {
      HexStart(s, i);
    }
    var num := new CdBig();
    var den := new CdBig();
    den.U64(1);
    var kept, dropped, sticky, frac, seen, stop := ScanDigits(s, base, start, num);
    ghost var d := ReadDigits(s, base, Digits(0, 0, false, false, start));
    if !seen {
      return Plain(0), 0;
    }
    var marker := if hex then 'p' else 'e';
    var e: int;
    e, end := ParseExponent(s, stop, marker);
    ScannedCases(base, d.mantissa, num.Value(), kept, dropped, sticky);
    var zero := num.Empty();
    if zero {
      return Plain(Signed(f, negative, 0)), end;
    }
    var exp := e + (dropped - frac) * Step(hex);
    ghost var v := ReadExponent(s, stop, marker).0;
    HeldFromScan(hex, d.mantissa, v, num.Value(), kept, dropped, sticky, frac, e);
    r := PackNumber(f, mode, negative, hex, num, den, kept, dropped, sticky, exp, d.mantissa, v - frac * Step(hex));
  }

  /** cosmic_decimal_parse_bits: the bits, the end of the subject sequence and whether errno is
      set to ERANGE. */
  method ParseBits(s: string, narrow: bool, mode: Mode) returns (r: Packed, end: nat, erange: bool)
    requires |s| <= MAX_TEXT
    ensures Answers(if narrow then BINARY32 else BINARY64, mode, Read(s), r, end)
    ensures erange <==> r.underflow || r.overflow
  {
    hide Spells, ReadNan, ReadNumber, ReadSign, Supported, Rounds, Signed, Infinity;
    FormatsSupported();
    var f := if narrow then BINARY32 else BINARY64;
    var i, sign := SkipSign(s);
    var inf := WordAt(s, i, "inf");
    if inf {
      end := i + 3;
      var inity := WordAt(s, end, "inity");
      if inity {
        end := end + 5;
      }
      return Plain(Signed(f, sign, Infinity(f))), end, false;
    }
    var nan := WordAt(s, i, "nan");
    if nan {
      end := ScanNan(s, i, sign);
      return Plain(Signed(f, sign, Infinity(f) + One(f) / 2)), end, false;
    }
    r, end := ParseNumber(s, i, sign, f, mode);
    erange := r.underflow || r.overflow;
  }

  method SkipSign(s: string) returns (i: nat, sign: bool)
    ensures (i, sign) == ReadSign(s) && i <= |s|
  {
    i, sign := 0, false;
    while IsSpace(At(s, i))
      invariant 0 <= i <= |s| && SkipSpace(s, i) == SkipSpace(s, 0)
      decreases |s| - i
    {
      i := i + 1;
    }
    if At(s, i) == '+' || At(s, i) == '-' {
      sign := At(s, i) == '-';
      i := i + 1;
    }
  }

  /** The optional payload after nan. */
  method ScanNan(s: string, i: nat, ghost sign: bool) returns (end: nat)
    ensures ReadNan(s, i, sign) == NotNumber(sign, end)
  {
    end := i + 3;
    if At(s, end) == '(' {
      var q := end + 1;
      while IsName(At(s, q))
        invariant SkipName(s, q) == SkipName(s, end + 1)
        decreases |s| - q
      {
        q := q + 1;
      }
      if At(s, q) == ')' {
        end := q + 1;
      }
    }
  }
}
