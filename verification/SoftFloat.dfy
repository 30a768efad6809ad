/** The packing step of the software floating-point runtime: cosmic_sf_pack32 and cosmic_sf_pack64
    with the adapted round-and-pack fragments they call, for both formats at once. */
module SoftFloat {
  import opened Powers
  import opened Rounding

  /** An encoding and the exception flags raised while making it. */
  datatype Packed = Packed(bits: nat, inexact: bool, underflow: bool, overflow: bool)

  // ---------------------------------------------------------------- jammed significands

  function OrOne(k: nat): nat {
    if k % 2 == 0 then k + 1 else k
  }

  /** The whole part of n / d with its low bit set when anything was discarded. */
  function Jam(n: nat, d: nat): nat
    requires d > 0
  {
    if n % d == 0 then n / d else OrOne(n / d)
  }

  /** A jammed significand compares with even numbers as the number itself does. */
  lemma JamCompare(n: nat, d: nat, m: nat)
    requires d > 0 && m % 2 == 0
    ensures m * d <= n <==> m <= Jam(n, d)
    ensures m * d == n <==> m == Jam(n, d)
  {
    var q, r := n / d, n % d;
    DivMod(n, d);
    assert q * d == d * q;
    if m <= q {
      MulMono(d, m, q);
      if m < q {
        MulStrictMono(d, m, q);
      }
    } else {
      MulMono(d, q + 1, m);
      MulAdd(d, q, 1);
    }
  }

  /** Right shift that keeps lost bits in the low bit; distances of W - 1 or more leave only it. */
  function ShiftJam(f: Format, sig: nat, dist: nat): nat {
    PowPos(2, dist);
    if dist < f.frac + f.drop + 1 then
      var kept := sig / Pow2(dist);
      if sig % Pow2(dist) != 0 then OrOne(kept) else kept
    else if sig != 0 then 1 else 0
  }

  lemma ShiftJamIsJam(f: Format, sig: nat, dist: nat)
    requires sig < Pow2(f.frac + f.drop + 1)
    ensures Pow2(dist) > 0 && ShiftJam(f, sig, dist) == Jam(sig, Pow2(dist))
  {
    PowPos(2, dist);
    if dist >= f.frac + f.drop + 1 {
      PowMono(2, f.frac + f.drop + 1, dist);
      DivUnique(sig, Pow2(dist), 0, sig);
    }
  }

  /** Jamming in two steps is jamming once, when the second step discards at least one bit. */
  lemma JamTwice(n: nat, d: nat, k: nat)
    requires d > 0 && k > 0
    ensures Pow2(k) > 0 && d * Pow2(k) > 0
    ensures Jam(Jam(n, d), Pow2(k)) == Jam(n, d * Pow2(k))
  {
    var p := Pow2(k);
    PowPos(2, k);
    assert p == 2 * Pow2(k - 1);
    JamTwiceEven(n, d, p, Pow2(k - 1));
  }

  lemma JamTwiceEven(n: nat, d: nat, p: nat, h: nat)
    requires d > 0 && p == 2 * h && h > 0
    ensures d * p > 0 && Jam(Jam(n, d), p) == Jam(n, d * p)
  {
    MulStrictMono(d, 0, p);
    var t, r := n / (d * p), n % (d * p);
    DivMod(n, d * p);
    JamBracket(n, d, p, h, t, r);
    var s := Jam(n, d);
    MulAdd(p, t, 1);
    DivUnique(s, p, t, s - t * p);
  }

  lemma JamBracket(n: nat, d: nat, p: nat, h: nat, t: nat, r: nat)
    requires d > 0 && p == 2 * h && n == (d * p) * t + r && r < d * p
    ensures t * p <= Jam(n, d) < (t + 1) * p
    ensures Jam(n, d) == t * p <==> r == 0
  {
    EvenMultiple(t, p, h);
    EvenMultiple(t + 1, p, h);
    assert (t * p) * d == (d * p) * t;
    assert ((t + 1) * p) * d == (d * p) * t + d * p;
    JamCompare(n, d, t * p);
    JamCompare(n, d, (t + 1) * p);
  }

  lemma EvenMultiple(t: nat, p: nat, h: nat)
    requires p == 2 * h
    ensures (t * p) % 2 == 0
  {
    assert t * p == 2 * (t * h);
  }

  // ---------------------------------------------------------------- round and pack

  function SignBit(f: Format): nat {
    (f.inf + 1) * One(f)
  }

  function Signed(f: Format, negative: bool, magnitude: nat): nat {
    (if negative then SignBit(f) else 0) + magnitude
  }

  /** The weight of half a unit in the last kept place, and of a whole one. */
  function Half(f: Format): (h: nat)
    requires Sane(f)
    ensures h > 0 && h % 2 == 0
  {
    PowPos(2, f.drop - 2);
    assert Pow2(f.drop - 1) == 2 * Pow2(f.drop - 2);
    Pow2(f.drop - 1)
  }

  function Full(f: Format): (p: nat)
    requires Sane(f)
    ensures p == 2 * Half(f) && p > 0
  {
    Pow2(f.drop)
  }

  function Increment(f: Format, mode: Mode, negative: bool): nat
    requires Sane(f)
  {
    if mode == NearestEven then Half(f)
    else if mode == (if negative then Downward else Upward) then Full(f) - 1
    else 0
  }

  function Quot(a: nat, b: nat): nat
    requires b > 0
  {
    a / b
  }

  /** A significand placed above an exponent field less one, as the packing macros add them. */
  function Encode(f: Format, e: nat, m: nat): nat {
    e * One(f) + m
  }

  /** The significand with the extra bits rounded away and a tie to odd undone. */
  function Rounded(f: Format, mode: Mode, negative: bool, sig: nat): nat
    requires Sane(f)
  {
    var up := Quot(sig + Increment(f, mode, negative), Full(f));
    Untied(f, mode, sig % Full(f), up)
  }

  /** The tail of the rounding step: pack the rounded significand. */
  function Finish(f: Format, mode: Mode, negative: bool, exp: nat, sig: nat, tiny: bool): Packed
    requires Sane(f)
  {
    var kept, inexact := Rounded(f, mode, negative, sig), sig % Full(f) != 0;
    var field := if kept == 0 then 0 else exp;
    Packed(Signed(f, negative, Encode(f, field, kept)), inexact, tiny && inexact, false)
  }

  /** exp is the exponent field less one; the unsigned comparison of the source sends negative
      exponents to the same branch as large ones. */
  function RoundPack(f: Format, mode: Mode, negative: bool, exp: int, sig: nat): Packed
    requires Sane(f) && -0x8000 <= exp < 0x8000
  {
    var top, increment := Pow2(f.frac + f.drop + 1), Increment(f, mode, negative);
    if exp < 0 then
      Finish(f, mode, negative, 0, ShiftJam(f, sig, -exp), exp < -1 || sig + increment < top)
    else if exp > f.inf - 2 || (exp == f.inf - 2 && top <= sig + increment) then
      Packed(Signed(f, negative, Infinity(f) - (if increment == 0 then 1 else 0)), true, false, true)
    else
      Finish(f, mode, negative, exp, sig, false)
  }

  // ---------------------------------------------------------------- correctness

  lemma ScaleMul(a: nat, e: nat, b: nat)
    ensures Scale(a, e) * b == Scale(a * b, e)
  {
    ScaleProduct(a, e);
    ScaleProduct(a * b, e);
  }

  lemma ScaleCompare(a: nat, b: nat, e: nat)
    ensures Scale(a, e) <= Scale(b, e) <==> a <= b
    ensures Scale(a, e) == Scale(b, e) <==> a == b
  {
    if a < b {
      ScaleStrictMono(a, b, e);
    } else if b < a {
      ScaleStrictMono(b, a, e);
    }
  }

  /** A multiple of half a unit against the number behind a jammed significand. */
  lemma HalvesCompare(f: Format, yn: nat, yd: nat, e: nat, j: nat)
    requires Sane(f) && yd > 0
    ensures Scale(j, e) * (yd * Full(f)) <= 2 * Scale(yn, e) <==> j * Half(f) <= Jam(yn, yd)
    ensures Scale(j, e) * (yd * Full(f)) == 2 * Scale(yn, e) <==> j * Half(f) == Jam(yn, yd)
  {
    var h := Half(f);
    assert Scale(j, e) * (yd * Full(f)) == 2 * Scale(j * h * yd, e) by {
      HalvesScaled(j, e, yd, h);
    }
    ScaleCompare(j * h * yd, yn, e);
    EvenMultiple(j, h, h / 2);
    JamCompare(yn, yd, j * h);
  }

  lemma HalvesScaled(j: nat, e: nat, yd: nat, h: nat)
    ensures Scale(j, e) * (yd * (2 * h)) == 2 * Scale(j * h * yd, e)
  {
    ScaleMul(j, e, h * yd);
    assert j * (h * yd) == j * h * yd;
    assert Scale(j, e) * (yd * (2 * h)) == 2 * (Scale(j, e) * (h * yd));
  }

  function Untied(f: Format, mode: Mode, bits: nat, up: nat): nat
    requires Sane(f)
  {
    if mode == NearestEven && bits == Half(f) then up - up % 2 else up
  }

  /** What rounding does to a significand split into kept bits and round bits. */
  lemma RoundedSplit(f: Format, mode: Mode, negative: bool, m: nat, bits: nat)
    requires Sane(f) && bits < Full(f)
    ensures (m * Full(f) + bits) % Full(f) == bits
    ensures Rounded(f, mode, negative, m * Full(f) + bits) == Untied(f, mode, bits,
              if bits + Increment(f, mode, negative) < Full(f) then m else m + 1)
  {
    var p, inc := Full(f), Increment(f, mode, negative);
    DivUnique(m * p + bits, p, m, bits);
    if bits + inc < p {
      DivUnique(m * p + bits + inc, p, m, bits + inc);
    } else {
      MulAdd(p, m, 1);
      DivUnique(m * p + bits + inc, p, m + 1, bits + inc - p);
    }
  }

  /** The rounded significand is the pick between the two neighbours, seen from the
      round bits alone. */
  lemma RoundedPick(f: Format, mode: Mode, negative: bool, m: nat, bits: nat)
    requires Sane(f) && bits < Full(f)
    ensures Rounded(f, mode, negative, m * Full(f) + bits) ==
            if bits == 0 then m
            else match mode
              case TowardZero => m
              case Upward => if negative then m else m + 1
              case Downward => if negative then m + 1 else m
              case NearestEven =>
                if bits < Half(f) then m
                else if bits > Half(f) then m + 1
                else if m % 2 == 0 then m else m + 1
  {
    RoundedSplit(f, mode, negative, m, bits);
  }

  lemma {:induction false} ScaleSum(a: nat, b: nat, e: nat)
    ensures Scale(a, e) + Scale(b, e) == Scale(a + b, e)
  {
    if e > 0 {
      ScaleSum(a, b, e - 1);
    }
  }

  lemma UnitCompare(f: Format, yn: nat, yd: nat, e: nat, m: nat)
    requires Sane(f) && yd > 0 && m <= 2 * One(f) && (e == 0 || One(f) <= m)
    ensures Unit(f, Encode(f, e, m)) * (yd * Full(f)) <= Scale(yn, e) <==> m * Full(f) <= Jam(yn, yd)
    ensures Unit(f, Encode(f, e, m)) * (yd * Full(f)) == Scale(yn, e) <==> m * Full(f) == Jam(yn, yd)
  {
    var d, unit := yd * Full(f), Unit(f, Encode(f, e, m));
    assert unit + unit == Scale(2 * m, e) by {
      UnitAt(f, e, m);
      ScaleSum(m, m, e);
    }
    HalvesCompare(f, yn, yd, e, 2 * m);
    Doubled(unit, d);
    HalvesWhole(m, Half(f));
  }

  lemma MiddleCompare(f: Format, yn: nat, yd: nat, e: nat, m: nat)
    requires Sane(f) && yd > 0 && m < 2 * One(f) && (e == 0 || One(f) <= m)
    ensures var middle := (Unit(f, Encode(f, e, m)) + Unit(f, Encode(f, e, m) + 1)) * (yd * Full(f));
      && (middle <= 2 * Scale(yn, e) <==> m * Full(f) + Half(f) <= Jam(yn, yd))
      && (middle == 2 * Scale(yn, e) <==> m * Full(f) + Half(f) == Jam(yn, yd))
  {
    MiddleUnits(f, e, m);
    HalvesWhole(m, Half(f));
    HalvesCompare(f, yn, yd, e, 2 * m + 1);
  }

  lemma MiddleUnits(f: Format, e: nat, m: nat)
    requires m < 2 * One(f) && (e == 0 || One(f) <= m)
    ensures Unit(f, Encode(f, e, m)) + Unit(f, Encode(f, e, m) + 1) == Scale(2 * m + 1, e)
  {
    UnitAt(f, e, m);
    UnitAt(f, e, m + 1);
    ScaleSum(m, m + 1, e);
  }

  lemma HalvesWhole(m: nat, h: nat)
    ensures (2 * m) * h == m * (2 * h) && (2 * m + 1) * h == m * (2 * h) + h
  {
  }

  lemma Doubled(x: nat, d: nat)
    ensures (x + x) * d == 2 * (x * d)
  {
  }

  /** The two encodings around a number and their middle, compared with it by the round bits. */
  lemma Neighbours(f: Format, yn: nat, yd: nat, e: nat, m: nat, bits: nat)
    requires Sane(f) && yd > 0 && bits < Full(f) && Jam(yn, yd) == m * Full(f) + bits
    requires m < 2 * One(f) && (e == 0 || One(f) <= m)
    ensures var lo, n, d := Encode(f, e, m), Scale(yn, e), yd * Full(f);
      && Unit(f, lo) * d <= n < Unit(f, lo + 1) * d
      && (Unit(f, lo) * d == n <==> bits == 0)
      && ((Unit(f, lo) + Unit(f, lo + 1)) * d <= 2 * n <==> Half(f) <= bits)
      && ((Unit(f, lo) + Unit(f, lo + 1)) * d == 2 * n <==> Half(f) == bits)
  {
    UnitCompare(f, yn, yd, e, m);
    UnitCompare(f, yn, yd, e, m + 1);
    MiddleCompare(f, yn, yd, e, m);
    MulAdd(Full(f), m, 1);
    assert Encode(f, e, m + 1) == Encode(f, e, m) + 1;
  }

  lemma EncodeParity(f: Format, e: nat, m: nat)
    requires Sane(f)
    ensures Encode(f, e, m) % 2 == m % 2
  {
    var h := Pow2(f.frac - 1);
    assert One(f) == 2 * h;
    EvenMultiple(e, One(f), h);
    EvenPlus(e * One(f), m);
  }

  lemma EvenPlus(x: nat, m: nat)
    requires x % 2 == 0
    ensures (x + m) % 2 == m % 2
  {
  }

  lemma PickRounded(f: Format, mode: Mode, negative: bool, yn: nat, yd: nat, e: nat, m: nat, bits: nat)
    requires Sane(f) && yd > 0 && bits < Full(f) && Jam(yn, yd) == m * Full(f) + bits
    requires m < 2 * One(f) && (e == 0 || One(f) <= m)
    ensures Pick(f, mode, negative, Scale(yn, e), yd * Full(f), Encode(f, e, m))
         == Encode(f, e, Rounded(f, mode, negative, Jam(yn, yd)))
  {
    Neighbours(f, yn, yd, e, m, bits);
    EncodeParity(f, e, m);
    RoundedPick(f, mode, negative, m, bits);
  }

  lemma EncodeBelow(f: Format, e: nat, m: nat)
    requires Sane(f) && e <= f.inf - 2 && m < 2 * One(f)
    ensures Encode(f, e, m) < Infinity(f)
  {
    MulMono(One(f), e, f.inf - 2);
    MulAdd(One(f), f.inf - 2, 2);
  }

  /** Rounding at a nonnegative exponent. */
  lemma FinishCorrect(f: Format, mode: Mode, negative: bool, e: nat, yn: nat, yd: nat)
    requires Sane(f) && yd > 0 && e <= f.inf - 2
    requires Jam(yn, yd) < 2 * One(f) * Full(f) && (e == 0 || One(f) * Full(f) <= Jam(yn, yd))
    ensures CorrectlyRounded(f, mode, negative, Scale(yn, e), yd * Full(f),
              Encode(f, e, Rounded(f, mode, negative, Jam(yn, yd))))
  {
    var m, bits := SplitSig(f, e, Jam(yn, yd));
    EncodeBelow(f, e, m);
    Neighbours(f, yn, yd, e, m, bits);
    PickRounded(f, mode, negative, yn, yd, e, m, bits);
    assert IsFloor(f, Scale(yn, e), yd * Full(f), Encode(f, e, m));
  }

  /** Kept bits and round bits of a significand in range. */
  lemma SplitSig(f: Format, e: nat, s: nat) returns (m: nat, bits: nat)
    requires Sane(f) && s < 2 * One(f) * Full(f) && (e == 0 || One(f) * Full(f) <= s)
    ensures s == m * Full(f) + bits && bits < Full(f)
    ensures m < 2 * One(f) && (e == 0 || One(f) <= m)
  {
    m, bits := s / Full(f), s % Full(f);
    DivMod(s, Full(f));
    DivBracket(s, Full(f), m, bits, One(f));
    DivBracket(s, Full(f), m, bits, 2 * One(f));
  }

  lemma DivBracket(s: nat, p: nat, m: nat, bits: nat, one: nat)
    requires s == p * m + bits && bits < p
    ensures s < one * p ==> m < one
    ensures one * p <= s ==> one <= m
  {
    if one <= m {
      MulMono(p, one, m);
    } else {
      MulMono(p, m + 1, one);
      MulAdd(p, m, 1);
    }
  }

  /** n / d in least subnormals, when a significand stands for yn / yd at an exponent. */
  function UnitsN(yn: nat, exp: int): nat {
    if exp < 0 then yn else Scale(yn, exp)
  }

  function UnitsD(f: Format, yd: nat, exp: int): nat
    requires Sane(f)
  {
    if exp < 0 then (yd * Pow2(-exp)) * Full(f) else yd * Full(f)
  }

  lemma TopSplit(f: Format)
    requires Sane(f)
    ensures Pow2(f.frac + f.drop) == One(f) * Full(f)
    ensures Pow2(f.frac + f.drop + 1) == 2 * One(f) * Full(f)
  {
    PowAdd(2, f.frac, f.drop);
  }

  /** The significand is in range: its top bit is bit frac + drop. */
  ghost predicate Normal(f: Format, sig: nat)
    requires Sane(f)
  {
    One(f) * Full(f) <= sig < 2 * One(f) * Full(f)
  }

  /** r is an encoding of n / d, with its sign, correctly rounded. */
  ghost predicate RoundsTo(f: Format, mode: Mode, negative: bool, n: nat, d: nat, r: Packed) {
    exists b: nat :: CorrectlyRounded(f, mode, negative, n, d, b) && r.bits == Signed(f, negative, b)
                     && Flagged(f, mode, negative, n, d, b, r)
  }

  /** Overflow is raised when the result, or the number itself, reaches the first power of two
      that is not finite; inexact on overflow and whenever the result differs from the number; underflow
      when the result is inexact and tiny. */
  ghost predicate Flagged(f: Format, mode: Mode, negative: bool, n: nat, d: nat, b: nat, r: Packed) {
    && RangeFlagged(f, n, d, b, r)
    && (r.underflow <==> r.inexact && Tiny(f, mode, negative, n, d))
  }

  ghost predicate RangeFlagged(f: Format, n: nat, d: nat, b: nat, r: Packed) {
    && (r.overflow <==> b == Infinity(f) || Unit(f, Infinity(f)) * d <= n)
    && (r.inexact <==> r.overflow || Unit(f, b) * d != n)
  }

  /** Tiny after rounding (section 7.5 of IEEE 754-2008): rounded to the precision of the format, as if exponents had
      no lower limit, the number stays below the least normal one. Below that number this is rounding to half
      of a least subnormal; the least normal number is One subnormals. */
  predicate Tiny(f: Format, mode: Mode, negative: bool, n: nat, d: nat) {
    d > 0 && IntegerPick(mode, negative, 2 * n, d) < 2 * One(f)
  }

  /** The rounded significand is the number behind it, rounded to an integer. */
  lemma RoundedNumber(f: Format, mode: Mode, negative: bool, yn: nat, yd: nat)
    requires Sane(f) && yd > 0
    ensures yd * Full(f) > 0 && IntegerPick(mode, negative, yn, yd * Full(f)) == Rounded(f, mode, negative, Jam(yn, yd))
  {
    hide Jam, Rounded, Half, Full;
    var s := Jam(yn, yd);
    var m, bits := s / Full(f), s % Full(f);
    DivMod(s, Full(f));
    MulStrictMono(yd, 0, Full(f));
    HalvesCompare(f, yn, yd, 0, 2 * m);
    HalvesCompare(f, yn, yd, 0, 2 * m + 1);
    HalvesCompare(f, yn, yd, 0, 2 * m + 2);
    HalvesWhole(m, Half(f));
    HalvesWhole(m + 1, Half(f));
    MulAdd(Full(f), m, 1);
    RoundedPick(f, mode, negative, m, bits);
    assert s == m * Full(f) + bits;
    NumberBetween(mode, negative, yn, yd * Full(f), m, bits, Half(f));
  }

  /** Rounding to an integer, from where the number lies between halves. */
  lemma NumberBetween(mode: Mode, negative: bool, n: nat, d: nat, m: nat, bits: nat, half: nat)
    requires d > 0 && half > 0 && (2 * m) * d <= 2 * n && !((2 * m + 2) * d <= 2 * n) && ((2 * m) * d == 2 * n <==> bits == 0)
    requires (2 * m + 1) * d <= 2 * n <==> half <= bits
    requires (2 * m + 1) * d == 2 * n <==> half == bits
    ensures IntegerPick(mode, negative, n, d) ==
            if bits == 0 then m
            else match mode
              case TowardZero => m
              case Upward => if negative then m else m + 1
              case Downward => if negative then m + 1 else m
              case NearestEven =>
                if bits < half then m
                else if bits > half then m + 1
                else if m % 2 == 0 then m else m + 1
  {
    hide IntegerPick;
    assert (2 * m) * d == 2 * (m * d) && (2 * m + 2) * d == 2 * (m * d) + 2 * d;
    PickIsAbove(mode, negative, n, d, m);
  }

  /** The branch for negative exponents finds out whether the number is tiny. */
  lemma TinyFound(f: Format, mode: Mode, negative: bool, exp: int, yn: nat, yd: nat)
    requires Sane(f) && yd > 0 && exp < 0 && Normal(f, Jam(yn, yd))
    ensures Tiny(f, mode, negative, UnitsN(yn, exp), UnitsD(f, yd, exp))
       <==> exp < -1 || Jam(yn, yd) + Increment(f, mode, negative) < 2 * One(f) * Full(f)
  {
    hide IntegerPick, Rounded, Half, Full, Jam, Increment;
    var k, p := -exp, Pow2(-exp);
    PowPos(2, k);
    MulStrictMono(yd, 0, p);
    MulStrictMono(Full(f), 0, yd * p);
    if exp == -1 {
      assert Pow2(1) == 2 * Pow2(0) && Pow2(0) == 1;
      RoundedNumber(f, mode, negative, yn, yd);
      assert (2 * yn) * (yd * Full(f)) == yn * ((yd * 2) * Full(f));
      PickSame(mode, negative, 2 * yn, (yd * 2) * Full(f), yn, yd * Full(f));
      TopReached(f, mode, negative, Jam(yn, yd));
    } else {
      assert p == 4 * Pow2(k - 2);
      PowPos(2, k - 2);
      FarTiny(f, yn, yd, p, Pow2(k - 2));
      PickAtMost(mode, negative, 2 * yn, yd * p * Full(f), One(f));
    }
  }

  lemma TopReached(f: Format, mode: Mode, negative: bool, s: nat)
    requires Sane(f) && Normal(f, s)
    ensures Rounded(f, mode, negative, s) < 2 * One(f) <==> s + Increment(f, mode, negative) < 2 * One(f) * Full(f)
  {
    var m, bits := SplitSig(f, 1, s);
    if 2 * One(f) * Full(f) <= s + Increment(f, mode, negative) {
      RoundsToTop(f, mode, negative, m, bits);
    } else {
      StaysBelowTop(f, mode, negative, m, bits);
    }
  }

  lemma FarTiny(f: Format, yn: nat, yd: nat, p: nat, q: nat)
    requires Sane(f) && yd > 0 && p == 4 * q && q > 0 && Jam(yn, yd) < 2 * One(f) * Full(f)
    ensures 2 * yn <= One(f) * (yd * p * Full(f))
  {
    hide Half;
    EvenMultiple(2 * One(f), Full(f), Half(f));
    JamCompare(yn, yd, 2 * One(f) * Full(f));
    var x := One(f) * Full(f) * yd;
    assert 2 * One(f) * Full(f) * yd == 2 * x;
    assert One(f) * (yd * p * Full(f)) == 4 * (x * q) by {
      FourFactors(One(f), yd, Full(f), q);
    }
    MulMono(x, 1, q);
  }

  lemma FourFactors(a: nat, b: nat, c: nat, q: nat)
    ensures a * (b * (4 * q) * c) == 4 * (a * c * b * q)
  {
    assert b * (4 * q) == 4 * (b * q);
    assert 4 * (b * q) * c == 4 * (b * q * c);
    assert a * (4 * (b * q * c)) == 4 * (a * (b * q * c));
    assert b * q * c == c * b * q;
    assert a * (c * b * q) == a * c * b * q;
  }

  /** A number that is not below the least normal one is not tiny. */
  lemma NotTiny(f: Format, mode: Mode, negative: bool, n: nat, d: nat)
    requires d > 0 && One(f) * d <= n
    ensures !Tiny(f, mode, negative, n, d)
  {
    assert 2 * One(f) * d == 2 * (One(f) * d);
    PickAtLeast(mode, negative, 2 * n, d, 2 * One(f));
  }

  lemma NormalUnits(f: Format, exp: nat, yn: nat, yd: nat)
    requires Sane(f) && yd > 0 && One(f) * Full(f) <= Jam(yn, yd)
    ensures One(f) * (yd * Full(f)) <= Scale(yn, exp)
  {
    NormalLow(f, yn, yd);
    ScaleGrows(yn, 0, exp);
  }

  lemma FinishFlags(f: Format, mode: Mode, negative: bool, e: nat, yn: nat, yd: nat, r: Packed)
    requires Sane(f) && yd > 0 && e <= f.inf - 2
    requires Jam(yn, yd) < 2 * One(f) * Full(f) && (e == 0 || One(f) * Full(f) <= Jam(yn, yd))
    requires r.overflow <==> Encode(f, e, Rounded(f, mode, negative, Jam(yn, yd))) == Infinity(f)
    requires r.inexact <==> r.overflow || Jam(yn, yd) % Full(f) != 0
    ensures RangeFlagged(f, Scale(yn, e), yd * Full(f), Encode(f, e, Rounded(f, mode, negative, Jam(yn, yd))), r)
  {
    var m, bits := SplitSig(f, e, Jam(yn, yd));
    EncodeBelow(f, e, m);
    Neighbours(f, yn, yd, e, m, bits);
    RoundedPick(f, mode, negative, m, bits);
    DivUnique(Jam(yn, yd), Full(f), m, bits);
    var lo := Encode(f, e, m);
    assert Encode(f, e, m + 1) == lo + 1;
    UnitUpTo(f, lo + 1, Infinity(f), yd * Full(f));
  }

  lemma UnitUpTo(f: Format, a: nat, b: nat, d: nat)
    requires a <= b
    ensures Unit(f, a) * d <= Unit(f, b) * d
  {
    if a < b {
      UnitMono(f, a, b);
    }
    MulMono(d, Unit(f, a), Unit(f, b));
  }

  lemma PackTiny(f: Format, mode: Mode, negative: bool, exp: int, yn: nat, yd: nat)
    requires Sane(f) && yd > 0 && -0x8000 <= exp < 0 && Normal(f, Jam(yn, yd))
    ensures RoundsTo(f, mode, negative, UnitsN(yn, exp), UnitsD(f, yd, exp),
              RoundPack(f, mode, negative, exp, Jam(yn, yd)))
  {
    var s, k := Jam(yn, yd), -exp;
    TopSplit(f);
    JamTwice(yn, yd, k);
    ShiftJamIsJam(f, s, k);
    JamSmaller(s, Pow2(k), 2 * One(f) * Full(f), One(f) * Full(f));
    TinyEncoded(f, mode, negative, exp, s, Jam(yn, yd * Pow2(k)));
    FinishCorrect(f, mode, negative, 0, yn, yd * Pow2(k));
    FinishFlags(f, mode, negative, 0, yn, yd * Pow2(k), RoundPack(f, mode, negative, exp, s));
    TinyFound(f, mode, negative, exp, yn, yd);
  }

  /** The branch for negative exponents encodes the rounded, shifted significand. */
  lemma TinyEncoded(f: Format, mode: Mode, negative: bool, exp: int, s: nat, t: nat)
    requires Sane(f) && -0x8000 <= exp < 0 && t == ShiftJam(f, s, -exp) && t < 2 * One(f) * Full(f)
    ensures var r, b := RoundPack(f, mode, negative, exp, s), Encode(f, 0, Rounded(f, mode, negative, t));
      && r.bits == Signed(f, negative, b) && !r.overflow && b != Infinity(f) && (r.inexact <==> t % Full(f) != 0)
      && (r.underflow <==> r.inexact && (exp < -1 || s + Increment(f, mode, negative) < 2 * One(f) * Full(f)))
  {
    TopSplit(f);
    var m, bits := SplitSig(f, 0, t);
    RoundedPick(f, mode, negative, m, bits);
    MulMono(One(f), 3, f.inf);
  }

  lemma JamSmaller(s: nat, d: nat, t: nat, h: nat)
    requires d > 0 && s < t && t == 2 * h
    ensures Jam(s, d) < t
  {
    JamCompare(s, d, t);
    MulMono(t, 1, d);
  }

  lemma PackNormal(f: Format, mode: Mode, negative: bool, exp: nat, yn: nat, yd: nat)
    requires Sane(f) && yd > 0 && exp <= f.inf - 2 && exp < 0x8000 && Normal(f, Jam(yn, yd))
    ensures RoundsTo(f, mode, negative, UnitsN(yn, exp), UnitsD(f, yd, exp),
              RoundPack(f, mode, negative, exp, Jam(yn, yd)))
  {
    FinishCorrect(f, mode, negative, exp, yn, yd);
    EncodedNormal(f, mode, negative, exp, Jam(yn, yd));
    FinishFlags(f, mode, negative, exp, yn, yd, RoundPack(f, mode, negative, exp, Jam(yn, yd)));
    NormalUnits(f, exp, yn, yd);
    NotTiny(f, mode, negative, Scale(yn, exp), yd * Full(f));
  }

  /** Both branches for an exponent in range encode the rounded significand. */
  lemma EncodedNormal(f: Format, mode: Mode, negative: bool, exp: nat, s: nat)
    requires Sane(f) && exp <= f.inf - 2 && exp < 0x8000 && Normal(f, s)
    ensures RoundPack(f, mode, negative, exp, s).bits
         == Signed(f, negative, Encode(f, exp, Rounded(f, mode, negative, s)))
    ensures RoundPack(f, mode, negative, exp, s).overflow
        <==> Encode(f, exp, Rounded(f, mode, negative, s)) == Infinity(f)
    ensures RoundPack(f, mode, negative, exp, s).inexact
        <==> RoundPack(f, mode, negative, exp, s).overflow || s % Full(f) != 0
  {
    TopSplit(f);
    var m, bits := SplitSig(f, 1, s);
    RoundedPick(f, mode, negative, m, bits);
    if 2 * One(f) * Full(f) <= s + Increment(f, mode, negative) {
      RoundsToTop(f, mode, negative, m, bits);
    } else {
      StaysBelowTop(f, mode, negative, m, bits);
    }
    EncodeTop(f, exp, Rounded(f, mode, negative, s));
  }

  lemma EncodeTop(f: Format, e: nat, m: nat)
    requires Sane(f) && e <= f.inf - 2 && m <= 2 * One(f)
    ensures Encode(f, e, m) == Infinity(f) <==> e == f.inf - 2 && m == 2 * One(f)
  {
    MulAdd(One(f), f.inf - 2, 2);
    if e < f.inf - 2 {
      MulMono(One(f), e + 1, f.inf - 2);
      MulAdd(One(f), e, 1);
    }
  }

  lemma StaysBelowTop(f: Format, mode: Mode, negative: bool, m: nat, bits: nat)
    requires Sane(f) && bits < Full(f) && m < 2 * One(f)
    requires m * Full(f) + bits + Increment(f, mode, negative) < 2 * One(f) * Full(f)
    ensures Rounded(f, mode, negative, m * Full(f) + bits) < 2 * One(f)
  {
    RoundedSplit(f, mode, negative, m, bits);
    if bits + Increment(f, mode, negative) >= Full(f) {
      MulAdd(Full(f), m, 1);
      MulCancelStrict(Full(f), m + 1, 2 * One(f));
    }
  }

  /** An increment that carries out of the significand leaves a power of two. */
  lemma RoundsToTop(f: Format, mode: Mode, negative: bool, m: nat, bits: nat)
    requires Sane(f) && bits < Full(f) && m < 2 * One(f)
    requires 2 * One(f) * Full(f) <= m * Full(f) + bits + Increment(f, mode, negative)
    ensures Increment(f, mode, negative) > 0
    ensures Rounded(f, mode, negative, m * Full(f) + bits) == 2 * One(f)
  {
    var inc := Increment(f, mode, negative);
    RoundedSplit(f, mode, negative, m, bits);
    MulMono(Full(f), m + 1, 2 * One(f));
    MulAdd(Full(f), m, 1);
    if m + 1 < 2 * One(f) {
      MulMono(Full(f), m + 2, 2 * One(f));
      MulAdd(Full(f), m, 2);
    }
  }

  lemma PackHuge(f: Format, mode: Mode, negative: bool, exp: nat, yn: nat, yd: nat)
    requires Sane(f) && yd > 0 && f.inf - 2 < exp < 0x8000 && Normal(f, Jam(yn, yd))
    ensures Unit(f, Infinity(f)) * UnitsD(f, yd, exp) <= UnitsN(yn, exp)
    ensures RoundsTo(f, mode, negative, UnitsN(yn, exp), UnitsD(f, yd, exp),
              RoundPack(f, mode, negative, exp, Jam(yn, yd)))
  {
    HugeUnits(f, exp, yn, yd);
    BeyondInfinity(f, mode, negative, Scale(yn, exp), yd * Full(f));
    NormalUnits(f, exp, yn, yd);
    NotTiny(f, mode, negative, Scale(yn, exp), yd * Full(f));
  }

  lemma UnitInfinity(f: Format)
    requires Sane(f)
    ensures Unit(f, Infinity(f)) == Scale(One(f), f.inf - 1)
  {
    UnitAt(f, f.inf - 1, One(f));
    MulAdd(One(f), f.inf - 1, 1);
  }

  lemma NormalLow(f: Format, yn: nat, yd: nat)
    requires Sane(f) && yd > 0 && One(f) * Full(f) <= Jam(yn, yd)
    ensures One(f) * (yd * Full(f)) <= yn
  {
    EvenMultiple(One(f), Full(f), Half(f));
    JamCompare(yn, yd, One(f) * Full(f));
    Regroup(One(f), Full(f), yd);
  }

  lemma Regroup(a: nat, b: nat, c: nat)
    ensures a * b * c == a * (c * b)
  {
  }

  lemma HugeUnits(f: Format, exp: nat, yn: nat, yd: nat)
    requires Sane(f) && yd > 0 && f.inf - 2 < exp && One(f) * Full(f) <= Jam(yn, yd)
    ensures Unit(f, Infinity(f)) * (yd * Full(f)) <= Scale(yn, exp)
  {
    UnitInfinity(f);
    NormalLow(f, yn, yd);
    ScaleMul(One(f), f.inf - 1, yd * Full(f));
    ScaleMono(One(f) * (yd * Full(f)), yn, f.inf - 1);
    ScaleGrows(yn, f.inf - 1, exp);
  }

  /** Rounding a number at or beyond the first power of two that is not finite. */
  lemma BeyondInfinity(f: Format, mode: Mode, negative: bool, n: nat, d: nat)
    requires Sane(f) && d > 0 && Unit(f, Infinity(f)) * d <= n
    ensures Infinity(f) > 0
    ensures CorrectlyRounded(f, mode, negative, n, d,
              Infinity(f) - (if Increment(f, mode, negative) == 0 then 1 else 0))
  {
    MulMono(One(f), 1, f.inf);
    var lo := Infinity(f) - 1;
    UnitNext(f, lo);
    FarBelow(Unit(f, lo), Unit(f, lo + 1), n, d);
    assert IsFloor(f, n, d, lo);
  }

  lemma FarBelow(u: nat, v: nat, n: nat, d: nat)
    requires u < v && d > 0 && v * d <= n
    ensures u * d < n && (u + v) * d < 2 * n
  {
    MulStrictMono(d, u, v);
    MulAdd(d, u, v);
  }

  /** Packing a jammed significand rounds the number behind it correctly. */
  lemma RoundPackCorrect(f: Format, mode: Mode, negative: bool, exp: int, yn: nat, yd: nat)
    requires Sane(f) && yd > 0 && -0x8000 <= exp < 0x8000 && Normal(f, Jam(yn, yd))
    ensures RoundsTo(f, mode, negative, UnitsN(yn, exp), UnitsD(f, yd, exp),
              RoundPack(f, mode, negative, exp, Jam(yn, yd)))
  {
    if exp < 0 {
      PackTiny(f, mode, negative, exp, yn, yd);
    } else if exp <= f.inf - 2 {
      PackNormal(f, mode, negative, exp, yn, yd);
    } else {
      PackHuge(f, mode, negative, exp, yn, yd);
    }
  }
}
