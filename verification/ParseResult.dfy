/** The jammed significand the parser packs, and the number the packed result rounds. */
module ParseResult {
  import opened Powers
  import opened Rounding
  import opened SoftFloat
  import opened Ratios
  import opened ParseRatio

  /** The amounts by which the numerator or the denominator is shifted to align the quotient. */
  function Up(k: int): nat {
    if k > 0 then k else 0
  }

  function Aligned(f: Format, e: int): int {
    f.frac + f.drop - e
  }

  function AlignedN(f: Format, num: nat, e: int): nat {
    Scale(num, Up(Aligned(f, e)))
  }

  function AlignedD(f: Format, den: nat, e: int): nat {
    Scale(den, Up(-Aligned(f, e)))
  }

  /** The quotient with its low bit set when a remainder or dropped digits are left over. */
  function Significand(n: nat, d: nat, sticky: bool): nat
    requires d > 0
  {
    if n % d != 0 || sticky then OrOne(n / d) else n / d
  }

  lemma {:induction false} ScalePos(d: nat, k: nat)
    requires d > 0
    ensures Scale(d, k) > 0
  {
    ScaleGrows(d, 0, k);
  }

  /** The aligned quotient fills the significand: its top bit is bit frac + drop. */
  lemma AlignedNormal(f: Format, num: nat, den: nat, e: int, sticky: bool)
    requires Sane(f) && den > 0 && Log2(num, den, e)
    ensures AlignedD(f, den, e) > 0
    ensures AlignedN(f, num, e) < Scale(AlignedD(f, den, e), f.frac + f.drop + 1)
    ensures Normal(f, Significand(AlignedN(f, num, e), AlignedD(f, den, e), sticky))
  {
    var p := f.frac + f.drop;
    var n, d := AlignedN(f, num, e), AlignedD(f, den, e);
    ScalePos(den, Up(-Aligned(f, e)));
    AlignedBracket(f, num, den, e);
    TopSplit(f);
    ProductBracket(n, d, p);
    SignificandBounds(n, d, sticky, Pow2(p), Pow2(p + 1));
  }

  lemma AlignedBracket(f: Format, num: nat, den: nat, e: int)
    requires Log2(num, den, e)
    ensures var n, d := AlignedN(f, num, e), AlignedD(f, den, e);
      Scale(d, f.frac + f.drop) <= n < Scale(d, f.frac + f.drop + 1)
  {
    var k, p := Aligned(f, e), f.frac + f.drop;
    AtLeastScaled(num, den, e, Up(-k) + p, Up(k));
    AtLeastScaled(num, den, e + 1, Up(-k) + (p + 1), Up(k));
    ScaleAdd(den, Up(-k), p);
    ScaleAdd(den, Up(-k), p + 1);
  }

  lemma ProductBracket(n: nat, d: nat, p: nat)
    requires Scale(d, p) <= n < Scale(d, p + 1)
    ensures d * Pow2(p) <= n < d * Pow2(p + 1) && Pow2(p + 1) % 2 == 0
  {
    ScaleProduct(d, p);
    ScaleProduct(d, p + 1);
  }

  lemma SignificandBounds(n: nat, d: nat, sticky: bool, lo: nat, hi: nat)
    requires d > 0 && d * lo <= n < d * hi && hi % 2 == 0
    ensures lo <= Significand(n, d, sticky) < hi
  {
    var q := n / d;
    DivMod(n, d);
    MulAdd(d, q, 1);
    MulCancelStrict(d, lo, q + 1);
    MulCancelStrict(d, q, hi);
  }

  /** Dropped digits that cannot carry: the divisor absorbs the alignment shift. */
  ghost predicate Absorbs(f: Format, den: nat, e: int) {
    Aligned(f, e) > 0 ==> exists c: nat :: den == Scale(c, Aligned(f, e))
  }

  /** The significand is the jammed form of the exact number, dropped digits included. */
  lemma SignificandIsJam(f: Format, num: nat, den: nat, t: nat, tail: nat, e: int)
    requires den > 0 && tail < t && (tail == 0 || Absorbs(f, den, e))
    ensures AlignedD(f, den, e) > 0 && AlignedD(f, den, e) * t > 0
    ensures Significand(AlignedN(f, num, e), AlignedD(f, den, e), tail > 0)
         == Jam((num * t + tail) * Pow2(Up(Aligned(f, e))), AlignedD(f, den, e) * t)
  {
    var k := Aligned(f, e);
    var a, d := Pow2(Up(k)), AlignedD(f, den, e);
    PowPos(2, Up(k));
    ScalePos(den, Up(-k));
    ScaleProduct(num, Up(k));
    if tail > 0 && k > 0 {
      var c: nat :| den == Scale(c, k);
      ScaleProduct(c, k);
      DivUnique(c * a, a, c, 0);
    }
    NoCarry(num, tail, t, a, d);
  }

  /** Powers of two balance between the aligned significand and the least subnormal. */
  lemma UnitsBalance(f: Format, e: int)
    requires Supported(f)
    ensures Pow2(Up(Aligned(f, e))) * Pow2(Up(e + f.bias - 1))
         == Pow2(UnitShift(f)) * Pow2(f.drop) * Pow2(Up(-Aligned(f, e))) * Pow2(Up(-(e + f.bias - 1)))
  {
    var k, x := Aligned(f, e), e + f.bias - 1;
    PowAdd(2, Up(k), Up(x));
    PowAdd(2, UnitShift(f), f.drop);
    PowAdd(2, UnitShift(f) + f.drop, Up(-k));
    PowAdd(2, UnitShift(f) + f.drop + Up(-k), Up(-x));
  }

  lemma RatioIdentity(xn: nat, xd: nat, m: nat, dt: nat, a: nat, b: nat, c: nat, g: nat, u: nat, p: nat)
    requires xn * dt == m * xd
    requires a * c == u * p * b * g
    ensures (m * a * c) * xd == (xn * u) * (dt * b * g * p)
  {
    calc {
      (m * a * c) * xd;
      { assert m * a * c == m * (a * c); }
      (m * (a * c)) * xd;
      (m * xd) * (a * c);
      (xn * dt) * (u * p * b * g);
      { assert (xn * dt) * (u * p * b * g) == (xn * u) * (dt * (p * b * g)); }
      (xn * u) * (dt * (p * b * g));
      { assert p * b * g == b * g * p; assert dt * (b * g * p) == dt * b * g * p; }
      (xn * u) * (dt * b * g * p);
    }
  }

  /** The number behind the packed significand is xn / xd. */
  lemma UnitsRatio(f: Format, num: nat, den: nat, t: nat, tail: nat, e: int, xn: nat, xd: nat)
    requires Supported(f) && xn * (den * t) == (num * t + tail) * xd
    ensures var yn, yd := (num * t + tail) * Pow2(Up(Aligned(f, e))), AlignedD(f, den, e) * t;
      UnitsN(yn, e + f.bias - 1) * xd == Scale(xn, UnitShift(f)) * UnitsD(f, yd, e + f.bias - 1)
  {
    hide Pow, Scale;
    var m, k, x := num * t + tail, Aligned(f, e), e + f.bias - 1;
    var a, b, c, g, u := Pow2(Up(k)), Pow2(Up(-k)), Pow2(Up(x)), Pow2(Up(-x)), Pow2(UnitShift(f));
    UnitsBalance(f, e);
    RatioIdentity(xn, xd, m, den * t, a, b, c, g, u, Pow2(f.drop));
    ScaleProduct(xn, UnitShift(f));
    assert UnitsN(m * a, x) == m * a * c by {
      ScaleProduct(m * a, Up(x));
      PowZero(2);
    }
    assert UnitsD(f, AlignedD(f, den, e) * t, x) == den * t * b * g * Pow2(f.drop) by {
      ScaleProduct(den, Up(-k));
      PowZero(2);
      assert den * b * t == den * t * b;
    }
  }

  /** Packing the significand of a ratio in range rounds the exact number correctly. */
  lemma NormalResult(f: Format, mode: Mode, negative: bool, num: nat, den: nat, t: nat, tail: nat, e: int,
                     xn: nat, xd: nat)
    requires Supported(f) && den > 0 && xd > 0 && tail < t && -0x4000 <= e < 0x4000
    requires Log2(num, den, e) && xn * (den * t) == (num * t + tail) * xd
    requires tail == 0 || Absorbs(f, den, e)
    ensures AlignedD(f, den, e) > 0
    ensures RoundsTo(f, mode, negative, Scale(xn, UnitShift(f)), xd,
              RoundPack(f, mode, negative, e + f.bias - 1,
                Significand(AlignedN(f, num, e), AlignedD(f, den, e), tail > 0)))
  {
    AlignedNormal(f, num, den, e, tail > 0);
    SignificandIsJam(f, num, den, t, tail, e);
    UnitsRatio(f, num, den, t, tail, e, xn, xd);
    PackRatio(f, mode, negative, e + f.bias - 1,
      (num * t + tail) * Pow2(Up(Aligned(f, e))), AlignedD(f, den, e) * t,
      Scale(xn, UnitShift(f)), xd);
  }

  lemma PackRatio(f: Format, mode: Mode, negative: bool, exp: int, yn: nat, yd: nat, n: nat, d: nat)
    requires Sane(f) && yd > 0 && d > 0 && -0x8000 <= exp < 0x8000 && Normal(f, Jam(yn, yd))
    requires UnitsN(yn, exp) * d == n * UnitsD(f, yd, exp)
    ensures RoundsTo(f, mode, negative, n, d, RoundPack(f, mode, negative, exp, Jam(yn, yd)))
  {
    RoundPackCorrect(f, mode, negative, exp, yn, yd);
    UnitsDPos(f, yd, exp);
    RoundsSameRatio(f, mode, negative, UnitsN(yn, exp), UnitsD(f, yd, exp), n, d,
      RoundPack(f, mode, negative, exp, Jam(yn, yd)));
  }

  lemma UnitsDPos(f: Format, yd: nat, exp: int)
    requires Sane(f) && yd > 0
    ensures UnitsD(f, yd, exp) > 0
  {
    if exp < 0 {
      PowPos(2, -exp);
      MulStrictMono(yd, 0, Pow2(-exp));
      MulStrictMono(Full(f), 0, yd * Pow2(-exp));
    } else {
      MulStrictMono(Full(f), 0, yd);
    }
  }

  lemma RoundsSameRatio(f: Format, mode: Mode, negative: bool, n: nat, d: nat, n': nat, d': nat, r: Packed)
    requires d > 0 && d' > 0 && n * d' == n' * d
    requires RoundsTo(f, mode, negative, n, d, r)
    ensures RoundsTo(f, mode, negative, n', d', r)
  {
    hide CorrectlyRounded, Flagged, Signed;
    var b: nat :| CorrectlyRounded(f, mode, negative, n, d, b) && r.bits == Signed(f, negative, b)
                  && Flagged(f, mode, negative, n, d, b, r);
    RoundingSameRatio(f, mode, negative, n, d, n', d', b);
    FlaggedSameRatio(f, mode, negative, n, d, n', d', b, r);
  }

  lemma FlaggedSameRatio(f: Format, mode: Mode, negative: bool, n: nat, d: nat, n': nat, d': nat, b: nat, r: Packed)
    requires d > 0 && d' > 0 && n * d' == n' * d && Flagged(f, mode, negative, n, d, b, r)
    ensures Flagged(f, mode, negative, n', d', b, r)
  {
    hide Unit, Infinity, IntegerPick;
    assert (2 * n) * d' == 2 * (n * d') && (2 * n') * d == 2 * (n' * d);
    PickSame(mode, negative, 2 * n, d, 2 * n', d');
    SameRatioCompare(Unit(f, b), 1, n, d, n', d');
    SameRatioCompare(Unit(f, Infinity(f)), 1, n, d, n', d');
  }
}
