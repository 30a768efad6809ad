/** Binary interchange formats and correct rounding to them (section 4.3 of IEEE 754-2008).
    A magnitude is the encoding without its sign bit; encodings are ordered like the numbers
    they denote, so rounding picks one of two adjacent encodings. */
module Rounding {
  import opened Powers

  datatype Mode = NearestEven | TowardZero | Downward | Upward

  /** Stored fraction bits, extra bits below them in an unrounded significand, the all-ones
      exponent field and the exponent bias. */
  datatype Format = Format(frac: nat, drop: nat, inf: nat, bias: nat)

  const BINARY64 := Format(52, 10, 2047, 1023)
  const BINARY32 := Format(23, 7, 255, 127)

  ghost predicate Sane(f: Format) {
    f.drop >= 2 && f.inf >= 3 && f.frac >= 1
  }

  /** The encoding of the least number with exponent field 1, and the spacing of fields. */
  function One(f: Format): (p: nat)
    ensures p > 0
  {
    PowPos(2, f.frac);
    Pow2(f.frac)
  }

  function Infinity(f: Format): nat {
    f.inf * One(f)
  }

  /** The number a magnitude denotes, in units of the least subnormal. Infinity counts as the
      number that would follow the largest finite one. */
  function Unit(f: Format, b: nat): nat {
    var e, m := b / One(f), b % One(f);
    if e == 0 then m else Scale(One(f) + m, e - 1)
  }

  lemma NextProduct(e: nat, p: nat)
    ensures (e + 1) * p == e * p + p
  {
  }

  lemma ScaleFew(m: nat)
    ensures Scale(m, 0) == m && Scale(m, 1) == 2 * m
  {
    assert Scale(m, 0) == m;
  }

  lemma UnitAt(f: Format, e: nat, m: nat)
    requires m <= 2 * One(f) && (e == 0 || One(f) <= m)
    ensures Unit(f, e * One(f) + m) == Scale(m, e)
  {
    hide Unit, Scale, Pow, One;
    var p := One(f);
    if m < p {
      UnitField(f, 0, m);
      ScaleFew(m);
    } else if m < 2 * p {
      UnitField(f, e + 1, m - p);
      NextProduct(e, p);
    } else {
      UnitField(f, e + 2, 0);
      NextProduct(e, p);
      NextProduct(e + 1, p);
      ScaleAdd(p, 1, e);
      ScaleFew(p);
    }
  }

  lemma UnitField(f: Format, field: nat, m: nat)
    requires m < One(f)
    ensures Unit(f, field * One(f) + m) == if field == 0 then m else Scale(One(f) + m, field - 1)
  {
    DivUnique(field * One(f) + m, One(f), field, m);
  }

  /** Field and fraction of a magnitude as a scaled significand. */
  lemma UnitParts(f: Format, b: nat) returns (e: nat, m: nat)
    ensures b == e * One(f) + m && m < 2 * One(f) && (e == 0 || One(f) <= m)
  {
    var p := One(f);
    DivMod(b, p);
    if b / p == 0 {
      e, m := 0, b % p;
    } else {
      e, m := b / p - 1, b % p + p;
      assert e * p == p * (b / p) - p;
    }
  }

  lemma UnitNext(f: Format, b: nat)
    ensures Unit(f, b) < Unit(f, b + 1)
  {
    var e, m := UnitParts(f, b);
    UnitAt(f, e, m);
    UnitAt(f, e, m + 1);
    ScaleStrictMono(m, m + 1, e);
  }

  /** Larger magnitudes denote larger numbers. */
  lemma {:induction false} UnitMono(f: Format, a: nat, b: nat)
    requires a < b
    ensures Unit(f, a) < Unit(f, b)
    decreases b - a
  {
    UnitNext(f, a);
    if a + 1 < b {
      UnitMono(f, a + 1, b);
    }
  }

  /** lo is the largest finite magnitude not above n / d. */
  ghost predicate IsFloor(f: Format, n: nat, d: nat, lo: nat) {
    && lo < Infinity(f) && Unit(f, lo) * d <= n
    && (lo + 1 < Infinity(f) ==> n < Unit(f, lo + 1) * d)
  }

  /** The choice between a magnitude below n / d and the next one. */
  function Pick(f: Format, mode: Mode, negative: bool, n: nat, d: nat, lo: nat): nat {
    if Unit(f, lo) * d == n then lo
    else match mode
      case TowardZero => lo
      case Upward => if negative then lo else lo + 1
      case Downward => if negative then lo + 1 else lo
      case NearestEven =>
        var middle := (Unit(f, lo) + Unit(f, lo + 1)) * d;
        if 2 * n < middle then lo
        else if 2 * n > middle then lo + 1
        else if lo % 2 == 0 then lo else lo + 1
  }

  /** b is n / d, counted in least subnormals, rounded correctly in the given mode. */
  ghost predicate CorrectlyRounded(f: Format, mode: Mode, negative: bool, n: nat, d: nat, b: nat) {
    exists lo: nat :: IsFloor(f, n, d, lo) && b == Pick(f, mode, negative, n, d, lo)
  }

  lemma FloorUnique(f: Format, n: nat, d: nat, a: nat, b: nat)
    requires d > 0 && IsFloor(f, n, d, a) && IsFloor(f, n, d, b)
    ensures a == b
  {
    if a < b {
      FloorOrder(f, n, d, a, b);
    } else if b < a {
      FloorOrder(f, n, d, b, a);
    }
  }

  lemma FloorOrder(f: Format, n: nat, d: nat, a: nat, b: nat)
    requires d > 0 && a < b
    ensures !(IsFloor(f, n, d, a) && IsFloor(f, n, d, b))
  {
    if a + 1 < b {
      UnitMono(f, a + 1, b);
    }
    MulMono(d, Unit(f, a + 1), Unit(f, b));
  }

  /** Correct rounding has one result. */
  lemma RoundingUnique(f: Format, mode: Mode, negative: bool, n: nat, d: nat, a: nat, b: nat)
    requires d > 0
    requires CorrectlyRounded(f, mode, negative, n, d, a) && CorrectlyRounded(f, mode, negative, n, d, b)
    ensures a == b
  {
    var lo: nat :| IsFloor(f, n, d, lo) && a == Pick(f, mode, negative, n, d, lo);
    var lo': nat :| IsFloor(f, n, d, lo') && b == Pick(f, mode, negative, n, d, lo');
    FloorUnique(f, n, d, lo, lo');
  }

  /** A representable finite number is returned unchanged in every mode. */
  lemma RoundingExact(f: Format, mode: Mode, negative: bool, n: nat, d: nat, b: nat)
    requires d > 0 && b < Infinity(f) && Unit(f, b) * d == n
    ensures CorrectlyRounded(f, mode, negative, n, d, b)
  {
    UnitNext(f, b);
    MulStrictMono(d, Unit(f, b), Unit(f, b + 1));
    assert IsFloor(f, n, d, b);
  }

  /** Comparing with a ratio does not depend on how the ratio is written. */
  lemma SameRatioCompare(a: nat, c: nat, n: nat, d: nat, n': nat, d': nat)
    requires d > 0 && d' > 0 && n * d' == n' * d
    ensures a * d <= c * n <==> a * d' <= c * n'
    ensures a * d == c * n <==> a * d' == c * n'
  {
    assert d' * (a * d) == d * (a * d');
    assert d' * (c * n) == d * (c * n') by {
      assert d' * (c * n) == c * (n * d');
      assert d * (c * n') == c * (n' * d);
    }
    ScaledCompare(d', a * d, c * n);
    ScaledCompare(d, a * d', c * n');
  }

  lemma ScaledCompare(k: nat, x: int, y: int)
    requires k > 0
    ensures k * x <= k * y <==> x <= y
    ensures k * x == k * y <==> x == y
  {
    if x < y {
      MulStrictMono(k, x, y);
    } else if y < x {
      MulStrictMono(k, y, x);
    }
  }

  lemma RoundingSameRatio(f: Format, mode: Mode, negative: bool, n: nat, d: nat, n': nat, d': nat, b: nat)
    requires d > 0 && d' > 0 && n * d' == n' * d
    requires CorrectlyRounded(f, mode, negative, n, d, b)
    ensures CorrectlyRounded(f, mode, negative, n', d', b)
  {
    var lo: nat :| IsFloor(f, n, d, lo) && b == Pick(f, mode, negative, n, d, lo);
    FloorSameRatio(f, n, d, n', d', lo);
    PickSameRatio(f, mode, negative, n, d, n', d', lo);
  }

  lemma FloorSameRatio(f: Format, n: nat, d: nat, n': nat, d': nat, lo: nat)
    requires d > 0 && d' > 0 && n * d' == n' * d
    requires IsFloor(f, n, d, lo)
    ensures IsFloor(f, n', d', lo)
  {
    SameRatioCompare(Unit(f, lo), 1, n, d, n', d');
    SameRatioCompare(Unit(f, lo + 1), 1, n, d, n', d');
  }

  lemma PickSameRatio(f: Format, mode: Mode, negative: bool, n: nat, d: nat, n': nat, d': nat, lo: nat)
    requires d > 0 && d' > 0 && n * d' == n' * d
    ensures Pick(f, mode, negative, n, d, lo) == Pick(f, mode, negative, n', d', lo)
  {
    SameRatioCompare(Unit(f, lo), 1, n, d, n', d');
    SameRatioCompare(Unit(f, lo) + Unit(f, lo + 1), 2, n, d, n', d');
  }

  // ---------------------------------------------------------------- rounding to an integer

  /** m / d rounded to an integer in the given mode. */
  function IntegerPick(mode: Mode, negative: bool, m: nat, d: nat): nat
    requires d > 0
  {
    var q, r := m / d, m % d;
    if r == 0 then q
    else match mode
      case TowardZero => q
      case Upward => if negative then q else q + 1
      case Downward => if negative then q + 1 else q
      case NearestEven =>
        if 2 * r < d then q else if 2 * r > d then q + 1 else if q % 2 == 0 then q else q + 1
  }

  /** The choice depends on the floor, and on twice the number against the middle above it. */
  function PickAbove(mode: Mode, negative: bool, m: nat, d: nat, q: nat): nat
  {
    if q * d == m then q
    else match mode
      case TowardZero => q
      case Upward => if negative then q else q + 1
      case Downward => if negative then q + 1 else q
      case NearestEven =>
        if 2 * m < (2 * q + 1) * d then q else if 2 * m > (2 * q + 1) * d then q + 1
        else if q % 2 == 0 then q else q + 1
  }

  lemma PickIsAbove(mode: Mode, negative: bool, m: nat, d: nat, q: nat)
    requires d > 0 && q * d <= m < q * d + d
    ensures IntegerPick(mode, negative, m, d) == PickAbove(mode, negative, m, d, q)
  {
    DivUnique(m, d, q, m - q * d);
    assert (2 * q + 1) * d == 2 * (q * d) + d;
  }

  /** Rounding a ratio does not depend on how the ratio is written. */
  lemma PickSame(mode: Mode, negative: bool, m: nat, d: nat, m': nat, d': nat)
    requires d > 0 && d' > 0 && m * d' == m' * d
    ensures IntegerPick(mode, negative, m, d) == IntegerPick(mode, negative, m', d')
  {
    hide IntegerPick, PickAbove;
    var q := m / d;
    DivMod(m, d);
    SameRatioCompare(q + 1, 1, m, d, m', d');
    MulAdd(d, q, 1);
    MulAdd(d', q, 1);
    AboveSame(mode, negative, m, d, m', d', q);
    PickIsAbove(mode, negative, m, d, q);
    PickIsAbove(mode, negative, m', d', q);
  }

  lemma AboveSame(mode: Mode, negative: bool, m: nat, d: nat, m': nat, d': nat, q: nat)
    requires d > 0 && d' > 0 && m * d' == m' * d
    ensures q * d <= m <==> q * d' <= m'
    ensures PickAbove(mode, negative, m, d, q) == PickAbove(mode, negative, m', d', q)
  {
    SameRatioCompare(q, 1, m, d, m', d');
    SameRatioCompare(2 * q + 1, 2, m, d, m', d');
  }

  /** An integer is left alone. */
  lemma PickExact(mode: Mode, negative: bool, q: nat, d: nat)
    requires d > 0
    ensures IntegerPick(mode, negative, q * d, d) == q
  {
    PickIsAbove(mode, negative, q * d, d, q);
  }

  lemma PickAtMost(mode: Mode, negative: bool, m: nat, d: nat, b: nat)
    requires d > 0 && m <= b * d
    ensures IntegerPick(mode, negative, m, d) <= b
  {
    DivMod(m, d);
    if m / d >= b {
      MulMono(d, b, m / d);
    }
  }

  lemma PickAtLeast(mode: Mode, negative: bool, m: nat, d: nat, b: nat)
    requires d > 0 && b * d <= m
    ensures b <= IntegerPick(mode, negative, m, d)
  {
    DivMod(m, d);
    if m / d < b {
      MulMono(d, m / d + 1, b);
      MulAdd(d, m / d, 1);
    }
  }

  lemma FloorAtLeast(n: nat, d: nat)
    requires d > 0 && IntegerPick(TowardZero, false, n, d) >= 1
    ensures d <= n
  {
    DivMod(n, d);
    MulMono(d, 1, n / d);
  }

  lemma FloorAtMost(n: nat, d: nat, q: nat)
    requires d > 0 && IntegerPick(TowardZero, false, n, d) <= q
    ensures n < (q + 1) * d
  {
    DivMod(n, d);
    MulMono(d, n / d, q);
    MulAdd(d, q, 1);
  }
}
