/** The types that AMD64 calls pass by value: natural scalars and aggregates of them. */
module CTypes {
  import opened Alignment
  import Powers

  datatype CType =
    | Scalar(bytes: nat, isFloat: bool)
    | Struct(members: seq<CType>)
    | Union(members: seq<CType>)
    | Array(element: CType, count: nat)
    | Other

  predicate Aggregate(t: CType) {
    t.Struct? || t.Union?
  }

  /** supported_layout; of everything else `Other` stands for long double, void, va_list and so on. */
  predicate Supported(t: CType)
    decreases t
  {
    match t
    case Scalar(bytes, isFloat) => bytes == 4 || bytes == 8 || (!isFloat && (bytes == 1 || bytes == 2))
    case Struct(members) => members != [] && forall m :: m in members ==> Supported(m)
    case Union(members) => members != [] && forall m :: m in members ==> Supported(m)
    case Array(element, _) => Supported(element)
    case Other => false
  }

  function Align(t: CType): (a: nat)
    ensures a > 0
    decreases t
  {
    match t
    case Scalar(bytes, _) => if bytes == 0 then 1 else bytes
    case Struct(members) => MaxAlign(members)
    case Union(members) => MaxAlign(members)
    case Array(element, _) => Align(element)
    case Other => 1
  }

  function MaxAlign(members: seq<CType>): (a: nat)
    ensures a > 0
    decreases members
  {
    if members == [] then 1
    else
      var rest, last := MaxAlign(members[..|members| - 1]), Align(members[|members| - 1]);
      if rest >= last then rest else last
  }

  function Size(t: CType): nat
    decreases t
  {
    match t
    case Scalar(bytes, _) => bytes
    case Struct(members) => AlignUp(End(members), MaxAlign(members))
    case Union(members) => AlignUp(MaxSize(members), MaxAlign(members))
    case Array(element, count) => count * Size(element)
    case Other => 0
  }

  /** Where a struct's members end. */
  function End(members: seq<CType>): nat
    decreases members
  {
    if members == [] then 0 else LastOffset(members) + Size(members[|members| - 1])
  }

  /** offset_for, of the last member. */
  function LastOffset(members: seq<CType>): nat
    requires members != []
    decreases members, 0
  {
    AlignUp(End(members[..|members| - 1]), Align(members[|members| - 1]))
  }

  function MaxSize(members: seq<CType>): nat
    decreases members
  {
    if members == [] then 1
    else
      var rest, last := MaxSize(members[..|members| - 1]), Size(members[|members| - 1]);
      if rest >= last then rest else last
  }

  // ---------------------------------------------------------------- scalars inside a type

  datatype Leaf = Leaf(at: nat, bytes: nat, isFloat: bool)

  /** The scalars of a type that starts at a base address. */
  function Leaves(t: CType, base: nat): seq<Leaf>
    decreases t, 0, 0
  {
    match t
    case Scalar(bytes, isFloat) => [Leaf(base, bytes, isFloat)]
    case Struct(members) => StructLeaves(members, base)
    case Union(members) => UnionLeaves(members, base)
    case Array(element, count) => ArrayLeaves(element, count, base)
    case Other => []
  }

  function StructLeaves(members: seq<CType>, base: nat): seq<Leaf>
    decreases members, 0, 0
  {
    if members == [] then []
    else
      StructLeaves(members[..|members| - 1], base) + Leaves(members[|members| - 1], base + LastOffset(members))
  }

  function UnionLeaves(members: seq<CType>, base: nat): seq<Leaf>
    decreases members, 0, 0
  {
    if members == [] then [] else UnionLeaves(members[..|members| - 1], base) + Leaves(members[|members| - 1], base)
  }

  function ArrayLeaves(element: CType, count: nat, base: nat): seq<Leaf>
    decreases element, 1, count
  {
    if count == 0 then []
    else ArrayLeaves(element, count - 1, base) + Leaves(element, base + (count - 1) * Size(element))
  }

  ghost predicate Inside(leaves: seq<Leaf>, low: nat, high: nat) {
    forall leaf :: leaf in leaves ==> leaf.bytes > 0 && low <= leaf.at && leaf.at + leaf.bytes <= high
  }

  /** Every scalar of a type lies inside the bytes that sizeof gives it. */
  lemma {:induction false} LeavesInside(t: CType, base: nat)
    requires Supported(t)
    ensures Inside(Leaves(t, base), base, base + Size(t))
    decreases t, 0, 0
  {
    match t
    case Scalar(bytes, isFloat) =>
    case Struct(members) =>
      StructInside(members, base);
    case Union(members) =>
      UnionInside(members, base);
    case Array(element, count) =>
      ArrayInside(element, count, base);
  }

  lemma {:induction false} StructInside(members: seq<CType>, base: nat)
    requires forall m :: m in members ==> Supported(m)
    ensures Inside(StructLeaves(members, base), base, base + End(members))
    decreases members, 0, 0
  {
    if members != [] {
      var rest, last := members[..|members| - 1], members[|members| - 1];
      StructInside(rest, base);
      LeavesInside(last, base + LastOffset(members));
    }
  }

  lemma {:induction false} UnionInside(members: seq<CType>, base: nat)
    requires forall m :: m in members ==> Supported(m)
    ensures Inside(UnionLeaves(members, base), base, base + MaxSize(members))
    decreases members, 0, 0
  {
    if members != [] {
      UnionInside(members[..|members| - 1], base);
      LeavesInside(members[|members| - 1], base);
    }
  }

  lemma {:induction false} ArrayInside(element: CType, count: nat, base: nat)
    requires Supported(element)
    ensures Inside(ArrayLeaves(element, count, base), base, base + count * Size(element))
    decreases element, 1, count
  {
    if count > 0 {
      ArrayInside(element, count - 1, base);
      LeavesInside(element, base + (count - 1) * Size(element));
      assert count * Size(element) == (count - 1) * Size(element) + Size(element);
    }
  }

  /** The members of a struct do not overlap: the one that comes next starts where the others have ended. */
  lemma MembersFollow(members: seq<CType>)
    requires members != []
    ensures End(members[..|members| - 1]) <= LastOffset(members) && LastOffset(members) % Align(members[|members| - 1]) == 0
  {
  }

  /** A member starts at the first aligned byte after the others, and a whole ends at the first multiple of its alignment
      that holds its members. */
  lemma NothingWasted(members: seq<CType>)
    requires members != []
    ensures LastOffset(members) < End(members[..|members| - 1]) + Align(members[|members| - 1])
    ensures var t := Struct(members); End(members) <= Size(t) < End(members) + Align(t) && Size(t) % Align(t) == 0
    ensures var t := Union(members); MaxSize(members) <= Size(t) < MaxSize(members) + Align(t) && Size(t) % Align(t) == 0
  {
  }

  /** The alignment of an aggregate is that of the strictest member, and a union is as long as the longest. */
  lemma {:induction false} StrictestMember(members: seq<CType>)
    requires members != []
    ensures (exists m :: m in members && Align(m) == MaxAlign(members)) && forall m :: m in members ==> Align(m) <= MaxAlign(members)
    ensures MaxSize(members) == 1 || exists m :: m in members && Size(m) == MaxSize(members)
    ensures forall m :: m in members ==> Size(m) <= MaxSize(members)
  {
    hide Size, Align;
    var front, last := members[..|members| - 1], members[|members| - 1];
    assert last in members && members == front + [last];
    if front != [] {
      StrictestMember(front);
      assert forall m :: m in front ==> m in members;
    } else {
      assert MaxAlign(front) == 1 && MaxSize(front) == 1;
    }
  }

  // ---------------------------------------------------------------- natural alignment

  /** What is aligned for every number of a list is aligned for the greatest, when all are 1, 2, 4 or 8. */
  predicate Natural(a: nat) {
    a == 1 || a == 2 || a == 4 || a == 8
  }

  lemma {:induction false} AlignNatural(t: CType)
    requires Supported(t)
    ensures Natural(Align(t))
    decreases t, 0
  {
    match t
    case Scalar(_, _) =>
    case Struct(members) => MembersNatural(members);
    case Union(members) => MembersNatural(members);
    case Array(element, _) => AlignNatural(element);
  }

  lemma {:induction false} MembersNatural(members: seq<CType>)
    requires forall m :: m in members ==> Supported(m)
    ensures Natural(MaxAlign(members)) && forall m :: m in members ==> Align(m) <= MaxAlign(members)
    decreases members, 0
  {
    if members != [] {
      MembersNatural(members[..|members| - 1]);
      AlignNatural(members[|members| - 1]);
      assert members == members[..|members| - 1] + [members[|members| - 1]];
    }
  }

  ghost predicate AllAligned(leaves: seq<Leaf>) {
    forall leaf :: leaf in leaves ==> leaf.bytes > 0 && leaf.at % leaf.bytes == 0
  }

  lemma Coarser(x: nat, a: nat, b: nat)
    requires Natural(a) && Natural(b) && b <= a && x % a == 0
    ensures x % b == 0
  {
    var m, q := a / b, x / a;
    Divides(a, b);
    Powers.DivMod(x, a);
    assert (b * m) * q == b * (m * q);
    assert m * q >= 0;
    Powers.DivUnique(x, b, m * q, 0);
  }

  lemma Divides(a: nat, b: nat)
    requires Natural(a) && Natural(b) && b <= a
    ensures a == b * (a / b) && a / b >= 0
  {
  }

  lemma AlignedSum(x: nat, y: nat, a: nat)
    requires Natural(a) && x % a == 0 && y % a == 0
    ensures (x + y) % a == 0
  {
    Powers.DivMod(x, a);
    Powers.DivMod(y, a);
    Powers.MulAdd(a, x / a, y / a);
    Powers.DivUnique(x + y, a, x / a + y / a, 0);
  }

  /** Every scalar of an aligned object is aligned. */
  lemma {:induction false} LeavesAligned(t: CType, base: nat)
    requires Supported(t) && base % Align(t) == 0
    ensures AllAligned(Leaves(t, base))
    decreases t, 0, 0
  {
    hide StructLeaves, UnionLeaves, ArrayLeaves, MaxAlign;
    match t
    case Scalar(_, _) =>
    case Struct(members) =>
      MembersNatural(members);
      StructAligned(members, base, MaxAlign(members));
    case Union(members) =>
      MembersNatural(members);
      UnionAligned(members, base, MaxAlign(members));
    case Array(element, count) => ArrayAligned(element, count, base);
  }

  lemma {:induction false} StructAligned(members: seq<CType>, base: nat, a: nat)
    requires (forall m :: m in members ==> Supported(m)) && Natural(a) && base % a == 0
    requires forall m :: m in members ==> Align(m) <= a
    ensures AllAligned(StructLeaves(members, base))
    decreases members, 0, 0
  {
    hide Size, End, AlignUp, Leaves, Natural, Align, MaxAlign;
    if members != [] {
      var last := members[|members| - 1];
      assert last in members;
      StructAligned(members[..|members| - 1], base, a);
      AlignNatural(last);
      Coarser(base, a, Align(last));
      MembersFollow(members);
      AlignedSum(base, LastOffset(members), Align(last));
      LeavesAligned(last, base + LastOffset(members));
    }
  }

  lemma {:induction false} UnionAligned(members: seq<CType>, base: nat, a: nat)
    requires (forall m :: m in members ==> Supported(m)) && Natural(a) && base % a == 0
    requires forall m :: m in members ==> Align(m) <= a
    ensures AllAligned(UnionLeaves(members, base))
    decreases members, 0, 0
  {
    hide Size, End, AlignUp, Leaves, Natural, Align, MaxAlign;
    if members != [] {
      var last := members[|members| - 1];
      assert last in members;
      UnionAligned(members[..|members| - 1], base, a);
      AlignNatural(last);
      Coarser(base, a, Align(last));
      LeavesAligned(last, base);
    }
  }

  lemma {:induction false} ArrayAligned(element: CType, count: nat, base: nat)
    requires Supported(element) && base % Align(element) == 0
    ensures AllAligned(ArrayLeaves(element, count, base))
    decreases element, 1, count
  {
    hide Size, Leaves, Natural, Align;
    if count > 0 {
      ArrayAligned(element, count - 1, base);
      AlignNatural(element);
      SizeAligned(element);
      Multiples(count - 1, Size(element), Align(element));
      AlignedSum(base, (count - 1) * Size(element), Align(element));
      LeavesAligned(element, base + (count - 1) * Size(element));
    }
  }

  lemma {:induction false} SizeAligned(t: CType)
    requires Supported(t)
    ensures Size(t) % Align(t) == 0
  {
    match t
    case Scalar(_, _) =>
    case Struct(_) =>
    case Union(_) =>
    case Array(element, count) =>
      AlignNatural(element);
      SizeAligned(element);
      Multiples(count, Size(element), Align(element));
  }

  lemma {:induction false} Multiples(n: nat, s: nat, a: nat)
    requires Natural(a) && s % a == 0
    ensures n * s >= 0 && (n * s) % a == 0
  {
    if n > 0 {
      Multiples(n - 1, s, a);
      assert n * s == (n - 1) * s + s;
      AlignedSum((n - 1) * s, s, a);
    }
  }
}
