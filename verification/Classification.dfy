/** What the classes of an aggregate's eightbytes are. */
module ClassSpec {
  import opened Options
  import opened CTypes
  import Powers

  datatype Class = Int | Sse

  predicate Touches(leaf: Leaf, i: nat) {
    leaf.at / 8 <= i && 8 * i < leaf.at + leaf.bytes
  }

  function Combine(a: Option<Class>, b: Option<Class>): Option<Class> {
    if a.None? then b else if b.None? then a
    else if a == Some(Int) || b == Some(Int) then Some(Int) else Some(Sse)
  }

  function LeafClass(leaf: Leaf, i: nat): Option<Class> {
    if Touches(leaf, i) then Some(if leaf.isFloat then Sse else Int) else None
  }

  function ClassAt(leaves: seq<Leaf>, i: nat): Option<Class> {
    if leaves == [] then None
    else Combine(ClassAt(leaves[..|leaves| - 1], i), LeafClass(leaves[|leaves| - 1], i))
  }

  function OrInt(c: Option<Class>): Class {
    if c.None? then Int else c.value
  }

  function ClassesOf(t: CType): seq<Class> {
    seq((Size(t) + 7) / 8, i requires 0 <= i => OrInt(ClassAt(Leaves(t, 0), i)))
  }

  /** The class of an eightbyte does not depend on the order of the scalars in it: INTEGER when an integer
      touches it, SSE when scalars touch it and all of them are floating. */
  lemma {:induction false} ClassMeaning(leaves: seq<Leaf>, i: nat)
    ensures ClassAt(leaves, i) == Some(Int) <==> exists leaf :: leaf in leaves && Touches(leaf, i) && !leaf.isFloat
    ensures ClassAt(leaves, i) == None <==> forall leaf :: leaf in leaves ==> !Touches(leaf, i)
  {
    if leaves != [] {
      var rest, last := leaves[..|leaves| - 1], leaves[|leaves| - 1];
      ClassMeaning(rest, i);
      assert leaves == rest + [last];
    }
  }

  /** An eightbyte travels in a vector register exactly when it holds floating scalars and no integer. */
  lemma SseMeaning(t: CType, i: nat)
    requires i < |ClassesOf(t)|
    ensures ClassesOf(t)[i] == Sse <==>
      && (exists leaf :: leaf in Leaves(t, 0) && Touches(leaf, i))
      && (forall leaf :: leaf in Leaves(t, 0) && Touches(leaf, i) ==> leaf.isFloat)
  {
    ClassMeaning(Leaves(t, 0), i);
  }

  lemma {:induction false} ClassAtJoined(a: seq<Leaf>, b: seq<Leaf>, i: nat)
    ensures ClassAt(a + b, i) == Combine(ClassAt(a, i), ClassAt(b, i))
  {
    if b == [] {
      assert a + b == a;
    } else {
      ClassAtJoined(a, b[..|b| - 1], i);
      assert (a + b)[..|a + b| - 1] == a + b[..|b| - 1];
    }
  }

  lemma OneLeaf(leaf: Leaf)
    requires leaf.bytes > 0
    ensures forall i: nat ::
      ClassAt([leaf], i) == if leaf.at / 8 <= i < (leaf.at + leaf.bytes - 1) / 8 + 1 then Some(if leaf.isFloat then Sse else Int) else None
  {
    forall i: nat
      ensures ClassAt([leaf], i) == LeafClass(leaf, i)
    {
      assert [leaf][..0] == [];
    }
  }

  /** The slots after merging what the scalars say into what was there. */
  ghost predicate Merged(before: seq<Option<Class>>, leaves: seq<Leaf>, after: seq<Option<Class>>) {
    |after| == |before| && forall i :: 0 <= i < |after| ==> after[i] == Combine(before[i], ClassAt(leaves, i))
  }

  lemma MergedNothing(slots: seq<Option<Class>>)
    ensures Merged(slots, [], slots)
  {
  }

  lemma MergedTurn(start: seq<Option<Class>>, a: seq<Leaf>, before: seq<Option<Class>>, b: seq<Leaf>, after: seq<Option<Class>>)
    requires Merged(start, a, before) && Merged(before, b, after)
    ensures Merged(start, a + b, after)
  {
    forall i | 0 <= i < |after|
      ensures after[i] == Combine(start[i], ClassAt(a + b, i))
    {
      ClassAtJoined(a, b, i);
    }
  }

  function MemberLeaves(members: seq<CType>, isStruct: bool, base: nat): seq<Leaf> {
    if isStruct then StructLeaves(members, base) else UnionLeaves(members, base)
  }

  lemma MembersTurn(members: seq<CType>, n: nat, isStruct: bool, base: nat)
    requires n < |members|
    ensures MemberLeaves(members[..n + 1], isStruct, base) == MemberLeaves(members[..n], isStruct, base)
      + Leaves(members[n], base + if isStruct then LastOffset(members[..n + 1]) else 0)
  {
    assert members[..n + 1][..n] == members[..n];
  }

  // ---------------------------------------------------------------- members fit

  lemma {:induction false} EndGrows(members: seq<CType>, n: nat)
    requires n <= |members|
    ensures End(members[..n]) <= End(members)
    decreases |members| - n
  {
    if n == |members| {
      assert members[..n] == members;
    } else {
      EndGrows(members, n + 1);
      assert members[..n + 1][..n] == members[..n];
      MembersFollow(members[..n + 1]);
    }
  }

  lemma MemberFits(members: seq<CType>, n: nat)
    requires n < |members|
    ensures LastOffset(members[..n + 1]) + Size(members[n]) <= Size(Struct(members))
  {
    EndGrows(members, n + 1);
  }

  lemma {:induction false} MaxSizeGrows(members: seq<CType>, n: nat)
    requires n < |members|
    ensures Size(members[n]) <= MaxSize(members)
    decreases members
  {
    if n < |members| - 1 {
      MaxSizeGrows(members[..|members| - 1], n);
    }
  }

  lemma UnionFits(members: seq<CType>, n: nat)
    requires n < |members|
    ensures Size(members[n]) <= Size(Union(members))
  {
    MaxSizeGrows(members, n);
  }

  lemma ElementFits(count: nat, n: nat, size: nat)
    requires n < count
    ensures n * size + size <= count * size
  {
    assert (n + 1) * size == n * size + size;
    Powers.MulMono(size, n + 1, count);
  }

}
/** abi::classes: which eightbytes of an aggregate travel in integer and which in vector registers. */
module Classification {
  import opened Options
  import opened CTypes
  import opened ClassSpec

  /** The walk over a type's members, merging each scalar's class into the slots it touches. */
  method Walk(t: CType, base: nat, out: array<Option<Class>>)
    requires Supported(t) && base + Size(t) <= 8 * out.Length
    modifies out
    ensures Merged(old(out[..]), Leaves(t, base), out[..])
    decreases t, 1
  {
    match t
    case Scalar(bytes, isFloat) =>
      WalkScalar(base, bytes, isFloat, out);
    case Struct(members) =>
      WalkMembers(members, true, base, out, Size(t));
    case Union(members) =>
      WalkMembers(members, false, base, out, Size(t));
    case Array(element, count) =>
      MergedNothing(out[..]);
      for n := 0 to count
        invariant Merged(old(out[..]), ArrayLeaves(element, n, base), out[..])
      {
        ElementFits(count, n, Size(element));
        ghost var before := out[..];
        Walk(element, base + n * Size(element), out);
        MergedTurn(old(out[..]), ArrayLeaves(element, n, base), before, Leaves(element, base + n * Size(element)), out[..]);
      }
  }

  method WalkScalar(base: nat, bytes: nat, isFloat: bool, out: array<Option<Class>>)
    requires bytes > 0 && base + bytes <= 8 * out.Length
    modifies out
    ensures Merged(old(out[..]), [Leaf(base, bytes, isFloat)], out[..])
  {
    var kind := if isFloat then Sse else Int;
    for i := base / 8 to (base + bytes - 1) / 8 + 1
      invariant forall j :: 0 <= j < out.Length ==>
        out[j] == if base / 8 <= j < i then Combine(old(out[j]), Some(kind)) else old(out[j])
    {
      out[i] := Some(if out[i] == Some(Int) || kind == Int then Int else Sse);
    }
    OneLeaf(Leaf(base, bytes, isFloat));
  }

  /** The members of a struct, each at its offset, or of a union, all at its start. */
  method WalkMembers(members: seq<CType>, isStruct: bool, base: nat, out: array<Option<Class>>, size: nat)
    requires forall m :: m in members ==> Supported(m)
    requires size == (if isStruct then Size(Struct(members)) else Size(Union(members))) && base + size <= 8 * out.Length
    modifies out
    ensures Merged(old(out[..]), if isStruct then StructLeaves(members, base) else UnionLeaves(members, base), out[..])
    decreases members, 0
  {
    hide Merged, Leaves, Size, LastOffset;
    MergedNothing(out[..]);
    for n := 0 to |members|
      invariant Merged(old(out[..]), MemberLeaves(members[..n], isStruct, base), out[..])
    {
      MemberFits(members, n);
      UnionFits(members, n);
      var offset := if isStruct then LastOffset(members[..n + 1]) else 0;
      ghost var before := out[..];
      Walk(members[n], base + offset, out);
      MembersTurn(members, n, isStruct, base);
      MergedTurn(old(out[..]), MemberLeaves(members[..n], isStruct, base), before, Leaves(members[n], base + offset), out[..]);
    }
    assert members[..|members|] == members;
  }

  /** abi::classes. */
  method Classes(t: CType) returns (ok: bool, classes: seq<Class>)
    ensures ok <==> Aggregate(t) && Supported(t) && Size(t) <= 16
    ensures ok ==> classes == ClassesOf(t) && |classes| <= 2
  {
    classes := [];
    if !Aggregate(t) || !Supported(t) || Size(t) > 16 {
      return false, classes;
    }
    var out := new Option<Class>[(Size(t) + 7) / 8](_ => None);
    Walk(t, 0, out);
    for i := 0 to out.Length
      invariant |classes| == i && forall j :: 0 <= j < i ==> classes[j] == OrInt(ClassAt(Leaves(t, 0), j))
    {
      classes := classes + [OrInt(out[i])];
    }
    ok := true;
  }
}
