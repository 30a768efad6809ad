/** Reading a bundle inverts writing it, and reading is unambiguous: no accepted bundle is a proper
    prefix of another. */
module BundleLaws {
  import opened Options
  import opened Artifacts
  import opened Bytes
  import opened LittleEndian
  import opened BundleFormat

  // ---------------------------------------------------------------- reading is local

  lemma UnsignedLocal(x: seq<Byte>, n: nat, t: seq<Byte>)
    requires ReadUnsigned(x, n).Done?
    ensures ReadUnsigned(x + t, n) == Done(ReadUnsigned(x, n).value, ReadUnsigned(x, n).rest + t)
  {
    TakeLocal(x, n, t);
  }

  lemma NameLocal(x: seq<Byte>, t: seq<Byte>)
    requires ReadName(x).Done?
    ensures ReadName(x + t) == Done(ReadName(x).value, ReadName(x).rest + t)
  {
    hide Take, ReadUnsigned, ValidUtf8;
    var n := ReadUnsigned(x, 2);
    UnsignedLocal(x, 2, t);
    TakeLocal(n.rest, n.value, t);
  }

  lemma BlobLocal(x: seq<Byte>, n: nat, t: seq<Byte>)
    requires ReadBlob(x, n).Done?
    ensures ReadBlob(x + t, n) == Done(ReadBlob(x, n).value, ReadBlob(x, n).rest + t)
  {
    hide Take, ReadUnsigned;
    var c := ReadUnsigned(x, n);
    UnsignedLocal(x, n, t);
    TakeLocal(c.rest, c.value, t);
  }

  lemma {:induction false} ManyLocal<T(!new)>(p: Parser<T>, n: nat, x: seq<Byte>, t: seq<Byte>)
    requires Local(p) && ReadMany(p, n, x).Done?
    ensures ReadMany(p, n, x + t) == Done(ReadMany(p, n, x).value, ReadMany(p, n, x).rest + t)
  {
    if n > 0 {
      ManyLocal(p, n - 1, p(x).rest, t);
      assert p(x + t) == Done(p(x).value, p(x).rest + t);
    }
  }

  lemma ListLocal<T(!new)>(p: Parser<T>, x: seq<Byte>, t: seq<Byte>)
    requires Local(p) && ReadList(p, x).Done?
    ensures ReadList(p, x + t) == Done(ReadList(p, x).value, ReadList(p, x).rest + t)
  {
    hide ReadUnsigned, Local, ReadMany;
    var n := ReadUnsigned(x, 2);
    UnsignedLocal(x, 2, t);
    ManyLocal(p, n.value, n.rest, t);
  }

  lemma RelocationsLocal()
    ensures Local(ReadRelocation)
  {
    hide ReadUnsigned, ReadName;
    forall x, t | ReadRelocation(x).Done?
      ensures ReadRelocation(x + t) == Done(ReadRelocation(x).value, ReadRelocation(x).rest + t)
    {
      var offset := ReadUnsigned(x, 4);
      var addend := ReadUnsigned(offset.rest, 8);
      UnsignedLocal(x, 4, t);
      UnsignedLocal(offset.rest, 8, t);
      NameLocal(addend.rest, t);
    }
  }

  lemma NamesLocal()
    ensures Local(ReadName)
  {
    hide ReadName;
    forall x, t | ReadName(x).Done?
      ensures ReadName(x + t) == Done(ReadName(x).value, ReadName(x).rest + t)
    {
      NameLocal(x, t);
    }
  }

  lemma FunctionsLocal()
    ensures Local(ReadFunction)
  {
    hide ReadName, ReadBlob, ReadList, ReadRelocation;
    RelocationsLocal();
    forall x, t | ReadFunction(x).Done?
      ensures ReadFunction(x + t) == Done(ReadFunction(x).value, ReadFunction(x).rest + t)
    {
      var name := ReadName(x);
      var code := ReadBlob(name.rest, 4);
      NameLocal(x, t);
      BlobLocal(name.rest, 4, t);
      ListLocal(ReadRelocation, code.rest, t);
    }
  }

  lemma DataLocal()
    ensures Local(ReadData)
  {
    hide ReadName, ReadBlob, ReadList, ReadRelocation, ReadUnsigned, Take;
    RelocationsLocal();
    forall x, t | ReadData(x).Done?
      ensures ReadData(x + t) == Done(ReadData(x).value, ReadData(x).rest + t)
    {
      var name := ReadName(x);
      var align := ReadUnsigned(name.rest, 4);
      var flag := Take(align.rest, 1);
      var bytes := ReadBlob(flag.rest, 4);
      NameLocal(x, t);
      UnsignedLocal(name.rest, 4, t);
      TakeLocal(align.rest, 1, t);
      BlobLocal(flag.rest, 4, t);
      ListLocal(ReadRelocation, bytes.rest, t);
    }
  }

  lemma LocalsLocal(x: seq<Byte>, version: nat, t: seq<Byte>)
    requires ReadLocals(x, version).Done?
    ensures ReadLocals(x + t, version) == Done(ReadLocals(x, version).value, ReadLocals(x, version).rest + t)
  {
    hide ReadName, ReadList;
    if version == 4 {
      NamesLocal();
      ListLocal(ReadName, x, t);
    }
  }

  lemma HeaderLocal(x: seq<Byte>, t: seq<Byte>)
    requires ReadHeader(x).Done?
    ensures ReadHeader(x + t) == Done(ReadHeader(x).value, ReadHeader(x).rest + t)
  {
    hide Take, ReadUnsigned;
    TakeLocal(x, |MAGIC|, t);
    UnsignedLocal(Take(x, |MAGIC|).rest, 2, t);
  }

  lemma ArtifactLocal(x: seq<Byte>, t: seq<Byte>)
    requires ReadArtifact(x).Done?
    ensures ReadArtifact(x + t) == Done(ReadArtifact(x).value, ReadArtifact(x).rest + t)
  {
    hide ReadHeader, ReadList, ReadLocals, ReadFunction, ReadData, Local;
    var version := ReadHeader(x);
    var locals := ReadLocals(version.rest, version.value);
    var functions := ReadList(ReadFunction, locals.rest);
    HeaderLocal(x, t);
    LocalsLocal(version.rest, version.value, t);
    FunctionsLocal();
    ListLocal(ReadFunction, locals.rest, t);
    DataLocal();
    ListLocal(ReadData, functions.rest, t);
  }

  /** An accepted bundle with anything after it is refused; so is any proper prefix of one. */
  lemma Unambiguous(x: seq<Byte>, t: seq<Byte>)
    requires Decoded(x).Some? && t != []
    ensures Decoded(x + t).None?
  {
    hide ReadArtifact, Validate;
    ArtifactLocal(x, t);
  }

  lemma PrefixRefused(x: seq<Byte>, n: nat)
    requires Decoded(x).Some? && n < |x|
    ensures Decoded(x[..n]).None?
  {
    hide Decoded;
    assert x[..n] + x[n..] == x;
    if Decoded(x[..n]).Some? {
      Unambiguous(x[..n], x[n..]);
    }
  }

  // ---------------------------------------------------------------- reading inverts writing

  /** p reads what e wrote and stops there. */
  ghost predicate Reads<T(!new)>(p: Parser<T>, e: T -> seq<Byte>, v: T) {
    forall rest :: p(e(v) + rest) == Done(v, rest)
  }

  lemma UnsignedReads(v: nat, n: nat, rest: seq<Byte>)
    requires v < Limit(n)
    ensures ReadUnsigned(Little(v, n) + rest, n) == Done(v, rest)
  {
    TakeFront(Little(v, n), rest);
    LittleValue(v, n);
  }

  lemma Limits()
    ensures Limit(2) == SHORT && Limit(4) == WORD_LIMIT && Limit(8) == 0x1_0000_0000_0000_0000
  {
  }

  lemma NameReads(name: Name, rest: seq<Byte>)
    requires |name| < SHORT && ValidUtf8(name)
    ensures ReadName(WriteName(name) + rest) == Done(name, rest)
  {
    hide ValidUtf8, Little, Take, ReadUnsigned;
    Limits();
    assert WriteName(name) + rest == Little(|name|, 2) + (name + rest);
    UnsignedReads(|name|, 2, name + rest);
    TakeFront(name, rest);
  }

  lemma BlobReads(s: seq<Byte>, rest: seq<Byte>)
    requires |s| < WORD_LIMIT
    ensures ReadBlob(WriteBlob(s, 4) + rest, 4) == Done(s, rest)
  {
    hide Little, Take, ReadUnsigned;
    Limits();
    assert WriteBlob(s, 4) + rest == Little(|s|, 4) + (s + rest);
    UnsignedReads(|s|, 4, s + rest);
    TakeFront(s, rest);
  }

  lemma {:induction false} ManyReads<T(!new)>(p: Parser<T>, e: T -> seq<Byte>, items: seq<T>, rest: seq<Byte>)
    requires forall i :: 0 <= i < |items| ==> Reads(p, e, items[i])
    ensures ReadMany(p, |items|, WriteMany(e, items) + rest) == Done(items, rest)
  {
    if items != [] {
      var more := items[1..];
      ManyReads(p, e, more, rest);
      var tail := WriteMany(e, more) + rest;
      assert WriteMany(e, items) + rest == e(items[0]) + tail;
      assert Reads(p, e, items[0]);
      assert p(e(items[0]) + tail) == Done(items[0], tail);
      assert items == [items[0]] + more;
    } else {
      assert WriteMany(e, items) + rest == rest;
    }
  }

  lemma ListReads<T(!new)>(p: Parser<T>, e: T -> seq<Byte>, items: seq<T>, rest: seq<Byte>)
    requires |items| < SHORT && forall i :: 0 <= i < |items| ==> Reads(p, e, items[i])
    ensures ReadList(p, WriteList(e, items) + rest) == Done(items, rest)
  {
    hide Little, ReadUnsigned, Reads, ReadMany, WriteMany;
    Limits();
    assert WriteList(e, items) + rest == Little(|items|, 2) + (WriteMany(e, items) + rest);
    UnsignedReads(|items|, 2, WriteMany(e, items) + rest);
    ManyReads(p, e, items, rest);
  }

  lemma AddendReads(v: int)
    requires InSigned64(v)
    ensures Unsigned64(v) < 0x1_0000_0000_0000_0000 && Signed64(Unsigned64(v)) == v
  {
  }

  lemma RelocationReads(r: Relocation)
    requires TypedRelocation(r) && |r.target| < SHORT
    ensures Reads(ReadRelocation, WriteRelocation, r)
  {
    hide Little, ReadUnsigned, ReadName, WriteName, ValidUtf8, Signed64, Unsigned64;
    Limits();
    AddendReads(r.addend);
    forall rest: seq<Byte>
      ensures ReadRelocation(WriteRelocation(r) + rest) == Done(r, rest)
    {
      var a, b, c := Little(r.offset, 4), Little(Unsigned64(r.addend), 8), WriteName(r.target);
      assert WriteRelocation(r) + rest == a + (b + (c + rest));
      UnsignedReads(r.offset, 4, b + (c + rest));
      UnsignedReads(Unsigned64(r.addend), 8, c + rest);
      NameReads(r.target, rest);
    }
  }

  lemma RelocationsRead(rs: seq<Relocation>, rest: seq<Byte>)
    requires AllTyped(rs) && ShortRelocations(rs)
    ensures ReadList(ReadRelocation, WriteList(WriteRelocation, rs) + rest) == Done(rs, rest)
  {
    hide Reads, ReadList, WriteList, TypedRelocation;
    forall k | 0 <= k < |rs|
      ensures Reads(ReadRelocation, WriteRelocation, rs[k])
    {
      assert TypedRelocation(rs[k]);
      RelocationReads(rs[k]);
    }
    ListReads(ReadRelocation, WriteRelocation, rs, rest);
  }

  lemma FunctionReads(f: Function)
    requires ShortFunction(f) && ValidUtf8(f.name) && AllTyped(f.relocations)
    ensures Reads(ReadFunction, WriteFunction, f)
  {
    hide ReadName, WriteName, ReadBlob, WriteBlob, ReadList, WriteList, ReadRelocation, WriteRelocation, ValidUtf8, AllTyped;
    forall rest: seq<Byte>
      ensures ReadFunction(WriteFunction(f) + rest) == Done(f, rest)
    {
      var a, b, c := WriteName(f.name), WriteBlob(f.code, 4), WriteList(WriteRelocation, f.relocations);
      assert WriteFunction(f) + rest == a + (b + (c + rest));
      NameReads(f.name, b + (c + rest));
      BlobReads(f.code, c + rest);
      RelocationsRead(f.relocations, rest);
    }
  }

  lemma DataReads(d: Data)
    requires ShortData(d) && ValidUtf8(d.name) && d.align < WORD_LIMIT && AllTyped(d.relocations)
    ensures Reads(ReadData, WriteData, d)
  {
    hide ReadName, WriteName, ReadBlob, WriteBlob, ReadList, WriteList, ReadRelocation, WriteRelocation, ValidUtf8, AllTyped;
    hide Little, ReadUnsigned, Take;
    Limits();
    forall rest: seq<Byte>
      ensures ReadData(WriteData(d) + rest) == Done(d, rest)
    {
      var flag: seq<Byte> := [if d.readOnly then 1 else 0];
      var a, b, c := WriteName(d.name), Little(d.align, 4), WriteBlob(d.bytes, 4);
      var e := WriteList(WriteRelocation, d.relocations);
      assert WriteData(d) + rest == a + (b + (flag + (c + (e + rest))));
      NameReads(d.name, b + (flag + (c + (e + rest))));
      UnsignedReads(d.align, 4, flag + (c + (e + rest)));
      TakeFront(flag, c + (e + rest));
      BlobReads(d.bytes, e + rest);
      RelocationsRead(d.relocations, rest);
    }
  }

  lemma NamesRead(order: seq<Name>, rest: seq<Byte>)
    requires |order| < SHORT && forall name :: name in order ==> |name| < SHORT && ValidUtf8(name)
    ensures ReadList(ReadName, WriteList(WriteName, order) + rest) == Done(order, rest)
  {
    hide ReadName, WriteName, ReadList, WriteList, Reads, ValidUtf8;
    forall k | 0 <= k < |order|
      ensures Reads(ReadName, WriteName, order[k])
    {
      assert order[k] in order;
      OneNameReads(order[k]);
    }
    ListReads(ReadName, WriteName, order, rest);
  }

  lemma OneNameReads(name: Name)
    requires |name| < SHORT && ValidUtf8(name)
    ensures Reads(ReadName, WriteName, name)
  {
    hide ReadName, WriteName, ValidUtf8;
    forall rest: seq<Byte>
      ensures ReadName(WriteName(name) + rest) == Done(name, rest)
    {
      NameReads(name, rest);
    }
  }

  lemma {:induction false} NoRepeatsCount(names: seq<Name>)
    requires NoRepeats(names)
    ensures |Members(names)| == |names|
  {
    if names != [] {
      var front, last := names[..|names| - 1], names[|names| - 1];
      NoRepeatsCount(front);
      assert names == front + [last];
      assert Members(names) == Members(front) + {last};
      assert last !in Members(front);
    } else {
      assert Members(names) == {};
    }
  }

  lemma LocalsRead(a: Artifact, order: seq<Name>, rest: seq<Byte>)
    requires Short(a) && Typed(a) && Orders(a, order)
    ensures ReadLocals((if a.locals.Some? then WriteList(WriteName, order) else []) + rest, if a.locals.Some? then 4 else 3)
         == Done(a.locals, rest)
  {
    hide ReadName, WriteName, ReadList, WriteList, ShortFunction, ShortData, ValidUtf8, AllTyped;
    if a.locals.Some? {
      NoRepeatsCount(order);
      assert forall name :: name in order ==> name in a.locals.value;
      NamesRead(order, rest);
    } else {
      assert [] + rest == rest;
    }
  }

  lemma ListsRead(a: Artifact, rest: seq<Byte>)
    requires Short(a) && Typed(a)
    ensures ReadList(ReadFunction, WriteList(WriteFunction, a.functions) + rest) == Done(a.functions, rest)
    ensures ReadList(ReadData, WriteList(WriteData, a.data) + rest) == Done(a.data, rest)
  {
    hide ReadFunction, WriteFunction, ReadData, WriteData, ReadList, WriteList, Reads, ShortFunction, ShortData, ValidUtf8, AllTyped;
    forall i | 0 <= i < |a.functions|
      ensures Reads(ReadFunction, WriteFunction, a.functions[i])
    {
      FunctionReads(a.functions[i]);
    }
    forall i | 0 <= i < |a.data|
      ensures Reads(ReadData, WriteData, a.data[i])
    {
      DataReads(a.data[i]);
    }
    ListReads(ReadFunction, WriteFunction, a.functions, rest);
    ListReads(ReadData, WriteData, a.data, rest);
  }

  /** Decoding gives back every valid artifact that fits the format, whatever the order in which the
      private names were written. */
  lemma RoundTrip(a: Artifact, order: seq<Name>)
    requires Validate(a) && Short(a) && Typed(a) && Orders(a, order)
    ensures Decoded(Encoding(a, order)) == Some(a)
  {
    hide Validate, Short, Typed, ReadList, WriteList, ReadLocals, ReadFunction, WriteFunction, ReadData, WriteData, Take,
         ReadUnsigned, Little, Orders, WriteName;
    var version := if a.locals.Some? then 4 else 3;
    var v := Little(version, 2);
    var l := if a.locals.Some? then WriteList(WriteName, order) else [];
    var f, d := WriteList(WriteFunction, a.functions), WriteList(WriteData, a.data);
    assert Encoding(a, order) == MAGIC + (v + (l + (f + (d + []))));
    TakeFront(MAGIC, v + (l + (f + (d + []))));
    Limits();
    UnsignedReads(version, 2, l + (f + (d + [])));
    LocalsRead(a, order, f + (d + []));
    ListsRead(a, d + []);
    ListsRead(a, []);
  }
}
