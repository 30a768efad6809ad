/** to_bytes and from_bytes of saltwater-sia/lib.rs. */
module Bundle {
  import opened Options
  import opened Artifacts
  import opened Bytes
  import opened LittleEndian
  import opened BundleFormat
  import opened BundleLaws
  import opened BundleSteps

  // ---------------------------------------------------------------- writing

  method EncodeRelocations(bytes0: seq<Byte>, rs: seq<Relocation>) returns (ok: bool, bytes: seq<Byte>)
    ensures ok <==> ShortRelocations(rs)
    ensures ok ==> bytes == bytes0 + WriteList(WriteRelocation, rs)
  {
    hide WriteMany, WriteRelocation, Little;
    bytes := bytes0;
    if |rs| > 0xffff {
      return false, bytes;
    }
    bytes := bytes + Little(|rs|, 2);
    ghost var counted := bytes;
    WriteNone(WriteRelocation, counted);
    for k := 0 to |rs|
      invariant forall j :: 0 <= j < k ==> |rs[j].target| < SHORT
      invariant bytes == counted + WriteMany(WriteRelocation, rs[..k])
    {
      var r := rs[k];
      if |r.target| > 0xffff {
        return false, bytes;
      }
      ghost var before := bytes;
      bytes := bytes + Little(r.offset, 4);
      bytes := bytes + Little(Unsigned64(r.addend), 8);
      bytes := bytes + Little(|r.target|, 2);
      bytes := bytes + r.target;
      RelocationPieces(before, r);
      WriteSnoc(WriteRelocation, rs, k, counted);
    }
    assert rs[..|rs|] == rs;
    Joined(bytes0, Little(|rs|, 2), WriteMany(WriteRelocation, rs));
    ok := true;
  }

  method EncodeFunctions(bytes0: seq<Byte>, fs: seq<Function>) returns (ok: bool, bytes: seq<Byte>)
    ensures ok <==> |fs| < SHORT && forall i :: 0 <= i < |fs| ==> ShortFunction(fs[i])
    ensures ok ==> bytes == bytes0 + WriteList(WriteFunction, fs)
  {
    hide WriteMany, WriteFunction, Little, ShortRelocations, WriteRelocation;
    bytes := bytes0;
    if |fs| > 0xffff {
      return false, bytes;
    }
    bytes := bytes + Little(|fs|, 2);
    ghost var counted := bytes;
    WriteNone(WriteFunction, counted);
    for k := 0 to |fs|
      invariant forall i :: 0 <= i < k ==> ShortFunction(fs[i])
      invariant bytes == counted + WriteMany(WriteFunction, fs[..k])
    {
      var f := fs[k];
      if |f.name| > 0xffff || |f.code| > 0xffff_ffff {
        return false, bytes;
      }
      ghost var before := bytes;
      bytes := bytes + Little(|f.name|, 2) + f.name;
      bytes := bytes + Little(|f.code|, 4) + f.code;
      ghost var head := bytes;
      ok, bytes := EncodeRelocations(bytes, f.relocations);
      if !ok {
        return;
      }
      FunctionPieces(before, f);
      WriteSnoc(WriteFunction, fs, k, counted);
    }
    assert fs[..|fs|] == fs;
    Joined(bytes0, Little(|fs|, 2), WriteMany(WriteFunction, fs));
    ok := true;
  }

  method EncodeData(bytes0: seq<Byte>, ds: seq<Data>) returns (ok: bool, bytes: seq<Byte>)
    ensures ok <==> |ds| < SHORT && forall i :: 0 <= i < |ds| ==> ShortData(ds[i])
    ensures ok ==> bytes == bytes0 + WriteList(WriteData, ds)
  {
    hide WriteMany, WriteData, Little, ShortRelocations, WriteRelocation;
    bytes := bytes0;
    if |ds| > 0xffff {
      return false, bytes;
    }
    bytes := bytes + Little(|ds|, 2);
    ghost var counted := bytes;
    WriteNone(WriteData, counted);
    for k := 0 to |ds|
      invariant forall i :: 0 <= i < k ==> ShortData(ds[i])
      invariant bytes == counted + WriteMany(WriteData, ds[..k])
    {
      var d := ds[k];
      if |d.name| > 0xffff || |d.bytes| > 0xffff_ffff {
        return false, bytes;
      }
      ghost var before := bytes;
      bytes := bytes + Little(|d.name|, 2) + d.name;
      bytes := bytes + Little(d.align, 4);
      bytes := bytes + [if d.readOnly then 1 else 0];
      bytes := bytes + Little(|d.bytes|, 4) + d.bytes;
      ok, bytes := EncodeRelocations(bytes, d.relocations);
      if !ok {
        return;
      }
      DataPieces(before, d);
      WriteSnoc(WriteData, ds, k, counted);
    }
    assert ds[..|ds|] == ds;
    Joined(bytes0, Little(|ds|, 2), WriteMany(WriteData, ds));
    ok := true;
  }

  /** The private names, in the order the set is walked. */
  method EncodeLocals(bytes0: seq<Byte>, locals: set<Name>) returns (ok: bool, bytes: seq<Byte>, ghost order: seq<Name>)
    ensures ok <==> |locals| < SHORT && forall name :: name in locals ==> |name| < SHORT
    ensures ok ==> NoRepeats(order) && Members(order) == locals && bytes == bytes0 + WriteList(WriteName, order)
  {
    hide WriteMany, WriteName, Little;
    bytes, order := bytes0, [];
    if |locals| > 0xffff {
      return false, bytes, order;
    }
    bytes := bytes + Little(|locals|, 2);
    ghost var counted := bytes;
    WriteNone(WriteName, counted);
    var remaining := locals;
    while remaining != {}
      invariant remaining <= locals && NoRepeats(order) && Members(order) == locals - remaining
      invariant forall name :: name in locals - remaining ==> |name| < SHORT
      invariant bytes == counted + WriteMany(WriteName, order)
      decreases |remaining|
    {
      SomeName(remaining);
      var name :| name in remaining;
      if |name| > 0xffff {
        return false, bytes, order;
      }
      bytes := bytes + Little(|name|, 2) + name;
      NamePieces(counted, order, name);
      OneMore(order, name);
      order := order + [name];
      remaining := remaining - {name};
    }
    NoRepeatsCount(order);
    Joined(bytes0, Little(|order|, 2), WriteMany(WriteName, order));
    ok := true;
  }

  /** to_bytes: fails for an invalid artifact and for counts and lengths the format cannot hold. */
  method Encode(a: Artifact) returns (r: Option<seq<Byte>>, ghost order: seq<Name>)
    ensures r.Some? <==> Validate(a) && Short(a)
    ensures r.Some? ==> Orders(a, order) && r.value == Encoding(a, order)
    ensures r.Some? && Typed(a) ==> Decoded(r.value) == Some(a)
  {
    hide Validate, Decoded, Typed, ShortFunction, ShortData, WriteList, WriteFunction, WriteData, WriteName, Little, NoRepeats;
    order := [];
    if !Validate(a) {
      return None, [];
    }
    var bytes := MAGIC + Little(if a.locals.Some? then 4 else 3, 2);
    var ok;
    assert bytes + [] == bytes;
    if a.locals.Some? {
      ok, bytes, order := EncodeLocals(bytes, a.locals.value);
      if !ok {
        return None, [];
      }
    }
    ok, bytes := EncodeFunctions(bytes, a.functions);
    if !ok {
      return None, order;
    }
    ok, bytes := EncodeData(bytes, a.data);
    if !ok {
      return None, order;
    }
    r := Some(bytes);
    if Typed(a) {
      RoundTrip(a, order);
    }
  }

  // ---------------------------------------------------------------- reading

  /** A sequence of bytes and how far it was read. */
  class Reader {
    const bytes: seq<Byte>
    var cursor: nat

    ghost predicate Valid()
      reads this
    {
      cursor <= |bytes|
    }

    ghost function Rest(): seq<Byte>
      requires Valid()
      reads this
    {
      bytes[cursor..]
    }

    constructor (bytes: seq<Byte>)
      ensures Valid() && Rest() == bytes && this.bytes == bytes
    {
      this.bytes, cursor := bytes, 0;
    }

    /** take: the next bytes, or nothing when there are not enough. */
    method Take(count: nat) returns (ok: bool, value: seq<Byte>)
      requires Valid()
      modifies this`cursor
      ensures Valid()
      ensures ok <==> BundleFormat.Take(old(Rest()), count).Done?
      ensures ok ==> BundleFormat.Take(old(Rest()), count) == Done(value, Rest())
    {
      var end := cursor + count;
      if end > |bytes| {
        return false, [];
      }
      value := bytes[cursor..end];
      assert old(Rest())[..count] == value && old(Rest())[count..] == bytes[end..];
      cursor := end;
      ok := true;
    }

    method Unsigned(n: nat) returns (ok: bool, value: nat)
      requires Valid()
      modifies this`cursor
      ensures Valid()
      ensures ok <==> ReadUnsigned(old(Rest()), n).Done?
      ensures ok ==> ReadUnsigned(old(Rest()), n) == Done(value, Rest())
    {
      hide BundleFormat.Take;
      var raw;
      ok, raw := Take(n);
      value := if ok then Value(raw) else 0;
    }

    method ReadString() returns (ok: bool, name: Name)
      requires Valid()
      modifies this`cursor
      ensures Valid()
      ensures ok <==> ReadName(old(Rest())).Done?
      ensures ok ==> ReadName(old(Rest())) == Done(name, Rest())
    {
      hide BundleFormat.Take, ReadUnsigned, ValidUtf8;
      name := [];
      var length;
      ok, length := Unsigned(2);
      if !ok {
        return;
      }
      ok, name := Take(length);
      ok := ok && ValidUtf8(name);
    }

    method Blob(n: nat) returns (ok: bool, value: seq<Byte>)
      requires Valid()
      modifies this`cursor
      ensures Valid()
      ensures ok <==> ReadBlob(old(Rest()), n).Done?
      ensures ok ==> ReadBlob(old(Rest()), n) == Done(value, Rest())
    {
      hide BundleFormat.Take, ReadUnsigned;
      value := [];
      var length;
      ok, length := Unsigned(n);
      if !ok {
        return;
      }
      ok, value := Take(length);
    }

    method OneRelocation() returns (ok: bool, r: Relocation)
      requires Valid()
      modifies this`cursor
      ensures Valid()
      ensures ok <==> ReadRelocation(old(Rest())).Done?
      ensures ok ==> ReadRelocation(old(Rest())) == Done(r, Rest())
    {
      hide ReadUnsigned, ReadName;
      r := Relocation(0, [], 0);
      var offset, addend, target;
      ok, offset := Unsigned(4);
      if !ok {
        return;
      }
      ok, addend := Unsigned(8);
      if !ok {
        return;
      }
      ok, target := ReadString();
      r := Relocation(offset, target, Signed64(addend));
    }

    method Relocations() returns (ok: bool, rs: seq<Relocation>)
      requires Valid()
      modifies this`cursor
      ensures Valid()
      ensures ok <==> ReadList(ReadRelocation, old(Rest())).Done?
      ensures ok ==> ReadList(ReadRelocation, old(Rest())) == Done(rs, Rest())
    {
      hide ReadUnsigned, ReadRelocation, ReadMany;
      rs := [];
      var count;
      ok, count := Unsigned(2);
      if !ok {
        return;
      }
      ghost var x := Rest();
      ManyStart(ReadMany(ReadRelocation, count, x));
      for k := 0 to count
        invariant Valid() && |rs| == k && ok
        invariant ReadMany(ReadRelocation, count, x) == Prepend(rs, ReadMany(ReadRelocation, count - k, Rest()))
      {
        ManyStep(ReadRelocation, count - k, Rest(), rs);
        var r;
        ok, r := OneRelocation();
        if !ok {
          return;
        }
        rs := rs + [r];
      }
      ManyEnd(ReadRelocation, Rest(), rs);
    }

    method Functions() returns (ok: bool, fs: seq<Function>)
      requires Valid()
      modifies this`cursor
      ensures Valid()
      ensures ok <==> ReadList(ReadFunction, old(Rest())).Done?
      ensures ok ==> ReadList(ReadFunction, old(Rest())) == Done(fs, Rest())
    {
      hide ReadUnsigned, ReadFunction, ReadMany;
      fs := [];
      var count;
      ok, count := Unsigned(2);
      if !ok {
        return;
      }
      ghost var x := Rest();
      ManyStart(ReadMany(ReadFunction, count, x));
      for k := 0 to count
        invariant Valid() && |fs| == k && ok
        invariant ReadMany(ReadFunction, count, x) == Prepend(fs, ReadMany(ReadFunction, count - k, Rest()))
      {
        ManyStep(ReadFunction, count - k, Rest(), fs);
        var f;
        ok, f := OneFunction();
        if !ok {
          return;
        }
        fs := fs + [f];
      }
      ManyEnd(ReadFunction, Rest(), fs);
    }

    method OneFunction() returns (ok: bool, f: Function)
      requires Valid()
      modifies this`cursor
      ensures Valid()
      ensures ok <==> ReadFunction(old(Rest())).Done?
      ensures ok ==> ReadFunction(old(Rest())) == Done(f, Rest())
    {
      hide ReadName, ReadBlob, ReadList, ReadRelocation;
      f := Function([], [], []);
      var name, code, relocations;
      ok, name := ReadString();
      if !ok {
        return;
      }
      ok, code := Blob(4);
      if !ok {
        return;
      }
      ok, relocations := Relocations();
      f := Function(name, code, relocations);
    }

    method AllData() returns (ok: bool, ds: seq<Data>)
      requires Valid()
      modifies this`cursor
      ensures Valid()
      ensures ok <==> ReadList(ReadData, old(Rest())).Done?
      ensures ok ==> ReadList(ReadData, old(Rest())) == Done(ds, Rest())
    {
      hide ReadUnsigned, ReadData, ReadMany;
      ds := [];
      var count;
      ok, count := Unsigned(2);
      if !ok {
        return;
      }
      ghost var x := Rest();
      ManyStart(ReadMany(ReadData, count, x));
      for k := 0 to count
        invariant Valid() && |ds| == k && ok
        invariant ReadMany(ReadData, count, x) == Prepend(ds, ReadMany(ReadData, count - k, Rest()))
      {
        ManyStep(ReadData, count - k, Rest(), ds);
        var d;
        ok, d := OneData();
        if !ok {
          return;
        }
        ds := ds + [d];
      }
      ManyEnd(ReadData, Rest(), ds);
    }

    method OneData() returns (ok: bool, d: Data)
      requires Valid()
      modifies this`cursor
      ensures Valid()
      ensures ok <==> ReadData(old(Rest())).Done?
      ensures ok ==> ReadData(old(Rest())) == Done(d, Rest())
    {
      hide ReadName, ReadBlob, ReadList, ReadRelocation, ReadUnsigned;
      d := Data([], [], 0, false, []);
      var name, align, flag, bytes, relocations;
      ok, name := ReadString();
      if !ok {
        return;
      }
      ok, align := Unsigned(4);
      if !ok {
        return;
      }
      ok, flag := Take(1);
      if !ok {
        return;
      }
      ok, bytes := Blob(4);
      if !ok {
        return;
      }
      ok, relocations := Relocations();
      d := Data(name, bytes, align, flag[0] != 0, relocations);
    }

    /** Private names, each of which may occur once. */
    method Locals() returns (ok: bool, locals: set<Name>)
      requires Valid()
      modifies this`cursor
      ensures Valid()
      ensures ok <==> ReadLocals(old(Rest()), 4).Done?
      ensures ok ==> ReadLocals(old(Rest()), 4) == Done(Some(locals), Rest())
    {
      hide ReadUnsigned, ReadName, ReadMany, NoRepeats;
      locals := {};
      var count;
      ok, count := Unsigned(2);
      if !ok {
        return;
      }
      ghost var x, names: seq<Name> := Rest(), [];
      NoNames();
      ManyStart(ReadMany(ReadName, count, x));
      for k := 0 to count
        invariant Valid() && |names| == k && ok && NoRepeats(names) && Members(names) == locals
        invariant ReadMany(ReadName, count, x) == Prepend(names, ReadMany(ReadName, count - k, Rest()))
      {
        ManyStep(ReadName, count - k, Rest(), names);
        ghost var here := Rest();
        var name;
        ok, name := ReadString();
        if !ok {
          return;
        }
        Repeated(names, name, ReadMany(ReadName, count - k - 1, Rest()));
        if name in locals {
          return false, {};
        }
        OneMore(names, name);
        names := names + [name];
        locals := locals + {name};
      }
      ManyEnd(ReadName, Rest(), names);
    }
  }

  method DecodeHeader(reader: Reader) returns (ok: bool, version: nat)
    requires reader.Valid()
    modifies reader`cursor
    ensures reader.Valid()
    ensures ok <==> ReadHeader(old(reader.Rest())).Done?
    ensures ok ==> ReadHeader(old(reader.Rest())) == Done(version, reader.Rest()) && (version == 3 || version == 4)
  {
    hide ReadUnsigned, BundleFormat.Take;
    version := 0;
    var magic;
    ok, magic := reader.Take(|MAGIC|);
    if !ok || magic != MAGIC {
      return false, 0;
    }
    ok, version := reader.Unsigned(2);
    if !ok || (version != 4 && version != 3) {
      return false, 0;
    }
  }

  /** from_bytes. */
  method Decode(bytes: seq<Byte>) returns (r: Option<Artifact>)
    ensures r == Decoded(bytes)
  {
    hide ReadHeader, ReadBody, Validate;
    var reader := new Reader(bytes);
    var ok, version := DecodeHeader(reader);
    if !ok {
      return None;
    }
    r := DecodeBody(reader, version);
  }

  /** What follows the version. */
  method DecodeBody(reader: Reader, version: nat) returns (r: Option<Artifact>)
    requires reader.Valid() && (version == 3 || version == 4)
    modifies reader`cursor
    ensures r == var body := ReadBody(old(reader.Rest()), version);
      if body.Done? && body.rest == [] && Validate(body.value) then Some(body.value) else None
  {
    hide ReadUnsigned, ReadLocals, ReadList, ReadFunction, ReadData, Validate, BundleFormat.Take;
    var locals: Option<set<Name>> := None;
    var ok;
    if version == 4 {
      var names;
      ok, names := reader.Locals();
      if !ok {
        return None;
      }
      locals := Some(names);
    } else {
      NoLocals(reader.Rest());
    }
    var functions, data;
    ok, functions := reader.Functions();
    if !ok {
      return None;
    }
    ok, data := reader.AllData();
    if !ok || reader.cursor != |reader.bytes| {
      return None;
    }
    var a := Artifact(locals, functions, data);
    r := if Validate(a) then Some(a) else None;
  }
}
