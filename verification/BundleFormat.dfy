/** The COSMIC-SIA bundle format, versions 3 and 4: what an encoder writes and a decoder reads. */
module BundleFormat {
  import opened Options
  import opened Artifacts
  import opened Bytes
  import opened LittleEndian

  const MAGIC: seq<Byte> := [67, 79, 83, 77, 73, 67, 45, 83, 73, 65, 0]

  // ---------------------------------------------------------------- reading

  /** What reading from the front of a sequence gives. */
  datatype Parse<T> = Fail | Done(value: T, rest: seq<Byte>)

  type Parser<!T> = seq<Byte> -> Parse<T>

  /** Reading does not look beyond what it consumes. */
  ghost predicate Local<T(!new)>(p: Parser<T>) {
    forall x, t :: p(x).Done? ==> p(x + t) == Done(p(x).value, p(x).rest + t)
  }

  function Take(x: seq<Byte>, n: nat): Parse<seq<Byte>> {
    if n <= |x| then Done(x[..n], x[n..]) else Fail
  }

  lemma TakeLocal(x: seq<Byte>, n: nat, t: seq<Byte>)
    requires Take(x, n).Done?
    ensures Take(x + t, n) == Done(Take(x, n).value, Take(x, n).rest + t)
  {
    assert (x + t)[..n] == x[..n] && (x + t)[n..] == x[n..] + t;
  }

  lemma TakeFront(x: seq<Byte>, rest: seq<Byte>)
    ensures Take(x + rest, |x|) == Done(x, rest)
  {
    assert (x + rest)[..|x|] == x && (x + rest)[|x|..] == rest;
  }

  function ReadUnsigned(x: seq<Byte>, n: nat): Parse<nat> {
    var p := Take(x, n);
    if p.Fail? then Fail else Done(Value(p.value), p.rest)
  }

  /** Two's complement of eight bytes. */
  function Signed64(v: nat): int {
    if v >= 0x8000_0000_0000_0000 then v - 0x1_0000_0000_0000_0000 else v
  }

  function Unsigned64(v: int): nat {
    v % 0x1_0000_0000_0000_0000
  }

  /** Well-formed UTF-8 (section 4 of RFC 3629). */
  predicate ValidUtf8(s: seq<Byte>) {
    if s == [] then true
    else if s[0] < 0x80 then ValidUtf8(s[1..])
    else if 0xc2 <= s[0] < 0xe0 then |s| >= 2 && Tail(s[1]) && ValidUtf8(s[2..])
    else if 0xe0 <= s[0] < 0xf0 then
      && |s| >= 3 && Tail(s[1]) && Tail(s[2]) && ValidUtf8(s[3..])
      && (s[0] == 0xe0 ==> s[1] >= 0xa0) && (s[0] == 0xed ==> s[1] < 0xa0)
    else
      && 0xf0 <= s[0] < 0xf5 && |s| >= 4 && Tail(s[1]) && Tail(s[2]) && Tail(s[3]) && ValidUtf8(s[4..])
      && (s[0] == 0xf0 ==> s[1] >= 0x90) && (s[0] == 0xf4 ==> s[1] < 0x90)
  }

  predicate Tail(b: Byte) {
    0x80 <= b < 0xc0
  }

  /** A two-byte length and that many bytes of UTF-8. */
  function ReadName(x: seq<Byte>): Parse<Name> {
    var n := ReadUnsigned(x, 2);
    if n.Fail? then Fail
    else
      var s := Take(n.rest, n.value);
      if s.Fail? || !ValidUtf8(s.value) then Fail else s
  }

  function WriteName(name: Name): seq<Byte> {
    Little(|name|, 2) + name
  }

  /** A length of n bytes and that many bytes. */
  function ReadBlob(x: seq<Byte>, n: nat): Parse<seq<Byte>> {
    var c := ReadUnsigned(x, n);
    if c.Fail? then Fail else Take(c.rest, c.value)
  }

  function WriteBlob(s: seq<Byte>, n: nat): seq<Byte> {
    Little(|s|, n) + s
  }

  /** n items, one after the other. */
  function ReadMany<T>(p: Parser<T>, n: nat, x: seq<Byte>): Parse<seq<T>> {
    if n == 0 then Done([], x)
    else
      var first := p(x);
      if first.Fail? then Fail
      else
        var more := ReadMany(p, n - 1, first.rest);
        if more.Fail? then Fail else Done([first.value] + more.value, more.rest)
  }

  function WriteMany<T>(e: T -> seq<Byte>, items: seq<T>): seq<Byte> {
    if items == [] then [] else e(items[0]) + WriteMany(e, items[1..])
  }

  /** A two-byte count and that many items. */
  function ReadList<T>(p: Parser<T>, x: seq<Byte>): Parse<seq<T>> {
    var n := ReadUnsigned(x, 2);
    if n.Fail? then Fail else ReadMany(p, n.value, n.rest)
  }

  function WriteList<T>(e: T -> seq<Byte>, items: seq<T>): seq<Byte> {
    Little(|items|, 2) + WriteMany(e, items)
  }

  function ReadRelocation(x: seq<Byte>): Parse<Relocation> {
    var offset := ReadUnsigned(x, 4);
    if offset.Fail? then Fail
    else
      var addend := ReadUnsigned(offset.rest, 8);
      if addend.Fail? then Fail
      else
        var target := ReadName(addend.rest);
        if target.Fail? then Fail
        else Done(Relocation(offset.value, target.value, Signed64(addend.value)), target.rest)
  }

  function ReadFunction(x: seq<Byte>): Parse<Function> {
    var name := ReadName(x);
    if name.Fail? then Fail
    else
      var code := ReadBlob(name.rest, 4);
      if code.Fail? then Fail
      else
        var relocations := ReadList(ReadRelocation, code.rest);
        if relocations.Fail? then Fail
        else Done(Function(name.value, code.value, relocations.value), relocations.rest)
  }

  function ReadData(x: seq<Byte>): Parse<Data> {
    var name := ReadName(x);
    if name.Fail? then Fail
    else
      var align := ReadUnsigned(name.rest, 4);
      if align.Fail? then Fail
      else
        var flag := Take(align.rest, 1);
        if flag.Fail? then Fail
        else
          var bytes := ReadBlob(flag.rest, 4);
          if bytes.Fail? then Fail
          else
            var relocations := ReadList(ReadRelocation, bytes.rest);
            if relocations.Fail? then Fail
            else Done(Data(name.value, bytes.value, align.value, flag.value[0] != 0, relocations.value), relocations.rest)
  }

  function Members(names: seq<Name>): set<Name> {
    set name | name in names
  }

  predicate NoRepeats(names: seq<Name>) {
    forall i, j :: 0 <= i < j < |names| ==> names[i] != names[j]
  }

  /** The private names of version 4; version 3 has none. */
  function ReadLocals(x: seq<Byte>, version: nat): Parse<Option<set<Name>>> {
    if version != 4 then Done(None, x)
    else
      var names := ReadList(ReadName, x);
      if names.Fail? || !NoRepeats(names.value) then Fail else Done(Some(Members(names.value)), names.rest)
  }

  /** What follows the version. */
  function ReadBody(x: seq<Byte>, version: nat): Parse<Artifact> {
    var locals := ReadLocals(x, version);
    if locals.Fail? then Fail
    else
      var functions := ReadList(ReadFunction, locals.rest);
      if functions.Fail? then Fail
      else
        var data := ReadList(ReadData, functions.rest);
        if data.Fail? then Fail else Done(Artifact(locals.value, functions.value, data.value), data.rest)
  }

  /** The magic bytes and a version that is known. */
  function ReadHeader(x: seq<Byte>): Parse<nat> {
    var magic := Take(x, |MAGIC|);
    if magic.Fail? || magic.value != MAGIC then Fail
    else
      var version := ReadUnsigned(magic.rest, 2);
      if version.Fail? || (version.value != 4 && version.value != 3) then Fail else version
  }

  function ReadArtifact(x: seq<Byte>): Parse<Artifact> {
    var version := ReadHeader(x);
    if version.Fail? then Fail else ReadBody(version.rest, version.value)
  }

  /** A whole bundle: nothing may follow, and the artifact must be valid. */
  function Decoded(x: seq<Byte>): Option<Artifact> {
    var a := ReadArtifact(x);
    if a.Done? && a.rest == [] && Validate(a.value) then Some(a.value) else None
  }

  // ---------------------------------------------------------------- writing

  function WriteRelocation(r: Relocation): seq<Byte> {
    Little(r.offset, 4) + Little(Unsigned64(r.addend), 8) + WriteName(r.target)
  }

  predicate InSigned64(v: int) {
    -0x8000_0000_0000_0000 <= v < 0x8000_0000_0000_0000
  }

  function WriteFunction(f: Function): seq<Byte> {
    WriteName(f.name) + WriteBlob(f.code, 4) + WriteList(WriteRelocation, f.relocations)
  }

  function WriteData(d: Data): seq<Byte> {
    WriteName(d.name) + Little(d.align, 4) + [if d.readOnly then 1 else 0] + WriteBlob(d.bytes, 4)
    + WriteList(WriteRelocation, d.relocations)
  }

  /** The encoding, with the private names in some order. */
  function Encoding(a: Artifact, order: seq<Name>): seq<Byte> {
    MAGIC + Little(if a.locals.Some? then 4 else 3, 2)
    + (if a.locals.Some? then WriteList(WriteName, order) else [])
    + WriteList(WriteFunction, a.functions) + WriteList(WriteData, a.data)
  }

  /** Each private name once. */
  predicate Orders(a: Artifact, order: seq<Name>) {
    a.locals.Some? ==> NoRepeats(order) && Members(order) == a.locals.value
  }

  // ---------------------------------------------------------------- what types and formats bound

  predicate TypedRelocation(r: Relocation) {
    r.offset < WORD_LIMIT && InSigned64(r.addend) && ValidUtf8(r.target)
  }

  /** Bounds that the types of the fields give. */
  predicate Typed(a: Artifact) {
    && (a.locals.Some? ==> forall name :: name in a.locals.value ==> ValidUtf8(name))
    && (forall i :: 0 <= i < |a.functions| ==>
          ValidUtf8(a.functions[i].name) && AllTyped(a.functions[i].relocations))
    && (forall i :: 0 <= i < |a.data| ==>
          ValidUtf8(a.data[i].name) && a.data[i].align < WORD_LIMIT && AllTyped(a.data[i].relocations))
  }

  predicate AllTyped(rs: seq<Relocation>) {
    forall k :: 0 <= k < |rs| ==> TypedRelocation(rs[k])
  }

  const SHORT: nat := 0x1_0000

  predicate ShortRelocations(rs: seq<Relocation>) {
    |rs| < SHORT && forall k :: 0 <= k < |rs| ==> |rs[k].target| < SHORT
  }

  predicate ShortFunction(f: Function) {
    |f.name| < SHORT && |f.code| < WORD_LIMIT && ShortRelocations(f.relocations)
  }

  predicate ShortData(d: Data) {
    |d.name| < SHORT && |d.bytes| < WORD_LIMIT && ShortRelocations(d.relocations)
  }

  /** Bounds that the widths of counts and lengths give. */
  predicate Short(a: Artifact) {
    && (a.locals.Some? ==> |a.locals.value| < SHORT && forall name :: name in a.locals.value ==> |name| < SHORT)
    && |a.functions| < SHORT && (forall i :: 0 <= i < |a.functions| ==> ShortFunction(a.functions[i]))
    && |a.data| < SHORT && forall i :: 0 <= i < |a.data| ==> ShortData(a.data[i])
  }
}
