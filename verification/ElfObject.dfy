/** The sections and symbols that a relocatable SIA ELF object consists of. */
module ElfObject {
  import opened Options
  import opened Artifacts
  import opened Bytes
  import opened LittleEndian
  import opened ElfFormat

  /** A definition of an artifact: a function or a data object. */
  datatype Item = Item(name: Name, body: seq<Byte>, align: nat, code: bool, readOnly: bool, relocations: seq<Relocation>)

  function OfCode(f: Function): Item {
    Item(f.name, f.code, 4, true, true, f.relocations)
  }

  function OfObject(d: Data): Item {
    Item(d.name, d.bytes, d.align, false, d.readOnly, d.relocations)
  }

  function Items(a: Artifact): (r: seq<Item>)
    ensures |r| == |a.functions| + |a.data|
    ensures forall i :: 0 <= i < |a.functions| ==> r[i] == OfCode(a.functions[i])
    ensures forall i :: 0 <= i < |a.data| ==> r[|a.functions| + i] == OfObject(a.data[i])
  {
    seq(|a.functions|, i requires 0 <= i < |a.functions| => OfCode(a.functions[i]))
    + seq(|a.data|, i requires 0 <= i < |a.data| => OfObject(a.data[i]))
  }

  function Locals(a: Artifact): set<Name> {
    if a.locals.Some? then a.locals.value else {}
  }

  // ---------------------------------------------------------------- addends in place

  predicate SitesDistinct(rs: seq<Relocation>) {
    forall j, k :: 0 <= j < k < |rs| ==> rs[j].offset != rs[k].offset
  }

  predicate SitesDisjoint(rs: seq<Relocation>) {
    forall j, k :: 0 <= j < k < |rs| ==> rs[j].offset + 4 <= rs[k].offset || rs[k].offset + 4 <= rs[j].offset
  }

  /** What patch_addends accepts. */
  predicate Patchable(body: seq<Byte>, rs: seq<Relocation>) {
    SitesDistinct(rs) && forall k :: 0 <= k < |rs| ==> rs[k].offset + 4 <= |body| && FitsSigned32(rs[k].addend)
  }

  /** The body with every addend written into its site, in order. */
  function Patched(body: seq<Byte>, rs: seq<Relocation>): (r: seq<Byte>)
    requires forall k :: 0 <= k < |rs| ==> rs[k].offset + 4 <= |body|
    ensures |r| == |body|
  {
    if rs == [] then body
    else
      var last := rs[|rs| - 1];
      Patch(Patched(body, rs[..|rs| - 1]), last.offset, Little(last.addend % WORD_LIMIT, 4))
  }

  /** What the last of these sites that covers a byte writes there. */
  function LastWritten(rs: seq<Relocation>, at: nat): Option<Byte> {
    if rs == [] then None
    else
      var last := rs[|rs| - 1];
      if last.offset <= at < last.offset + 4 then Some(Little(last.addend % WORD_LIMIT, 4)[at - last.offset])
      else LastWritten(rs[..|rs| - 1], at)
  }

  /** A patched byte is what the last site that covers it wrote, and otherwise the body's own. */
  lemma {:induction false} PatchedByte(body: seq<Byte>, rs: seq<Relocation>, at: nat)
    requires at < |body| && forall k :: 0 <= k < |rs| ==> rs[k].offset + 4 <= |body|
    ensures Patched(body, rs)[at] == if LastWritten(rs, at).Some? then LastWritten(rs, at).value else body[at]
    decreases |rs|
  {
    hide Little;
    if rs != [] {
      PatchedByte(body, rs[..|rs| - 1], at);
    }
  }

  /** The four bytes at a position, as a signed number. */
  function Held(body: seq<Byte>, at: nat): int {
    if at + 4 <= |body| then Signed32(Value(body[at..at + 4])) else 0
  }

  /** Relocations with the addends that a body holds in their sites. */
  function Seen(body: seq<Byte>, rs: seq<Relocation>): (r: seq<Relocation>)
    ensures |r| == |rs|
    ensures forall k :: 0 <= k < |rs| ==> r[k] == Relocation(rs[k].offset, rs[k].target, Held(body, rs[k].offset))
  {
    seq(|rs|, k requires 0 <= k < |rs| => Relocation(rs[k].offset, rs[k].target, Held(body, rs[k].offset)))
  }

  /** Every byte of site k that later sites cover is given the same value by the last of them. */
  predicate Survives(rs: seq<Relocation>, k: nat)
    requires k < |rs|
  {
    forall at :: rs[k].offset <= at < rs[k].offset + 4 ==> KeepsByte(rs, k, at)
  }

  predicate KeepsByte(rs: seq<Relocation>, k: nat, at: nat)
    requires k < |rs| && rs[k].offset <= at < rs[k].offset + 4
  {
    var w := LastWritten(rs[k + 1..], at);
    w.None? || w.value == Little(rs[k].addend % WORD_LIMIT, 4)[at - rs[k].offset]
  }

  lemma {:induction false} LastWrittenJoined(x: seq<Relocation>, y: seq<Relocation>, at: nat)
    ensures LastWritten(x + y, at) == if LastWritten(y, at).Some? then LastWritten(y, at) else LastWritten(x, at)
    decreases |y|
  {
    if y == [] {
      assert x + y == x;
    } else {
      assert (x + y)[..|x + y| - 1] == x + y[..|y| - 1];
      LastWrittenJoined(x, y[..|y| - 1], at);
    }
  }

  /** patch_addends refuses only sites that start at the same byte. Of sites that overlap otherwise, an earlier
      addend can be read back exactly when the later ones leave its bytes as they were. */
  lemma AddendSurvives(body: seq<Byte>, rs: seq<Relocation>, k: nat)
    requires Patchable(body, rs) && k < |rs|
    ensures Held(Patched(body, rs), rs[k].offset) == rs[k].addend <==> Survives(rs, k)
  {
    hide Patched, Little;
    var at, mine := rs[k].offset, Little(rs[k].addend % WORD_LIMIT, 4);
    var four := Patched(body, rs)[at..at + 4];
    forall p | at <= p < at + 4
      ensures KeepsByte(rs, k, p) <==> four[p - at] == mine[p - at]
    {
      PatchedByte(body, rs, p);
      assert rs == rs[..k + 1] + rs[k + 1..];
      LastWrittenJoined(rs[..k + 1], rs[k + 1..], p);
      assert rs[..k + 1][|rs[..k + 1]| - 1] == rs[k];
    }
    FourBytes(four, rs[k].addend);
    if Survives(rs, k) {
      forall i | 0 <= i < 4
        ensures four[i] == mine[i]
      {
        assert KeepsByte(rs, k, at + i);
      }
    }
  }

  /** The relocations seen in a patched body are the given ones exactly when every addend survives. */
  lemma SeenSame(body: seq<Byte>, rs: seq<Relocation>)
    requires Patchable(body, rs)
    ensures Seen(Patched(body, rs), rs) == rs <==> forall k :: 0 <= k < |rs| ==> Survives(rs, k)
  {
    hide Patched, Survives, Held;
    var seen := Seen(Patched(body, rs), rs);
    forall k | 0 <= k < |rs|
      ensures seen[k] == rs[k] <==> Survives(rs, k)
    {
      AddendSurvives(body, rs, k);
    }
  }

  /** Four bytes stand for an addend exactly when they are its encoding. */
  lemma FourBytes(four: seq<Byte>, addend: int)
    requires |four| == 4 && FitsSigned32(addend)
    ensures Signed32(Value(four)) == addend <==> four == Little(addend % WORD_LIMIT, 4)
  {
    hide Little, Value;
    FieldLimits();
    LittleValue(addend % WORD_LIMIT, 4);
    ValueLittle(four);
    ValueBelow(four);
    SignedBack(addend);
    SignedOnce(Value(four), addend);
  }

  lemma SignedOnce(v: nat, addend: int)
    requires v < WORD_LIMIT && FitsSigned32(addend)
    ensures Signed32(v) == addend <==> v == addend % WORD_LIMIT
  {
  }

  /** Sites that share no byte all survive. */
  lemma DisjointSurvive(rs: seq<Relocation>, k: nat)
    requires SitesDisjoint(rs) && k < |rs|
    ensures Survives(rs, k)
  {
    hide Little;
    var later := rs[k + 1..];
    forall at | rs[k].offset <= at < rs[k].offset + 4
      ensures KeepsByte(rs, k, at)
    {
      NobodyWrites(later, at);
    }
  }

  lemma {:induction false} NobodyWrites(rs: seq<Relocation>, at: nat)
    requires forall k :: 0 <= k < |rs| ==> !(rs[k].offset <= at < rs[k].offset + 4)
    ensures LastWritten(rs, at).None?
    decreases |rs|
  {
    if rs != [] {
      NobodyWrites(rs[..|rs| - 1], at);
    }
  }

  /** Two sites that overlap by half: both are accepted, and the first addend reads back as -65536 instead of 0. */
  lemma OverlapCorrupts(target: Name)
    ensures var rs := [Relocation(0, target, 0), Relocation(2, target, -1)];
      Patchable(Zeros(6), rs) && Held(Patched(Zeros(6), rs), 0) == -65536 && !Survives(rs, 0)
  {
    var rs := [Relocation(0, target, 0), Relocation(2, target, -1)];
    LittleOnes();
    var all := Little((-1) % WORD_LIMIT, 4);
    forall at | 0 <= at < 6
      ensures Patched(Zeros(6), rs)[at] == if at < 2 then 0 else 255
    {
      assert rs[..1] == [Relocation(0, target, 0)] && rs[..1][..0] == [];
      PatchedByte(Zeros(6), rs, at);
    }
    assert Patched(Zeros(6), rs)[0..4] == [0, 0, 255, 255];
    HalfOnes();
    AddendSurvives(Zeros(6), rs, 0);
  }

  lemma LittleOnes()
    ensures Little((-1) % WORD_LIMIT, 4) == [255, 255, 255, 255] && Little(0 % WORD_LIMIT, 4) == [0, 0, 0, 0]
  {
    assert Little(0xff, 1) == [255] + Little(0, 0);
    assert Little(0xffff, 2) == [255] + Little(0xff, 1);
    assert Little(0xff_ffff, 3) == [255] + Little(0xffff, 2);
    assert Little(0xffff_ffff, 4) == [255] + Little(0xff_ffff, 3);
    assert Little(0, 1) == [0] + Little(0, 0);
    assert Little(0, 2) == [0] + Little(0, 1);
    assert Little(0, 3) == [0] + Little(0, 2);
    assert Little(0, 4) == [0] + Little(0, 3);
  }

  lemma HalfOnes()
    ensures Value([0, 0, 255, 255]) == 0xffff_0000
  {
    assert Value([255]) == 255 + 256 * Value([]) && [255][1..] == [];
    assert [255, 255][1..] == [255] && [0, 255, 255][1..] == [255, 255] && [0, 0, 255, 255][1..] == [0, 255, 255];
  }

  // ---------------------------------------------------------------- sections

  const TEXT: Name := [46, 116, 101, 120, 116, 46]
  const BSS: Name := [46, 98, 115, 115, 46]
  const RODATA: Name := [46, 114, 111, 100, 97, 116, 97, 46]
  const DATA: Name := [46, 100, 97, 116, 97, 46]
  const SYMTAB: Name := [46, 115, 121, 109, 116, 97, 98]
  const STRTAB: Name := [46, 115, 116, 114, 116, 97, 98]
  const SHSTRTAB: Name := [46, 115, 104, 115, 116, 114, 116, 97, 98]
  const REL: Name := [46, 114, 101, 108]

  predicate AllZero(s: seq<Byte>) {
    forall i :: 0 <= i < |s| ==> s[i] == 0
  }

  predicate IsBss(item: Item) {
    !item.code && !item.readOnly && item.relocations == [] && AllZero(item.body)
  }

  function SectionName(item: Item): Name {
    (if item.code then TEXT else if IsBss(item) then BSS else if item.readOnly then RODATA else DATA) + item.name
  }

  function SectionOf(item: Item): Content
    requires Patchable(item.body, item.relocations)
  {
    Content(
      SectionName(item),
      if IsBss(item) then SHT_NOBITS else SHT_PROGBITS,
      if item.code then SHF_ALLOC + SHF_EXECINSTR else if item.readOnly then SHF_ALLOC else SHF_ALLOC + SHF_WRITE,
      item.align,
      Patched(item.body, item.relocations), 0, 0, 0)
  }

  const NULL_SECTION := Content([], SHT_NULL, 0, 0, [], 0, 0, 0)
  const NULL_SYMBOL := Symbol([], 0, STB_LOCAL, STT_NOTYPE, 0)

  /** The symbol of definition i. */
  function SymbolOf(a: Artifact, i: nat): Symbol
    requires i < |Items(a)|
  {
    var item := Items(a)[i];
    Symbol(item.name, |item.body|, if item.name in Locals(a) then STB_LOCAL else STB_GLOBAL,
           if item.code then STT_FUNC else STT_OBJECT, i + 1)
  }

  function Undefined(name: Name): Symbol {
    Symbol(name, 0, STB_GLOBAL, STT_NOTYPE, 0)
  }

  predicate Permutes(order: seq<nat>, n: nat) {
    && (forall i :: 0 <= i < |order| ==> order[i] < n)
    && (forall i, j :: 0 <= i < j < |order| ==> order[i] != order[j])
    && (forall k: nat :: k < n ==> k in order)
  }

  function Symbols(a: Artifact, order: seq<nat>, undefined: seq<Name>): (r: seq<Symbol>)
    requires Permutes(order, |Items(a)|)
    ensures |r| == 1 + |order| + |undefined| && r[0] == NULL_SYMBOL
    ensures forall k :: 0 <= k < |order| ==> r[1 + k] == SymbolOf(a, order[k])
    ensures forall k :: 0 <= k < |undefined| ==> r[1 + |order| + k] == Undefined(undefined[k])
  {
    [NULL_SYMBOL] + seq(|order|, k requires 0 <= k < |order| => SymbolOf(a, order[k]))
    + seq(|undefined|, k requires 0 <= k < |undefined| => Undefined(undefined[k]))
  }

  /** A symbol table that describes its symbols, with names in a string table. */
  ghost predicate Tabled(table: seq<Byte>, symbols: seq<Symbol>, names: seq<nat>) {
    && |table| == 16 * |symbols| && |names| == |symbols|
    && forall k :: 0 <= k < |symbols| ==> SmallSymbol(symbols[k]) && Has(table, 16 * k, SymbolRecord(symbols[k], names[k]))
  }

  function NamesOf(symbols: seq<Symbol>): (r: seq<Name>)
    ensures |r| == |symbols|
  {
    seq(|symbols|, k requires 0 <= k < |symbols| => symbols[k].name)
  }

  function TitlesOf(contents: seq<Content>): (r: seq<Name>)
    ensures |r| == |contents|
  {
    seq(|contents|, k requires 0 <= k < |contents| => contents[k].name)
  }

  /** The relocation records of one section. */
  ghost predicate RelTabled(table: seq<Byte>, rs: seq<Relocation>, symbols: seq<Symbol>, indices: seq<nat>) {
    && |table| == 8 * |rs| && |indices| == |rs|
    && forall k :: 0 <= k < |rs| ==>
      && 0 < indices[k] < |symbols| && symbols[indices[k]].name == rs[k].target
      && Has(table, 8 * k, RelRecord(rs[k].offset, indices[k]))
  }

  /** An object before it is laid out in a file. */
  datatype Object = Object(
    order: seq<nat>,
    locals: nat,
    undefined: seq<Name>,
    symbols: seq<Symbol>,
    symbolNames: seq<nat>,
    patched: seq<nat>,
    contents: seq<Content>)

  /** Local symbols come before the others. */
  ghost predicate LocalsFirst(a: Artifact, order: seq<nat>, locals: nat)
    requires forall k :: 0 <= k < |order| ==> order[k] < |Items(a)|
  {
    locals <= |order| && forall k :: 0 <= k < |order| ==> (Items(a)[order[k]].name in Locals(a) <==> k < locals)
  }

  /** Definitions that have relocations, in order. */
  function Relocated(items: seq<Item>): seq<nat> {
    if items == [] then []
    else
      var n := |items| - 1;
      Relocated(items[..n]) + if items[n].relocations == [] then [] else [n]
  }

  predicate AllPatchable(items: seq<Item>) {
    forall i :: 0 <= i < |items| ==> Patchable(items[i].body, items[i].relocations)
  }

  /** What the object of an artifact is: one section for each definition, a symbol table with every definition
      once, local ones first, and every other target, and one relocation section for each section with sites. */
  ghost predicate Describes(a: Artifact, o: Object) {
    var items := Items(a);
    var n := |items|;
    && AllPatchable(items)
    && Permutes(o.order, n)
    && LocalsFirst(a, o.order, o.locals)
    && o.symbols == Symbols(a, o.order, o.undefined)
    && (forall k :: 0 <= k < |o.undefined| ==> IsUndefined(items, o.undefined[k]))
    && o.patched == Relocated(items)
    && |o.contents| == n + 4 + |o.patched|
    && o.contents[0] == NULL_SECTION
    && (forall i :: 0 <= i < n ==> o.contents[i + 1] == SectionOf(items[i]))
    && SymbolTables(o, n)
    && (forall j :: 0 <= j < |o.patched| ==> RelSection(o, items, n, j))
    && o.contents[|o.contents| - 1].name == SHSTRTAB && o.contents[|o.contents| - 1].kind == SHT_STRTAB
    && o.contents[|o.contents| - 1].flags == 0 && o.contents[|o.contents| - 1].align == 1
  }

  /** A target that no definition has the name of. */
  ghost predicate IsUndefined(items: seq<Item>, name: Name) {
    && (forall i :: 0 <= i < |items| ==> items[i].name != name)
    && exists i, k :: 0 <= i < |items| && 0 <= k < |items[i].relocations| && items[i].relocations[k].target == name
  }

  ghost predicate SymbolTables(o: Object, n: nat)
    requires |o.contents| > n + 2
  {
    var t, s := o.contents[n + 1], o.contents[n + 2];
    && t.name == SYMTAB && t.kind == SHT_SYMTAB && t.flags == 0 && t.align == 4 && t.link == n + 2 && t.info == o.locals + 1 && t.entsize == 16
    && Tabled(t.data, o.symbols, o.symbolNames)
    && s.name == STRTAB && s.kind == SHT_STRTAB && s.flags == 0 && s.align == 1
    && Named(s.data, NamesOf(o.symbols), o.symbolNames)
  }

  /** Relocation section j is that of definition patched[j]. */
  ghost predicate RelSection(o: Object, items: seq<Item>, n: nat, j: nat)
    requires j < |o.patched| && |o.contents| == n + 4 + |o.patched| && n == |items|
  {
    o.patched[j] < n && RelContent(o.contents[n + 3 + j], items[o.patched[j]], o.patched[j], o.symbols, n + 1)
  }

  ghost predicate RelContent(c: Content, item: Item, i: nat, symbols: seq<Symbol>, symtab: nat) {
    && c.name == REL + SectionName(item) && c.kind == SHT_REL && c.flags == 0 && c.align == 4
    && c.link == symtab && c.info == i + 1 && c.entsize == 8
    && exists indices :: RelTabled(c.data, item.relocations, symbols, indices)
  }

  // ---------------------------------------------------------------- the file

  /** A file that holds the sections at their offsets, and a table of section headers. */
  ghost predicate Laid(bytes: seq<Byte>, contents: seq<Content>, names: seq<nat>, offsets: seq<nat>, table: nat) {
    && |contents| < W16 && |names| == |contents| && |offsets| == |contents| && |contents| > 1 && table < WORD_LIMIT
    && HeaderLaid(bytes, |contents|, table)
    && table + 40 * |contents| <= |bytes|
    && Named(contents[|contents| - 1].data, TitlesOf(contents), names)
    && (forall i :: 0 <= i < |contents| ==> SmallContent(contents[i]) && offsets[i] < WORD_LIMIT)
    && (forall i :: 0 <= i < |contents| && contents[i].align > 0 ==> offsets[i] % contents[i].align == 0)
    && (forall i :: 0 <= i < |contents| ==> Has(bytes, table + 40 * i, HeaderRecord(contents[i], names[i], offsets[i])))
    && (forall i :: 0 <= i < |contents| && contents[i].kind != SHT_NOBITS ==> Has(bytes, offsets[i], contents[i].data))
  }

  ghost predicate HeaderLaid(bytes: seq<Byte>, sections: nat, table: nat) {
    && Has(bytes, 0, IDENTITY) && U16(bytes, 16) == Some(1) && U16(bytes, 18) == Some(EM_SIA32) && U32(bytes, 20) == Some(1)
    && U32(bytes, 24) == Some(0) && U32(bytes, 28) == Some(0) && U32(bytes, 32) == Some(table)
    && U16(bytes, 40) == Some(52) && U16(bytes, 42) == Some(0) && U16(bytes, 44) == Some(0) && U16(bytes, 46) == Some(40)
    && U16(bytes, 48) == Some(sections) && sections > 0 && U16(bytes, 50) == Some(sections - 1)
  }
}
