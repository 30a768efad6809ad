/** A written object seen byte by byte, with the numbers of the ELF specification (chapter 4 of the System V ABI)
    written out: what a tool finds that knows nothing but that. */
module ElfFields {
  import opened Options
  import opened Artifacts
  import opened Bytes
  import opened LittleEndian
  import opened ElfFormat
  import opened ElfObject
  import ElfAssembly
  import ElfTables

  function Half(x: seq<Byte>, at: nat): nat
    requires at + 2 <= |x|
  {
    x[at] as nat + 0x100 * x[at + 1] as nat
  }

  function Word(x: seq<Byte>, at: nat): nat
    requires at + 4 <= |x|
  {
    x[at] as nat + 0x100 * x[at + 1] as nat + 0x1_0000 * x[at + 2] as nat + 0x100_0000 * x[at + 3] as nat
  }

  /** The word at a position is v. */
  predicate IsWord(x: seq<Byte>, at: nat, v: nat) {
    at + 4 <= |x| && Word(x, at) == v
  }

  predicate IsHalf(x: seq<Byte>, at: nat, v: nat) {
    at + 2 <= |x| && Half(x, at) == v
  }

  /** A name with its NUL. */
  predicate Text(x: seq<Byte>, at: nat, name: Name) {
    at + |name| + 1 <= |x| && x[at..at + |name|] == name && x[at + |name|] == 0
  }

  lemma WordFound(x: seq<Byte>, at: nat, v: nat)
    requires U32(x, at) == Some(v)
    ensures IsWord(x, at, v) && Word(x, at) == v
  {
    LittleEndian.FourBytes(x[at..at + 4]);
  }

  lemma HalfFound(x: seq<Byte>, at: nat, v: nat)
    requires U16(x, at) == Some(v)
    ensures IsHalf(x, at, v)
  {
    var two := x[at..at + 2];
    assert Value(two[1..]) == two[1] as nat + 256 * Value(two[1..][1..]) && two[1..][1..] == [];
  }

  // ---------------------------------------------------------------- the file header

  /** A relocatable little-endian 32-bit file for machine 0xff53, with section headers of 40 bytes at the place that
      word 32 tells; the names of sections are in the last one. */
  predicate FileHeader(x: seq<Byte>, table: nat, sections: nat) {
    && sections > 0 && |x| >= 52 && x[..7] == [0x7f, 'E' as Byte, 'L' as Byte, 'F' as Byte, 1, 1, 1]
    && IsHalf(x, 16, 1) && IsHalf(x, 18, 0xff53) && IsWord(x, 20, 1) && IsWord(x, 24, 0) && IsWord(x, 28, 0)
    && IsWord(x, 32, table) && IsHalf(x, 40, 52) && IsHalf(x, 42, 0) && IsHalf(x, 44, 0) && IsHalf(x, 46, 40)
    && IsHalf(x, 48, sections) && IsHalf(x, 50, sections - 1)
  }

  lemma HeaderFound(x: seq<Byte>, contents: seq<Content>, names: seq<nat>, offsets: seq<nat>, table: nat)
    requires Laid(x, contents, names, offsets, table)
    ensures FileHeader(x, table, |contents|)
  {
    hide IsWord, IsHalf, U16, U32, Named;
    assert table + 40 * |contents| <= |x| && Has(x, 0, IDENTITY);
    HalfFound(x, 50, |contents| - 1);
    HalfFound(x, 16, 1);
    HalfFound(x, 18, 0xff53);
    HalfFound(x, 40, 52);
    HalfFound(x, 42, 0);
    HalfFound(x, 44, 0);
    HalfFound(x, 46, 40);
    HalfFound(x, 48, |contents|);
    WordFound(x, 20, 1);
    WordFound(x, 24, 0);
    WordFound(x, 28, 0);
    WordFound(x, 32, table);
  }

  // ---------------------------------------------------------------- sections

  /** A section header: where its bytes are, and its type, flags, size and alignment. */
  predicate Header(x: seq<Byte>, at: nat, kind: nat, flags: nat, offset: nat, size: nat, align: nat) {
    && IsWord(x, at + 4, kind) && IsWord(x, at + 8, flags) && IsWord(x, at + 16, offset) && IsWord(x, at + 20, size)
    && IsWord(x, at + 32, align) && (align > 0 ==> offset % align == 0)
  }

  /** What other sections it belongs to, and the size of its records. */
  predicate Table(x: seq<Byte>, at: nat, link: nat, info: nat, record: nat) {
    IsWord(x, at + 24, link) && IsWord(x, at + 28, info) && IsWord(x, at + 36, record)
  }

  lemma SectionFound(x: seq<Byte>, contents: seq<Content>, names: seq<nat>, offsets: seq<nat>, table: nat, i: nat)
    requires Laid(x, contents, names, offsets, table) && i < |contents|
    ensures |offsets| == |contents|
    ensures var c := contents[i];
      && Header(x, table + 40 * i, c.kind, c.flags, offsets[i], |c.data|, c.align)
      && Table(x, table + 40 * i, c.link, c.info, c.entsize)
      && (c.kind != 8 ==> Has(x, offsets[i], c.data))
  {
    hide IsWord, IsHalf, U16, U32, HeaderRecord, Has;
    var at, c := table + 40 * i, contents[i];
    NameSmall(contents, names, i);
    HeaderFields(x, at, c, names[i], offsets[i]);
    WordFound(x, at + 4, c.kind);
    WordFound(x, at + 8, c.flags);
    WordFound(x, at + 16, offsets[i]);
    WordFound(x, at + 20, |c.data|);
    WordFound(x, at + 24, c.link);
    WordFound(x, at + 28, c.info);
    WordFound(x, at + 32, c.align);
    WordFound(x, at + 36, c.entsize);
  }

  lemma NameSmall(contents: seq<Content>, names: seq<nat>, i: nat)
    requires i < |contents| && |names| == |contents| && Named(contents[|contents| - 1].data, TitlesOf(contents), names)
    ensures names[i] < WORD_LIMIT
  {
  }

  /** The bytes at a position are a body but for the sites of its relocations, and a site holds its addend exactly
      when later sites leave it there. */
  ghost predicate Holds(x: seq<Byte>, at: nat, body: seq<Byte>, rs: seq<Relocation>) {
    && at + |body| <= |x|
    && (forall p :: 0 <= p < |body| && (forall k :: 0 <= k < |rs| ==> !(rs[k].offset <= p < rs[k].offset + 4)) ==>
          x[at + p] == body[p])
    && (forall k :: 0 <= k < |rs| ==> rs[k].offset + 4 <= |body|)
    && (forall k :: 0 <= k < |rs| ==> (Signed32(Word(x, at + rs[k].offset)) == rs[k].addend <==> Survives(rs, k)))
  }

  lemma BodyFound(x: seq<Byte>, at: nat, body: seq<Byte>, rs: seq<Relocation>)
    requires Patchable(body, rs) && Has(x, at, Patched(body, rs))
    ensures Holds(x, at, body, rs)
  {
    hide Patched, Survives, KeepsByte;
    var b := Patched(body, rs);
    assert forall p :: 0 <= p < |b| ==> x[at..at + |b|][p] == b[p];
    forall p | 0 <= p < |body| && forall k :: 0 <= k < |rs| ==> !(rs[k].offset <= p < rs[k].offset + 4)
      ensures x[at + p] == body[p]
    {
      PatchedByte(body, rs, p);
      NobodyWrites(rs, p);
    }
    forall k | 0 <= k < |rs|
      ensures Signed32(Word(x, at + rs[k].offset)) == rs[k].addend <==> Survives(rs, k)
    {
      AddendSurvives(body, rs, k);
      var four := b[rs[k].offset..rs[k].offset + 4];
      LittleEndian.FourBytes(four);
      assert forall j :: 0 <= j < 4 ==> four[j] == x[at..at + |b|][rs[k].offset + j] == x[at + (rs[k].offset + j)];
    }
  }

  /** Function i is section i + 1: bytes of the program that are loaded and executed, and not written. */
  lemma FunctionSection(a: Artifact, o: Object, x: seq<Byte>, names: seq<nat>, offsets: seq<nat>, table: nat, i: nat)
    requires Describes(a, o) && Laid(x, o.contents, names, offsets, table) && i < |a.functions|
    ensures var f := a.functions[i];
      && Header(x, table + 40 * (i + 1), 1, 2 + 4, offsets[i + 1], |f.code|, 4)
      && Holds(x, offsets[i + 1], f.code, f.relocations)
  {
    hide Header, Holds, Patched, Laid, HeaderRecord, RelSection, SymbolTables;
    var f := a.functions[i];
    assert Items(a)[i] == OfCode(f) && Patchable(f.code, f.relocations);
    assert o.contents[i + 1] == SectionOf(Items(a)[i]);
    SectionFound(x, o.contents, names, offsets, table, i + 1);
    BodyFound(x, offsets[i + 1], f.code, f.relocations);
  }

  /** Data object i comes behind the functions: loaded and not executed, writable unless it is read-only, and without
      bytes in the file when it is writable, zero and has no relocations. */
  lemma DataSection(a: Artifact, o: Object, x: seq<Byte>, names: seq<nat>, offsets: seq<nat>, table: nat, i: nat)
    requires Describes(a, o) && Laid(x, o.contents, names, offsets, table) && i < |a.data|
    ensures var d, s := a.data[i], |a.functions| + i + 1;
      var bss := !d.readOnly && d.relocations == [] && forall p :: 0 <= p < |d.bytes| ==> d.bytes[p] == 0;
      && Header(x, table + 40 * s, if bss then 8 else 1, if d.readOnly then 2 else 2 + 1, offsets[s], |d.bytes|, d.align)
      && (!bss ==> Holds(x, offsets[s], d.bytes, d.relocations))
  {
    hide Header, Holds, Patched, Laid, HeaderRecord, RelSection, SymbolTables;
    var d, n, s := a.data[i], |a.functions| + i, |a.functions| + i + 1;
    assert Items(a)[n] == OfObject(d) && Patchable(d.bytes, d.relocations);
    assert o.contents[n + 1] == SectionOf(Items(a)[n]);
    SectionFound(x, o.contents, names, offsets, table, s);
    if o.contents[s].kind != 8 {
      BodyFound(x, offsets[s], d.bytes, d.relocations);
    }
  }

  // ---------------------------------------------------------------- names of sections

  /** The bytes of ASCII text. */
  function Ascii(s: string): Name {
    seq(|s|, i requires 0 <= i < |s| => s[i] as int % 0x80)
  }

  /** What a definition's section is called. */
  function Prefix(a: Artifact, i: nat): string
    requires i < |Items(a)|
  {
    var item := Items(a)[i];
    if i < |a.functions| then ".text."
    else if item.readOnly then ".rodata."
    else if item.relocations == [] && forall p :: 0 <= p < |item.body| ==> item.body[p] == 0 then ".bss."
    else ".data."
  }

  lemma SectionTitle(a: Artifact, i: nat)
    requires i < |Items(a)|
    ensures SectionName(Items(a)[i]) == Ascii(Prefix(a, i)) + Items(a)[i].name
  {
    CodeFirst(a, i);
    Letters();
    if i < |a.functions| {
      assert Items(a)[i] == OfCode(a.functions[i]);
    }
  }

  lemma Letters()
    ensures Ascii(".text.") == TEXT && Ascii(".bss.") == BSS && Ascii(".rodata.") == RODATA && Ascii(".data.") == DATA
  {
  }

  /** The header of definition i leads to its name in the last section. */
  lemma SectionNamed(a: Artifact, o: Object, x: seq<Byte>, names: seq<nat>, offsets: seq<nat>, table: nat, i: nat)
    requires Describes(a, o) && Laid(x, o.contents, names, offsets, table) && i < |Items(a)|
    ensures |offsets| > i + 1 && table + 40 * (i + 1) + 4 <= |x|
    ensures Text(x, offsets[|offsets| - 1] + Word(x, table + 40 * (i + 1)), Ascii(Prefix(a, i)) + Items(a)[i].name)
  {
    hide Header, Holds, Patched, HeaderRecord, RelSection, Table, Has, Items, Text, Word, U32, SectionName, Prefix, Ascii;
    hide SymbolTables, SymbolOf, Symbols;
    var c, last := o.contents, |o.contents| - 1;
    SectionTitle(a, i);
    assert c[i + 1] == SectionOf(Items(a)[i]);
    SectionFound(x, c, names, offsets, table, last);
    NameSmall(c, names, i + 1);
    HeaderFields(x, table + 40 * (i + 1), c[i + 1], names[i + 1], offsets[i + 1]);
    WordFound(x, table + 40 * (i + 1), names[i + 1]);
    assert TitlesOf(c)[i + 1] == c[i + 1].name;
    TextFound(x, offsets[last], c[last].data, names[i + 1], c[i + 1].name);
  }

  // ---------------------------------------------------------------- symbols

  /** A symbol record, with its name among the strings. */
  predicate Entry(x: seq<Byte>, at: nat, strings: nat, name: Name, size: nat, info: nat, section: nat) {
    && at + 16 <= |x| && Text(x, strings + Word(x, at), name) && IsWord(x, at + 4, 0) && IsWord(x, at + 8, size)
    && x[at + 12] == info && x[at + 13] == 0 && IsHalf(x, at + 14, section)
  }

  /** The symbol table and its strings are the sections behind the definitions; symbols below the count in its info
      field are local. */
  lemma SymbolTable(a: Artifact, o: Object, x: seq<Byte>, names: seq<nat>, offsets: seq<nat>, table: nat)
    requires Describes(a, o) && Laid(x, o.contents, names, offsets, table)
    ensures var n := |a.functions| + |a.data|;
      && n + 2 < |offsets|
      && Header(x, table + 40 * (n + 1), 2, 0, offsets[n + 1], 16 * |o.symbols|, 4)
      && Table(x, table + 40 * (n + 1), n + 2, o.locals + 1, 16)
      && Header(x, table + 40 * (n + 2), 3, 0, offsets[n + 2], |o.contents[n + 2].data|, 1)
      && Has(x, offsets[n + 1], o.contents[n + 1].data) && Has(x, offsets[n + 2], o.contents[n + 2].data)
  {
    hide Header, Holds, Patched, Laid, HeaderRecord, RelSection, Tabled, Named, Table, Has;
    var n := |a.functions| + |a.data|;
    SectionFound(x, o.contents, names, offsets, table, n + 1);
    SectionFound(x, o.contents, names, offsets, table, n + 2);
    assert |o.contents[n + 1].data| == 16 * |o.symbols| by {
      TableSize(o.contents[n + 1].data, o.symbols, o.symbolNames);
    }
  }

  lemma TableSize(t: seq<Byte>, symbols: seq<ElfFormat.Symbol>, names: seq<nat>)
    requires Tabled(t, symbols, names)
    ensures |t| == 16 * |symbols|
  {
  }

  lemma TextFound(x: seq<Byte>, at: nat, strings: seq<Byte>, offset: nat, name: Name)
    requires Has(x, at, strings) && Has(strings, offset, name + [0])
    ensures Text(x, at + offset, name)
  {
    HasPart(x, at, strings, offset, name + [0]);
    var s := name + [0];
    assert x[at + offset..at + offset + |s|] == s;
    assert x[at + offset..at + offset + |name|] == s[..|name|] == name;
    assert x[at + offset + |name|] == s[|name|];
  }

  lemma SymbolFound(x: seq<Byte>, at: nat, strings: nat, table: seq<Byte>, text: seq<Byte>, symbols: seq<ElfFormat.Symbol>,
                    names: seq<nat>, k: nat)
    requires Has(x, at, table) && Has(x, strings, text) && k < |symbols|
    requires Tabled(table, symbols, names) && Named(text, NamesOf(symbols), names)
    ensures var s := symbols[k]; Entry(x, at + 16 * k, strings, s.name, s.size, s.bind * 16 + s.kind, s.section)
  {
    hide IsWord, IsHalf, U16, U32, Text, Word, SymbolRecord, Has;
    var s := symbols[k];
    assert Has(table, 16 * k, SymbolRecord(s, names[k])) && SmallSymbol(s) && names[k] < WORD_LIMIT;
    HasPart(x, at, table, 16 * k, SymbolRecord(s, names[k]));
    assert NamesOf(symbols)[k] == s.name;
    TextFound(x, strings, text, names[k], s.name);
    RecordFound(x, at + 16 * k, s, names[k]);
  }

  lemma RecordFound(x: seq<Byte>, at: nat, s: ElfFormat.Symbol, name: nat)
    requires SmallSymbol(s) && name < WORD_LIMIT && Has(x, at, SymbolRecord(s, name))
    ensures IsWord(x, at, name) && IsWord(x, at + 4, 0) && IsWord(x, at + 8, s.size) && IsHalf(x, at + 14, s.section)
    ensures at + 16 <= |x| && x[at + 12] == s.bind * 16 + s.kind && x[at + 13] == 0 && Word(x, at) == name
  {
    hide Word, IsWord, IsHalf, U16, U32, Little;
    SymbolFields(x, at, s, name);
    var r := SymbolRecord(s, name);
    assert x[at + 13] == x[at..at + 16][13] == r[13];
    WordFound(x, at, name);
    WordFound(x, at + 4, 0);
    WordFound(x, at + 8, s.size);
    HalfFound(x, at + 14, s.section);
  }

  /** Symbol k stands for definition i: it names section i + 1 and has its size, it is a function or an object, and
      local exactly when the name is private. */
  predicate Stands(a: Artifact, i: nat, x: seq<Byte>, at: nat, strings: nat)
    requires i < |Items(a)|
  {
    var item := Items(a)[i];
    Entry(x, at, strings, item.name, |item.body|,
           (if IsLocal(a, item.name) then 0 else 0x10) + (if i < |a.functions| then 2 else 1), i + 1)
  }

  /** Every definition has its symbol, among the local ones exactly when it is private. */
  lemma DefinitionSymbol(a: Artifact, o: Object, x: seq<Byte>, names: seq<nat>, offsets: seq<nat>, table: nat, i: nat)
    requires Describes(a, o) && Laid(x, o.contents, names, offsets, table) && i < |Items(a)|
    ensures |Items(a)| + 2 < |offsets|
    ensures exists k: nat ::
      && 0 < k < |o.symbols| && (k < o.locals + 1 <==> IsLocal(a, Items(a)[i].name))
      && Stands(a, i, x, offsets[|Items(a)| + 1] + 16 * k, offsets[|Items(a)| + 2])
  {
    hide Header, Holds, Patched, Laid, Describes, Tabled, Named, Table, Has, Entry, Items;
    var n := |Items(a)|;
    SymbolTable(a, o, x, names, offsets, table);
    var k := OwnSymbol(a, o, i);
    CodeFirst(a, i);
    SymbolFound(x, offsets[n + 1], offsets[n + 2], o.contents[n + 1].data, o.contents[n + 2].data, o.symbols, o.symbolNames, k);
    assert Stands(a, i, x, offsets[n + 1] + 16 * k, offsets[n + 2]);
  }

  lemma OwnSymbol(a: Artifact, o: Object, i: nat) returns (k: nat)
    requires Describes(a, o) && i < |Items(a)|
    ensures 0 < k < |o.symbols| && o.symbols[k] == SymbolOf(a, i) && (k < o.locals + 1 <==> IsLocal(a, Items(a)[i].name))
    ensures |o.contents| > |Items(a)| + 2
    ensures Tabled(o.contents[|Items(a)| + 1].data, o.symbols, o.symbolNames)
    ensures Named(o.contents[|Items(a)| + 2].data, NamesOf(o.symbols), o.symbolNames)
  {
    hide Patched, Items, RelSection, Tabled, Named, SectionOf, Patchable, SymbolOf;
    assert i in o.order;
    var p: nat :| p < |o.order| && o.order[p] == i;
    k := 1 + p;
    assert o.symbols[k] == SymbolOf(a, o.order[p]);
  }

  /** Symbol 0 is empty, and those behind the definitions are global names without a section. */
  lemma OtherSymbols(a: Artifact, o: Object, x: seq<Byte>, names: seq<nat>, offsets: seq<nat>, table: nat, k: nat)
    requires Describes(a, o) && Laid(x, o.contents, names, offsets, table) && k < |o.symbols| && (k == 0 || k > |Items(a)|)
    ensures |Items(a)| + 2 < |offsets|
    ensures Entry(x, offsets[|Items(a)| + 1] + 16 * k, offsets[|Items(a)| + 2], o.symbols[k].name, 0, if k == 0 then 0 else 0x10, 0)
  {
    hide Header, Holds, Patched, Laid, Describes, Tabled, Named, Table, Has, Entry, Items;
    var n := |Items(a)|;
    SymbolTable(a, o, x, names, offsets, table);
    OtherSymbol(a, o, k);
    SymbolFound(x, offsets[n + 1], offsets[n + 2], o.contents[n + 1].data, o.contents[n + 2].data, o.symbols, o.symbolNames, k);
  }

  lemma OtherSymbol(a: Artifact, o: Object, k: nat)
    requires Describes(a, o) && k < |o.symbols| && (k == 0 || k > |Items(a)|)
    ensures var s := o.symbols[k]; s.size == 0 && s.bind * 16 + s.kind == (if k == 0 then 0 else 0x10) && s.section == 0
    ensures |o.contents| > |Items(a)| + 2
    ensures Tabled(o.contents[|Items(a)| + 1].data, o.symbols, o.symbolNames)
    ensures Named(o.contents[|Items(a)| + 2].data, NamesOf(o.symbols), o.symbolNames)
  {
    hide Patched, Items, RelSection, Tabled, Named, SectionOf, Patchable, SymbolOf;
    ElfAssembly.OrderBelow(o.order, |Items(a)|);
    if k > 0 {
      assert o.symbols[1 + |o.order| + (k - 1 - |o.order|)] == Undefined(o.undefined[k - 1 - |o.order|]);
    }
  }

  lemma CodeFirst(a: Artifact, i: nat)
    requires i < |Items(a)|
    ensures Items(a)[i].code <==> i < |a.functions|
  {
    if i >= |a.functions| {
      assert Items(a)[|a.functions| + (i - |a.functions|)] == OfObject(a.data[i - |a.functions|]);
    }
  }

  // ---------------------------------------------------------------- relocations

  /** A relocation record of type 0x80 against a symbol whose name is the target. */
  predicate Record(x: seq<Byte>, at: nat, r: Relocation, y: nat, symbols: nat, strings: nat) {
    && IsWord(x, at, r.offset) && IsWord(x, at + 4, 0x100 * y + 0x80)
    && symbols + 16 * y + 4 <= |x| && Text(x, strings + Word(x, symbols + 16 * y), r.target)
  }

  /** The records of a definition's relocations are the section s. */
  predicate Records(x: seq<Byte>, at: nat, offset: nat, count: nat, symbols: nat, i: nat) {
    Header(x, at, 9, 0, offset, 8 * count, 4) && Table(x, at, symbols, i + 1, 8)
  }

  /** A definition with relocations has a section for them, with a record for each. The 24 bits that a record has for
      its symbol are enough for 2^24 symbols. */
  lemma RelocationRecords(a: Artifact, o: Object, x: seq<Byte>, names: seq<nat>, offsets: seq<nat>, table: nat, i: nat)
    returns (s: nat, ys: seq<nat>)
    requires Describes(a, o) && Laid(x, o.contents, names, offsets, table) && |o.symbols| <= 0x100_0000
    requires i < |Items(a)| && Items(a)[i].relocations != []
    ensures |Items(a)| + 2 < s < |offsets| - 1 && |ys| == |Items(a)[i].relocations|
    ensures Records(x, table + 40 * s, offsets[s], |ys|, |Items(a)| + 1, i)
    ensures forall k :: 0 <= k < |ys| ==>
      Record(x, offsets[s] + 8 * k, Items(a)[i].relocations[k], ys[k], offsets[|Items(a)| + 1], offsets[|Items(a)| + 2])
  {
    hide Header, Holds, Patched, HeaderRecord, Table, Has, Entry, Items, Symbols, Record, Tabled, Named, RelTabled;
    var n, rs := |Items(a)|, Items(a)[i].relocations;
    s, ys := RelSectionOf(a, o, i);
    SymbolTable(a, o, x, names, offsets, table);
    SectionFound(x, o.contents, names, offsets, table, s);
    assert SmallContent(o.contents[i + 1]);
    RelocationsSmall(a, o, i);
    AllRecordsFound(x, offsets[s], o.contents[s].data, rs, o, ys, n, offsets[n + 1], offsets[n + 2]);
  }

  lemma RelSectionOf(a: Artifact, o: Object, i: nat) returns (s: nat, ys: seq<nat>)
    requires Describes(a, o) && i < |Items(a)| && Items(a)[i].relocations != []
    ensures |Items(a)| + 2 < s < |o.contents| - 1 && |ys| == |Items(a)[i].relocations|
    ensures var c := o.contents[s];
      && c.kind == 9 && c.flags == 0 && c.align == 4 && c.link == |Items(a)| + 1 && c.info == i + 1 && c.entsize == 8
      && |c.data| == 8 * |ys| && RelTabled(c.data, Items(a)[i].relocations, o.symbols, ys)
  {
    hide Patched, Items, Symbols, SymbolTables, SectionOf, Patchable, LocalsFirst, Permutes;
    var items := Items(a);
    var n := |items|;
    ElfTables.RelocatedBelow(items);
    assert i in o.patched;
    var j: nat :| j < |o.patched| && o.patched[j] == i;
    s := n + 3 + j;
    assert RelSection(o, items, n, j);
    ys :| RelTabled(o.contents[s].data, items[i].relocations, o.symbols, ys);
  }

  lemma RelocationsSmall(a: Artifact, o: Object, i: nat)
    requires Describes(a, o) && i < |Items(a)| && |o.contents[i + 1].data| < WORD_LIMIT
    ensures forall k :: 0 <= k < |Items(a)[i].relocations| ==> Items(a)[i].relocations[k].offset < WORD_LIMIT
  {
    hide Patched, Items, Symbols, SymbolTables, RelSection, LocalsFirst, Permutes;
    assert Patchable(Items(a)[i].body, Items(a)[i].relocations);
  }

  lemma AllRecordsFound(x: seq<Byte>, at: nat, data: seq<Byte>, rs: seq<Relocation>, o: Object, ys: seq<nat>, n: nat, table: nat,
                        strings: nat)
    requires RelTabled(data, rs, o.symbols, ys) && Has(x, at, data) && |o.symbols| <= 0x100_0000
    requires |o.contents| > n + 2 && SymbolTables(o, n)
    requires Has(x, table, o.contents[n + 1].data) && Has(x, strings, o.contents[n + 2].data)
    requires forall k :: 0 <= k < |rs| ==> rs[k].offset < WORD_LIMIT
    ensures forall k :: 0 <= k < |ys| ==> Record(x, at + 8 * k, rs[k], ys[k], table, strings)
  {
    hide Entry, Has, Record, Tabled, Named;
    forall k | 0 <= k < |ys|
      ensures Record(x, at + 8 * k, rs[k], ys[k], table, strings)
    {
      SymbolFound(x, table, strings, o.contents[n + 1].data, o.contents[n + 2].data, o.symbols, o.symbolNames, ys[k]);
      RecordsFound(x, at, data, rs, o.symbols, ys, k, table, strings);
    }
  }

  lemma RecordsFound(x: seq<Byte>, at: nat, data: seq<Byte>, rs: seq<Relocation>, symbols: seq<ElfFormat.Symbol>, ys: seq<nat>,
                     k: nat, table: nat, strings: nat)
    requires RelTabled(data, rs, symbols, ys) && Has(x, at, data) && k < |rs| && |symbols| <= 0x100_0000 && rs[k].offset < WORD_LIMIT
    requires var y := symbols[ys[k]]; Entry(x, table + 16 * ys[k], strings, y.name, y.size, y.bind * 16 + y.kind, y.section)
    ensures Record(x, at + 8 * k, rs[k], ys[k], table, strings)
  {
    hide IsWord, U32, Text, Little;
    HasPart(x, at, data, 8 * k, RelRecord(rs[k].offset, ys[k]));
    RelFields(x, at + 8 * k, rs[k].offset, ys[k]);
    WordFound(x, at + 8 * k, rs[k].offset);
    WordFound(x, at + 8 * k + 4, 0x100 * ys[k] + 0x80);
  }
}
