/** A file that holds an artifact's object: every field reads back as it was written. */
module ElfRecover {
  import opened Options
  import opened Artifacts
  import opened Bytes
  import opened LittleEndian
  import opened BundleFormat
  import opened ElfFormat
  import opened ElfObject
  import opened ElfSteps
  import opened ElfReading
  import ElfTables

  /** An object and where it lies in a file. */
  datatype Written = Written(a: Artifact, o: Object, names: seq<nat>, offsets: seq<nat>, table: nat)

  function BodiesSize(items: seq<Item>): nat {
    if items == [] then 0 else BodiesSize(items[..|items| - 1]) + |items[|items| - 1].body|
  }

  /** The limits of the format and of the reader. */
  ghost predicate WithinLimits(bytes: seq<Byte>, w: Written) {
    && |bytes| <= MAX_OBJECT && BodiesSize(Items(w.a)) <= MAX_OBJECT
    && |Items(w.a)| < 0xfff1
  }

  /** Targets have names. */
  predicate TargetsNamed(a: Artifact) {
    forall i :: 0 <= i < |Items(a)| ==> TargetsNamedIn(Items(a)[i])
  }

  predicate TargetsNamedIn(item: Item) {
    forall k :: 0 <= k < |item.relocations| ==> item.relocations[k].target != []
  }

  ghost predicate Readable(bytes: seq<Byte>, w: Written) {
    && Typed(w.a) && Validate(w.a) && NulFree(w.a) && Describes(w.a, w.o)
    && Laid(bytes, w.o.contents, w.names, w.offsets, w.table)
  }

  // ---------------------------------------------------------------- header

  lemma FieldIs(x: seq<Byte>, at: nat, n: nat, v: nat)
    requires ReadField(x, at, n) == Some(v)
    ensures at + n <= |x| && Field(x, at, n) == v
  {
  }

  lemma HeaderReads(bytes: seq<Byte>, sections: nat, table: nat)
    requires HeaderLaid(bytes, sections, table) && sections >= 2 && table + 40 * sections <= |bytes| <= MAX_OBJECT
    ensures HeaderFine(bytes) && Field(bytes, 32, 4) == table && Field(bytes, 48, 2) == sections && Field(bytes, 50, 2) == sections - 1
  {
    hide Value, Has;
    FieldIs(bytes, 16, 2, 1);
    FieldIs(bytes, 18, 2, EM_SIA32);
    FieldIs(bytes, 20, 4, 1);
    FieldIs(bytes, 24, 4, 0);
    FieldIs(bytes, 28, 4, 0);
    FieldIs(bytes, 32, 4, table);
    FieldIs(bytes, 40, 2, 52);
    FieldIs(bytes, 42, 2, 0);
    FieldIs(bytes, 44, 2, 0);
    FieldIs(bytes, 46, 2, 40);
    FieldIs(bytes, 48, 2, sections);
    FieldIs(bytes, 50, 2, sections - 1);
  }

  // ---------------------------------------------------------------- sections

  function ReadOf(c: Content, offset: nat): ReadSection {
    ReadSection(c.name, c.kind, c.flags, offset, |c.data|, c.link, c.info, c.align, c.entsize)
  }

  lemma RawIs(bytes: seq<Byte>, at: nat, c: Content, name: nat, offset: nat)
    requires SmallContent(c) && name < WORD_LIMIT && offset < WORD_LIMIT && Has(bytes, at, HeaderRecord(c, name, offset))
    ensures at + 40 <= |bytes| && Field(bytes, at, 4) == name
    ensures RawSection(bytes, at, []) == ReadOf(c, offset).(name := [])
  {
    hide Value, HeaderRecord;
    HeaderFields(bytes, at, c, name, offset);
    FieldIs(bytes, at, 4, name);
    FieldIs(bytes, at + 4, 4, c.kind);
    FieldIs(bytes, at + 8, 4, c.flags);
    FieldIs(bytes, at + 16, 4, offset);
    FieldIs(bytes, at + 20, 4, |c.data|);
    FieldIs(bytes, at + 24, 4, c.link);
    FieldIs(bytes, at + 28, 4, c.info);
    FieldIs(bytes, at + 32, 4, c.align);
    FieldIs(bytes, at + 36, 4, c.entsize);
  }

  lemma SectionRaw(bytes: seq<Byte>, w: Written, i: nat)
    requires Laid(bytes, w.o.contents, w.names, w.offsets, w.table) && i < |w.o.contents|
    ensures var at := w.table + 40 * i;
      && at + 40 <= |bytes| && Field(bytes, at, 4) == w.names[i]
      && RawSection(bytes, at, []) == ReadOf(w.o.contents[i], w.offsets[i]).(name := [])
    ensures w.o.contents[i].kind != SHT_NOBITS ==>
      && w.offsets[i] + |w.o.contents[i].data| <= |bytes|
      && bytes[w.offsets[i]..w.offsets[i] + |w.o.contents[i].data|] == w.o.contents[i].data
  {
    hide Named, HeaderLaid, HeaderRecord, SmallContent;
    assert w.names[i] < WORD_LIMIT by { NamedBelow(w.o.contents[|w.o.contents| - 1].data, TitlesOf(w.o.contents), w.names, i); }
    RawIs(bytes, w.table + 40 * i, w.o.contents[i], w.names[i], w.offsets[i]);
  }

  lemma NamedBelow(table: seq<Byte>, names: seq<Name>, offsets: seq<nat>, i: nat)
    requires Named(table, names, offsets) && i < |names|
    ensures offsets[i] < WORD_LIMIT && Has(table, offsets[i], names[i] + [0])
  {
  }

  /** A title in the section-name table is a string that can be read. */
  predicate Plain(name: Name) {
    0 !in name && ValidUtf8(name)
  }

  lemma PlainPrefix(p: Name, s: Name)
    requires Plain(s) && forall b :: b in p ==> 0 < b < 0x80
    ensures Plain(p + s)
  {
    AsciiPrefix(p, s);
  }

  lemma PlainTitle(item: Item)
    requires Plain(item.name)
    ensures Plain(SectionName(item)) && Plain(REL + SectionName(item))
  {
    hide Plain, IsBss;
    PlainPrefix(TEXT, item.name);
    PlainPrefix(BSS, item.name);
    PlainPrefix(RODATA, item.name);
    PlainPrefix(DATA, item.name);
    PlainPrefix(REL, SectionName(item));
  }

  lemma PlainTables()
    ensures Plain([]) && Plain(SYMTAB) && Plain(STRTAB) && Plain(SHSTRTAB)
  {
    hide Plain;
    assert Plain([]) by { NothingPlain(); }
    PlainPrefix(SYMTAB, []);
    PlainPrefix(STRTAB, []);
    PlainPrefix(SHSTRTAB, []);
    assert SYMTAB + [] == SYMTAB && STRTAB + [] == STRTAB && SHSTRTAB + [] == SHSTRTAB;
  }

  lemma NothingPlain()
    ensures Plain([])
  {
  }

  lemma ItemPlain(a: Artifact, i: nat)
    requires Typed(a) && NulFree(a) && i < |Items(a)|
    ensures Plain(Items(a)[i].name) && forall k :: 0 <= k < |Items(a)[i].relocations| ==> Plain(Items(a)[i].relocations[k].target)
  {
    hide Items;
    ItemsTyped(a, i);
    assert NulFreeItem(Items(a)[i]);
  }

  /** Sections of an object, one by one. */
  lemma ContentIs(a: Artifact, o: Object, i: nat)
    requires Describes(a, o) && i < |o.contents|
    ensures var items := Items(a);
      var n, c := |items|, o.contents[i];
      && (i == 0 ==> c == NULL_SECTION)
      && (0 < i <= n ==> Patchable(items[i - 1].body, items[i - 1].relocations) && c == SectionOf(items[i - 1]))
      && (i == n + 1 ==> c.name == SYMTAB && c.kind == SHT_SYMTAB && c.flags == 0 && c.align == 4)
      && (i == n + 2 ==> c.name == STRTAB && c.kind == SHT_STRTAB && c.flags == 0 && c.align == 1)
      && (n + 3 <= i < |o.contents| - 1 ==>
            && o.patched[i - (n + 3)] < n && RelContent(c, items[o.patched[i - (n + 3)]], o.patched[i - (n + 3)], o.symbols, n + 1))
      && (i == |o.contents| - 1 ==> c.name == SHSTRTAB && c.kind == SHT_STRTAB && c.flags == 0 && c.align == 1)
  {
    hide Tabled, Named, Permutes, LocalsFirst, SectionOf, Patchable, RelContent, Items, Symbols, Relocated;
    var n := |Items(a)|;
    if n + 3 <= i < |o.contents| - 1 {
      assert RelSection(o, Items(a), n, i - (n + 3));
    }
  }

  lemma RelParts(c: Content, item: Item, i: nat, symbols: seq<Symbol>, symtab: nat)
    requires RelContent(c, item, i, symbols, symtab)
    ensures c.name == REL + SectionName(item) && c.kind == SHT_REL && c.flags == 0 && c.align == 4
    ensures c.link == symtab && c.info == i + 1 && c.entsize == 8 && |c.data| == 8 * |item.relocations|
  {
  }

  lemma TitlePlain(a: Artifact, o: Object, i: nat)
    requires Typed(a) && NulFree(a) && Describes(a, o) && i < |o.contents|
    ensures Plain(o.contents[i].name)
  {
    hide Describes, Plain, RelContent, SectionName, Patchable, Patched, NulFree, Typed, Relocated;
    var n := |Items(a)|;
    ContentIs(a, o, i);
    ObjectShape(a, o);
    PlainTables();
    if 0 < i <= n {
      ItemPlain(a, i - 1);
      PlainTitle(Items(a)[i - 1]);
    } else if n + 3 <= i < |o.contents| - 1 {
      var d := o.patched[i - (n + 3)];
      ItemPlain(a, d);
      PlainTitle(Items(a)[d]);
      RelParts(o.contents[i], Items(a)[d], d, o.symbols, n + 1);
    }
  }

  lemma ObjectShape(a: Artifact, o: Object)
    requires Describes(a, o)
    ensures var n := |Items(a)|; |o.contents| == n + 4 + |o.patched| && o.patched == Relocated(Items(a)) && Permutes(o.order, n)
    ensures o.symbols == Symbols(a, o.order, o.undefined) && AllPatchable(Items(a)) && SymbolTables(o, |Items(a)|)
    ensures forall k :: 0 <= k < |o.undefined| ==> IsUndefined(Items(a), o.undefined[k])
  {
    hide IsUndefined, Tabled, Named, Permutes, LocalsFirst, SectionOf, Patchable, RelContent, Items, Symbols, Relocated;
  }

  lemma AlignmentFine(a: Artifact, o: Object, i: nat)
    requires Validate(a) && Describes(a, o) && i < |o.contents|
    ensures o.contents[i].align <= 1 || PowerOfTwo(o.contents[i].align)
  {
    hide Describes, RelContent, SectionName, Patchable, Patched, Validate, Relocated, PowerOfTwo;
    var n := |Items(a)|;
    ContentIs(a, o, i);
    ObjectShape(a, o);
    ElfTables.PowersOfTwo();
    if 0 < i <= n {
      ElfTables.ItemAligned(a, i - 1);
    } else if n + 3 <= i < |o.contents| - 1 {
      var d := o.patched[i - (n + 3)];
      RelParts(o.contents[i], Items(a)[d], d, o.symbols, n + 1);
    }
  }

  lemma FileShape(bytes: seq<Byte>, w: Written)
    requires Laid(bytes, w.o.contents, w.names, w.offsets, w.table)
    ensures 1 < |w.o.contents| == |w.offsets| == |w.names| && w.table + 40 * |w.o.contents| <= |bytes|
    ensures HeaderLaid(bytes, |w.o.contents|, w.table)
  {
    hide Named, HeaderLaid, HeaderRecord, SmallContent, Has, TitlesOf;
  }

  lemma TitleReads(bytes: seq<Byte>, w: Written, i: nat)
    requires Laid(bytes, w.o.contents, w.names, w.offsets, w.table) && i < |w.o.contents| && Plain(w.o.contents[i].name)
    ensures i < |w.names| && CString(w.o.contents[|w.o.contents| - 1].data, w.names[i]) == Some(w.o.contents[i].name)
  {
    hide HeaderLaid, HeaderRecord, SmallContent, Has, Named, CString;
    NamedBelow(w.o.contents[|w.o.contents| - 1].data, TitlesOf(w.o.contents), w.names, i);
    StringBack(w.o.contents[|w.o.contents| - 1].data, w.names[i], w.o.contents[i].name);
  }

  /** Every section header reads back. */
  lemma SectionReads(bytes: seq<Byte>, w: Written, i: nat)
    requires Readable(bytes, w) && i < |w.o.contents|
    ensures |w.o.contents| == |w.offsets|
    ensures var last := |w.o.contents| - 1;
      var names := w.o.contents[last].data;
      var at := w.table + 40 * i;
      SectionIs(bytes, at, names, ReadOf(w.o.contents[i], w.offsets[i]))
  {
    hide Typed, Validate, NulFree, Describes, Laid, Has, Field, PowerOfTwo, RawSection, CString;
    FileShape(bytes, w);
    SectionRaw(bytes, w, i);
    AlignmentFine(w.a, w.o, i);
    TitlePlain(w.a, w.o, i);
    TitleReads(bytes, w, i);
    RawRenamed(bytes, w.table + 40 * i, w.o.contents[i].name);
  }

  lemma RawRenamed(bytes: seq<Byte>, at: nat, name: Name)
    requires at + 40 <= |bytes|
    ensures RawSection(bytes, at, name) == RawSection(bytes, at, []).(name := name)
  {
  }

  /** The sections that the reader sees. */
  function ReadsOf(w: Written): (r: seq<ReadSection>)
    requires |w.offsets| == |w.o.contents|
    ensures |r| == |w.o.contents| && forall i :: 0 <= i < |r| ==> r[i] == ReadOf(w.o.contents[i], w.offsets[i])
  {
    seq(|w.o.contents|, i requires 0 <= i < |w.o.contents| => ReadOf(w.o.contents[i], w.offsets[i]))
  }

  /** What each section allocates: definitions their size, the others nothing. */
  lemma AllocatedIs(a: Artifact, o: Object, i: nat)
    requires Describes(a, o) && i < |o.contents|
    ensures (if IsAllocated(o.contents[i].flags) then |o.contents[i].data| else 0)
         == (if 0 < i <= |Items(a)| then |Items(a)[i - 1].body| else 0)
  {
    hide Describes, RelContent, SectionName, Patchable, Patched, Relocated;
    ContentIs(a, o, i);
    ObjectShape(a, o);
    if |Items(a)| + 3 <= i < |o.contents| - 1 {
      var d := o.patched[i - (|Items(a)| + 3)];
      RelParts(o.contents[i], Items(a)[d], d, o.symbols, |Items(a)| + 1);
    }
  }

  /** The definitions whose sections are among the first k. */
  function Before(items: seq<Item>, k: nat): seq<Item> {
    if k == 0 then [] else if k <= |items| then items[..k - 1] else items
  }

  lemma {:induction false} AllocatedReads(w: Written, k: nat)
    requires Describes(w.a, w.o) && |w.offsets| == |w.o.contents| && k <= |w.o.contents|
    ensures AllocatedSize(ReadsOf(w)[..k]) == BodiesSize(Before(Items(w.a), k))
    decreases k
  {
    hide Describes, Items, ReadsOf, BodiesSize, Before, IsAllocated;
    if k > 0 {
      AllocatedReads(w, k - 1);
      AllocatedIs(w.a, w.o, k - 1);
      assert ReadsOf(w)[..k][..k - 1] == ReadsOf(w)[..k - 1];
      BeforeMore(Items(w.a), k - 1);
    } else {
      BeforeNone(Items(w.a));
    }
  }

  lemma BeforeNone(items: seq<Item>)
    ensures BodiesSize(Before(items, 0)) == 0
  {
  }

  /** Section i is the next definition's, if there is one. */
  lemma BeforeMore(items: seq<Item>, i: nat)
    ensures BodiesSize(Before(items, i + 1))
         == BodiesSize(Before(items, i)) + if 0 < i <= |items| then |items[i - 1].body| else 0
  {
    if 0 < i < |items| {
      assert items[..i][..i - 1] == items[..i - 1];
    } else if i == |items| {
      assert items[..|items|] == items;
      assert i > 0 ==> items[..i - 1] == items[..|items| - 1];
    } else if i == |items| + 1 {
      assert items[..|items|] == items;
    }
  }

  lemma AllSectionsRead(bytes: seq<Byte>, w: Written)
    requires Readable(bytes, w)
    ensures |w.o.contents| == |w.offsets| > 0
    ensures AllSectionsAre(bytes, w.table, w.o.contents[|w.o.contents| - 1].data, ReadsOf(w))
  {
    hide Typed, Validate, NulFree, Describes, Laid, SectionIs;
    FileShape(bytes, w);
    forall i | 0 <= i < |w.o.contents|
      ensures SectionIs(bytes, w.table + 40 * i, w.o.contents[|w.o.contents| - 1].data, ReadsOf(w)[i])
    {
      SectionReads(bytes, w, i);
    }
  }

  lemma SectionsRead(bytes: seq<Byte>, w: Written)
    requires Readable(bytes, w) && WithinLimits(bytes, w)
    ensures |w.o.contents| == |w.offsets| > 1 && HeaderFine(bytes) && Field(bytes, 32, 4) == w.table
    ensures Field(bytes, 48, 2) == |w.o.contents| && Field(bytes, 50, 2) == |w.o.contents| - 1
    ensures SectionsAre(bytes, w.table, |w.o.contents|, |w.o.contents| - 1, ReadsOf(w))
  {
    hide Typed, Validate, NulFree, Describes, Laid, Field, HeaderLaid, RawSection, HeaderFine, AllSectionsAre, Items, AllocatedSize;
    hide SymbolTables, IsUndefined, Symbols, Permutes, AllPatchable, Relocated, BodiesSize, RelContent, SectionOf, Patchable;
    var count := |w.o.contents|;
    ObjectShape(w.a, w.o);
    FileShape(bytes, w);
    HeaderReads(bytes, count, w.table);
    ContentIs(w.a, w.o, 0);
    ContentIs(w.a, w.o, count - 1);
    SectionRaw(bytes, w, 0);
    SectionRaw(bytes, w, count - 1);
    AllSectionsRead(bytes, w);
    AllocatedReads(w, count);
    assert ReadsOf(w)[..count] == ReadsOf(w);
  }

  // ---------------------------------------------------------------- symbols

  function ReadSymbolOf(s: Symbol): ReadSymbol {
    ReadSymbol(s.name, 0, s.size, s.bind, s.kind, s.section)
  }

  lemma SymbolPlain(a: Artifact, o: Object, k: nat)
    requires Typed(a) && NulFree(a) && Describes(a, o) && k < |o.symbols|
    ensures Plain(o.symbols[k].name)
  {
    hide Describes, Plain, NulFree, Typed;
    var items, n := Items(a), |o.order|;
    ObjectShape(a, o);
    if k == 0 {
      NothingPlain();
    } else if k <= n {
      assert o.symbols[1 + (k - 1)] == SymbolOf(a, o.order[k - 1]);
      ItemPlain(a, o.order[k - 1]);
    } else {
      var u := k - 1 - n;
      assert o.symbols[1 + n + u] == Undefined(o.undefined[u]);
      assert IsUndefined(items, o.undefined[u]);
      var i, j :| 0 <= i < |items| && 0 <= j < |items[i].relocations| && items[i].relocations[j].target == o.undefined[u];
      ItemPlain(a, i);
    }
  }

  lemma TabledAt(table: seq<Byte>, symbols: seq<Symbol>, names: seq<nat>, k: nat)
    requires Tabled(table, symbols, names) && k < |symbols|
    ensures SmallSymbol(symbols[k]) && Has(table, 16 * k, SymbolRecord(symbols[k], names[k])) && |table| == 16 * |symbols|
  {
  }

  lemma TablesShape(a: Artifact, o: Object)
    requires Describes(a, o)
    ensures var n := |Items(a)|;
      && |o.contents| > n + 3 && o.contents[n + 1].kind == SHT_SYMTAB && o.contents[n + 1].link == n + 2
      && o.contents[n + 1].entsize == 16 && o.contents[n + 2].kind == SHT_STRTAB
      && Tabled(o.contents[n + 1].data, o.symbols, o.symbolNames)
      && Named(o.contents[n + 2].data, NamesOf(o.symbols), o.symbolNames)
      && |o.contents[n + 1].data| == 16 * |o.symbols| && |o.symbolNames| == |o.symbols| > 0
  {
    hide Describes, Named, SymbolRecord, Has, Items, Symbols;
    ObjectShape(a, o);
    assert |Symbols(a, o.order, o.undefined)| > 0;
  }

  lemma SymbolNameReads(a: Artifact, o: Object, k: nat)
    requires Describes(a, o) && Typed(a) && NulFree(a) && k < |o.symbols|
    ensures |o.symbolNames| == |o.symbols| && |o.contents| > |Items(a)| + 2 && o.symbolNames[k] < WORD_LIMIT
    ensures CString(o.contents[|Items(a)| + 2].data, o.symbolNames[k]) == Some(o.symbols[k].name)
  {
    hide Describes, Named, Tabled, Has, Items, Typed, NulFree, CString;
    TablesShape(a, o);
    SymbolPlain(a, o, k);
    NamedBelow(o.contents[|Items(a)| + 2].data, NamesOf(o.symbols), o.symbolNames, k);
    StringBack(o.contents[|Items(a)| + 2].data, o.symbolNames[k], o.symbols[k].name);
  }

  /** Every symbol reads back. */
  lemma SymbolReads(bytes: seq<Byte>, w: Written, k: nat)
    requires Readable(bytes, w) && k < |w.o.symbols|
    ensures |w.o.contents| == |w.offsets| > |Items(w.a)| + 2
    ensures var n := |Items(w.a)|;
      var at := w.offsets[n + 1] + 16 * k;
      var strings := w.o.contents[n + 2].data;
      SymbolIs(bytes, at, strings, ReadSymbolOf(w.o.symbols[k]))
  {
    hide Typed, Validate, NulFree, Describes, Laid, Has, Field, SymbolRecord, Named, Tabled, CString, Items;
    var n := |Items(w.a)|;
    FileShape(bytes, w);
    TablesShape(w.a, w.o);
    SectionRaw(bytes, w, n + 1);
    SymbolNameReads(w.a, w.o, k);
    TabledAt(w.o.contents[n + 1].data, w.o.symbols, w.o.symbolNames, k);
    SliceHas(bytes, w.offsets[n + 1], w.o.contents[n + 1].data);
    HasPart(bytes, w.offsets[n + 1], w.o.contents[n + 1].data, 16 * k, SymbolRecord(w.o.symbols[k], w.o.symbolNames[k]));
    RecordReads(bytes, w.offsets[n + 1] + 16 * k, w.o.symbols[k], w.o.symbolNames[k], w.o.contents[n + 2].data);
  }

  lemma SliceHas(x: seq<Byte>, at: nat, s: seq<Byte>)
    requires at + |s| <= |x| && x[at..at + |s|] == s
    ensures Has(x, at, s)
  {
  }

  lemma RecordReads(bytes: seq<Byte>, at: nat, s: Symbol, name: nat, strings: seq<Byte>)
    requires SmallSymbol(s) && name < WORD_LIMIT && Has(bytes, at, SymbolRecord(s, name)) && CString(strings, name) == Some(s.name)
    ensures SymbolIs(bytes, at, strings, ReadSymbolOf(s))
  {
    hide CString, Value, SymbolRecord;
    SymbolFields(bytes, at, s, name);
    FieldIs(bytes, at, 4, name);
    FieldIs(bytes, at + 4, 4, 0);
    FieldIs(bytes, at + 8, 4, s.size);
    FieldIs(bytes, at + 14, 2, s.section);
  }

  function ReadSymbolsOf(symbols: seq<Symbol>): (r: seq<ReadSymbol>)
    ensures |r| == |symbols| && forall k :: 0 <= k < |r| ==> r[k] == ReadSymbolOf(symbols[k])
  {
    seq(|symbols|, k requires 0 <= k < |symbols| => ReadSymbolOf(symbols[k]))
  }

  lemma AllSymbolsRead(bytes: seq<Byte>, w: Written)
    requires Readable(bytes, w)
    ensures |w.o.contents| == |w.offsets| > |Items(w.a)| + 2
    ensures AllSymbolsAre(bytes, w.offsets[|Items(w.a)| + 1], w.o.contents[|Items(w.a)| + 2].data, ReadSymbolsOf(w.o.symbols))
  {
    hide Typed, Validate, NulFree, Describes, Laid, SymbolIs, Items;
    FileShape(bytes, w);
    TablesShape(w.a, w.o);
    forall k | 0 <= k < |w.o.symbols|
      ensures SymbolIs(bytes, w.offsets[|Items(w.a)| + 1] + 16 * k, w.o.contents[|Items(w.a)| + 2].data, ReadSymbolsOf(w.o.symbols)[k])
    {
      SymbolReads(bytes, w, k);
    }
  }

  lemma SymbolsRead(bytes: seq<Byte>, w: Written)
    requires Readable(bytes, w)
    ensures |w.o.contents| == |w.offsets| > |Items(w.a)| + 2
    ensures var n := |Items(w.a)|;
      FirstOf(ReadsOf(w), SHT_SYMTAB, 0) == n + 1 && SymbolsAre(bytes, ReadsOf(w), n + 1, ReadSymbolsOf(w.o.symbols))
  {
    hide Typed, Validate, NulFree, Describes, Laid, Named, Tabled, AllSymbolsAre, Items, SymbolsAre, RawSection;
    var n := |Items(w.a)|;
    FileShape(bytes, w);
    TablesShape(w.a, w.o);
    forall i | 0 <= i < n + 1
      ensures ReadsOf(w)[i].kind != SHT_SYMTAB
    {
      DefinitionKind(w.a, w.o, i);
    }
    SectionRaw(bytes, w, n + 1);
    SectionRaw(bytes, w, n + 2);
    FirstIs(ReadsOf(w), SHT_SYMTAB, 0, n + 1);
    NullFirst(w.a, w.o);
    AllSymbolsRead(bytes, w);
    SymbolsFrom(bytes, ReadsOf(w), n + 1, n + 2, w.o.contents[n + 2].data, ReadSymbolsOf(w.o.symbols));
  }

  lemma NullFirst(a: Artifact, o: Object)
    requires Describes(a, o)
    ensures |o.symbols| > 0 && o.symbols[0] == NULL_SYMBOL
  {
    hide Describes;
    ObjectShape(a, o);
  }

  lemma DefinitionKind(a: Artifact, o: Object, i: nat)
    requires Describes(a, o) && i <= |Items(a)| < |o.contents|
    ensures o.contents[i].kind != SHT_SYMTAB && o.contents[i].kind != SHT_REL
  {
    hide Describes, Patched, Patchable, SectionName, RelContent;
    ContentIs(a, o, i);
  }

  /** A file within the reader's limit has far fewer symbols than relocation records can number. */
  lemma SymbolsBounded(bytes: seq<Byte>, w: Written)
    requires Readable(bytes, w) && |bytes| <= MAX_OBJECT
    ensures |w.o.symbols| <= 0x100_0000
  {
    hide Typed, Validate, NulFree, Describes, Laid, Named, Tabled, Items;
    FileShape(bytes, w);
    TablesShape(w.a, w.o);
    SectionRaw(bytes, w, |Items(w.a)| + 1);
  }
}
