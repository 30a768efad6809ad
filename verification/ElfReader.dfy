/** elf::read: a relocatable object back into an artifact. */
module ElfReader {
  import opened Options
  import opened Artifacts
  import opened Bytes
  import opened LittleEndian
  import opened BundleFormat
  import opened ElfFormat
  import opened ElfObject
  import opened ElfSteps
  import opened ElfReading
  import opened ElfRecover
  import opened ElfRebuild
  import opened ElfArtifact

  method ReadHeader(bytes: seq<Byte>) returns (ok: bool, table: nat, count: nat, titles: nat)
    ensures ok <==> HeaderFine(bytes)
    ensures ok ==> table == Field(bytes, 32, 4) && count == Field(bytes, 48, 2) && titles == Field(bytes, 50, 2)
  {
    hide Value;
    table, count, titles := 0, 0, 0;
    if |bytes| > MAX_OBJECT || |bytes| < 52 {
      return false, table, count, titles;
    }
    if !Has(bytes, 0, IDENTITY) || Field(bytes, 16, 2) != 1 || Field(bytes, 18, 2) != EM_SIA32 || Field(bytes, 20, 4) != 1
      || Field(bytes, 40, 2) != 52 || Field(bytes, 46, 2) != 40
    {
      return false, table, count, titles;
    }
    if Field(bytes, 24, 4) != 0 || Field(bytes, 28, 4) != 0 || Field(bytes, 44, 2) != 0 || Field(bytes, 42, 2) != 0 {
      return false, table, count, titles;
    }
    table, count, titles := Field(bytes, 32, 4), Field(bytes, 48, 2), Field(bytes, 50, 2);
    ok := count >= 2 && titles < count && table + count * 40 <= |bytes|;
  }

  method ReadSections(bytes: seq<Byte>, table: nat, count: nat, titles: nat) returns (ok: bool, sections: seq<ReadSection>)
    requires table + 40 * count <= |bytes| && titles < count
    ensures ok ==> SectionsAre(bytes, table, count, titles, sections)
    ensures !ok ==> forall s: seq<ReadSection> :: !SectionsAre(bytes, table, count, titles, s)
  {
    hide Value, Field, SectionIs, PowerOfTwo, AllocatedSize;
    sections := [];
    var first, named := RawSection(bytes, table, []), RawSection(bytes, table + 40 * titles, []);
    SameHeaders(bytes, table, count, titles);
    if first.kind != SHT_NULL || named.kind != SHT_STRTAB || named.offset + named.size > |bytes| {
      return false, sections;
    }
    var names := Cut(bytes, named.offset, named.size);
    var total := 0;
    AllocatedNothing();
    for i := 0 to count
      invariant |sections| == i && AllSectionsAre(bytes, table, names, sections)
      invariant total == AllocatedSize(sections) <= MAX_OBJECT
    {
      ReadSoFar(bytes, table, count, titles, names, sections);
      var section;
      ok, section := ReadSection1(bytes, table + 40 * i, names);
      if !ok {
        return;
      }
      AllocatedMore(sections, section);
      sections := sections + [section];
      if IsAllocated(section.flags) {
        total := total + section.size;
        if total > MAX_OBJECT {
          ReadSoFar(bytes, table, count, titles, names, sections);
          return false, sections;
        }
      }
    }
    ok := true;
    assert SectionIs(bytes, table + 40 * 0, names, sections[0]) && SectionIs(bytes, table + 40 * titles, names, sections[titles]);
    IsRaw(bytes, table + 40 * 0, names, sections[0]);
    IsRaw(bytes, table + 40 * titles, names, sections[titles]);
  }

  lemma IsRaw(bytes: seq<Byte>, at: nat, names: seq<Byte>, r: ReadSection)
    requires SectionIs(bytes, at, names, r)
    ensures RawSection(bytes, at, []) == r.(name := [])
  {
    hide Field, CString, PowerOfTwo;
  }

  /** What the section table says of its first section and of the names does not depend on the names. */
  lemma SameHeaders(bytes: seq<Byte>, table: nat, count: nat, titles: nat)
    requires table + 40 * count <= |bytes| && titles < count
    ensures forall s: seq<ReadSection> :: SectionsAre(bytes, table, count, titles, s) ==>
      && RawSection(bytes, table, []) == s[0].(name := []) && RawSection(bytes, table + 40 * titles, []) == s[titles].(name := [])
  {
    hide RawSection, SectionIs, AllocatedSize;
    forall s: seq<ReadSection> | SectionsAre(bytes, table, count, titles, s)
      ensures RawSection(bytes, table, []) == s[0].(name := []) && RawSection(bytes, table + 40 * titles, []) == s[titles].(name := [])
    {
      var names := Cut(bytes, s[titles].offset, s[titles].size);
      assert SectionIs(bytes, table + 40 * 0, names, s[0]) && SectionIs(bytes, table + 40 * titles, names, s[titles]);
      IsRaw(bytes, table + 40 * 0, names, s[0]);
      IsRaw(bytes, table + 40 * titles, names, s[titles]);
    }
  }

  method ReadSection1(bytes: seq<Byte>, at: nat, names: seq<Byte>) returns (ok: bool, section: ReadSection)
    requires at + 40 <= |bytes|
    ensures ok ==> SectionIs(bytes, at, names, section)
    ensures !ok ==> forall r: ReadSection :: !SectionIs(bytes, at, names, r)
  {
    section := RawSection(bytes, at, []);
    if section.kind != SHT_NOBITS && section.offset + section.size > |bytes| {
      return false, section;
    }
    if section.align > 1 && !PowerOfTwo(section.align) {
      return false, section;
    }
    var name := CString(names, Field(bytes, at, 4));
    if name.None? {
      return false, section;
    }
    ok, section := true, section.(name := name.value);
  }

  lemma AllocatedMore(sections: seq<ReadSection>, s: ReadSection)
    ensures AllocatedSize(sections + [s]) == AllocatedSize(sections) + if IsAllocated(s.flags) then s.size else 0
  {
    assert (sections + [s])[..|sections|] == sections;
  }

  lemma {:induction false} AllocatedGrows(sections: seq<ReadSection>, k: nat)
    requires k <= |sections|
    ensures AllocatedSize(sections[..k]) <= AllocatedSize(sections)
    decreases |sections| - k
  {
    if k == |sections| {
      assert sections[..k] == sections;
    } else {
      assert sections[..k + 1] == sections[..k] + [sections[k]];
      AllocatedMore(sections[..k], sections[k]);
      AllocatedGrows(sections, k + 1);
    }
  }

  lemma AllocatedNothing()
    ensures AllocatedSize([]) == 0
  {
  }

  /** Whatever the section headers read as starts with what they were read as so far. */
  lemma ReadSoFar(bytes: seq<Byte>, table: nat, count: nat, titles: nat, names: seq<Byte>, sections: seq<ReadSection>)
    requires |sections| <= count && titles < count && AllSectionsAre(bytes, table, names, sections)
    requires table + 40 * count <= |bytes| && var raw := RawSection(bytes, table + 40 * titles, []); names == Cut(bytes, raw.offset, raw.size)
    ensures forall s: seq<ReadSection> :: SectionsAre(bytes, table, count, titles, s) ==>
      && AllocatedSize(sections) <= AllocatedSize(s)
      && (|sections| < count ==> SectionIs(bytes, table + 40 * |sections|, names, s[|sections|]))
  {
    hide SectionIs, RawSection, AllocatedSize;
    SameHeaders(bytes, table, count, titles);
    forall s: seq<ReadSection> | SectionsAre(bytes, table, count, titles, s)
      ensures AllocatedSize(sections) <= AllocatedSize(s)
    {
      forall i | 0 <= i < |sections|
        ensures s[i] == sections[i]
      {
        assert SectionIs(bytes, table + 40 * i, names, s[i]) && SectionIs(bytes, table + 40 * i, names, sections[i]);
        OneReading(bytes, table + 40 * i, names, s[i], sections[i]);
      }
      AllocatedGrows(s, |sections|);
      assert s[..|sections|] == sections;
    }
  }

  lemma OneReading(bytes: seq<Byte>, at: nat, names: seq<Byte>, r: ReadSection, s: ReadSection)
    requires SectionIs(bytes, at, names, r) && SectionIs(bytes, at, names, s)
    ensures r == s
  {
  }

  method ReadSymbols(bytes: seq<Byte>, sections: seq<ReadSection>) returns (ok: bool, symtab: nat, symbols: seq<ReadSymbol>)
    requires forall i :: 0 <= i < |sections| && sections[i].kind != SHT_NOBITS ==> sections[i].offset + sections[i].size <= |bytes|
    ensures symtab == FirstOf(sections, SHT_SYMTAB, 0)
    ensures ok ==> SymbolsAre(bytes, sections, symtab, symbols)
    ensures !ok ==> forall s: seq<ReadSymbol> :: !SymbolsAre(bytes, sections, symtab, s)
  {
    hide Value, Field, SymbolIs;
    symbols := [];
    symtab := 0;
    while symtab < |sections| && sections[symtab].kind != SHT_SYMTAB
      invariant symtab <= |sections| && FirstOf(sections, SHT_SYMTAB, 0) == FirstOf(sections, SHT_SYMTAB, symtab)
    {
      symtab := symtab + 1;
    }
    if symtab >= |sections| {
      return false, symtab, symbols;
    }
    var t := sections[symtab];
    if t.entsize != 16 || t.size % 16 != 0 || t.link >= |sections| || sections[t.link].kind != SHT_STRTAB {
      return false, symtab, symbols;
    }
    var strings := StringsOf(bytes, sections, symtab);
    for k := 0 to t.size / 16
      invariant |symbols| == k && AllSymbolsAre(bytes, t.offset, strings, symbols)
    {
      SymbolsSoFar(bytes, sections, symtab, symbols);
      var symbol;
      ok, symbol := ReadSymbol1(bytes, t.offset + 16 * k, strings);
      if !ok {
        return;
      }
      symbols := symbols + [symbol];
    }
    ok := symbols != [] && symbols[0].name == [] && symbols[0].section == 0;
    SymbolsSoFar(bytes, sections, symtab, symbols);
  }

  lemma SymbolsSoFar(bytes: seq<Byte>, sections: seq<ReadSection>, symtab: nat, symbols: seq<ReadSymbol>)
    requires SymbolTablesFine(bytes, sections, symtab) && |symbols| <= sections[symtab].size / 16
    requires AllSymbolsAre(bytes, sections[symtab].offset, StringsOf(bytes, sections, symtab), symbols)
    ensures forall s: seq<ReadSymbol> :: SymbolsAre(bytes, sections, symtab, s) ==>
      && (symbols != [] ==> s[0] == symbols[0])
      && (|symbols| < |s| ==>
            SymbolIs(bytes, sections[symtab].offset + 16 * |symbols|, StringsOf(bytes, sections, symtab), s[|symbols|]))
  {
    hide SymbolFine, SymbolAt;
    var offset, strings := sections[symtab].offset, StringsOf(bytes, sections, symtab);
    assert symbols != [] ==> SymbolIs(bytes, offset + 16 * 0, strings, symbols[0]);
    assert forall s: seq<ReadSymbol> :: SymbolsAre(bytes, sections, symtab, s) ==> SymbolIs(bytes, offset + 16 * 0, strings, s[0]);
  }

  method ReadSymbol1(bytes: seq<Byte>, at: nat, strings: seq<Byte>) returns (ok: bool, symbol: ReadSymbol)
    ensures ok ==> SymbolIs(bytes, at, strings, symbol)
    ensures !ok ==> forall r: ReadSymbol :: !SymbolIs(bytes, at, strings, r)
  {
    symbol := ReadSymbol([], 0, 0, 0, 0, 0);
    if at + 16 > |bytes| {
      return false, symbol;
    }
    var name := CString(strings, Field(bytes, at, 4));
    if name.None? {
      return false, symbol;
    }
    symbol := ReadSymbol(name.value, Field(bytes, at + 4, 4), Field(bytes, at + 8, 4), bytes[at + 12] / 16, bytes[at + 12] % 16,
                         Field(bytes, at + 14, 2));
    ok := true;
  }

  // ---------------------------------------------------------------- definitions

  /** The definition of one symbol. */
  method ReadDefinition(bytes: seq<Byte>, sections: seq<ReadSection>, symbols: seq<ReadSymbol>, s: nat, owners0: map<nat, nat>,
                        locals0: set<Name>, functions0: seq<Function>, data0: seq<Data>, ghost w: Written)
    returns (ok: bool, owners: map<nat, nat>, locals: set<Name>, functions: seq<Function>, data: seq<Data>)
    requires 0 < s < |symbols| && symbols[s].section != 0
    requires forall i :: 0 <= i < |sections| && sections[i].kind != SHT_NOBITS ==> sections[i].offset + sections[i].size <= |bytes|
    ensures ok <==> DefinitionFine(sections, symbols[s]) && symbols[s].section !in owners0
    ensures ok ==> owners == owners0[symbols[s].section := s]
    ensures Given(bytes, w, sections, symbols) && s - 1 < |w.o.order| && Rebuilt(w.a, w.o.order, s - 1, owners0, locals0, functions0, data0) ==>
      ok && Rebuilt(w.a, w.o.order, s, owners, locals, functions, data)
  {
    hide Given, Rebuilt, IsAllocated, IsCode, IsWritable, Contents;
    owners, locals, functions, data := owners0, locals0, functions0, data0;
    ghost var given := Given(bytes, w, sections, symbols) && s - 1 < |w.o.order|
      && Rebuilt(w.a, w.o.order, s - 1, owners0, locals0, functions0, data0);
    if given {
      DefinitionStep(bytes, w, sections, symbols, s, owners, locals, functions, data);
    }
    var symbol := symbols[s];
    if symbol.section == 0xfff1 || symbol.section >= |sections| {
      return false, owners, locals, functions, data;
    }
    var section := sections[symbol.section];
    if !IsAllocated(section.flags) || symbol.value != 0 || symbol.size != section.size || symbol.section in owners {
      return false, owners, locals, functions, data;
    }
    owners := owners[symbol.section := s];
    if symbol.bind == STB_LOCAL {
      locals := locals + {symbol.name};
    } else if symbol.bind != STB_GLOBAL {
      return false, owners, locals, functions, data;
    }
    if section.kind != SHT_NOBITS && section.kind != SHT_PROGBITS {
      return false, owners, locals, functions, data;
    }
    var contents := Contents(bytes, section);
    if symbol.kind == STT_FUNC && IsCode(section.flags) {
      functions := functions + [Function(symbol.name, contents, [])];
    } else if symbol.kind == STT_OBJECT && !IsCode(section.flags) {
      data := data + [Data(symbol.name, contents, if section.align == 0 then 1 else section.align, !IsWritable(section.flags), [])];
    } else {
      return false, owners, locals, functions, data;
    }
    ok := true;
  }

  /** One definition for every symbol with a section. */
  method ReadDefinitions(bytes: seq<Byte>, sections: seq<ReadSection>, symbols: seq<ReadSymbol>, ghost w: Written)
    returns (ok: bool, owners: map<nat, nat>, locals: set<Name>, functions: seq<Function>, data: seq<Data>)
    requires |symbols| > 0
    requires forall i :: 0 <= i < |sections| && sections[i].kind != SHT_NOBITS ==> sections[i].offset + sections[i].size <= |bytes|
    ensures ok ==> forall s :: 0 < s < |symbols| ==> DefinitionFine(sections, symbols[s])
    ensures ok ==> forall x :: x in owners ==> owners[x] < |symbols|
    ensures Given(bytes, w, sections, symbols) ==>
      ok && Permutes(w.o.order, |Items(w.a)|) && Rebuilt(w.a, w.o.order, |w.o.order|, owners, locals, functions, data)
  {
    hide Given, Rebuilt, Permutes, Items, BodyIs, AllPatchable, IsAllocated, IsCode, IsWritable;
    ghost var given := Given(bytes, w, sections, symbols);
    owners, locals, functions, data := map[], {}, [], [];
    if given {
      GivenShape(bytes, w, sections, symbols);
      NothingRebuilt(w.a, w.o.order);
    }
    for s := 1 to |symbols|
      invariant forall j :: 0 < j < s ==> DefinitionFine(sections, symbols[j])
      invariant forall x :: x in owners ==> owners[x] < s
      invariant given ==> Rebuilt(w.a, w.o.order, if s - 1 <= |w.o.order| then s - 1 else |w.o.order|, owners, locals, functions, data)
    {
      var symbol := symbols[s];
      if given {
        DefinedSection(bytes, w, sections, symbols, s);
      }
      if symbol.section == 0 {
        if symbol.bind != STB_GLOBAL || symbol.name == [] {
          return false, owners, locals, functions, data;
        }
      } else {
        ok, owners, locals, functions, data := ReadDefinition(bytes, sections, symbols, s, owners, locals, functions, data, w);
        if !ok {
          return;
        }
      }
    }
    ok := true;
  }

  // ---------------------------------------------------------------- relocations

  /** iter_mut().find(), and one relocation more for what it finds. */
  method AddToFunction(functions: seq<Function>, name: Name, r: Relocation) returns (s: seq<Function>)
    ensures s == PushedFunction(functions, name, r)
  {
    var i := 0;
    while i < |functions| && functions[i].name != name
      invariant i <= |functions| && forall q :: 0 <= q < i ==> functions[q].name != name
    {
      i := i + 1;
    }
    s := functions;
    if i < |functions| {
      PushedFunctionAt(functions, i, name, r);
      s := s[i := s[i].(relocations := s[i].relocations + [r])];
    } else {
      PushedNowhere(functions, [], name, r);
    }
  }

  method AddToData(data: seq<Data>, name: Name, r: Relocation) returns (s: seq<Data>)
    ensures s == PushedData(data, name, r)
  {
    var i := 0;
    while i < |data| && data[i].name != name
      invariant i <= |data| && forall q :: 0 <= q < i ==> data[q].name != name
    {
      i := i + 1;
    }
    s := data;
    if i < |data| {
      PushedDataAt(data, i, name, r);
      s := s[i := s[i].(relocations := s[i].relocations + [r])];
    } else {
      PushedNowhere([], data, name, r);
    }
  }

  /** One record: the site, the name of its symbol and the addend in place. */
  method ReadRecord(bytes: seq<Byte>, at: nat, target: ReadSection, symbols: seq<ReadSymbol>) returns (ok: bool, r: Relocation)
    requires at + 8 <= |bytes| && (target.kind != SHT_NOBITS ==> target.offset + target.size <= |bytes|)
    ensures ok ==> RecordIs(bytes, at, symbols, r.offset, r.target) && r.target != [] && r.offset + 4 <= target.size
    ensures ok ==> if target.kind == SHT_NOBITS then r.addend == 0 else AddendIs(bytes, target, r.offset, r.addend)
    ensures forall x: Relocation :: RecordIs(bytes, at, symbols, x.offset, x.target) && x.target != [] && AddendIs(bytes, target, x.offset, x.addend) ==>
      ok && r == x
  {
    hide Value;
    var offset, info := Field(bytes, at, 4), Field(bytes, at + 4, 4);
    r := Relocation(offset, [], 0);
    if info % 256 != R_SIA32_ABS32 || info / 256 >= |symbols| {
      return false, r;
    }
    var name := symbols[info / 256].name;
    if name == [] || offset + 4 > target.size {
      return false, r;
    }
    if target.kind == SHT_PROGBITS {
      r := Relocation(offset, name, Signed32(Field(bytes, target.offset + offset, 4)));
    } else if target.kind == SHT_NOBITS {
      r := Relocation(offset, name, 0);
    } else {
      return false, r;
    }
    ok := true;
  }

  /** The records of one section, for its owner. */
  method ReadRecords(bytes: seq<Byte>, section: ReadSection, target: ReadSection, symbols: seq<ReadSymbol>, owner: ReadSymbol,
                     functions0: seq<Function>, data0: seq<Data>, ghost w: Written, ghost sections: seq<ReadSection>, ghost j: nat)
    returns (ok: bool, functions: seq<Function>, data: seq<Data>)
    requires section.size % 8 == 0 && section.offset + section.size <= |bytes|
    requires target.kind != SHT_NOBITS ==> target.offset + target.size <= |bytes|
    ensures RecordsOf(bytes, w, sections, symbols, j, section, target, owner, functions0, data0) ==>
      ok && RecordsRead(w, j, section.size / 8, functions, data)
  {
    hide RecordsOf, RecordsRead, RecordIs, AddendIs, PushedFunction, PushedData;
    functions, data := functions0, data0;
    ghost var given := RecordsOf(bytes, w, sections, symbols, j, section, target, owner, functions0, data0);
    if given {
      NoRecordRead(bytes, w, sections, symbols, j, section, target, owner, functions, data);
    }
    for k := 0 to section.size / 8
      invariant given ==> RecordsRead(w, j, k, functions, data)
    {
      if given {
        var _ := NextRecord(bytes, w, sections, symbols, j, section, target, owner, functions0, data0, k, functions, data);
      }
      var r;
      ok, r := ReadRecord(bytes, section.offset + 8 * k, target, symbols);
      if !ok {
        return;
      }
      if owner.kind == STT_FUNC {
        functions := AddToFunction(functions, owner.name, r);
      } else if owner.kind == STT_OBJECT {
        data := AddToData(data, owner.name, r);
      } else {
        return false, functions, data;
      }
    }
    ok := true;
  }

  /** All relocation sections, in order. */
  method ReadRelocations(bytes: seq<Byte>, sections: seq<ReadSection>, symtab: nat, symbols: seq<ReadSymbol>, owners: map<nat, nat>,
                         functions0: seq<Function>, data0: seq<Data>, ghost w: Written, ghost locals: set<Name>)
    returns (ok: bool, functions: seq<Function>, data: seq<Data>)
    requires forall i :: 0 <= i < |sections| && sections[i].kind != SHT_NOBITS ==> sections[i].offset + sections[i].size <= |bytes|
    requires forall x :: x in owners ==> owners[x] < |symbols|
    ensures ok ==> forall i :: 0 <= i < |sections| && sections[i].kind == SHT_REL ==>
      RelFine(sections, symtab, sections[i]) && sections[i].info in owners
    ensures Defined(bytes, w, sections, symbols, symtab, owners, locals, functions0, data0) ==>
      ok && Permutes(w.o.order, |Items(w.a)|) && AtLimit(Items(w.a), w.o.order, |Items(w.a)|, 0, functions, data)
  {
    hide Given, AtLimit, Items, Permutes, DistinctItems, Rebuilt, Describes, Progress, AllPatchable, Validate;
    functions, data := functions0, data0;
    ghost var given := Defined(bytes, w, sections, symbols, symtab, owners, locals, functions0, data0);
    if given {
      GivenShape(bytes, w, sections, symbols);
      ProgressStarts(w, owners, locals, functions, data);
    }
    for i := 0 to |sections|
      invariant forall j :: 0 <= j < i && sections[j].kind == SHT_REL ==> RelFine(sections, symtab, sections[j]) && sections[j].info in owners
      invariant given ==> Progress(w, i, functions, data)
    {
      var section := sections[i];
      if section.kind != SHT_REL {
        if given {
          OtherSection(bytes, w, sections, symbols, i, functions, data);
        }
      } else {
        ghost var j := i - (|Items(w.a)| + 3);
        if given {
          RelationStep(bytes, w, sections, symbols, i, owners, locals, functions0, data0, functions, data);
        }
        if section.entsize != 8 || section.size % 8 != 0 || section.link != symtab || section.info >= |sections| {
          return false, functions, data;
        }
        if section.info !in owners {
          return false, functions, data;
        }
        var owner := symbols[owners[section.info]];
        ok, functions, data := ReadRecords(bytes, section, sections[section.info], symbols, owner, functions, data, w, sections, if given then j else 0);
        if !ok {
          return;
        }
        if given {
          ProgressAfter(w, j, functions, data);
        }
      }
    }
    if given {
      ProgressEnd(w, functions, data);
    }
    ok := true;
  }

  // ---------------------------------------------------------------- the whole file

  /** elf::read. What it returns is always valid. Given a file that holds the object of an artifact whose targets
      have names, within the reader's limits, it returns that artifact, with the addends that its sites hold. */
  method Read(bytes: seq<Byte>, ghost w: Written) returns (ok: bool, r: Artifact)
    ensures ok ==> Validate(r) && HeaderFine(bytes)
    ensures Readable(bytes, w) && WithinLimits(bytes, w) && TargetsNamed(w.a) ==>
      ok && AllPatchable(Items(w.a)) && SameObject(w.a, r)
  {
    hide Readable, WithinLimits, TargetsNamed, HeaderFine, SectionsAre, SymbolsAre, Given, Rebuilt, AtLimit, Permutes, Items, Validate;
    hide SameObject, AllPatchable, Describes, Field, FirstOf, DefinitionFine, RelFine, DistinctItems, Complete;
    ghost var given := Readable(bytes, w) && WithinLimits(bytes, w) && TargetsNamed(w.a);
    r := Artifact(Some({}), [], []);
    var table, count, titles;
    ok, table, count, titles := ReadHeader(bytes);
    if given {
      SectionsRead(bytes, w);
      SymbolsRead(bytes, w);
      GivenFrom(bytes, w);
    }
    if !ok {
      return;
    }
    HeaderRoom(bytes);
    var sections;
    ok, sections := ReadSections(bytes, table, count, titles);
    if !ok {
      return;
    }
    if given {
      OneSections(bytes, table, count, titles, sections, ReadsOf(w));
    }
    SectionsInside(bytes, table, count, titles, sections);
    var symtab, symbols;
    ok, symtab, symbols := ReadSymbols(bytes, sections);
    if !ok {
      return;
    }
    if given {
      OneSymbols(bytes, sections, symtab, symbols, ReadSymbolsOf(w.o.symbols));
    }
    SomeSymbols(bytes, sections, symtab, symbols);
    var owners, locals, functions, data;
    ok, owners, locals, functions, data := ReadDefinitions(bytes, sections, symbols, w);
    if !ok {
      return;
    }
    ghost var defined := (functions, data);
    ok, functions, data := ReadRelocations(bytes, sections, symtab, symbols, owners, functions, data, w, locals);
    if !ok {
      return;
    }
    r := Artifact(Some(locals), functions, data);
    if given {
      ReadBack(bytes, w, sections, symbols, owners, locals, defined.0, defined.1, r);
    }
    ok := Validate(r);
  }

  lemma HeaderRoom(bytes: seq<Byte>)
    requires HeaderFine(bytes)
    ensures Field(bytes, 32, 4) + 40 * Field(bytes, 48, 2) <= |bytes| && Field(bytes, 50, 2) < Field(bytes, 48, 2)
  {
  }

  lemma GivenFrom(bytes: seq<Byte>, w: Written)
    requires Readable(bytes, w) && WithinLimits(bytes, w) && TargetsNamed(w.a)
    ensures |w.offsets| == |w.o.contents| && Given(bytes, w, ReadsOf(w), ReadSymbolsOf(w.o.symbols))
  {
    hide Typed, Validate, NulFree, Describes, Laid;
    FileShape(bytes, w);
  }

  lemma OneSections(bytes: seq<Byte>, table: nat, count: nat, titles: nat, s: seq<ReadSection>, t: seq<ReadSection>)
    requires SectionsAre(bytes, table, count, titles, s) && SectionsAre(bytes, table, count, titles, t)
    ensures s == t
  {
    hide SectionIs, RawSection, AllocatedSize;
    SameHeaders(bytes, table, count, titles);
    var names := Cut(bytes, s[titles].offset, s[titles].size);
    forall i | 0 <= i < count
      ensures s[i] == t[i]
    {
      assert SectionIs(bytes, table + 40 * i, names, s[i]) && SectionIs(bytes, table + 40 * i, names, t[i]);
      OneReading(bytes, table + 40 * i, names, s[i], t[i]);
    }
  }

  lemma SectionsInside(bytes: seq<Byte>, table: nat, count: nat, titles: nat, s: seq<ReadSection>)
    requires SectionsAre(bytes, table, count, titles, s)
    ensures forall i :: 0 <= i < |s| && s[i].kind != SHT_NOBITS ==> s[i].offset + s[i].size <= |bytes|
  {
    hide SectionIs, AllocatedSize;
    forall i | 0 <= i < |s| && s[i].kind != SHT_NOBITS
      ensures s[i].offset + s[i].size <= |bytes|
    {
      OneInside(bytes, table + 40 * i, Cut(bytes, s[titles].offset, s[titles].size), s[i]);
    }
  }

  lemma OneInside(bytes: seq<Byte>, at: nat, names: seq<Byte>, r: ReadSection)
    requires SectionIs(bytes, at, names, r)
    ensures r.kind != SHT_NOBITS ==> r.offset + r.size <= |bytes|
  {
    hide Field, CString, PowerOfTwo;
  }

  lemma OneSymbols(bytes: seq<Byte>, sections: seq<ReadSection>, symtab: nat, s: seq<ReadSymbol>, t: seq<ReadSymbol>)
    requires SymbolsAre(bytes, sections, symtab, s) && SymbolsAre(bytes, sections, symtab, t)
    ensures s == t
  {
    hide SymbolFine, SymbolAt;
    var offset, strings := sections[symtab].offset, StringsOf(bytes, sections, symtab);
    forall k | 0 <= k < |s|
      ensures s[k] == t[k]
    {
      assert SymbolIs(bytes, offset + 16 * k, strings, s[k]) && SymbolIs(bytes, offset + 16 * k, strings, t[k]);
    }
  }

  lemma SomeSymbols(bytes: seq<Byte>, sections: seq<ReadSection>, symtab: nat, symbols: seq<ReadSymbol>)
    requires SymbolsAre(bytes, sections, symtab, symbols)
    ensures |symbols| > 0
  {
  }

  /** What is built up at the end is the artifact that was written, and valid. */
  lemma ReadBack(bytes: seq<Byte>, w: Written, sections: seq<ReadSection>, symbols: seq<ReadSymbol>, owners: map<nat, nat>, locals: set<Name>,
                 functions: seq<Function>, data: seq<Data>, r: Artifact)
    requires Given(bytes, w, sections, symbols) && Permutes(w.o.order, |Items(w.a)|)
    requires Rebuilt(w.a, w.o.order, |w.o.order|, owners, locals, functions, data)
    requires AtLimit(Items(w.a), w.o.order, |Items(w.a)|, 0, r.functions, r.data) && r.locals == Some(locals)
    ensures Validate(r) && AllPatchable(Items(w.a)) && SameObject(w.a, r)
  {
    hide Given, Items, Validate, Permutes, AtLimit, SameObject, AllPatchable, Describes, DistinctItems, Owned, LocalNames, Filed, Locals;
    GivenShape(bytes, w, sections, symbols);
    LocalsBack(w.a, w.o.order, locals);
    ResultValid(w.a, w.o.order, r);
    Restored(w.a, w.o.order, r);
  }
}
