/** What elf::read extracts from a file, field by field. */
module ElfReading {
  import opened Artifacts
  import opened Bytes
  import opened LittleEndian
  import opened ElfFormat

  const MAX_OBJECT: nat := 64 * 1024 * 1024

  datatype ReadSection = ReadSection(name: Name, kind: nat, flags: nat, offset: nat, size: nat, link: nat, info: nat, align: nat, entsize: nat)

  datatype ReadSymbol = ReadSymbol(name: Name, value: nat, size: nat, bind: nat, kind: nat, section: nat)

  // ---------------------------------------------------------------- header

  function Field(x: seq<Byte>, at: nat, n: nat): nat
    requires at + n <= |x|
  {
    Value(x[at..at + n])
  }

  predicate HeaderFine(bytes: seq<Byte>) {
    && 52 <= |bytes| <= MAX_OBJECT && Has(bytes, 0, IDENTITY)
    && Field(bytes, 16, 2) == 1 && Field(bytes, 18, 2) == EM_SIA32 && Field(bytes, 20, 4) == 1
    && Field(bytes, 24, 4) == 0 && Field(bytes, 28, 4) == 0
    && Field(bytes, 40, 2) == 52 && Field(bytes, 42, 2) == 0 && Field(bytes, 44, 2) == 0 && Field(bytes, 46, 2) == 40
    && Field(bytes, 48, 2) >= 2 && Field(bytes, 50, 2) < Field(bytes, 48, 2)
    && Field(bytes, 32, 4) + 40 * Field(bytes, 48, 2) <= |bytes|
  }

  // ---------------------------------------------------------------- sections

  /** A section header, its name taken from a string table. */
  function RawSection(bytes: seq<Byte>, at: nat, name: Name): ReadSection
    requires at + 40 <= |bytes|
  {
    ReadSection(name, Field(bytes, at + 4, 4), Field(bytes, at + 8, 4), Field(bytes, at + 16, 4), Field(bytes, at + 20, 4),
                Field(bytes, at + 24, 4), Field(bytes, at + 28, 4), Field(bytes, at + 32, 4), Field(bytes, at + 36, 4))
  }

  predicate SectionFine(bytes: seq<Byte>, at: nat, names: seq<Byte>)
    requires at + 40 <= |bytes|
  {
    var raw := RawSection(bytes, at, []);
    && (raw.kind != SHT_NOBITS ==> raw.offset + raw.size <= |bytes|)
    && (raw.align <= 1 || PowerOfTwo(raw.align))
    && CString(names, Field(bytes, at, 4)).Some?
  }

  function SectionAt(bytes: seq<Byte>, at: nat, names: seq<Byte>): ReadSection
    requires at + 40 <= |bytes| && SectionFine(bytes, at, names)
  {
    RawSection(bytes, at, CString(names, Field(bytes, at, 4)).value)
  }

  /** The header at a position reads as a section. */
  predicate SectionIs(bytes: seq<Byte>, at: nat, names: seq<Byte>, r: ReadSection) {
    at + 40 <= |bytes| && SectionFine(bytes, at, names) && SectionAt(bytes, at, names) == r
  }

  predicate IsAllocated(flags: nat) {
    flags / SHF_ALLOC % 2 == 1
  }

  predicate IsWritable(flags: nat) {
    flags % 2 == 1
  }

  predicate IsCode(flags: nat) {
    flags / SHF_EXECINSTR % 2 == 1
  }

  function AllocatedSize(sections: seq<ReadSection>): nat {
    if sections == [] then 0
    else
      var last := sections[|sections| - 1];
      AllocatedSize(sections[..|sections| - 1]) + if IsAllocated(last.flags) then last.size else 0
  }

  function Cut(x: seq<Byte>, at: nat, n: nat): seq<Byte> {
    if at + n <= |x| then x[at..at + n] else []
  }

  /** The section headers read as these sections, and what they allocate is small enough. */
  ghost predicate SectionsAre(bytes: seq<Byte>, table: nat, count: nat, titles: nat, sections: seq<ReadSection>) {
    && |sections| == count && titles < count && table + 40 * count <= |bytes|
    && sections[0].kind == SHT_NULL && sections[titles].kind == SHT_STRTAB
    && sections[titles].offset + sections[titles].size <= |bytes|
    && AllSectionsAre(bytes, table, Cut(bytes, sections[titles].offset, sections[titles].size), sections)
    && AllocatedSize(sections) <= MAX_OBJECT
  }

  ghost predicate AllSectionsAre(bytes: seq<Byte>, table: nat, names: seq<Byte>, sections: seq<ReadSection>) {
    forall i :: 0 <= i < |sections| ==> SectionIs(bytes, table + 40 * i, names, sections[i])
  }

  // ---------------------------------------------------------------- symbols

  predicate SymbolFine(bytes: seq<Byte>, at: nat, strings: seq<Byte>) {
    at + 16 <= |bytes| && CString(strings, Field(bytes, at, 4)).Some?
  }

  function SymbolAt(bytes: seq<Byte>, at: nat, strings: seq<Byte>): ReadSymbol
    requires SymbolFine(bytes, at, strings)
  {
    ReadSymbol(CString(strings, Field(bytes, at, 4)).value, Field(bytes, at + 4, 4), Field(bytes, at + 8, 4),
               bytes[at + 12] / 16, bytes[at + 12] % 16, Field(bytes, at + 14, 2))
  }

  /** The record at a position reads as a symbol. */
  predicate SymbolIs(bytes: seq<Byte>, at: nat, strings: seq<Byte>, r: ReadSymbol) {
    SymbolFine(bytes, at, strings) && SymbolAt(bytes, at, strings) == r
  }

  /** The first section of a kind. */
  function FirstOf(sections: seq<ReadSection>, kind: nat, from: nat): nat
    decreases |sections| - from
  {
    if from >= |sections| || sections[from].kind == kind then from else FirstOf(sections, kind, from + 1)
  }

  lemma {:induction false} FirstIs(sections: seq<ReadSection>, kind: nat, from: nat, i: nat)
    requires from <= i < |sections| && sections[i].kind == kind && forall j :: from <= j < i ==> sections[j].kind != kind
    ensures FirstOf(sections, kind, from) == i
    decreases i - from
  {
    if from < i {
      FirstIs(sections, kind, from + 1, i);
    }
  }

  /** The symbol table and its strings are in the file. */
  predicate SymbolTablesFine(bytes: seq<Byte>, sections: seq<ReadSection>, symtab: nat) {
    && symtab < |sections| && sections[symtab].entsize == 16 && sections[symtab].size % 16 == 0
    && sections[symtab].link < |sections| && sections[sections[symtab].link].kind == SHT_STRTAB
  }

  function StringsOf(bytes: seq<Byte>, sections: seq<ReadSection>, symtab: nat): seq<Byte>
    requires SymbolTablesFine(bytes, sections, symtab)
  {
    var s := sections[sections[symtab].link];
    Cut(bytes, s.offset, s.size)
  }

  /** The symbol table reads as these symbols. */
  ghost predicate SymbolsAre(bytes: seq<Byte>, sections: seq<ReadSection>, symtab: nat, symbols: seq<ReadSymbol>) {
    && SymbolTablesFine(bytes, sections, symtab) && 0 < |symbols| == sections[symtab].size / 16
    && symbols[0].name == [] && symbols[0].section == 0
    && AllSymbolsAre(bytes, sections[symtab].offset, StringsOf(bytes, sections, symtab), symbols)
  }

  ghost predicate AllSymbolsAre(bytes: seq<Byte>, offset: nat, strings: seq<Byte>, symbols: seq<ReadSymbol>) {
    forall k :: 0 <= k < |symbols| ==> SymbolIs(bytes, offset + 16 * k, strings, symbols[k])
  }

  lemma SymbolsFrom(bytes: seq<Byte>, sections: seq<ReadSection>, symtab: nat, link: nat, strings: seq<Byte>, symbols: seq<ReadSymbol>)
    requires symtab < |sections| && link < |sections| && sections[symtab].link == link && sections[link].kind == SHT_STRTAB
    requires sections[symtab].entsize == 16 && sections[symtab].size == 16 * |symbols| && |symbols| > 0
    requires symbols[0].name == [] && symbols[0].section == 0 && AllSymbolsAre(bytes, sections[symtab].offset, strings, symbols)
    requires sections[link].offset + sections[link].size <= |bytes|
    requires bytes[sections[link].offset..sections[link].offset + sections[link].size] == strings
    ensures SymbolsAre(bytes, sections, symtab, symbols)
  {
    hide AllSymbolsAre;
  }

  // ---------------------------------------------------------------- definitions

  /** What a symbol must be like for the section that it defines. */
  predicate DefinitionFine(sections: seq<ReadSection>, s: ReadSymbol) {
    if s.section == 0 then s.bind == STB_GLOBAL && s.name != []
    else
      && s.section != 0xfff1 && s.section < |sections|
      && var section := sections[s.section];
         && IsAllocated(section.flags) && s.value == 0 && s.size == section.size
         && (s.bind == STB_LOCAL || s.bind == STB_GLOBAL)
         && (section.kind == SHT_NOBITS || section.kind == SHT_PROGBITS)
         && ((s.kind == STT_FUNC && IsCode(section.flags)) || (s.kind == STT_OBJECT && !IsCode(section.flags)))
  }

  /** What a relocation section must be like. */
  predicate RelFine(sections: seq<ReadSection>, symtab: nat, r: ReadSection) {
    r.entsize == 8 && r.size % 8 == 0 && r.link == symtab && r.info < |sections|
  }

  function Contents(bytes: seq<Byte>, section: ReadSection): seq<Byte>
    requires section.kind != SHT_NOBITS ==> section.offset + section.size <= |bytes|
  {
    if section.kind == SHT_NOBITS then Zeros(section.size) else bytes[section.offset..section.offset + section.size]
  }

  /** A relocation section of target section d, whose symbol is the owner. */
  predicate RelationIs(bytes: seq<Byte>, sections: seq<ReadSection>, symbols: seq<ReadSymbol>, symtab: nat, owners: map<nat, nat>,
                       i: nat, d: nat, count: nat, name: Name, kind: nat) {
    && i < |sections| && sections[i].kind == SHT_REL && RelFine(sections, symtab, sections[i])
    && sections[i].info == d && sections[i].size == 8 * count && sections[i].offset + sections[i].size <= |bytes|
    && d in owners && 0 < owners[d] < |symbols| && symbols[owners[d]].name == name && symbols[owners[d]].kind == kind
  }

  predicate RecordIs(bytes: seq<Byte>, at: nat, symbols: seq<ReadSymbol>, offset: nat, target: Name) {
    && at + 8 <= |bytes| && Field(bytes, at, 4) == offset
    && Field(bytes, at + 4, 4) % 256 == R_SIA32_ABS32 && Field(bytes, at + 4, 4) / 256 < |symbols|
    && symbols[Field(bytes, at + 4, 4) / 256].name == target
  }

  predicate AddendIs(bytes: seq<Byte>, section: ReadSection, offset: nat, addend: int) {
    && offset + 4 <= section.size && section.kind == SHT_PROGBITS && section.offset + section.size <= |bytes|
    && Signed32(Field(bytes, section.offset + offset, 4)) == addend
  }

  // ---------------------------------------------------------------- relocations

  /** A relocation added to the first function of a name, or data object. */
  function PushedFunction(functions: seq<Function>, name: Name, r: Relocation): (s: seq<Function>)
    ensures |s| == |functions|
  {
    if functions == [] then []
    else if functions[0].name == name then [functions[0].(relocations := functions[0].relocations + [r])] + functions[1..]
    else [functions[0]] + PushedFunction(functions[1..], name, r)
  }

  function PushedData(data: seq<Data>, name: Name, r: Relocation): (s: seq<Data>)
    ensures |s| == |data|
  {
    if data == [] then []
    else if data[0].name == name then [data[0].(relocations := data[0].relocations + [r])] + data[1..]
    else [data[0]] + PushedData(data[1..], name, r)
  }
}
