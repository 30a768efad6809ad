/** elf::write: builds sections, symbols and string tables of a relocatable object and lays them out. */
module ElfWriter {
  import opened Artifacts
  import opened Bytes
  import opened LittleEndian
  import opened BundleFormat
  import opened ElfFormat
  import opened ElfObject
  import opened ElfSizes
  import opened ElfSteps
  import opened ElfTables
  import opened ElfAssembly
  import Alignment

  // ---------------------------------------------------------------- sections of definitions

  /** patch_addends: equal site offsets are refused, other overlaps are not. */
  method PatchAddends(body: seq<Byte>, rs: seq<Relocation>) returns (ok: bool, r: seq<Byte>)
    ensures ok <==> Patchable(body, rs)
    ensures ok ==> r == Patched(body, rs)
  {
    var sites: set<nat> := {};
    r := body;
    for k := 0 to |rs|
      invariant forall x :: x in sites <==> exists j :: 0 <= j < k && rs[j].offset == x
      invariant Patchable(body, rs[..k]) && r == Patched(body, rs[..k])
    {
      var start := rs[k].offset;
      if start + 4 > |r| || start in sites || !FitsSigned32(rs[k].addend) {
        return false, r;
      }
      sites := sites + {start};
      PatchOne(body, rs, k);
      r := Patch(r, start, Little(rs[k].addend % WORD_LIMIT, 4));
    }
    assert rs[..|rs|] == rs;
    ok := true;
  }

  /** One definition's section. */
  method AddDefinition(item: Item, contents0: seq<Content>, definitions0: map<Name, Definition>, pending0: seq<Pending>)
    returns (ok: bool, contents: seq<Content>, definitions: map<Name, Definition>, pending: seq<Pending>)
    ensures ok <==> |contents0| < W16 && |item.body| < WORD_LIMIT && Patchable(item.body, item.relocations) && item.name !in definitions0
    ensures ok ==> contents == contents0 + [SectionOf(item)]
    ensures ok ==> definitions == definitions0[item.name :=
      Definition(|contents0|, |item.body|, if item.code then STT_FUNC else STT_OBJECT)]
    ensures ok ==> pending == pending0 + [Pending(|contents0|, item.relocations)]
  {
    contents, definitions, pending := contents0, definitions0, pending0;
    if |contents| >= W16 || |item.body| >= WORD_LIMIT {
      return false, contents, definitions, pending;
    }
    var body;
    ok, body := PatchAddends(item.body, item.relocations);
    if !ok {
      return;
    }
    var bss := !item.code && !item.readOnly && item.relocations == [] && forall i | 0 <= i < |item.body| :: item.body[i] == 0;
    var section := |contents|;
    var prefix := if item.code then TEXT else if bss then BSS else if item.readOnly then RODATA else DATA;
    contents := contents + [Content(
      prefix + item.name, if bss then SHT_NOBITS else SHT_PROGBITS,
      if item.code then SHF_ALLOC + SHF_EXECINSTR else if item.readOnly then SHF_ALLOC else SHF_ALLOC + SHF_WRITE,
      item.align, body, 0, 0, 0)];
    if item.name in definitions {
      return false, contents, definitions, pending;
    }
    definitions := definitions[item.name := Definition(section, |item.body|, if item.code then STT_FUNC else STT_OBJECT)];
    pending := pending + [Pending(section, item.relocations)];
  }

  /** Functions, then data. */
  method CollectDefinitions(a: Artifact)
    returns (ok: bool, contents: seq<Content>, definitions: map<Name, Definition>, pending: seq<Pending>)
    requires Validate(a)
    ensures ok <==> AllPatchable(Items(a)) && |Items(a)| < W16 && forall i :: 0 <= i < |Items(a)| ==> |Items(a)[i].body| < WORD_LIMIT
    ensures ok ==> Collected(Items(a), |Items(a)|, contents, definitions, pending)
  {
    hide SectionOf, Patchable, Validate, Collected, DistinctItems;
    ItemsDistinct(a);
    NothingCollected(Items(a));
    contents, definitions, pending := [NULL_SECTION], map[], [];
    for i := 0 to |a.functions|
      invariant i < W16 && Collected(Items(a), i, contents, definitions, pending)
    {
      CollectOne(Items(a), i, contents, definitions, pending);
      ok, contents, definitions, pending := AddDefinition(OfCode(a.functions[i]), contents, definitions, pending);
      if !ok {
        assert Items(a)[i] == OfCode(a.functions[i]);
        return;
      }
    }
    for i := 0 to |a.data|
      invariant |a.functions| + i < W16 && Collected(Items(a), |a.functions| + i, contents, definitions, pending)
    {
      ghost var k := |a.functions| + i;
      CollectOne(Items(a), k, contents, definitions, pending);
      assert Items(a)[k] == OfObject(a.data[i]);
      ok, contents, definitions, pending := AddDefinition(OfObject(a.data[i]), contents, definitions, pending);
      if !ok {
        return;
      }
    }
    AllCollected(Items(a), contents, definitions, pending);
    ok := true;
  }

  /** The targets that are defined elsewhere. */
  method CollectUndefined(pending: seq<Pending>, definitions: map<Name, Definition>, ghost items: seq<Item>,
                          ghost contents: seq<Content>) returns (undefined: set<Name>)
    requires Collected(items, |items|, contents, definitions, pending)
    ensures Missing(items, undefined)
  {
    hide SectionOf, Patchable;
    undefined := {};
    for p := 0 to |pending|
      invariant MissingBefore(items, p, 0, undefined)
    {
      for k := 0 to |pending[p].relocations|
        invariant MissingBefore(items, p, k, undefined)
      {
        var target := pending[p].relocations[k].target;
        ghost var before := undefined;
        if target !in definitions {
          undefined := undefined + {target};
        }
        MissingOne(items, p, k, undefined, before, target in definitions);
      }
    }
  }

  /** A HashMap or BTreeSet, one element at a time; the model lets the order be any. */
  method InSomeOrder(names: set<Name>) returns (order: seq<Name>)
    ensures Distinct(order) && forall x :: x in order <==> x in names
  {
    order := [];
    var rest := names;
    while rest != {}
      invariant Distinct(order) && rest <= names && forall x :: x in order <==> x in names && x !in rest
      decreases |rest|
    {
      var x :| x in rest;
      order := order + [x];
      rest := rest - {x};
    }
  }

  // ---------------------------------------------------------------- symbols

  /** The definitions that are local, or that are not, in the order of a list of names. */
  method PushDefinitions(a: Artifact, definitions: map<Name, Definition>, names: seq<Name>, local: bool, symbols0: seq<Symbol>,
                         ghost contents: seq<Content>, ghost pending: seq<Pending>)
    returns (symbols: seq<Symbol>, ghost order: seq<nat>)
    requires DistinctItems(Items(a)) && Collected(Items(a), |Items(a)|, contents, definitions, pending)
    requires Distinct(names) && forall x :: x in names ==> x in definitions
    ensures Picks(Items(a), Locals(a), order, names, local)
    ensures symbols == symbols0 + SymbolsOf(a, order)
  {
    hide Collected, Distinct, DistinctItems, SymbolOf, Items, Locals, Picks;
    var locals := Locals(a);
    symbols, order := symbols0, [];
    NothingPicked(Items(a), locals, names, local);
    for p := 0 to |names|
      invariant Picks(Items(a), locals, order, names[..p], local)
      invariant forall k :: 0 <= k < |order| ==> order[k] < |Items(a)|
      invariant symbols == symbols0 + SymbolsOf(a, order)
    {
      assert names[p] in names;
      var d := definitions[names[p]];
      NamedItem(a, definitions, contents, pending, names[p]);
      PickOne(Items(a), locals, order, names, p, d.section - 1, local);
      if names[p] in locals <==> local {
        symbols := symbols + [Symbol(names[p], d.size, if local then STB_LOCAL else STB_GLOBAL, d.kind, d.section)];
        SymbolsMore(a, order, d.section - 1);
        order := order + [d.section - 1];
      }
    }
    assert names[..|names|] == names;
  }

  /** Local definitions, then the other definitions, then what is undefined. */
  method OrderSymbols(a: Artifact, definitions: map<Name, Definition>, undefinedNames: set<Name>, ghost contents: seq<Content>,
                      ghost pending: seq<Pending>)
    returns (symbols: seq<Symbol>, firstGlobal: nat, ghost order: seq<nat>, undefined: seq<Name>)
    requires DistinctItems(Items(a)) && Collected(Items(a), |Items(a)|, contents, definitions, pending)
    ensures Permutes(order, |Items(a)|) && firstGlobal > 0 && LocalsFirst(a, order, firstGlobal - 1)
    ensures symbols == Symbols(a, order, undefined)
    ensures Distinct(undefined) && forall x :: x in undefined <==> x in undefinedNames
  {
    hide Picks, Distinct, DistinctItems, SymbolOf, SectionOf, Patchable, Permutes, LocalsFirst, Items;
    var names := InSomeOrder(definitions.Keys);
    assert forall i :: 0 <= i < |Items(a)| ==> Items(a)[i].name in definitions;
    symbols, order := PushDefinitions(a, definitions, names, true, [NULL_SYMBOL], contents, pending);
    firstGlobal := |symbols|;
    ghost var globals;
    symbols, globals := PushDefinitions(a, definitions, names, false, symbols, contents, pending);
    PicksJoin(a, order, globals, names);
    undefined := InSomeOrder(undefinedNames);
    ghost var defined := symbols;
    for p := 0 to |undefined|
      invariant symbols == defined + Undefineds(undefined[..p])
    {
      symbols := symbols + [Symbol(undefined[p], 0, STB_GLOBAL, STT_NOTYPE, 0)];
    }
    assert undefined[..|undefined|] == undefined;
    SymbolsInParts(a, order + globals, undefined);
    order := order + globals;
  }

  // ---------------------------------------------------------------- tables

  /** string_offset */
  method AppendString(strings: seq<Byte>, value: Name) returns (ok: bool, r: seq<Byte>, offset: nat)
    ensures ok <==> 0 !in value && |strings| < WORD_LIMIT
    ensures ok ==> r == strings + value + [0] && offset == |strings|
  {
    offset := |strings|;
    if 0 in value || offset >= WORD_LIMIT {
      return false, strings, offset;
    }
    ok, r := true, strings + value + [0];
  }

  /** The symbol table, its string table and the index of every name. */
  method WriteSymbols(symbols: seq<Symbol>)
    returns (ok: bool, table: seq<Byte>, strings: seq<Byte>, indices: map<Name, nat>, ghost names: seq<nat>)
    requires |symbols| > 0 && symbols[0] == NULL_SYMBOL && SymbolsApart(symbols)
    requires forall k :: 0 <= k < |symbols| ==> SmallSymbol(symbols[k])
    ensures ok ==> Tabled(table, symbols, names) && Named(strings, NamesOf(symbols), names) && Indexed(symbols, |symbols|, indices)
    ensures ok ==> |table| + |strings| == 17 + NameWeight(NamesOf(symbols[1..]))
    ensures ok ==> forall k :: 0 < k < |symbols| ==> 0 !in symbols[k].name
    ensures !ok ==> (exists k :: 0 < k < |symbols| && 0 in symbols[k].name) || NameWeight(NamesOf(symbols[1..])) + 17 >= WORD_LIMIT
  {
    hide Tabled, Named, SymbolRecord, Indexed, SymbolsApart, NameWeight, NamesOf;
    NullTabled();
    table, strings, indices, names := Zeros(16), [0], map[], [0];
    FirstNames(symbols);
    for k := 1 to |symbols|
      invariant Tabled(table, symbols[..k], names) && Named(strings, NamesOf(symbols[..k]), names)
      invariant Indexed(symbols, k, indices)
      invariant |table| + |strings| == 17 + NameWeight(NamesOf(symbols[1..k]))
      invariant forall j :: 0 < j < k ==> 0 !in symbols[j].name
    {
      NameWeightGrows(symbols, k);
      NameWeightMore(symbols, k);
      NamesOfMore(symbols, k);
      IndexOne(symbols, k, indices);
      var offset;
      ghost var before := strings;
      ok, strings, offset := AppendString(strings, symbols[k].name);
      if !ok {
        return;
      }
      NamedMore(before, NamesOf(symbols[..k]), names, symbols[k].name);
      TabledMore(table, symbols[..k], names, symbols[k], offset);
      assert symbols[..k + 1] == symbols[..k] + [symbols[k]];
      table := table + SymbolRecord(symbols[k], offset);
      names := names + [offset];
      if symbols[k].name in indices {
        return false, table, strings, indices, names;
      }
      indices := indices[symbols[k].name := k];
    }
    assert symbols[..|symbols|] == symbols && symbols[1..|symbols|] == symbols[1..];
    ok := true;
  }

  /** The relocation records of one section. */
  method WriteRelocations(rs: seq<Relocation>, indices: map<Name, nat>, ghost symbols: seq<Symbol>)
    returns (ok: bool, rel: seq<Byte>, ghost found: seq<nat>)
    requires |symbols| > 0 && Indexed(symbols, |symbols|, indices)
    ensures ok <==> forall k :: 0 <= k < |rs| ==> rs[k].target in indices
    ensures ok ==> RelTabled(rel, rs, symbols, found)
  {
    hide RelTabled, RelRecord;
    rel, found := [], [];
    NoRelocations(symbols);
    for k := 0 to |rs|
      invariant forall j :: 0 <= j < k ==> rs[j].target in indices
      invariant RelTabled(rel, rs[..k], symbols, found)
    {
      if rs[k].target !in indices {
        return false, rel, found;
      }
      var index := indices[rs[k].target];
      RelMore(rel, rs, symbols, found, k, index);
      rel := rel + RelRecord(rs[k].offset, index);
      found := found + [index];
    }
    assert rs[..|rs|] == rs;
    ok := true;
  }

  /** One section of records for every section that has relocations. */
  method RelocationSections(pending: seq<Pending>, indices: map<Name, nat>, contents0: seq<Content>, symtab: nat,
                            ghost items: seq<Item>, ghost symbols: seq<Symbol>)
    returns (ok: bool, contents: seq<Content>, ghost rels: seq<Content>)
    requires |symbols| > 0 && Indexed(symbols, |symbols|, indices) && |pending| == |items| < |contents0|
    requires forall i :: 0 <= i < |items| ==> pending[i] == Pending(i + 1, items[i].relocations)
    requires forall i :: 0 <= i < |items| ==> contents0[i + 1].name == SectionName(items[i])
    requires forall i, k :: 0 <= i < |items| && 0 <= k < |items[i].relocations| ==> items[i].relocations[k].target in indices
    ensures ok && contents == contents0 + rels && Related(items, |items|, rels, symbols, symtab)
  {
    hide Related, Indexed, RelTabled, SectionName;
    contents, rels := contents0, [];
    ok := true;
    NothingRelated(items, symbols, symtab);
    for p := 0 to |pending|
      invariant ok && contents == contents0 + rels && Related(items, p, rels, symbols, symtab)
    {
      var rs := pending[p].relocations;
      if rs == [] {
        RelatedSkip(items, p, rels, symbols, symtab);
      } else {
        var rel;
        ghost var found;
        ok, rel, found := WriteRelocations(rs, indices, symbols);
        var title := contents[pending[p].section].name;
        var c := Content(REL + title, SHT_REL, 0, 4, rel, symtab, pending[p].section, 8);
        RelatedOne(items, p, rels, c, symbols, symtab);
        contents := contents + [c];
        rels := rels + [c];
      }
    }
  }

  /** Names of all sections but the null one, and of the table itself. */
  method NameSections(contents: seq<Content>) returns (ok: bool, table: seq<Byte>, names: seq<nat>)
    requires |contents| > 0 && contents[0] == NULL_SECTION
    ensures ok ==> |names| == |contents| + 1
    ensures ok ==> Named(table, TitlesOf(contents) + [SHSTRTAB], names) && |table| <= 16 + Extent(contents)
    ensures ok ==> forall k :: 0 <= k < |contents| ==> 0 !in contents[k].name
    ensures !ok ==> (exists k :: 0 <= k < |contents| && 0 in contents[k].name) || Extent(contents) + 16 >= WORD_LIMIT
  {
    hide Named, Extent, TitlesOf;
    NullTabled();
    table, names := [0], [0];
    FirstTitle(contents);
    for k := 1 to |contents|
      invariant |names| == k && Named(table, TitlesOf(contents[..k]), names) && |table| <= 1 + Extent(contents[..k])
      invariant forall j :: 0 <= j < k ==> 0 !in contents[j].name
    {
      ExtentMore(contents, k);
      ExtentPrefix(contents, k);
      TitlesOfMore(contents, k);
      ghost var before := table;
      var offset;
      ok, table, offset := AppendString(table, contents[k].name);
      if !ok {
        return;
      }
      NamedMore(before, TitlesOf(contents[..k]), names, contents[k].name);
      names := names + [offset];
    }
    assert contents[..|contents|] == contents;
    ghost var before := table;
    var offset;
    ok, table, offset := AppendString(table, SHSTRTAB);
    if !ok {
      return;
    }
    NamedMore(before, TitlesOf(contents), names, SHSTRTAB);
    names := names + [offset];
  }

  // ---------------------------------------------------------------- the file

  /** align_to */
  method AlignTo(value: nat, alignment0: nat) returns (ok: bool, aligned: nat)
    ensures ok <==> alignment0 == 0 || PowerOfTwo(alignment0)
    ensures ok ==> value <= aligned <= value + alignment0 && (alignment0 > 0 ==> aligned % alignment0 == 0)
  {
    var alignment := if alignment0 == 0 then 1 else alignment0;
    if !PowerOfTwo(alignment) {
      return false, value;
    }
    ok, aligned := true, Alignment.AlignUp(value, alignment);
  }

  /** The fixed fields of the ELF header, patched into zeros. */
  method StartHeader(sections: nat) returns (out: seq<Byte>)
    requires 0 < sections < W16
    ensures out == Head(sections)
  {
    hide Little, Patch, Zeros;
    out := Zeros(52);
    assert Zeros(0) == [] && [] + Zeros(52) == Zeros(52) && [] + Zeros(0) + IDENTITY == IDENTITY;
    var two, four, machine := Little(1, 2), Little(1, 4), Little(EM_SIA32, 2);
    PatchTail([], 52, 0, IDENTITY);
    out := Patch(out, 0, IDENTITY);
    PatchTail(IDENTITY, 45, 9, two);
    out := Patch(out, 16, two);
    var p1 := IDENTITY + Zeros(9) + two;
    PatchTail(p1, 34, 0, machine);
    out := Patch(out, 18, machine);
    var p2 := p1 + machine;
    assert p1 + Zeros(0) + machine == p2;
    PatchTail(p2, 32, 0, four);
    out := Patch(out, 20, four);
    var p3 := p2 + four;
    assert p2 + Zeros(0) + four == p3;
    PatchTail(p3, 28, 16, Little(52, 2));
    out := Patch(out, 40, Little(52, 2));
    var p4 := p3 + Zeros(16) + Little(52, 2);
    PatchTail(p4, 10, 4, Little(40, 2));
    out := Patch(out, 46, Little(40, 2));
    var p5 := p4 + Zeros(4) + Little(40, 2);
    PatchTail(p5, 4, 0, Little(sections, 2));
    out := Patch(out, 48, Little(sections, 2));
    var p6 := p5 + Little(sections, 2);
    assert p5 + Zeros(0) + Little(sections, 2) == p6;
    PatchTail(p6, 2, 0, Little(sections - 1, 2));
    out := Patch(out, 50, Little(sections - 1, 2));
    assert p6 + Zeros(0) + Little(sections - 1, 2) + Zeros(0) == p6 + Little(sections - 1, 2);
    assert out == p6 + Little(sections - 1, 2);
  }

  /** Sections at aligned offsets, section headers after them, and their position in the ELF header. */
  method LayOut(contents: seq<Content>, names: seq<nat>) returns (ok: bool, bytes: seq<Byte>, ghost offsets: seq<nat>, ghost table: nat)
    requires |contents| > 1 && contents[0] == NULL_SECTION && |names| == |contents|
    requires Named(contents[|contents| - 1].data, TitlesOf(contents), names)
    requires forall i :: 0 <= i < |contents| ==> |contents[i].data| < WORD_LIMIT ==> SmallContent(contents[i])
    ensures ok ==> |contents| < W16 && Laid(bytes, contents, names, offsets, table)
    ensures ok ==> |bytes| <= 56 + Extent(contents) + 40 * |contents|
    ensures !ok ==>
      || |contents| >= W16 || Extent(contents) + 56 >= WORD_LIMIT
      || (exists i :: 0 <= i < |contents| && contents[i].align != 0 && !PowerOfTwo(contents[i].align))
  {
    hide Named, Head, Placed, HeadersIn, Laid, HeaderRecord, SmallContent, Extent, Little, Has;
    bytes, offsets, table := [], [0], 0;
    if |contents| >= W16 {
      return false, bytes, offsets, table;
    }
    var out := StartHeader(|contents|);
    var places: seq<nat> := [0];
    PlacedNull(out, contents);
    HeadStarts(out, |contents|);
    for i := 1 to |contents|
      invariant |places| == i && Has(out, 0, Head(|contents|)) && Placed(out, contents, i, places) && 52 <= |out| <= 52 + Extent(contents[..i])
    {
      ExtentMore(contents, i);
      ExtentPrefix(contents, i + 1);
      var aligned;
      ok, aligned := AlignTo(|out|, contents[i].align);
      if !ok {
        return false, bytes, offsets, table;
      }
      PlacedAppend(out, contents, i, places, Zeros(aligned - |out|));
      HasAppend(out, 0, Head(|contents|), Zeros(aligned - |out|));
      out := out + Zeros(aligned - |out|);
      if |out| >= WORD_LIMIT {
        return false, bytes, offsets, table;
      }
      PlacedMore(out, contents, i, places);
      places := places + [|out|];
      var t := if contents[i].kind != SHT_NOBITS then contents[i].data else [];
      HasAppend(out, 0, Head(|contents|), t);
      out := out + t;
    }
    assert contents[..|contents|] == contents;
    var start;
    PowersOfTwo();
    ok, start := AlignTo(|out|, 4);
    if start >= WORD_LIMIT {
      return false, bytes, offsets, table;
    }
    PlacedAppend(out, contents, |contents|, places, Zeros(start - |out|));
    HasAppend(out, 0, Head(|contents|), Zeros(start - |out|));
    out := out + Zeros(start - |out|);
    NoHeaders(out, contents, names, places, start);
    for i := 0 to |contents|
      invariant Has(out, 0, Head(|contents|)) && Placed(out, contents, |contents|, places) && |out| == start + 40 * i
      invariant HeadersIn(out, contents, names, places, start, i)
      invariant forall j :: 0 <= j < i ==> SmallContent(contents[j])
    {
      if |contents[i].data| >= WORD_LIMIT {
        ExtentMore(contents, i);
        ExtentPrefix(contents, i + 1);
        return false, bytes, offsets, table;
      }
      var record := HeaderRecord(contents[i], names[i], places[i]);
      HeadersMore(out, contents, names, places, start, i);
      PlacedAppend(out, contents, |contents|, places, record);
      HasAppend(out, 0, Head(|contents|), record);
      out := out + record;
    }
    FileLaid(out, contents, names, places, start);
    ok, bytes, offsets, table := true, Patch(out, 32, Little(start, 4)), places, start;
  }

  /** The file holds the object of an artifact. */
  ghost predicate FileOf(a: Artifact, o: Object, bytes: seq<Byte>, names: seq<nat>, offsets: seq<nat>, table: nat) {
    Describes(a, o) && Laid(bytes, o.contents, names, offsets, table)
  }

  /** elf::write. What it refuses: invalid artifacts, sites or addends that patch_addends refuses, names with a NUL,
      too many sections, and objects that may not fit 32-bit offsets. */
  method Write(a: Artifact) returns (ok: bool, bytes: seq<Byte>, ghost o: Object, ghost names: seq<nat>,
                                     ghost offsets: seq<nat>, ghost table: nat)
    requires Typed(a)
    ensures ok ==> Validate(a) && AllPatchable(Items(a)) && NulFree(a) && Describes(a, o)
    ensures ok ==> Laid(bytes, o.contents, names, offsets, table)
    ensures ok ==> exists p, n, f, t :: FileOf(a, p, bytes, n, f, t)
    ensures Validate(a) && AllPatchable(Items(a)) && NulFree(a) && |Items(a)| + 4 + |Relocated(Items(a))| < W16 && Bound(a) < WORD_LIMIT ==>
      ok && |bytes| <= Bound(a) + 40 * |o.contents|
  {
    hide Describes, Laid, Collected, Missing, Indexed, Related, Tabled, Named, LocalsFirst, Permutes, SectionOf, Patchable;
    hide Extent, Typed, NulFree, SymbolOf, SymbolsApart, SmallContent, NameWeight, AllPatchable, Items, Symbols, Bound;
    hide NamesOf, Distinct, DistinctItems, SectionName, SymtabOf, StrtabOf, Assembled, TitlesOf, Relocated, PowerOfTwo;
    bytes, o, names, offsets, table := [], Object([], 0, [], [], [], [], []), [], [], 0;
    if !Validate(a) {
      return false, bytes, o, names, offsets, table;
    }
    ghost var items := Items(a);
    var contents, definitions, pending;
    ok, contents, definitions, pending := CollectDefinitions(a);
    if !ok {
      BodiesWithinBound(a);
      return;
    }
    ghost var sections := contents;
    ItemsDistinct(a);
    var undefinedNames := CollectUndefined(pending, definitions, items, contents);
    var symbols, firstGlobal, undefined;
    ghost var order;
    symbols, firstGlobal, order, undefined := OrderSymbols(a, definitions, undefinedNames, contents, pending);
    ghost var known := Known(a, contents, definitions, pending, undefinedNames, order, firstGlobal - 1, undefined, symbols);
    SymbolsReady(known);
    var symbolTable, strings, indices;
    ghost var symbolNames;
    ok, symbolTable, strings, indices, symbolNames := WriteSymbols(symbols);
    if !ok {
      SymbolsFail(known);
      return;
    }
    var symtab := |contents|;
    if symtab + 1 >= W16 {
      TooMany(known);
      ok := false;
      return;
    }
    var symbolSection := Content(SYMTAB, SHT_SYMTAB, 0, 4, symbolTable, symtab + 1, firstGlobal, 16);
    var stringSection := Content(STRTAB, SHT_STRTAB, 0, 1, strings, 0, 0, 0);
    contents := contents + [symbolSection];
    contents := contents + [stringSection];
    RelationsReady(known, contents, indices);
    ghost var rels;
    ok, contents, rels := RelocationSections(pending, indices, contents, symtab, items, symbols);
    Assemble(known, symbolTable, strings, rels, symbolNames);
    AssembledExtent(known, contents, rels, symbolNames);
    ghost var most := contents;
    var sectionNames, places;
    ok, sectionNames, places := NameSections(contents);
    if !ok {
      TitlesFail(known, contents, rels, symbolNames);
      return;
    }
    contents := contents + [Content(SHSTRTAB, SHT_STRTAB, 0, 1, sectionNames, 0, 0, 0)];
    LayOutReady(known, most, rels, symbolNames, contents, sectionNames);
    ok, bytes, offsets, table := LayOut(contents, places);
    if ok {
      names := places;
      o := Object(order, firstGlobal - 1, undefined, symbols, symbolNames, Relocated(items), contents);
      NamesNulFree(known);
      Finish(known, most, rels, symbolNames, contents[|most|]);
      assert FileOf(a, o, bytes, names, offsets, table);
    }
  }
}
