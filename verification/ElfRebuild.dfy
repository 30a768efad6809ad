/** The artifact that elf::read builds up from the symbols and relocations of a written object. */
module ElfRebuild {
  import opened Artifacts
  import opened Bytes
  import opened LittleEndian
  import opened BundleFormat
  import opened ElfFormat
  import opened ElfObject
  import opened ElfSteps
  import opened ElfReading
  import opened ElfRecover

  // ---------------------------------------------------------------- definitions in symbol order

  /** The functions, or the objects, of a list of definitions. */
  function Chosen(items: seq<Item>, order: seq<nat>, code: bool): seq<nat>
    requires forall k :: 0 <= k < |order| ==> order[k] < |items|
  {
    if order == [] then []
    else
      var last := order[|order| - 1];
      Chosen(items, order[..|order| - 1], code) + if items[last].code == code then [last] else []
  }

  lemma {:induction false} ChosenFacts(items: seq<Item>, order: seq<nat>, code: bool)
    requires forall k :: 0 <= k < |order| ==> order[k] < |items|
    ensures forall p :: 0 <= p < |Chosen(items, order, code)| ==>
      Chosen(items, order, code)[p] < |items| && Chosen(items, order, code)[p] in order && items[Chosen(items, order, code)[p]].code == code
    ensures forall i :: i in order && items[i].code == code ==> i in Chosen(items, order, code)
    ensures Distinct(order) ==> Distinct(Chosen(items, order, code))
  {
    if order != [] {
      var rest, last := order[..|order| - 1], order[|order| - 1];
      ChosenFacts(items, rest, code);
      assert order == rest + [last];
      assert Distinct(order) ==> Distinct(rest) && last !in rest;
    }
  }

  lemma ChosenMore(items: seq<Item>, order: seq<nat>, k: nat, code: bool)
    requires k < |order| && forall j :: 0 <= j < |order| ==> order[j] < |items|
    ensures Chosen(items, order[..k + 1], code)
         == if items[order[k]].code == code then Chosen(items, order[..k], code) + [order[k]] else Chosen(items, order[..k], code)
  {
    assert order[..k + 1][..k] == order[..k];
  }

  /** A definition's relocations, with the addends that its section holds. */
  function SeenIn(item: Item): (r: seq<Relocation>)
    requires Patchable(item.body, item.relocations)
    ensures |r| == |item.relocations|
  {
    Seen(Patched(item.body, item.relocations), item.relocations)
  }

  /** The relocations that definition i has got when those below a limit are complete, and k of the limit's. */
  function Done(items: seq<Item>, i: nat, limit: nat, k: nat): seq<Relocation>
    requires i < |items| && Patchable(items[i].body, items[i].relocations)
  {
    if i < limit then SeenIn(items[i])
    else if i == limit && k <= |items[i].relocations| then SeenIn(items[i])[..k]
    else []
  }

  function FunctionOf(item: Item, rs: seq<Relocation>): Function
    requires Patchable(item.body, item.relocations)
  {
    Function(item.name, Patched(item.body, item.relocations), rs)
  }

  function DataOf(item: Item, rs: seq<Relocation>): Data
    requires Patchable(item.body, item.relocations)
  {
    Data(item.name, Patched(item.body, item.relocations), if item.align == 0 then 1 else item.align, item.readOnly, rs)
  }

  /** Definitions that exist, with addends that can be patched. */
  ghost predicate Listed(items: seq<Item>, chosen: seq<nat>) {
    AllPatchable(items) && forall p :: 0 <= p < |chosen| ==> chosen[p] < |items|
  }

  function FunctionsIn(items: seq<Item>, chosen: seq<nat>, limit: nat, k: nat): (r: seq<Function>)
    requires Listed(items, chosen)
    ensures |r| == |chosen|
  {
    seq(|chosen|, p requires 0 <= p < |chosen| => FunctionOf(items[chosen[p]], Done(items, chosen[p], limit, k)))
  }

  function DataIn(items: seq<Item>, chosen: seq<nat>, limit: nat, k: nat): (r: seq<Data>)
    requires Listed(items, chosen)
    ensures |r| == |chosen|
  {
    seq(|chosen|, p requires 0 <= p < |chosen| => DataOf(items[chosen[p]], Done(items, chosen[p], limit, k)))
  }

  // ---------------------------------------------------------------- while symbols are read

  ghost predicate Owned(order: seq<nat>, k: nat, owners: map<nat, nat>) {
    && k <= |order|
    && (forall j :: 0 <= j < k ==> order[j] + 1 in owners && owners[order[j] + 1] == j + 1)
    && (forall x :: x in owners ==> x > 0 && x - 1 in order[..k])
  }

  ghost predicate LocalNames(items: seq<Item>, order: seq<nat>, k: nat, all: set<Name>, names: set<Name>) {
    && k <= |order| && (forall j :: 0 <= j < k ==> order[j] < |items|)
    && (forall j :: 0 <= j < k && items[order[j]].name in all ==> items[order[j]].name in names)
    && (forall x :: x in names ==> x in all && exists j :: 0 <= j < k && items[order[j]].name == x)
  }

  /** What the reader holds after the symbols of the first k definitions. */
  ghost predicate Rebuilt(a: Artifact, order: seq<nat>, k: nat, owners: map<nat, nat>, names: set<Name>,
                          functions: seq<Function>, data: seq<Data>) {
    var items := Items(a);
    && AllPatchable(items) && k <= |order| && (forall j :: 0 <= j < |order| ==> order[j] < |items|)
    && Owned(order, k, owners) && LocalNames(items, order, k, Locals(a), names)
    && Filed(items, order, k, functions, data)
  }

  /** Functions and objects, without relocations. */
  ghost predicate Filed(items: seq<Item>, order: seq<nat>, k: nat, functions: seq<Function>, data: seq<Data>)
    requires k <= |order| && forall j :: 0 <= j < |order| ==> order[j] < |items|
  {
    var codes, objects := Chosen(items, order[..k], true), Chosen(items, order[..k], false);
    && Listed(items, codes) && functions == FunctionsIn(items, codes, 0, 0)
    && Listed(items, objects) && data == DataIn(items, objects, 0, 0)
  }

  lemma FiledMore(items: seq<Item>, order: seq<nat>, k: nat, functions: seq<Function>, data: seq<Data>)
    requires k < |order| && (forall j :: 0 <= j < |order| ==> order[j] < |items|) && Filed(items, order, k, functions, data)
    ensures Patchable(items[order[k]].body, items[order[k]].relocations)
    ensures Filed(items, order, k + 1, if items[order[k]].code then functions + [FunctionOf(items[order[k]], [])] else functions,
                  if items[order[k]].code then data else data + [DataOf(items[order[k]], [])])
  {
    hide Patchable, FunctionOf, DataOf, FunctionsIn, DataIn, Chosen, Listed;
    ChosenMore(items, order, k, true);
    ChosenMore(items, order, k, false);
    ListMore(items, Chosen(items, order[..k], items[order[k]].code), order[k]);
  }

  lemma NothingRebuilt(a: Artifact, order: seq<nat>)
    requires AllPatchable(Items(a)) && Permutes(order, |Items(a)|)
    ensures Rebuilt(a, order, 0, map[], {}, [], [])
  {
    assert order[..0] == [];
  }

  /** One definition more. */
  lemma RebuiltMore(a: Artifact, order: seq<nat>, k: nat, owners: map<nat, nat>, names: set<Name>, functions: seq<Function>, data: seq<Data>)
    requires Permutes(order, |Items(a)|) && k < |order| && Rebuilt(a, order, k, owners, names, functions, data)
    ensures order[k] + 1 !in owners && Patchable(Items(a)[order[k]].body, Items(a)[order[k]].relocations)
    ensures var item := Items(a)[order[k]];
      Rebuilt(a, order, k + 1, owners[order[k] + 1 := k + 1], if item.name in Locals(a) then names + {item.name} else names,
              if item.code then functions + [FunctionOf(item, [])] else functions,
              if item.code then data else data + [DataOf(item, [])])
  {
    hide Patchable, Items, Locals, FunctionOf, DataOf, Owned, LocalNames, Filed, Permutes, AllPatchable;
    OrderApart(order, |Items(a)|, k);
    OwnedMore(order, k, owners);
    LocalNamesMore(Items(a), order, k, Locals(a), names);
    FiledMore(Items(a), order, k, functions, data);
  }

  lemma OrderApart(order: seq<nat>, n: nat, k: nat)
    requires Permutes(order, n) && k < |order|
    ensures forall j :: 0 <= j < k ==> order[j] != order[k]
  {
  }

  lemma OwnedMore(order: seq<nat>, k: nat, owners: map<nat, nat>)
    requires k < |order| && Owned(order, k, owners) && forall j :: 0 <= j < k ==> order[j] != order[k]
    ensures order[k] + 1 !in owners && Owned(order, k + 1, owners[order[k] + 1 := k + 1])
  {
    assert order[..k + 1] == order[..k] + [order[k]];
    assert order[k] !in order[..k];
  }

  lemma LocalNamesMore(items: seq<Item>, order: seq<nat>, k: nat, all: set<Name>, names: set<Name>)
    requires k < |order| && order[k] < |items| && LocalNames(items, order, k, all, names)
    ensures LocalNames(items, order, k + 1, all, if items[order[k]].name in all then names + {items[order[k]].name} else names)
  {
  }

  lemma ListMore(items: seq<Item>, chosen: seq<nat>, d: nat)
    requires Listed(items, chosen) && d < |items|
    ensures Listed(items, chosen + [d])
    ensures Patchable(items[d].body, items[d].relocations)
    ensures FunctionsIn(items, chosen + [d], 0, 0) == FunctionsIn(items, chosen, 0, 0) + [FunctionOf(items[d], [])]
    ensures DataIn(items, chosen + [d], 0, 0) == DataIn(items, chosen, 0, 0) + [DataOf(items[d], [])]
  {
    hide Patchable, FunctionOf, DataOf;
    assert Done(items, d, 0, 0) == [];
  }

  // ---------------------------------------------------------------- while relocations are read

  lemma DoneStep(items: seq<Item>, i: nat, d: nat, k: nat)
    requires i < |items| && d < |items| && k < |items[d].relocations| && AllPatchable(items)
    ensures Done(items, i, d, k + 1) == if i == d then Done(items, i, d, k) + [SeenIn(items[d])[k]] else Done(items, i, d, k)
  {
    hide SeenIn, Patchable;
    if i == d {
      assert SeenIn(items[d])[..k + 1] == SeenIn(items[d])[..k] + [SeenIn(items[d])[k]];
    }
  }

  lemma {:induction false} PushedFunctionAt(functions: seq<Function>, p: nat, name: Name, r: Relocation)
    requires p < |functions| && functions[p].name == name && forall q :: 0 <= q < p ==> functions[q].name != name
    ensures PushedFunction(functions, name, r) == functions[p := functions[p].(relocations := functions[p].relocations + [r])]
    decreases p
  {
    if p > 0 {
      PushedFunctionAt(functions[1..], p - 1, name, r);
    }
  }

  lemma {:induction false} PushedNowhere(functions: seq<Function>, data: seq<Data>, name: Name, r: Relocation)
    ensures (forall q :: 0 <= q < |functions| ==> functions[q].name != name) ==> PushedFunction(functions, name, r) == functions
    ensures (forall q :: 0 <= q < |data| ==> data[q].name != name) ==> PushedData(data, name, r) == data
    decreases |functions| + |data|
  {
    if functions != [] {
      PushedNowhere(functions[1..], [], name, r);
    }
    if data != [] {
      PushedNowhere([], data[1..], name, r);
    }
  }

  lemma {:induction false} PushedDataAt(data: seq<Data>, p: nat, name: Name, r: Relocation)
    requires p < |data| && data[p].name == name && forall q :: 0 <= q < p ==> data[q].name != name
    ensures PushedData(data, name, r) == data[p := data[p].(relocations := data[p].relocations + [r])]
    decreases p
  {
    if p > 0 {
      PushedDataAt(data[1..], p - 1, name, r);
    }
  }

  /** The next relocation of a definition goes to that definition. */
  lemma FunctionGets(items: seq<Item>, chosen: seq<nat>, d: nat, k: nat)
    requires Listed(items, chosen) && DistinctItems(items) && Distinct(chosen) && d in chosen && k < |items[d].relocations|
    requires Patchable(items[d].body, items[d].relocations)
    ensures PushedFunction(FunctionsIn(items, chosen, d, k), items[d].name, SeenIn(items[d])[k]) == FunctionsIn(items, chosen, d, k + 1)
  {
    hide Patchable, SeenIn, Patched, Done;
    var p :| 0 <= p < |chosen| && chosen[p] == d;
    var before, after := FunctionsIn(items, chosen, d, k), FunctionsIn(items, chosen, d, k + 1);
    forall q | 0 <= q < |chosen| && q != p
      ensures chosen[q] != d && items[chosen[q]].name != items[d].name && after[q] == before[q]
    {
      assert chosen[q] != chosen[p];
      DoneStep(items, chosen[q], d, k);
    }
    DoneStep(items, d, d, k);
    PushedFunctionAt(before, p, items[d].name, SeenIn(items[d])[k]);
  }

  lemma DataGets(items: seq<Item>, chosen: seq<nat>, d: nat, k: nat)
    requires Listed(items, chosen) && DistinctItems(items) && Distinct(chosen) && d in chosen && k < |items[d].relocations|
    requires Patchable(items[d].body, items[d].relocations)
    ensures PushedData(DataIn(items, chosen, d, k), items[d].name, SeenIn(items[d])[k]) == DataIn(items, chosen, d, k + 1)
  {
    hide Patchable, SeenIn, Patched, Done;
    var p :| 0 <= p < |chosen| && chosen[p] == d;
    var before, after := DataIn(items, chosen, d, k), DataIn(items, chosen, d, k + 1);
    forall q | 0 <= q < |chosen| && q != p
      ensures chosen[q] != d && items[chosen[q]].name != items[d].name && after[q] == before[q]
    {
      assert chosen[q] != chosen[p];
      DoneStep(items, chosen[q], d, k);
    }
    DoneStep(items, d, d, k);
    PushedDataAt(before, p, items[d].name, SeenIn(items[d])[k]);
  }

  /** Definitions without d do not change while d gets its relocations. */
  lemma OthersKeep(items: seq<Item>, chosen: seq<nat>, d: nat, k: nat)
    requires Listed(items, chosen) && d !in chosen && d < |items| && k < |items[d].relocations|
    ensures FunctionsIn(items, chosen, d, k) == FunctionsIn(items, chosen, d, k + 1)
    ensures DataIn(items, chosen, d, k) == DataIn(items, chosen, d, k + 1)
  {
    hide Patchable, SeenIn, Patched, Done;
    forall q | 0 <= q < |chosen|
      ensures Done(items, chosen[q], d, k) == Done(items, chosen[q], d, k + 1)
    {
      DoneStep(items, chosen[q], d, k);
    }
  }

  /** A limit can move over definitions that have no relocations, or all of them. */
  lemma LimitMoves(items: seq<Item>, chosen: seq<nat>, l: nat, k: nat, m: nat)
    requires Listed(items, chosen) && l <= m
    requires l < |items| ==> k <= |items[l].relocations|
    requires forall i :: l < i < m && i < |items| ==> items[i].relocations == []
    requires l < m && l < |items| ==> k == |items[l].relocations|
    requires l == m ==> k == 0
    ensures FunctionsIn(items, chosen, l, k) == FunctionsIn(items, chosen, m, 0)
    ensures DataIn(items, chosen, l, k) == DataIn(items, chosen, m, 0)
  {
    hide Patchable, Patched, SeenIn;
    forall q | 0 <= q < |chosen|
      ensures Done(items, chosen[q], l, k) == Done(items, chosen[q], m, 0)
    {
      assert |SeenIn(items[chosen[q]])| == |items[chosen[q]].relocations|;
    }
  }

  // ---------------------------------------------------------------- what the reader sees of a written object

  /** The reader has seen the sections and symbols of a written object, within its limits. */
  ghost predicate Given(bytes: seq<Byte>, w: Written, sections: seq<ReadSection>, symbols: seq<ReadSymbol>) {
    && Readable(bytes, w) && WithinLimits(bytes, w) && TargetsNamed(w.a)
    && |w.offsets| == |w.o.contents| && sections == ReadsOf(w) && symbols == ReadSymbolsOf(w.o.symbols)
  }

  /** What a definition's section says of it. */
  ghost predicate BodyIs(bytes: seq<Byte>, section: ReadSection, item: Item) {
    && Patchable(item.body, item.relocations)
    && (section.kind != SHT_NOBITS ==> section.offset + section.size <= |bytes|)
    && Contents(bytes, section) == Patched(item.body, item.relocations) && section.size == |item.body|
    && IsAllocated(section.flags) && (section.kind == SHT_NOBITS || section.kind == SHT_PROGBITS)
    && (IsCode(section.flags) <==> item.code) && (!item.code ==> (IsWritable(section.flags) <==> !item.readOnly))
    && section.align == item.align && (item.relocations != [] ==> section.kind == SHT_PROGBITS)
  }

  lemma BodyFrom(bytes: seq<Byte>, item: Item, offset: nat)
    requires Patchable(item.body, item.relocations)
    requires SectionOf(item).kind != SHT_NOBITS ==>
      offset + |SectionOf(item).data| <= |bytes| && bytes[offset..offset + |SectionOf(item).data|] == SectionOf(item).data
    ensures BodyIs(bytes, ReadOf(SectionOf(item), offset), item)
  {
    hide SectionName, SitesDistinct;
    if IsBss(item) {
      assert Zeros(|item.body|) == item.body;
    }
  }

  lemma BodyReads(bytes: seq<Byte>, w: Written, d: nat)
    requires Readable(bytes, w) && d < |Items(w.a)| && |w.offsets| == |w.o.contents|
    ensures d + 1 < |w.o.contents| && BodyIs(bytes, ReadsOf(w)[d + 1], Items(w.a)[d])
  {
    hide Typed, Validate, NulFree, Describes, Laid, Items, Patchable, SectionOf, BodyIs;
    FileShape(bytes, w);
    ObjectShape(w.a, w.o);
    ContentIs(w.a, w.o, d + 1);
    SectionRaw(bytes, w, d + 1);
    BodyFrom(bytes, Items(w.a)[d], w.offsets[d + 1]);
  }

  /** The symbol of a definition is one the reader accepts, and gives back the definition. */
  lemma DefinitionSeen(bytes: seq<Byte>, w: Written, sections: seq<ReadSection>, symbols: seq<ReadSymbol>, s: nat)
    requires Given(bytes, w, sections, symbols) && 0 < s <= |w.o.order|
    ensures s < |symbols| && w.o.order[s - 1] < |Items(w.a)|
    ensures DefinitionFine(sections, symbols[s]) && symbols[s].section == w.o.order[s - 1] + 1 < |sections|
    ensures BodyIs(bytes, sections[symbols[s].section], Items(w.a)[w.o.order[s - 1]])
    ensures var item := Items(w.a)[w.o.order[s - 1]];
      && symbols[s].name == item.name && (symbols[s].kind == STT_FUNC <==> item.code)
      && (symbols[s].bind == STB_LOCAL <==> item.name in Locals(w.a))
  {
    hide Typed, Validate, NulFree, Describes, Laid, Items, Patchable, Locals, Contents, IsAllocated, IsCode, IsWritable, ReadsOf;
    ObjectShape(w.a, w.o);
    var d := w.o.order[s - 1];
    assert w.o.symbols[1 + (s - 1)] == SymbolOf(w.a, d);
    BodyReads(bytes, w, d);
  }

  lemma UndefinedSeen(bytes: seq<Byte>, w: Written, sections: seq<ReadSection>, symbols: seq<ReadSymbol>, s: nat)
    requires Given(bytes, w, sections, symbols) && |w.o.order| < s < |symbols|
    ensures DefinitionFine(sections, symbols[s]) && symbols[s].section == 0
  {
    hide Typed, Validate, NulFree, Describes, Laid, ReadsOf;
    ObjectShape(w.a, w.o);
    var u := s - 1 - |w.o.order|;
    assert w.o.symbols[1 + |w.o.order| + u] == Undefined(w.o.undefined[u]);
    assert IsUndefined(Items(w.a), w.o.undefined[u]);
    var i, k :| 0 <= i < |Items(w.a)| && 0 <= k < |Items(w.a)[i].relocations| && Items(w.a)[i].relocations[k].target == w.o.undefined[u];
    assert TargetsNamedIn(Items(w.a)[i]);
  }

  lemma GivenShape(bytes: seq<Byte>, w: Written, sections: seq<ReadSection>, symbols: seq<ReadSymbol>)
    requires Given(bytes, w, sections, symbols)
    ensures AllPatchable(Items(w.a)) && Permutes(w.o.order, |Items(w.a)|) && |symbols| >= 1 + |w.o.order|
    ensures Describes(w.a, w.o) && Validate(w.a) && DistinctItems(Items(w.a)) && |sections| == |w.o.contents|
  {
    hide Typed, Validate, NulFree, Describes, Laid, Items, SymbolTables, IsUndefined, AllPatchable, Permutes, DistinctItems;
    ObjectShape(w.a, w.o);
    ItemsDistinct(w.a);
  }

  /** Definitions have sections, and the symbols after them have none. */
  lemma DefinedSection(bytes: seq<Byte>, w: Written, sections: seq<ReadSection>, symbols: seq<ReadSymbol>, s: nat)
    requires Given(bytes, w, sections, symbols) && 0 < s < |symbols|
    ensures symbols[s].section == 0 <==> s > |w.o.order|
    ensures s > |w.o.order| ==> DefinitionFine(sections, symbols[s])
  {
    hide Given, BodyIs, DefinitionFine;
    if s <= |w.o.order| {
      DefinitionSeen(bytes, w, sections, symbols, s);
    } else {
      UndefinedSeen(bytes, w, sections, symbols, s);
    }
  }

  /** What the reader adds for a symbol is the definition that the symbol was written for. */
  lemma DefinitionStep(bytes: seq<Byte>, w: Written, sections: seq<ReadSection>, symbols: seq<ReadSymbol>, s: nat,
                       owners: map<nat, nat>, names: set<Name>, functions: seq<Function>, data: seq<Data>)
    requires Given(bytes, w, sections, symbols) && 0 < s <= |w.o.order|
    requires Rebuilt(w.a, w.o.order, s - 1, owners, names, functions, data)
    ensures s < |symbols| && DefinitionFine(sections, symbols[s]) && 0 < symbols[s].section < |sections| && symbols[s].section !in owners
    ensures var symbol, section := symbols[s], sections[symbols[s].section];
      && (section.kind != SHT_NOBITS ==> section.offset + section.size <= |bytes|)
      && Rebuilt(w.a, w.o.order, s, owners[symbol.section := s], if symbol.bind == STB_LOCAL then names + {symbol.name} else names,
        if symbol.kind == STT_FUNC then functions + [Function(symbol.name, Contents(bytes, section), [])] else functions,
        if symbol.kind == STT_FUNC then data
        else data + [Data(symbol.name, Contents(bytes, section), if section.align == 0 then 1 else section.align, !IsWritable(section.flags), [])])
  {
    hide Given, Rebuilt, DefinitionFine, Permutes, Items, Locals, AllPatchable, DistinctItems, Describes, Validate;
    hide IsAllocated, IsCode, IsWritable, Contents, Patchable;
    GivenShape(bytes, w, sections, symbols);
    DefinitionSeen(bytes, w, sections, symbols, s);
    RebuiltMore(w.a, w.o.order, s - 1, owners, names, functions, data);
  }

  // ---------------------------------------------------------------- relocation sections

  lemma KindsOf(a: Artifact, o: Object, i: nat)
    requires Describes(a, o) && i < |o.contents|
    ensures o.contents[i].kind == SHT_REL <==> |Items(a)| + 3 <= i < |o.contents| - 1
  {
    hide Describes, Patched, Patchable, SectionName, RelContent, Items;
    ContentIs(a, o, i);
    ObjectShape(a, o);
    if |Items(a)| + 3 <= i < |o.contents| - 1 {
      var d := o.patched[i - (|Items(a)| + 3)];
      RelParts(o.contents[i], Items(a)[d], d, o.symbols, |Items(a)| + 1);
    }
  }

  function KindOf(item: Item): nat {
    if item.code then STT_FUNC else STT_OBJECT
  }

  /** A relocation section of a written object belongs to the symbol that owns its target section. */
  lemma RelationSeen(bytes: seq<Byte>, w: Written, sections: seq<ReadSection>, symbols: seq<ReadSymbol>, j: nat, owners: map<nat, nat>)
    requires Given(bytes, w, sections, symbols) && j < |w.o.patched| && Owned(w.o.order, |w.o.order|, owners)
    ensures w.o.patched[j] < |Items(w.a)|
    ensures var n, d := |Items(w.a)|, w.o.patched[j];
      RelationIs(bytes, sections, symbols, n + 1, owners, n + 3 + j, d + 1, |Items(w.a)[d].relocations|, Items(w.a)[d].name,
                 KindOf(Items(w.a)[d]))
  {
    hide Typed, Validate, NulFree, Describes, Laid, Items, RelContent, SymbolTables, IsUndefined, AllPatchable, Permutes, Owned;
    hide SymbolOf, SectionName, WithinLimits, TargetsNamed, Symbols, Relocated, KindOf, RawSection;
    ObjectShape(w.a, w.o);
    FileShape(bytes, w);
    var n, d := |Items(w.a)|, w.o.patched[j];
    ContentIs(w.a, w.o, n + 3 + j);
    RelParts(w.o.contents[n + 3 + j], Items(w.a)[d], d, w.o.symbols, n + 1);
    SectionRaw(bytes, w, n + 3 + j);
    OwnerIs(w.a, w.o, d, owners);
    SymbolOfParts(w.a, d);
  }

  lemma OwnerIs(a: Artifact, o: Object, d: nat, owners: map<nat, nat>)
    requires Describes(a, o) && Owned(o.order, |o.order|, owners) && d < |Items(a)|
    ensures d + 1 in owners && 0 < owners[d + 1] < |o.symbols| && o.symbols[owners[d + 1]] == SymbolOf(a, d)
  {
    hide Describes, Items, SymbolTables, IsUndefined, AllPatchable, SymbolOf, Permutes, Owned;
    ObjectShape(a, o);
    var p := OrderHas(o.order, |Items(a)|, d);
    OwnerAt(o.order, owners, p);
    assert o.symbols[1 + p] == SymbolOf(a, d);
  }

  lemma OrderHas(order: seq<nat>, n: nat, d: nat) returns (p: nat)
    requires Permutes(order, n) && d < n
    ensures p < |order| && order[p] == d
  {
    assert d in order;
    p :| 0 <= p < |order| && order[p] == d;
  }

  lemma OwnerAt(order: seq<nat>, owners: map<nat, nat>, p: nat)
    requires Owned(order, |order|, owners) && p < |order|
    ensures order[p] + 1 in owners && owners[order[p] + 1] == p + 1
  {
  }

  lemma SymbolOfParts(a: Artifact, i: nat)
    requires i < |Items(a)|
    ensures SymbolOf(a, i).name == Items(a)[i].name && SymbolOf(a, i).kind == KindOf(Items(a)[i])
  {
  }

  /** A record reads back, and the addend is in its site. */
  lemma RecordSeen(bytes: seq<Byte>, w: Written, sections: seq<ReadSection>, symbols: seq<ReadSymbol>, j: nat, k: nat)
    requires |sections| == |Items(w.a)| + 4 + |w.o.patched| && j < |w.o.patched| && w.o.patched[j] < |Items(w.a)|
    requires var item := Items(w.a)[w.o.patched[j]]; Patchable(item.body, item.relocations) && k < |item.relocations|
    requires Given(bytes, w, sections, symbols)
    ensures var n, d := |Items(w.a)|, w.o.patched[j];
      var r := SeenIn(Items(w.a)[d])[k];
      && RecordIs(bytes, sections[n + 3 + j].offset + 8 * k, symbols, r.offset, r.target)
      && r.target != [] && AddendIs(bytes, sections[d + 1], r.offset, r.addend)
  {
    hide Typed, Validate, NulFree, Describes, Laid, Items, RecordIs, AddendIs, Patchable, Held, Patched;
    GivenShape(bytes, w, sections, symbols);
    SymbolsBounded(bytes, w);
    RecordFields(bytes, w, j, k);
    AddendReads(bytes, w, w.o.patched[j], k);
    assert TargetsNamedIn(Items(w.a)[w.o.patched[j]]);
  }

  lemma RecordFields(bytes: seq<Byte>, w: Written, j: nat, k: nat)
    requires Readable(bytes, w) && |w.o.symbols| <= 0x100_0000 && j < |w.o.patched| && w.o.patched[j] < |Items(w.a)|
    requires k < |Items(w.a)[w.o.patched[j]].relocations| && |w.offsets| == |w.o.contents|
    ensures |w.offsets| == |Items(w.a)| + 4 + |w.o.patched|
    ensures var r := Items(w.a)[w.o.patched[j]].relocations[k];
      RecordIs(bytes, w.offsets[|Items(w.a)| + 3 + j] + 8 * k, ReadSymbolsOf(w.o.symbols), r.offset, r.target)
  {
    hide Typed, Validate, NulFree, Describes, Laid, Items, RelContent, RecordIs, SymbolTables, IsUndefined, AllPatchable, Permutes;
    hide SectionName, Symbols, Relocated, RelRecord, Has, TypedRelocation, RawSection;
    var n, d := |Items(w.a)|, w.o.patched[j];
    ObjectShape(w.a, w.o);
    ContentIs(w.a, w.o, n + 3 + j);
    RelHas(w.o.contents[n + 3 + j], Items(w.a)[d], d, w.o.symbols, n + 1, k);
    var c, r := w.o.contents[n + 3 + j], Items(w.a)[d].relocations[k];
    var index :| 0 < index < |w.o.symbols| && w.o.symbols[index].name == r.target && Has(c.data, 8 * k, RelRecord(r.offset, index));
    SectionRaw(bytes, w, n + 3 + j);
    ItemsTyped(w.a, d);
    RecordFrom(bytes, w.offsets[n + 3 + j], c.data, k, r, w.o.symbols, index);
  }

  lemma RelHas(c: Content, item: Item, i: nat, symbols: seq<Symbol>, symtab: nat, k: nat)
    requires RelContent(c, item, i, symbols, symtab) && k < |item.relocations|
    ensures c.kind == SHT_REL
    ensures exists index :: 0 < index < |symbols| && symbols[index].name == item.relocations[k].target
                            && Has(c.data, 8 * k, RelRecord(item.relocations[k].offset, index))
  {
    hide RelTabled, SectionName, RelRecord, Has;
    var indices :| RelTabled(c.data, item.relocations, symbols, indices);
    RelTabledAt(c.data, item.relocations, symbols, indices, k);
  }

  lemma RecordFrom(bytes: seq<Byte>, at: nat, table: seq<Byte>, k: nat, r: Relocation, symbols: seq<Symbol>, index: nat)
    requires at + |table| <= |bytes| && bytes[at..at + |table|] == table && Has(table, 8 * k, RelRecord(r.offset, index))
    requires TypedRelocation(r) && index < |symbols| <= 0x100_0000 && symbols[index].name == r.target
    ensures RecordIs(bytes, at + 8 * k, ReadSymbolsOf(symbols), r.offset, r.target)
  {
    hide RelRecord, Value, ValidUtf8;
    SliceHas(bytes, at, table);
    HasPart(bytes, at, table, 8 * k, RelRecord(r.offset, index));
    RelFields(bytes, at + 8 * k, r.offset, index);
    FieldIs(bytes, at + 8 * k, 4, r.offset);
    FieldIs(bytes, at + 8 * k + 4, 4, index * 256 + R_SIA32_ABS32);
  }

  lemma RelTabledAt(table: seq<Byte>, rs: seq<Relocation>, symbols: seq<Symbol>, indices: seq<nat>, k: nat)
    requires RelTabled(table, rs, symbols, indices) && k < |rs|
    ensures |indices| == |rs| && 0 < indices[k] < |symbols| && symbols[indices[k]].name == rs[k].target
    ensures Has(table, 8 * k, RelRecord(rs[k].offset, indices[k]))
  {
  }

  lemma AddendReads(bytes: seq<Byte>, w: Written, d: nat, k: nat)
    requires Readable(bytes, w) && d < |Items(w.a)| && k < |Items(w.a)[d].relocations| && |w.offsets| == |w.o.contents|
    ensures d + 1 < |w.o.contents| && Patchable(Items(w.a)[d].body, Items(w.a)[d].relocations)
    ensures AddendIs(bytes, ReadsOf(w)[d + 1], SeenIn(Items(w.a)[d])[k].offset, SeenIn(Items(w.a)[d])[k].addend)
  {
    hide Typed, Validate, NulFree, Describes, Laid, Items, ReadsOf, AddendIs, Patchable, SeenIn, Contents, IsAllocated, IsCode, IsWritable;
    BodyReads(bytes, w, d);
    AddendFrom(bytes, ReadsOf(w)[d + 1], Items(w.a)[d], k);
  }

  /** A site in the file holds what the patched body holds there. */
  lemma AddendFrom(bytes: seq<Byte>, target: ReadSection, item: Item, k: nat)
    requires BodyIs(bytes, target, item) && k < |item.relocations|
    ensures AddendIs(bytes, target, SeenIn(item)[k].offset, SeenIn(item)[k].addend)
  {
    hide Value, Patched, IsAllocated, IsCode, IsWritable, SitesDistinct;
    var at, body := item.relocations[k].offset, Patched(item.body, item.relocations);
    assert |body| == target.size && at + 4 <= |body|;
    SliceOfSlice(bytes, target.offset, target.size, at);
  }

  lemma SliceOfSlice(bytes: seq<Byte>, offset: nat, size: nat, at: nat)
    requires at + 4 <= size && offset + size <= |bytes|
    ensures bytes[offset..offset + size][at..at + 4] == bytes[offset + at..offset + at + 4]
  {
    var s, a, b := bytes[offset..offset + size], bytes[offset..offset + size][at..at + 4], bytes[offset + at..offset + at + 4];
    forall k | 0 <= k < 4
      ensures a[k] == b[k]
    {
      assert a[k] == s[at + k];
    }
  }

  // ---------------------------------------------------------------- how far the relocations are read

  /** Definitions below this are complete before section i is read. */
  function LimitAt(o: Object, n: nat, i: nat): nat {
    if i <= n + 3 || o.patched == [] then 0
    else if i - (n + 3) <= |o.patched| then o.patched[i - (n + 3) - 1] + 1
    else o.patched[|o.patched| - 1] + 1
  }

  ghost predicate Progress(w: Written, i: nat, functions: seq<Function>, data: seq<Data>) {
    var items := Items(w.a);
    && (forall j :: 0 <= j < |w.o.order| ==> w.o.order[j] < |items|)
    && AtLimit(items, w.o.order, LimitAt(w.o, |items|, i), 0, functions, data)
  }

  ghost predicate AtLimit(items: seq<Item>, order: seq<nat>, limit: nat, k: nat, functions: seq<Function>, data: seq<Data>)
    requires forall j :: 0 <= j < |order| ==> order[j] < |items|
  {
    var codes, objects := Chosen(items, order, true), Chosen(items, order, false);
    && Listed(items, codes) && functions == FunctionsIn(items, codes, limit, k)
    && Listed(items, objects) && data == DataIn(items, objects, limit, k)
  }

  lemma AtLimitMoves(items: seq<Item>, order: seq<nat>, l: nat, k: nat, m: nat, functions: seq<Function>, data: seq<Data>)
    requires (forall j :: 0 <= j < |order| ==> order[j] < |items|) && AtLimit(items, order, l, k, functions, data) && l <= m
    requires l < |items| ==> k <= |items[l].relocations|
    requires forall i :: l < i < m && i < |items| ==> items[i].relocations == []
    requires l < m && l < |items| ==> k == |items[l].relocations|
    requires l == m ==> k == 0
    ensures AtLimit(items, order, m, 0, functions, data)
  {
    hide Listed, FunctionsIn, DataIn;
    LimitMoves(items, Chosen(items, order, true), l, k, m);
    LimitMoves(items, Chosen(items, order, false), l, k, m);
  }

  /** The next relocation of definition d. */
  lemma AtLimitGets(items: seq<Item>, order: seq<nat>, d: nat, k: nat, functions: seq<Function>, data: seq<Data>)
    requires Permutes(order, |items|) && DistinctItems(items) && d < |items| && k < |items[d].relocations|
    requires AtLimit(items, order, d, k, functions, data) && Patchable(items[d].body, items[d].relocations)
    ensures var r := SeenIn(items[d])[k];
      AtLimit(items, order, d, k + 1, if items[d].code then PushedFunction(functions, items[d].name, r) else functions,
              if items[d].code then data else PushedData(data, items[d].name, r))
  {
    hide Listed, FunctionsIn, DataIn, DistinctItems, SeenIn, Patchable;
    var codes, objects := Chosen(items, order, true), Chosen(items, order, false);
    ChosenFacts(items, order, true);
    ChosenFacts(items, order, false);
    if items[d].code {
      FunctionGets(items, codes, d, k);
      OthersKeep(items, objects, d, k);
    } else {
      DataGets(items, objects, d, k);
      OthersKeep(items, codes, d, k);
    }
  }

  /** From one relocation section to the next there is nothing to relocate. */
  lemma ProgressTo(w: Written, j: nat, functions: seq<Function>, data: seq<Data>)
    requires Describes(w.a, w.o) && j < |w.o.patched| && Progress(w, |Items(w.a)| + 3 + j, functions, data)
    ensures forall i :: 0 <= i < |w.o.order| ==> w.o.order[i] < |Items(w.a)|
    ensures w.o.patched[j] < |Items(w.a)| && AtLimit(Items(w.a), w.o.order, w.o.patched[j], 0, functions, data)
  {
    hide Describes, AtLimit, Items, Permutes;
    ObjectShape(w.a, w.o);
    ElfTables.RelocatedBelow(Items(w.a));
    var l := LimitAt(w.o, |Items(w.a)|, |Items(w.a)| + 3 + j);
    Gap(Items(w.a), l, w.o.patched[j], j);
    AtLimitMoves(Items(w.a), w.o.order, l, 0, w.o.patched[j], functions, data);
  }

  lemma Gap(items: seq<Item>, l: nat, m: nat, j: nat)
    requires j < |Relocated(items)| && m == Relocated(items)[j] && l == if j == 0 then 0 else Relocated(items)[j - 1] + 1
    ensures l <= m < |items| && forall i :: l <= i < m ==> items[i].relocations == []
  {
    ElfTables.RelocatedBelow(items);
    var r := Relocated(items);
    assert forall i :: i in r ==> i < l || m <= i;
  }

  lemma ProgressAfter(w: Written, j: nat, functions: seq<Function>, data: seq<Data>)
    requires Describes(w.a, w.o) && j < |w.o.patched| && w.o.patched[j] < |Items(w.a)| && Permutes(w.o.order, |Items(w.a)|)
    requires AtLimit(Items(w.a), w.o.order, w.o.patched[j], |Items(w.a)[w.o.patched[j]].relocations|, functions, data)
    ensures Progress(w, |Items(w.a)| + 3 + j + 1, functions, data)
  {
    hide Describes, AtLimit, Items;
    var d := w.o.patched[j];
    AtLimitMoves(Items(w.a), w.o.order, d, |Items(w.a)[d].relocations|, d + 1, functions, data);
  }

  /** When all sections are read, every definition is complete. */
  lemma ProgressEnd(w: Written, functions: seq<Function>, data: seq<Data>)
    requires Describes(w.a, w.o) && Progress(w, |w.o.contents|, functions, data)
    ensures AtLimit(Items(w.a), w.o.order, |Items(w.a)|, 0, functions, data)
  {
    hide Describes, AtLimit, Items, Permutes;
    ObjectShape(w.a, w.o);
    var items, r := Items(w.a), w.o.patched;
    ElfTables.RelocatedBelow(items);
    var l := LimitAt(w.o, |items|, |w.o.contents|);
    assert forall i :: i in r ==> i < l;
    AtLimitMoves(items, w.o.order, l, 0, |items|, functions, data);
  }

  /** Before the first relocation section nothing is relocated, and sections of other kinds change nothing. */
  lemma ProgressSkips(w: Written, i: nat, functions: seq<Function>, data: seq<Data>)
    requires Describes(w.a, w.o) && i < |w.o.contents| && Progress(w, i, functions, data) && w.o.contents[i].kind != SHT_REL
    ensures Progress(w, i + 1, functions, data)
  {
    hide Describes, AtLimit, Items, Permutes;
    ObjectShape(w.a, w.o);
    KindsOf(w.a, w.o, i);
  }

  lemma ProgressStarts(w: Written, owners: map<nat, nat>, names: set<Name>, functions: seq<Function>, data: seq<Data>)
    requires Rebuilt(w.a, w.o.order, |w.o.order|, owners, names, functions, data)
    ensures Progress(w, 0, functions, data)
  {
    hide Owned, LocalNames, AllPatchable, Items, Listed, FunctionsIn, DataIn, Chosen;
    assert w.o.order[..|w.o.order|] == w.o.order;
  }

  /** Section j of relocations of a written object, about to be read. */
  ghost predicate RecordsOf(bytes: seq<Byte>, w: Written, sections: seq<ReadSection>, symbols: seq<ReadSymbol>, j: nat,
                            section: ReadSection, target: ReadSection, owner: ReadSymbol, functions: seq<Function>, data: seq<Data>) {
    && Given(bytes, w, sections, symbols) && j < |w.o.patched| && w.o.patched[j] < |Items(w.a)|
    && (forall i :: 0 <= i < |w.o.order| ==> w.o.order[i] < |Items(w.a)|)
    && |sections| == |Items(w.a)| + 4 + |w.o.patched|
    && section == sections[|Items(w.a)| + 3 + j] && section.size == 8 * |Items(w.a)[w.o.patched[j]].relocations|
    && target == sections[w.o.patched[j] + 1]
    && owner.name == Items(w.a)[w.o.patched[j]].name && owner.kind == KindOf(Items(w.a)[w.o.patched[j]])
    && AtLimit(Items(w.a), w.o.order, w.o.patched[j], 0, functions, data)
  }

  /** The first k relocations of the owner of relocation section j are read. */
  ghost predicate RecordsRead(w: Written, j: nat, k: nat, functions: seq<Function>, data: seq<Data>) {
    && j < |w.o.patched| && w.o.patched[j] < |Items(w.a)|
    && (forall i :: 0 <= i < |w.o.order| ==> w.o.order[i] < |Items(w.a)|)
    && AtLimit(Items(w.a), w.o.order, w.o.patched[j], k, functions, data)
  }

  lemma NoRecordRead(bytes: seq<Byte>, w: Written, sections: seq<ReadSection>, symbols: seq<ReadSymbol>, j: nat,
                     section: ReadSection, target: ReadSection, owner: ReadSymbol, functions: seq<Function>, data: seq<Data>)
    requires RecordsOf(bytes, w, sections, symbols, j, section, target, owner, functions, data)
    ensures RecordsRead(w, j, 0, functions, data)
  {
    hide Given, AtLimit, Items;
  }

  /** The next record of the section gives its owner the next relocation. */
  lemma NextRecord(bytes: seq<Byte>, w: Written, sections: seq<ReadSection>, symbols: seq<ReadSymbol>, j: nat, section: ReadSection,
                   target: ReadSection, owner: ReadSymbol, functions0: seq<Function>, data0: seq<Data>, k: nat,
                   functions: seq<Function>, data: seq<Data>)
    returns (r: Relocation)
    requires RecordsOf(bytes, w, sections, symbols, j, section, target, owner, functions0, data0)
    requires k < section.size / 8 && RecordsRead(w, j, k, functions, data)
    ensures RecordIs(bytes, section.offset + 8 * k, symbols, r.offset, r.target) && r.target != []
    ensures AddendIs(bytes, target, r.offset, r.addend) && (owner.kind == STT_FUNC || owner.kind == STT_OBJECT)
    ensures RecordsRead(w, j, k + 1, if owner.kind == STT_FUNC then PushedFunction(functions, owner.name, r) else functions,
                        if owner.kind == STT_FUNC then data else PushedData(data, owner.name, r))
  {
    hide Given, AtLimit, Items, RecordIs, AddendIs, Permutes, DistinctItems, Patchable, Describes, Validate, PushedFunction, PushedData;
    GivenShape(bytes, w, sections, symbols);
    RecordSeen(bytes, w, sections, symbols, j, k);
    AtLimitGets(Items(w.a), w.o.order, w.o.patched[j], k, functions, data);
    r := SeenIn(Items(w.a)[w.o.patched[j]])[k];
  }

  /** The symbols of a written object are read, and its definitions rebuilt. */
  ghost predicate Defined(bytes: seq<Byte>, w: Written, sections: seq<ReadSection>, symbols: seq<ReadSymbol>, symtab: nat,
                          owners: map<nat, nat>, locals: set<Name>, functions: seq<Function>, data: seq<Data>) {
    && Given(bytes, w, sections, symbols) && symtab == |Items(w.a)| + 1
    && Rebuilt(w.a, w.o.order, |w.o.order|, owners, locals, functions, data)
  }

  lemma OtherSection(bytes: seq<Byte>, w: Written, sections: seq<ReadSection>, symbols: seq<ReadSymbol>, i: nat,
                     functions: seq<Function>, data: seq<Data>)
    requires Given(bytes, w, sections, symbols) && i < |sections| && sections[i].kind != SHT_REL && Progress(w, i, functions, data)
    ensures Progress(w, i + 1, functions, data)
  {
    hide Progress, Typed, Validate, NulFree, Describes, Laid;
    ProgressSkips(w, i, functions, data);
  }

  lemma RecordsReady(bytes: seq<Byte>, w: Written, sections: seq<ReadSection>, symbols: seq<ReadSymbol>, j: nat, owners: map<nat, nat>,
                     functions: seq<Function>, data: seq<Data>)
    requires Given(bytes, w, sections, symbols) && j < |w.o.patched| && w.o.patched[j] < |Items(w.a)|
    requires forall i :: 0 <= i < |w.o.order| ==> w.o.order[i] < |Items(w.a)|
    requires |sections| == |Items(w.a)| + 4 + |w.o.patched|
    requires RelationIs(bytes, sections, symbols, |Items(w.a)| + 1, owners, |Items(w.a)| + 3 + j, w.o.patched[j] + 1,
                        |Items(w.a)[w.o.patched[j]].relocations|, Items(w.a)[w.o.patched[j]].name, KindOf(Items(w.a)[w.o.patched[j]]))
    requires AtLimit(Items(w.a), w.o.order, w.o.patched[j], 0, functions, data)
    ensures var r := sections[|Items(w.a)| + 3 + j];
      && RelFine(sections, |Items(w.a)| + 1, r) && r.info in owners && r.info < |sections| && owners[r.info] < |symbols|
      && RecordsOf(bytes, w, sections, symbols, j, r, sections[r.info], symbols[owners[r.info]], functions, data)
  {
    hide Given, AtLimit, Items, KindOf, RelFine;
  }

  lemma KindsSeen(bytes: seq<Byte>, w: Written, sections: seq<ReadSection>, symbols: seq<ReadSymbol>, i: nat)
    requires Given(bytes, w, sections, symbols) && i < |sections|
    ensures sections[i].kind == SHT_REL <==> |Items(w.a)| + 3 <= i < |sections| - 1
    ensures |sections| == |Items(w.a)| + 4 + |w.o.patched|
  {
    hide Typed, Validate, NulFree, Describes, Laid, Items, SymbolTables, IsUndefined, Symbols, Permutes, AllPatchable, Relocated;
    ObjectShape(w.a, w.o);
    KindsOf(w.a, w.o, i);
  }

  lemma OwnersOf(w: Written, owners: map<nat, nat>, names: set<Name>, functions: seq<Function>, data: seq<Data>)
    requires Rebuilt(w.a, w.o.order, |w.o.order|, owners, names, functions, data)
    ensures Owned(w.o.order, |w.o.order|, owners)
  {
  }
}
