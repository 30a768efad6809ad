/** What the writer of SIA ELF objects keeps while it collects sections, symbols and names. */
module ElfSteps {
  import opened Artifacts
  import opened Bytes
  import opened LittleEndian
  import opened BundleFormat
  import opened ElfFormat
  import opened ElfObject

  /** Field widths and strings, as the source's types have them. */
  ghost predicate TypedItem(item: Item) {
    ValidUtf8(item.name) && item.align < WORD_LIMIT && AllTyped(item.relocations)
  }

  lemma ItemsTyped(a: Artifact, i: nat)
    requires Typed(a) && i < |Items(a)|
    ensures TypedItem(Items(a)[i])
  {
    if i >= |a.functions| {
      assert Items(a)[|a.functions| + (i - |a.functions|)] == OfObject(a.data[i - |a.functions|]);
    }
  }

  predicate NulFree(a: Artifact) {
    forall i :: 0 <= i < |Items(a)| ==> NulFreeItem(Items(a)[i])
  }

  predicate NulFreeItem(item: Item) {
    0 !in item.name && forall k :: 0 <= k < |item.relocations| ==> 0 !in item.relocations[k].target
  }

  predicate DistinctItems(items: seq<Item>) {
    forall i, j :: 0 <= i < j < |items| ==> items[i].name != items[j].name
  }

  lemma ItemsDistinct(a: Artifact)
    requires Validate(a)
    ensures DistinctItems(Items(a))
  {
    assert Unique(Sections(a));
    hide Items, Sections, Validate;
    forall i | 0 <= i < |Items(a)|
      ensures i < |Sections(a)| && Items(a)[i].name == Sections(a)[i].name
    {
      ItemNamed(a, i);
    }
  }

  lemma ItemNamed(a: Artifact, i: nat)
    requires i < |Items(a)|
    ensures i < |Sections(a)| && Items(a)[i].name == Sections(a)[i].name
  {
    if i >= |a.functions| {
      assert Items(a)[|a.functions| + (i - |a.functions|)] == OfObject(a.data[i - |a.functions|]);
    }
  }

  // ---------------------------------------------------------------- patching

  lemma PatchOne(body: seq<Byte>, rs: seq<Relocation>, k: nat)
    requires k < |rs| && Patchable(body, rs[..k])
    requires rs[k].offset + 4 <= |body| && FitsSigned32(rs[k].addend) && forall j :: 0 <= j < k ==> rs[j].offset != rs[k].offset
    ensures Patchable(body, rs[..k + 1])
    ensures Patched(body, rs[..k + 1]) == Patch(Patched(body, rs[..k]), rs[k].offset, Little(rs[k].addend % WORD_LIMIT, 4))
  {
    assert rs[..k + 1][..k] == rs[..k];
  }

  // ---------------------------------------------------------------- collecting definitions

  datatype Definition = Definition(section: nat, size: nat, kind: nat)

  datatype Pending = Pending(section: nat, relocations: seq<Relocation>)

  function DefinitionOf(item: Item, i: nat): Definition {
    Definition(i + 1, |item.body|, if item.code then STT_FUNC else STT_OBJECT)
  }

  ghost predicate Collected(items: seq<Item>, k: nat, contents: seq<Content>, definitions: map<Name, Definition>,
                            pending: seq<Pending>) {
    && k <= |items| && |contents| == k + 1 && contents[0] == NULL_SECTION && |pending| == k
    && (forall i :: 0 <= i < k ==> Patchable(items[i].body, items[i].relocations) && |items[i].body| < WORD_LIMIT)
    && (forall i :: 0 <= i < k ==> contents[i + 1] == SectionOf(items[i]))
    && (forall i :: 0 <= i < k ==> pending[i] == Pending(i + 1, items[i].relocations))
    && (forall i :: 0 <= i < k ==> items[i].name in definitions && definitions[items[i].name] == DefinitionOf(items[i], i))
    && (forall name :: name in definitions ==> exists i :: 0 <= i < k && items[i].name == name)
  }

  lemma CollectOne(items: seq<Item>, k: nat, contents: seq<Content>, definitions: map<Name, Definition>, pending: seq<Pending>)
    requires k < |items| && Collected(items, k, contents, definitions, pending) && DistinctItems(items)
    ensures items[k].name !in definitions && |contents| == k + 1 && |pending| == k
    ensures Patchable(items[k].body, items[k].relocations) && |items[k].body| < WORD_LIMIT ==>
      Collected(items, k + 1, contents + [SectionOf(items[k])], definitions[items[k].name := DefinitionOf(items[k], k)],
                pending + [Pending(k + 1, items[k].relocations)])
  {
    hide SectionOf, Patchable;
  }

  lemma NothingCollected(items: seq<Item>)
    ensures Collected(items, 0, [NULL_SECTION], map[], [])
  {
  }

  lemma AllCollected(items: seq<Item>, contents: seq<Content>, definitions: map<Name, Definition>, pending: seq<Pending>)
    requires Collected(items, |items|, contents, definitions, pending)
    ensures AllPatchable(items) && forall i :: 0 <= i < |items| ==> |items[i].body| < WORD_LIMIT
  {
    hide SectionOf, Patchable;
  }

  /** Targets that no definition has the name of. */
  ghost predicate Missing(items: seq<Item>, names: set<Name>) {
    && (forall name :: name in names ==> IsUndefined(items, name))
    && (forall i, k :: 0 <= i < |items| && 0 <= k < |items[i].relocations| ==>
          items[i].relocations[k].target in names || exists j :: 0 <= j < |items| && items[j].name == items[i].relocations[k].target)
  }

  /** The same of the targets that come before relocation k of definition p. */
  ghost predicate MissingBefore(items: seq<Item>, p: nat, k: nat, names: set<Name>) {
    && (forall name :: name in names ==> IsUndefined(items, name))
    && (forall i, j :: 0 <= i < |items| && 0 <= j < |items[i].relocations| && (i < p || (i == p && j < k)) ==>
          items[i].relocations[j].target in names || exists d :: 0 <= d < |items| && items[d].name == items[i].relocations[j].target)
  }

  lemma MissingOne(items: seq<Item>, p: nat, k: nat, names: set<Name>, before: set<Name>, defined: bool)
    requires p < |items| && k < |items[p].relocations| && MissingBefore(items, p, k, before)
    requires var target := items[p].relocations[k].target;
      && (defined <==> exists d :: 0 <= d < |items| && items[d].name == target)
      && names == if defined then before else before + {target}
    ensures MissingBefore(items, p, k + 1, names)
  {
  }

  /** The definition that a name in the table stands for. */
  lemma NamedItem(a: Artifact, definitions: map<Name, Definition>, contents: seq<Content>, pending: seq<Pending>, name: Name)
    requires Collected(Items(a), |Items(a)|, contents, definitions, pending) && name in definitions
    ensures var d := definitions[name];
      && 0 < d.section <= |Items(a)| && Items(a)[d.section - 1].name == name
      && SymbolOf(a, d.section - 1)
      == Symbol(name, d.size, if name in Locals(a) then STB_LOCAL else STB_GLOBAL, d.kind, d.section)
  {
    hide SectionOf, Patchable;
  }

  // ---------------------------------------------------------------- the order of symbols

  ghost predicate Distinct<T>(s: seq<T>) {
    forall i, j :: 0 <= i < j < |s| ==> s[i] != s[j]
  }

  /** The definitions with these names, local ones or the others. */
  ghost predicate Picks(items: seq<Item>, locals: set<Name>, order: seq<nat>, names: seq<Name>, local: bool) {
    && (forall k :: 0 <= k < |order| ==> Picked(items, locals, order[k], names, local))
    && (forall i: nat :: Picked(items, locals, i, names, local) ==> i in order)
    && Distinct(order)
  }

  ghost predicate Picked(items: seq<Item>, locals: set<Name>, i: nat, names: seq<Name>, local: bool) {
    i < |items| && items[i].name in names && (items[i].name in locals <==> local)
  }

  /** A name more: the definition that has it is the only new candidate. */
  lemma PickedMore(items: seq<Item>, locals: set<Name>, names: seq<Name>, p: nat, i: nat, local: bool, j: nat)
    requires p < |names| && Distinct(names) && DistinctItems(items) && i < |items| && items[i].name == names[p]
    ensures Picked(items, locals, j, names[..p + 1], local)
       <==> Picked(items, locals, j, names[..p], local) || (j == i && (names[p] in locals <==> local))
    ensures !Picked(items, locals, i, names[..p], local)
  {
    assert names[..p + 1] == names[..p] + [names[p]];
    assert names[p] !in names[..p];
  }

  lemma PickOne(items: seq<Item>, locals: set<Name>, order: seq<nat>, names: seq<Name>, p: nat, i: nat, local: bool)
    requires p < |names| && Distinct(names) && DistinctItems(items) && i < |items| && items[i].name == names[p]
    requires Picks(items, locals, order, names[..p], local)
    ensures Picks(items, locals, if names[p] in locals <==> local then order + [i] else order, names[..p + 1], local)
  {
    hide Picked, Distinct, DistinctItems;
    var after := if names[p] in locals <==> local then order + [i] else order;
    forall j: nat
      ensures Picked(items, locals, j, names[..p + 1], local) <==> j in after
    {
      PickedMore(items, locals, names, p, i, local, j);
      assert j in order ==> Picked(items, locals, j, names[..p], local);
    }
    PickedMore(items, locals, names, p, i, local, i);
    assert i !in order;
    MoreDistinct(order, i);
    forall k | 0 <= k < |after|
      ensures Picked(items, locals, after[k], names[..p + 1], local)
    {
      assert after[k] in after;
    }
  }

  lemma MoreDistinct(order: seq<nat>, i: nat)
    requires Distinct(order) && i !in order
    ensures Distinct(order + [i])
  {
  }

  lemma NothingPicked(items: seq<Item>, locals: set<Name>, names: seq<Name>, local: bool)
    ensures Picks(items, locals, [], names[..0], local)
  {
  }

  lemma PicksJoin(a: Artifact, first: seq<nat>, second: seq<nat>, names: seq<Name>)
    requires Picks(Items(a), Locals(a), first, names, true) && Picks(Items(a), Locals(a), second, names, false)
    requires forall i :: 0 <= i < |Items(a)| ==> Items(a)[i].name in names
    ensures Permutes(first + second, |Items(a)|) && LocalsFirst(a, first + second, |first|)
    ensures SymbolsOf(a, first + second) == SymbolsOf(a, first) + SymbolsOf(a, second)
  {
    var order, items, locals := first + second, Items(a), Locals(a);
    forall k | 0 <= k < |order|
      ensures Picked(items, locals, order[k], names, k < |first|)
    {
      assert order[k] == if k < |first| then first[k] else second[k - |first|];
    }
    forall i, j | 0 <= i < j < |order|
      ensures order[i] != order[j]
    {
      if i < |first| <= j {
        assert Picked(items, locals, order[i], names, true) && Picked(items, locals, order[j], names, false);
      }
    }
    forall k: nat | k < |items|
      ensures k in order
    {
      assert Picked(items, locals, k, names, items[k].name in locals);
      assert k in first || k in second;
    }
  }

  /** The symbols of definitions in some order. */
  function SymbolsOf(a: Artifact, order: seq<nat>): (r: seq<Symbol>)
    requires forall k :: 0 <= k < |order| ==> order[k] < |Items(a)|
    ensures |r| == |order|
  {
    seq(|order|, k requires 0 <= k < |order| => SymbolOf(a, order[k]))
  }

  lemma SymbolsMore(a: Artifact, order: seq<nat>, i: nat)
    requires i < |Items(a)| && forall k :: 0 <= k < |order| ==> order[k] < |Items(a)|
    ensures SymbolsOf(a, order + [i]) == SymbolsOf(a, order) + [SymbolOf(a, i)]
  {
  }

  function Undefineds(names: seq<Name>): (r: seq<Symbol>)
    ensures |r| == |names|
  {
    seq(|names|, k requires 0 <= k < |names| => Undefined(names[k]))
  }

  lemma SymbolsInParts(a: Artifact, order: seq<nat>, undefined: seq<Name>)
    requires Permutes(order, |Items(a)|)
    ensures Symbols(a, order, undefined) == [NULL_SYMBOL] + SymbolsOf(a, order) + Undefineds(undefined)
  {
  }

  /** No two symbols but the null one have the same name. */
  lemma SymbolsDistinct(a: Artifact, order: seq<nat>, undefined: seq<Name>, j: nat, k: nat)
    requires DistinctItems(Items(a)) && Permutes(order, |Items(a)|) && Distinct(undefined)
    requires forall u :: 0 <= u < |undefined| ==> forall i :: 0 <= i < |Items(a)| ==> Items(a)[i].name != undefined[u]
    requires 0 < j < k < |Symbols(a, order, undefined)|
    ensures Symbols(a, order, undefined)[j].name != Symbols(a, order, undefined)[k].name
  {
    var symbols := Symbols(a, order, undefined);
    if k - 1 < |order| {
      assert symbols[1 + (j - 1)] == SymbolOf(a, order[j - 1]) && symbols[1 + (k - 1)] == SymbolOf(a, order[k - 1]);
      assert order[j - 1] != order[k - 1];
    } else {
      assert symbols[1 + |order| + (k - 1 - |order|)] == Undefined(undefined[k - 1 - |order|]);
      if j - 1 < |order| {
        assert symbols[1 + (j - 1)] == SymbolOf(a, order[j - 1]);
      } else {
        assert symbols[1 + |order| + (j - 1 - |order|)] == Undefined(undefined[j - 1 - |order|]);
      }
    }
  }

  // ---------------------------------------------------------------- tables

  lemma TabledMore(table: seq<Byte>, symbols: seq<Symbol>, names: seq<nat>, s: Symbol, name: nat)
    requires Tabled(table, symbols, names) && SmallSymbol(s)
    ensures Tabled(table + SymbolRecord(s, name), symbols + [s], names + [name])
  {
    hide SymbolRecord, Has;
    var more := table + SymbolRecord(s, name);
    forall k | 0 <= k < |symbols|
      ensures Has(more, 16 * k, SymbolRecord(symbols[k], names[k]))
    {
      HasAppend(table, 16 * k, SymbolRecord(symbols[k], names[k]), SymbolRecord(s, name));
    }
    HasEnd(table, SymbolRecord(s, name));
  }

  lemma NullTabled()
    ensures Tabled(Zeros(16), [NULL_SYMBOL], [0]) && Named([0], [[]], [0])
  {
    assert Little(0, 2) == [0, 0] by {
      assert Little(0, 1) == [0] + Little(0, 0);
      assert Little(0, 2) == [0] + Little(0, 1);
    }
    assert Little(0, 4) == [0, 0, 0, 0] by {
      assert Little(0, 3) == [0] + Little(0, 2);
      assert Little(0, 4) == [0] + Little(0, 3);
    }
    assert SymbolRecord(NULL_SYMBOL, 0) == Zeros(16);
    assert Has(Zeros(16), 0, Zeros(16));
    assert Has([0], 0, [] + [0]);
  }

  lemma RelMore(table: seq<Byte>, rs: seq<Relocation>, symbols: seq<Symbol>, indices: seq<nat>, k: nat, index: nat)
    requires k < |rs| && RelTabled(table, rs[..k], symbols, indices)
    requires 0 < index < |symbols| && symbols[index].name == rs[k].target
    ensures RelTabled(table + RelRecord(rs[k].offset, index), rs[..k + 1], symbols, indices + [index])
  {
    hide RelRecord, Has;
    var more := table + RelRecord(rs[k].offset, index);
    forall j | 0 <= j < k
      ensures Has(more, 8 * j, RelRecord(rs[j].offset, indices[j]))
    {
      assert rs[..k][j] == rs[j];
      HasAppend(table, 8 * j, RelRecord(rs[j].offset, indices[j]), RelRecord(rs[k].offset, index));
    }
    HasEnd(table, RelRecord(rs[k].offset, index));
  }
}
