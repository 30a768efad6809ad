/** Bounds on the sections of an artifact's object. */
module ElfBounds {
  import opened ElfFormat
  import opened ElfObject
  import opened ElfSizes
  import ElfTables

  /** Sections of definitions, and the null section before them. */
  lemma {:induction false} DefinitionsExtent(items: seq<Item>, contents: seq<Content>)
    requires AllPatchable(items) && |contents| == |items| + 1 && contents[0] == NULL_SECTION
    requires forall i :: 0 <= i < |items| ==> contents[i + 1] == SectionOf(items[i])
    ensures Extent(contents) + RelWeight(items) <= ItemsWeight(items) + 17
    decreases items
  {
    hide Patched, Patchable;
    if items == [] {
      ExtentOne(NULL_SECTION);
      assert contents == [NULL_SECTION];
    } else {
      var n := |items| - 1;
      DefinitionsExtent(items[..n], contents[..n + 1]);
      TitleLength(items[n]);
    }
  }

  lemma TitleLength(item: Item)
    ensures |SectionName(item)| <= |item.name| + 8
  {
  }

  /** What relocation sections can add. */
  function RelWeight(items: seq<Item>): nat {
    if items == [] then 0
    else RelWeight(items[..|items| - 1]) + 8 * |items[|items| - 1].relocations| + |items[|items| - 1].name| + 33
  }

  lemma {:induction false} RelationsExtent(items: seq<Item>, k: nat, rels: seq<Content>, symbols: seq<Symbol>, symtab: nat)
    requires k <= |items| && ElfTables.Related(items, k, rels, symbols, symtab)
    ensures Extent(rels) <= RelWeight(items[..k])
    decreases k
  {
    hide RelContent;
    if k > 0 {
      assert items[..k][..k - 1] == items[..k - 1];
      ElfTables.RelatedBefore(items, k - 1, rels, symbols, symtab);
      if items[k - 1].relocations == [] {
        RelationsExtent(items, k - 1, rels, symbols, symtab);
      } else {
        var m := |rels| - 1;
        RelationsExtent(items, k - 1, rels[..m], symbols, symtab);
        assert Relocated(items[..k])[m] == k - 1;
        RelContentSize(rels[m], items[k - 1], k - 1, symbols, symtab);
      }
    } else {
      assert items[..0] == [];
    }
  }

  lemma RelContentSize(c: Content, item: Item, i: nat, symbols: seq<Symbol>, symtab: nat)
    requires RelContent(c, item, i, symbols, symtab)
    ensures |c.data| + c.align + |c.name| + 17 <= 8 * |item.relocations| + |item.name| + 33
  {
    hide RelRecord, Has;
    TitleLength(item);
  }

  /** All sections but the last. */
  lemma ObjectExtent(items: seq<Item>, definitions: seq<Content>, symtab: Content, strtab: Content, rels: seq<Content>,
                     symbols: seq<Symbol>)
    requires AllPatchable(items) && |definitions| == |items| + 1 && definitions[0] == NULL_SECTION
    requires forall i :: 0 <= i < |items| ==> definitions[i + 1] == SectionOf(items[i])
    requires ElfTables.Related(items, |items|, rels, symbols, |items| + 1)
    requires symtab.name == SYMTAB && symtab.align == 4 && strtab.name == STRTAB && strtab.align == 1
    requires |symtab.data| + |strtab.data| <= 17 + NameWeight(AllNames(items))
    ensures Extent(definitions + [symtab] + [strtab] + rels) <= ItemsWeight(items) + NameWeight(AllNames(items)) + 100
  {
    hide ElfTables.Related, SectionOf, AllPatchable, ItemsWeight, NameWeight, AllNames, RelWeight, Extent;
    DefinitionsExtent(items, definitions);
    RelationsExtent(items, |items|, rels, symbols, |items| + 1);
    assert items[..|items|] == items;
    ExtentOne(symtab);
    ExtentOne(strtab);
    ExtentJoined(definitions, [symtab]);
    ExtentJoined(definitions + [symtab], [strtab]);
    ExtentJoined(definitions + [symtab] + [strtab], rels);
  }
}
