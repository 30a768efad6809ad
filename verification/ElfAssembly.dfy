/** The steps of elf::write put together. */
module ElfAssembly {
  import opened Artifacts
  import opened Bytes
  import opened BundleFormat
  import opened ElfFormat
  import opened ElfObject
  import opened ElfSizes
  import opened ElfSteps
  import opened ElfTables
  import ElfBounds

  /** What is known once the definitions and the symbols are collected. */
  datatype Known = Known(
    a: Artifact, contents: seq<Content>, definitions: map<Name, Definition>, pending: seq<Pending>, undefinedNames: set<Name>,
    order: seq<nat>, locals: nat, undefined: seq<Name>, symbols: seq<Symbol>)

  ghost predicate Sound(k: Known) {
    var items := Items(k.a);
    && DistinctItems(items) && Validate(k.a) && Typed(k.a)
    && Collected(items, |items|, k.contents, k.definitions, k.pending) && |items| < W16
    && Missing(items, k.undefinedNames)
    && Permutes(k.order, |items|) && LocalsFirst(k.a, k.order, k.locals)
    && k.symbols == Symbols(k.a, k.order, k.undefined)
    && Distinct(k.undefined) && (forall x :: x in k.undefined <==> x in k.undefinedNames)
  }

  lemma BodiesWithinBound(a: Artifact)
    ensures Bound(a) < WORD_LIMIT ==> forall i :: 0 <= i < |Items(a)| ==> |Items(a)[i].body| < WORD_LIMIT
  {
    hide Items;
    forall i | 0 <= i < |Items(a)| && Bound(a) < WORD_LIMIT
      ensures |Items(a)[i].body| < WORD_LIMIT
    {
      BodyWithin(Items(a), i);
    }
  }

  /** The symbols can be written. */
  lemma SymbolsReady(k: Known)
    requires Sound(k)
    ensures |k.symbols| > 0 && k.symbols[0] == NULL_SYMBOL && SymbolsApart(k.symbols)
    ensures forall s :: 0 <= s < |k.symbols| ==> SmallSymbol(k.symbols[s])
  {
    hide Collected, Missing, DistinctItems, Validate, Typed, Patchable, SectionOf;
    var items := Items(k.a);
    UndefinedApart(items, k.undefined, k.undefinedNames);
    forall i, j | 0 < i < j < |k.symbols|
      ensures k.symbols[i].name != k.symbols[j].name
    {
      SymbolsDistinct(k.a, k.order, k.undefined, i, j);
    }
    AllCollected(items, k.contents, k.definitions, k.pending);
    forall s | 0 <= s < |k.symbols|
      ensures SmallSymbol(k.symbols[s])
    {
      if 0 < s <= |k.order| {
        assert k.symbols[1 + (s - 1)] == SymbolOf(k.a, k.order[s - 1]);
      } else if s > |k.order| {
        assert k.symbols[1 + |k.order| + (s - 1 - |k.order|)] == Undefined(k.undefined[s - 1 - |k.order|]);
      }
    }
  }

  lemma SymbolNulFree(k: Known, s: nat)
    requires Sound(k) && 0 < s < |k.symbols| && NulFree(k.a)
    ensures 0 !in k.symbols[s].name
  {
    hide Collected, DistinctItems, Validate, Typed, Patchable, SectionOf;
    var items := Items(k.a);
    if s <= |k.order| {
      assert k.symbols[1 + (s - 1)] == SymbolOf(k.a, k.order[s - 1]);
      assert NulFreeItem(items[k.order[s - 1]]);
    } else {
      var u := s - 1 - |k.order|;
      assert k.symbols[1 + |k.order| + u] == Undefined(k.undefined[u]);
      assert k.undefined[u] in k.undefinedNames;
      var i, j :| 0 <= i < |items| && 0 <= j < |items[i].relocations| && items[i].relocations[j].target == k.undefined[u];
      assert NulFreeItem(items[i]);
    }
  }

  /** When the symbols cannot be written, a name has a NUL or the names are too long. */
  lemma SymbolsFail(k: Known)
    requires Sound(k)
    requires (exists s :: 0 < s < |k.symbols| && 0 in k.symbols[s].name) || NameWeight(NamesOf(k.symbols[1..])) + 17 >= WORD_LIMIT
    ensures NulFree(k.a) ==> Bound(k.a) >= WORD_LIMIT
  {
    hide Collected, Missing, DistinctItems, Validate, Typed, NulFree, NameWeight, AllNames, ItemsWeight;
    SymbolNamesWeight(k.a, k.order, k.undefined, k.undefinedNames);
    if NulFree(k.a) && exists s :: 0 < s < |k.symbols| && 0 in k.symbols[s].name {
      var s :| 0 < s < |k.symbols| && 0 in k.symbols[s].name;
      SymbolNulFree(k, s);
    }
  }

  lemma TooMany(k: Known)
    requires Sound(k) && |k.contents| + 1 >= W16
    ensures |Items(k.a)| + 4 >= W16
  {
  }

  /** Different numbers below n are at most n. */
  lemma {:induction false} OrderBelow(order: seq<nat>, n: nat)
    requires forall i :: 0 <= i < |order| ==> order[i] < n
    requires forall i, j :: 0 <= i < j < |order| ==> order[i] != order[j]
    ensures |order| <= n
    decreases n
  {
    if order != [] {
      assert order[0] < n;
      if n - 1 in order {
        var p :| 0 <= p < |order| && order[p] == n - 1;
        OrderBelow(order[..p] + order[p + 1..], n - 1);
      } else {
        assert forall i :: 0 <= i < |order| ==> order[i] in order;
        OrderBelow(order, n - 1);
      }
    }
  }

  /** When no symbol has a NUL, no name of the artifact has. */
  lemma NamesNulFree(k: Known)
    requires Sound(k) && forall s :: 0 < s < |k.symbols| ==> 0 !in k.symbols[s].name
    ensures NulFree(k.a)
  {
    hide Collected, DistinctItems, Validate, Typed, Patchable, SectionOf;
    var items := Items(k.a);
    forall i | 0 <= i < |items|
      ensures NulFreeItem(items[i])
    {
      DefinitionNulFree(k, i);
      forall j | 0 <= j < |items[i].relocations|
        ensures 0 !in items[i].relocations[j].target
      {
        var target := items[i].relocations[j].target;
        if target in k.undefinedNames {
          var u :| 0 <= u < |k.undefined| && k.undefined[u] == target;
          assert k.symbols[1 + |k.order| + u] == Undefined(target);
        } else {
          var d :| 0 <= d < |items| && items[d].name == target;
          DefinitionNulFree(k, d);
        }
      }
    }
  }

  lemma DefinitionNulFree(k: Known, i: nat)
    requires Sound(k) && i < |Items(k.a)| && forall s :: 0 < s < |k.symbols| ==> 0 !in k.symbols[s].name
    ensures 0 !in Items(k.a)[i].name
  {
    hide Collected, DistinctItems, Validate, Typed, Missing;
    assert i in k.order;
    var p :| 0 <= p < |k.order| && k.order[p] == i;
    assert k.symbols[1 + p] == SymbolOf(k.a, i);
  }

  /** Every definition is in its section, and every target has a symbol. */
  lemma RelationsReady(k: Known, contents: seq<Content>, indices: map<Name, nat>)
    requires Sound(k) && Indexed(k.symbols, |k.symbols|, indices)
    requires |k.contents| < |contents| && contents[..|k.contents|] == k.contents
    ensures |k.pending| == |Items(k.a)| < |contents|
    ensures forall i :: 0 <= i < |Items(k.a)| ==> k.pending[i] == Pending(i + 1, Items(k.a)[i].relocations)
    ensures forall i :: 0 <= i < |Items(k.a)| ==> contents[i + 1].name == SectionName(Items(k.a)[i])
    ensures forall i, j :: 0 <= i < |Items(k.a)| && 0 <= j < |Items(k.a)[i].relocations| ==>
      Items(k.a)[i].relocations[j].target in indices
  {
    hide DistinctItems, Validate, Typed, Patchable, Missing, SectionName, Patched;
    var items := Items(k.a);
    forall i | 0 <= i < |items|
      ensures contents[i + 1].name == SectionName(items[i])
    {
      assert contents[i + 1] == k.contents[i + 1] == SectionOf(items[i]);
    }
    forall i, j | 0 <= i < |items| && 0 <= j < |items[i].relocations|
      ensures items[i].relocations[j].target in indices
    {
      TargetIndexed(k, i, j, indices);
    }
  }

  lemma TargetIndexed(k: Known, i: nat, j: nat, indices: map<Name, nat>)
    requires Sound(k) && Indexed(k.symbols, |k.symbols|, indices)
    requires i < |Items(k.a)| && j < |Items(k.a)[i].relocations|
    ensures Items(k.a)[i].relocations[j].target in indices
  {
    hide DistinctItems, Validate, Typed, Patchable, Collected, SectionOf;
    var items, target := Items(k.a), Items(k.a)[i].relocations[j].target;
    if target in k.undefinedNames {
      assert target in k.undefined;
      var u :| 0 <= u < |k.undefined| && k.undefined[u] == target;
      assert k.symbols[1 + |k.order| + u] == Undefined(target);
    } else {
      var d :| 0 <= d < |items| && items[d].name == target;
      assert d in k.order;
      var p :| 0 <= p < |k.order| && k.order[p] == d;
      assert k.symbols[1 + p] == SymbolOf(k.a, d);
    }
  }

  /** The sections of an object but for the last. */
  ghost predicate Assembled(k: Known, contents: seq<Content>, rels: seq<Content>, symbolNames: seq<nat>) {
    var items := Items(k.a);
    var n := |items|;
    && |k.contents| == n + 1 && |contents| == n + 3 + |rels| && |k.symbols| > 0
    && contents == k.contents + [contents[n + 1]] + [contents[n + 2]] + rels
    && SymtabOf(contents[n + 1], k, symbolNames) && StrtabOf(contents[n + 2], k, symbolNames)
    && |contents[n + 1].data| + |contents[n + 2].data| == 17 + NameWeight(NamesOf(k.symbols[1..]))
    && Related(items, n, rels, k.symbols, n + 1)
  }

  ghost predicate SymtabOf(t: Content, k: Known, symbolNames: seq<nat>) {
    && t == Content(SYMTAB, SHT_SYMTAB, 0, 4, t.data, |Items(k.a)| + 2, k.locals + 1, 16)
    && Tabled(t.data, k.symbols, symbolNames)
  }

  ghost predicate StrtabOf(s: Content, k: Known, symbolNames: seq<nat>) {
    s == Content(STRTAB, SHT_STRTAB, 0, 1, s.data, 0, 0, 0) && Named(s.data, NamesOf(k.symbols), symbolNames)
  }

  lemma Assemble(k: Known, table: seq<Byte>, strings: seq<Byte>, rels: seq<Content>, symbolNames: seq<nat>)
    requires Sound(k) && Related(Items(k.a), |Items(k.a)|, rels, k.symbols, |k.contents|)
    requires Tabled(table, k.symbols, symbolNames) && Named(strings, NamesOf(k.symbols), symbolNames)
    requires |k.symbols| > 0 && |table| + |strings| == 17 + NameWeight(NamesOf(k.symbols[1..]))
    ensures var contents := k.contents + [Content(SYMTAB, SHT_SYMTAB, 0, 4, table, |k.contents| + 1, k.locals + 1, 16)]
      + [Content(STRTAB, SHT_STRTAB, 0, 1, strings, 0, 0, 0)] + rels;
      Assembled(k, contents, rels, symbolNames) && contents[0] == NULL_SECTION
  {
    hide DistinctItems, Validate, Typed, Patchable, Missing, SectionOf, Related, Tabled, Named, NameWeight, NamesOf;
    var symtab := Content(SYMTAB, SHT_SYMTAB, 0, 4, table, |k.contents| + 1, k.locals + 1, 16);
    var strtab := Content(STRTAB, SHT_STRTAB, 0, 1, strings, 0, 0, 0);
    var contents := k.contents + [symtab] + [strtab] + rels;
    assert contents[|k.contents|] == symtab && contents[|k.contents| + 1] == strtab;
  }

  lemma DefinitionAt(k: Known, contents: seq<Content>, rels: seq<Content>, symbolNames: seq<nat>, i: nat)
    requires Sound(k) && Assembled(k, contents, rels, symbolNames) && i < |Items(k.a)|
    ensures Patchable(Items(k.a)[i].body, Items(k.a)[i].relocations) && contents[i + 1] == SectionOf(Items(k.a)[i])
    ensures contents[0] == NULL_SECTION
  {
    hide DistinctItems, Validate, Typed, Patchable, Missing, SectionOf, Related, SymtabOf, StrtabOf, NameWeight, Items;
    assert contents[i + 1] == k.contents[i + 1];
  }

  lemma RelationAt(k: Known, contents: seq<Content>, rels: seq<Content>, symbolNames: seq<nat>, j: nat)
    requires Sound(k) && Assembled(k, contents, rels, symbolNames) && j < |rels|
    ensures var items := Items(k.a);
      var n := |items|;
      && |rels| == |Relocated(items)| && |contents| == n + 3 + |rels| && contents[n + 3 + j] == rels[j]
      && Relocated(items)[j] < n && RelContent(rels[j], items[Relocated(items)[j]], Relocated(items)[j], k.symbols, n + 1)
  {
    hide DistinctItems, Validate, Typed, Patchable, Missing, SectionOf, SymtabOf, StrtabOf, NameWeight, Items, RelContent;
    assert Items(k.a)[..|Items(k.a)|] == Items(k.a);
  }

  lemma TablesAt(k: Known, contents: seq<Content>, rels: seq<Content>, symbolNames: seq<nat>)
    requires Sound(k) && Assembled(k, contents, rels, symbolNames)
    ensures var n := |Items(k.a)|;
      && |contents| == n + 3 + |rels| && |rels| == |Relocated(Items(k.a))| && n < W16 && contents[0] == NULL_SECTION
      && SymtabOf(contents[n + 1], k, symbolNames) && StrtabOf(contents[n + 2], k, symbolNames)
  {
    hide DistinctItems, Validate, Typed, Patchable, Missing, SectionOf, SymtabOf, StrtabOf, NameWeight, Items, RelContent;
    assert Items(k.a)[..|Items(k.a)|] == Items(k.a);
    assert contents[0] == k.contents[0];
  }

  lemma AssembledExtent(k: Known, contents: seq<Content>, rels: seq<Content>, symbolNames: seq<nat>)
    requires Sound(k) && Assembled(k, contents, rels, symbolNames)
    ensures 2 * Extent(contents) + 824 <= Bound(k.a)
  {
    hide DistinctItems, Validate, Typed, Patchable, SectionOf, Related, NameWeight, AllNames, ItemsWeight, Extent, Tabled, Named, Missing;
    var items := Items(k.a);
    AllCollected(items, k.contents, k.definitions, k.pending);
    SymbolNamesWeight(k.a, k.order, k.undefined, k.undefinedNames);
    ElfBounds.ObjectExtent(items, k.contents, contents[|items| + 1], contents[|items| + 2], rels, k.symbols);
  }

  lemma TitleNulFree(item: Item)
    requires NulFreeItem(item)
    ensures 0 !in SectionName(item) && 0 !in REL + SectionName(item)
  {
    hide IsBss;
  }

  /** Titles hold no NUL when the artifact's names hold none. */
  lemma TitlesNulFree(k: Known, contents: seq<Content>, rels: seq<Content>, symbolNames: seq<nat>, i: nat)
    requires Sound(k) && Assembled(k, contents, rels, symbolNames) && NulFree(k.a) && i < |contents|
    ensures 0 !in contents[i].name
  {
    hide Sound, Assembled, Patchable, Tabled, Named, RelContent, Patched, SectionName, NulFreeItem, IsBss;
    var items := Items(k.a);
    var n := |items|;
    TablesAt(k, contents, rels, symbolNames);
    if 0 < i <= n {
      DefinitionAt(k, contents, rels, symbolNames, i - 1);
      TitleNulFree(items[i - 1]);
    } else if i >= n + 3 {
      RelationAt(k, contents, rels, symbolNames, i - (n + 3));
      var d := Relocated(items)[i - (n + 3)];
      RelTitle(contents[i], items[d], d, k.symbols, n + 1);
      TitleNulFree(items[d]);
    }
  }

  lemma TitlesFail(k: Known, contents: seq<Content>, rels: seq<Content>, symbolNames: seq<nat>)
    requires Sound(k) && Assembled(k, contents, rels, symbolNames)
    requires (exists i :: 0 <= i < |contents| && 0 in contents[i].name) || Extent(contents) + 16 >= WORD_LIMIT
    ensures NulFree(k.a) ==> Bound(k.a) >= WORD_LIMIT
  {
    hide Sound, Assembled, NulFree, Bound, Extent;
    AssembledExtent(k, contents, rels, symbolNames);
    if NulFree(k.a) && exists i :: 0 <= i < |contents| && 0 in contents[i].name {
      var i :| 0 <= i < |contents| && 0 in contents[i].name;
      TitlesNulFree(k, contents, rels, symbolNames, i);
    }
  }

  /** The file can be laid out, and is as small as the bound says. */
  lemma LayOutReady(k: Known, contents: seq<Content>, rels: seq<Content>, symbolNames: seq<nat>, whole: seq<Content>, titles: seq<Byte>)
    requires Sound(k) && Assembled(k, contents, rels, symbolNames) && |titles| <= 16 + Extent(contents)
    requires whole == contents + [Content(SHSTRTAB, SHT_STRTAB, 0, 1, titles, 0, 0, 0)]
    ensures |whole| == |Items(k.a)| + 4 + |Relocated(Items(k.a))| && whole[0] == NULL_SECTION
    ensures TitlesOf(whole) == TitlesOf(contents) + [SHSTRTAB]
    ensures forall i :: 0 <= i < |whole| ==> |whole[i].data| < WORD_LIMIT ==> SmallContent(whole[i])
    ensures forall i :: 0 <= i < |whole| ==> whole[i].align == 0 || PowerOfTwo(whole[i].align)
    ensures Extent(whole) + 56 <= Bound(k.a)
  {
    hide Sound, Assembled, NulFree, Bound, Extent, Relocated, PowerOfTwo;
    var last := Content(SHSTRTAB, SHT_STRTAB, 0, 1, titles, 0, 0, 0);
    PowersOfTwo();
    AssembledExtent(k, contents, rels, symbolNames);
    TablesAt(k, contents, rels, symbolNames);
    ExtentJoined(contents, [last]);
    ExtentOne(last);
    forall i | 0 <= i < |whole|
      ensures whole[i].align == 0 || PowerOfTwo(whole[i].align)
      ensures |whole[i].data| < WORD_LIMIT ==> SmallContent(whole[i])
    {
      if i < |contents| {
        ContentFits(k, contents, rels, symbolNames, i);
        assert whole[i] == contents[i];
      } else {
        assert whole[i] == last;
      }
    }
  }

  lemma RelTitle(c: Content, item: Item, i: nat, symbols: seq<Symbol>, symtab: nat)
    requires RelContent(c, item, i, symbols, symtab)
    ensures c.name == REL + SectionName(item)
  {
  }

  /** Fields of sections fit, and alignments are powers of two. */
  lemma ContentFits(k: Known, contents: seq<Content>, rels: seq<Content>, symbolNames: seq<nat>, i: nat)
    requires Sound(k) && Assembled(k, contents, rels, symbolNames) && i < |contents|
    ensures contents[i].align == 0 || PowerOfTwo(contents[i].align)
    ensures |contents[i].data| < WORD_LIMIT ==> SmallContent(contents[i])
  {
    hide Assembled, Patchable, Tabled, Named, RelContent, Patched, Validate, PowerOfTwo, Typed, NulFree, Items, AllTyped;
    hide Collected, Missing, DistinctItems, SectionName, Symbols, Relocated, Permutes, NamesOf;
    var items := Items(k.a);
    var n := |items|;
    TablesAt(k, contents, rels, symbolNames);
    LocalsBelow(k);
    PowersOfTwo();
    if 0 < i <= n {
      DefinitionAt(k, contents, rels, symbolNames, i - 1);
      ItemsTyped(k.a, i - 1);
      ItemAligned(k.a, i - 1);
    } else if i >= n + 3 {
      RelationAt(k, contents, rels, symbolNames, i - (n + 3));
      var d := Relocated(items)[i - (n + 3)];
      RelFits(contents[i], items[d], d, k.symbols, n + 1);
    }
  }

  lemma LocalsBelow(k: Known)
    requires Sound(k)
    ensures k.locals <= |Items(k.a)|
  {
    hide Collected, Missing, DistinctItems, Validate, Typed, Items, Symbols;
    OrderBelow(k.order, |Items(k.a)|);
  }

  lemma RelFits(c: Content, item: Item, i: nat, symbols: seq<Symbol>, symtab: nat)
    requires RelContent(c, item, i, symbols, symtab) && i < W16 && symtab <= W16
    ensures c.align == 4 && (|c.data| < WORD_LIMIT ==> SmallContent(c))
  {
  }

  /** The finished object is the artifact's. */
  lemma Finish(k: Known, contents: seq<Content>, rels: seq<Content>, symbolNames: seq<nat>, titles: Content)
    requires Sound(k) && Assembled(k, contents, rels, symbolNames)
    requires titles.name == SHSTRTAB && titles.kind == SHT_STRTAB && titles.flags == 0 && titles.align == 1
    ensures Describes(k.a, Object(k.order, k.locals, k.undefined, k.symbols, symbolNames, Relocated(Items(k.a)), contents + [titles]))
  {
    hide Assembled, DistinctItems, Patchable, Tabled, Named, Missing, RelContent, Patched, Typed, Validate, SectionName;
    hide Permutes, LocalsFirst, SectionOf, Items, Relocated, LocalsFirst, Collected, Symbols;
    var items := Items(k.a);
    var n, whole := |items|, contents + [titles];
    var o := Object(k.order, k.locals, k.undefined, k.symbols, symbolNames, Relocated(items), whole);
    AllCollected(items, k.contents, k.definitions, k.pending);
    UndefinedApart(items, k.undefined, k.undefinedNames);
    TablesAt(k, contents, rels, symbolNames);
    forall i | 0 <= i < n
      ensures whole[i + 1] == SectionOf(items[i])
    {
      DefinitionAt(k, contents, rels, symbolNames, i);
    }
    forall j | 0 <= j < |o.patched|
      ensures RelSection(o, items, n, j)
    {
      RelationAt(k, contents, rels, symbolNames, j);
    }
  }
}
