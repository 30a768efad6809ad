/** What the writer keeps while it fills the symbol table, the string tables and the file. */
module ElfTables {
  import opened Options
  import opened Artifacts
  import opened Bytes
  import opened LittleEndian
  import opened ElfFormat
  import opened ElfObject
  import opened ElfSizes

  // ---------------------------------------------------------------- symbol indices

  /** The first k symbols, but for the null one, are found under their names. */
  ghost predicate Indexed(symbols: seq<Symbol>, k: nat, indices: map<Name, nat>) {
    && 0 < k <= |symbols|
    && (forall j :: 0 < j < k ==> symbols[j].name in indices && indices[symbols[j].name] == j)
    && (forall name :: name in indices ==> 0 < indices[name] < k && symbols[indices[name]].name == name)
  }

  ghost predicate SymbolsApart(symbols: seq<Symbol>) {
    forall j, k :: 0 < j < k < |symbols| ==> symbols[j].name != symbols[k].name
  }

  lemma IndexOne(symbols: seq<Symbol>, k: nat, indices: map<Name, nat>)
    requires k < |symbols| && SymbolsApart(symbols) && Indexed(symbols, k, indices)
    ensures symbols[k].name !in indices && Indexed(symbols, k + 1, indices[symbols[k].name := k])
  {
  }

  lemma NamesOfMore(symbols: seq<Symbol>, k: nat)
    requires k < |symbols|
    ensures NamesOf(symbols[..k + 1]) == NamesOf(symbols[..k]) + [symbols[k].name]
  {
  }

  lemma NameWeightMore(symbols: seq<Symbol>, k: nat)
    requires 0 < k < |symbols|
    ensures NameWeight(NamesOf(symbols[1..k + 1])) == NameWeight(NamesOf(symbols[1..k])) + |symbols[k].name| + 17
  {
    assert NamesOf(symbols[1..k + 1]) == NamesOf(symbols[1..k]) + [symbols[k].name];
    assert (NamesOf(symbols[1..k]) + [symbols[k].name])[..k - 1] == NamesOf(symbols[1..k]);
  }

  lemma FirstNames(symbols: seq<Symbol>)
    requires |symbols| > 0 && symbols[0] == NULL_SYMBOL
    ensures symbols[..1] == [NULL_SYMBOL] && NamesOf(symbols[..1]) == [[]] && NameWeight(NamesOf(symbols[1..1])) == 0
    ensures Indexed(symbols, 1, map[])
  {
    assert symbols[1..1] == [] && NamesOf([]) == [];
  }

  /** The names of fewer symbols weigh less. */
  lemma {:induction false} NameWeightGrows(symbols: seq<Symbol>, k: nat)
    requires 0 < k <= |symbols|
    ensures NameWeight(NamesOf(symbols[1..k])) <= NameWeight(NamesOf(symbols[1..]))
    decreases |symbols| - k
  {
    if k == |symbols| {
      assert symbols[1..k] == symbols[1..];
    } else {
      NameWeightMore(symbols, k);
      NameWeightGrows(symbols, k + 1);
    }
  }

  lemma NoRelocations(symbols: seq<Symbol>)
    ensures RelTabled([], [][..0], symbols, [])
  {
  }

  // ---------------------------------------------------------------- relocation sections

  /** Relocation sections of the first k definitions. */
  ghost predicate Related(items: seq<Item>, k: nat, rels: seq<Content>, symbols: seq<Symbol>, symtab: nat) {
    && k <= |items| && |rels| == |Relocated(items[..k])|
    && forall j :: 0 <= j < |rels| ==>
      Relocated(items[..k])[j] < k && RelContent(rels[j], items[Relocated(items[..k])[j]], Relocated(items[..k])[j], symbols, symtab)
  }

  lemma RelatedSkip(items: seq<Item>, k: nat, rels: seq<Content>, symbols: seq<Symbol>, symtab: nat)
    requires k < |items| && Related(items, k, rels, symbols, symtab) && items[k].relocations == []
    ensures Related(items, k + 1, rels, symbols, symtab)
  {
    hide RelContent;
    assert items[..k + 1][..k] == items[..k];
  }

  lemma RelatedOne(items: seq<Item>, k: nat, rels: seq<Content>, c: Content, symbols: seq<Symbol>, symtab: nat)
    requires k < |items| && Related(items, k, rels, symbols, symtab) && items[k].relocations != []
    requires RelContent(c, items[k], k, symbols, symtab)
    ensures Related(items, k + 1, rels + [c], symbols, symtab)
  {
    hide RelContent;
    assert items[..k + 1][..k] == items[..k];
  }

  lemma RelatedBefore(items: seq<Item>, k: nat, rels: seq<Content>, symbols: seq<Symbol>, symtab: nat)
    requires k < |items| && Related(items, k + 1, rels, symbols, symtab)
    ensures items[k].relocations == [] ==> Related(items, k, rels, symbols, symtab)
    ensures items[k].relocations != [] ==>
      && |rels| > 0 && Relocated(items[..k + 1])[|rels| - 1] == k && RelContent(rels[|rels| - 1], items[k], k, symbols, symtab)
      && Related(items, k, rels[..|rels| - 1], symbols, symtab)
  {
    hide RelContent;
    assert items[..k + 1][..k] == items[..k];
    RelocatedBelow(items[..k]);
  }

  lemma {:induction false} RelocatedBelow(items: seq<Item>)
    ensures forall j :: 0 <= j < |Relocated(items)| ==> Relocated(items)[j] < |items|
    ensures forall i, j :: 0 <= i < j < |Relocated(items)| ==> Relocated(items)[i] < Relocated(items)[j]
    ensures forall k: nat :: k < |items| ==> (items[k].relocations != [] <==> k in Relocated(items))
  {
    if items != [] {
      var n := |items| - 1;
      RelocatedBelow(items[..n]);
      var before, r := Relocated(items[..n]), Relocated(items);
      forall k: nat | k < |items|
        ensures items[k].relocations != [] <==> k in r
      {
        if k < n {
          assert items[..n][k] == items[k];
          assert k in r <==> k in before;
        } else if items[n].relocations != [] {
          assert r[|before|] == n;
        } else {
          assert n !in before;
        }
      }
    }
  }

  lemma NothingRelated(items: seq<Item>, symbols: seq<Symbol>, symtab: nat)
    ensures Related(items, 0, [], symbols, symtab)
  {
    assert items[..0] == [];
  }

  // ---------------------------------------------------------------- section names

  lemma TitlesOfMore(contents: seq<Content>, k: nat)
    requires k < |contents|
    ensures TitlesOf(contents[..k + 1]) == TitlesOf(contents[..k]) + [contents[k].name]
  {
  }

  lemma FirstTitle(contents: seq<Content>)
    requires |contents| > 0 && contents[0] == NULL_SECTION
    ensures TitlesOf(contents[..1]) == [[]] && Extent(contents[..1]) >= 0
  {
  }

  lemma ExtentMore(contents: seq<Content>, k: nat)
    requires k < |contents|
    ensures Extent(contents[..k + 1]) == Extent(contents[..k]) + |contents[k].data| + contents[k].align + |contents[k].name| + 17
  {
    assert contents[..k + 1][..k] == contents[..k];
  }

  lemma {:induction false} ExtentPrefix(contents: seq<Content>, k: nat)
    requires k <= |contents|
    ensures Extent(contents[..k]) <= Extent(contents)
    decreases |contents| - k
  {
    if k == |contents| {
      assert contents[..k] == contents;
    } else {
      ExtentMore(contents, k);
      ExtentPrefix(contents, k + 1);
    }
  }

  // ---------------------------------------------------------------- the file

  /** The first k sections are in the file, each at its offset. */
  ghost predicate Placed(out: seq<Byte>, contents: seq<Content>, k: nat, offsets: seq<nat>) {
    && k <= |contents| && |offsets| == k && |out| >= 52
    && forall j :: 0 <= j < k ==> PlacedOne(out, contents[j], offsets[j])
  }

  ghost predicate PlacedOne(out: seq<Byte>, c: Content, offset: nat) {
    && offset < WORD_LIMIT && (c.align > 0 ==> offset % c.align == 0)
    && (offset >= 52 || c.data == [])
    && (c.kind != SHT_NOBITS ==> Has(out, offset, c.data))
  }

  lemma PlacedAppend(out: seq<Byte>, contents: seq<Content>, k: nat, offsets: seq<nat>, t: seq<Byte>)
    requires Placed(out, contents, k, offsets)
    ensures Placed(out + t, contents, k, offsets)
  {
    hide Has;
    forall j | 0 <= j < k
      ensures PlacedOne(out + t, contents[j], offsets[j])
    {
      if contents[j].kind != SHT_NOBITS {
        HasAppend(out, offsets[j], contents[j].data, t);
      }
    }
  }

  lemma PlacedMore(out: seq<Byte>, contents: seq<Content>, k: nat, offsets: seq<nat>)
    requires k < |contents| && Placed(out, contents, k, offsets) && |out| < WORD_LIMIT
    requires contents[k].align > 0 ==> |out| % contents[k].align == 0
    ensures var t := if contents[k].kind != SHT_NOBITS then contents[k].data else [];
      Placed(out + t, contents, k + 1, offsets + [|out|])
  {
    hide Has;
    var t := if contents[k].kind != SHT_NOBITS then contents[k].data else [];
    PlacedAppend(out, contents, k, offsets, t);
    if contents[k].kind != SHT_NOBITS {
      HasEnd(out, contents[k].data);
    }
  }

  lemma PlacedNull(out: seq<Byte>, contents: seq<Content>)
    requires |out| >= 52 && |contents| > 0 && contents[0] == NULL_SECTION
    ensures Placed(out, contents, 1, [0])
  {
  }

  lemma PlacedPatch(out: seq<Byte>, contents: seq<Content>, k: nat, offsets: seq<nat>, s: seq<Byte>)
    requires Placed(out, contents, k, offsets) && |s| == 4
    ensures Placed(Patch(out, 32, s), contents, k, offsets)
  {
    hide Has;
    forall j | 0 <= j < k
      ensures PlacedOne(Patch(out, 32, s), contents[j], offsets[j])
    {
      if contents[j].kind != SHT_NOBITS {
        if offsets[j] >= 52 {
          PatchKeeps(out, 32, s, offsets[j], contents[j].data);
        } else {
          NothingHas(out, offsets[j], s);
        }
      }
    }
  }

  lemma NothingHas(out: seq<Byte>, at: nat, s: seq<Byte>)
    requires |out| >= 52 && |s| == 4 && Has(out, at, [])
    ensures Has(Patch(out, 32, s), at, [])
  {
  }

  lemma HeadStarts(out: seq<Byte>, sections: nat)
    requires sections > 0 && out == Head(sections)
    ensures Has(out, 0, Head(sections))
  {
  }

  lemma PowersOfTwo()
    ensures PowerOfTwo(1) && PowerOfTwo(4)
  {
    assert PowerOfTwo(2);
  }

  lemma ItemAligned(a: Artifact, i: nat)
    requires Validate(a) && i < |Items(a)|
    ensures PowerOfTwo(Items(a)[i].align)
  {
    PowersOfTwo();
    if i >= |a.functions| {
      assert Items(a)[|a.functions| + (i - |a.functions|)] == OfObject(a.data[i - |a.functions|]);
    }
  }

  /** The first k section headers are in the file. */
  ghost predicate HeadersIn(out: seq<Byte>, contents: seq<Content>, names: seq<nat>, offsets: seq<nat>, table: nat, k: nat) {
    && k <= |contents| && |names| == |contents| && |offsets| == |contents|
    && forall j :: 0 <= j < k ==> Has(out, table + 40 * j, HeaderRecord(contents[j], names[j], offsets[j]))
  }

  lemma NoHeaders(out: seq<Byte>, contents: seq<Content>, names: seq<nat>, offsets: seq<nat>, table: nat)
    requires |names| == |contents| && |offsets| == |contents|
    ensures HeadersIn(out, contents, names, offsets, table, 0)
  {
  }

  lemma HeadersMore(out: seq<Byte>, contents: seq<Content>, names: seq<nat>, offsets: seq<nat>, table: nat, k: nat)
    requires k < |contents| && HeadersIn(out, contents, names, offsets, table, k) && |out| == table + 40 * k
    ensures HeadersIn(out + HeaderRecord(contents[k], names[k], offsets[k]), contents, names, offsets, table, k + 1)
  {
    hide Has, HeaderRecord;
    var r := HeaderRecord(contents[k], names[k], offsets[k]);
    forall j | 0 <= j < k
      ensures Has(out + r, table + 40 * j, HeaderRecord(contents[j], names[j], offsets[j]))
    {
      HasAppend(out, table + 40 * j, HeaderRecord(contents[j], names[j], offsets[j]), r);
    }
    HasEnd(out, r);
  }

  lemma HeadersPatch(out: seq<Byte>, contents: seq<Content>, names: seq<nat>, offsets: seq<nat>, table: nat, k: nat, s: seq<Byte>)
    requires HeadersIn(out, contents, names, offsets, table, k) && table >= 52 && |s| == 4 && |out| >= 52
    ensures HeadersIn(Patch(out, 32, s), contents, names, offsets, table, k)
  {
    hide Has, HeaderRecord, Patch;
    forall j | 0 <= j < k
      ensures Has(Patch(out, 32, s), table + 40 * j, HeaderRecord(contents[j], names[j], offsets[j]))
    {
      PatchKeeps(out, 32, s, table + 40 * j, HeaderRecord(contents[j], names[j], offsets[j]));
    }
  }

  // ---------------------------------------------------------------- the ELF header

  /** The header without the position of the section headers. */
  function Head(sections: nat): (r: seq<Byte>)
    requires sections > 0
    ensures |r| == 52
  {
    IDENTITY + Zeros(9) + Little(1, 2) + Little(EM_SIA32, 2) + Little(1, 4) + Zeros(16) + Little(52, 2) + Zeros(4)
    + Little(40, 2) + Little(sections, 2) + Little(sections - 1, 2)
  }

  /** A patch of trailing zeros. */
  lemma PatchTail(p: seq<Byte>, n: nat, gap: nat, s: seq<Byte>)
    requires gap + |s| <= n
    ensures Patch(p + Zeros(n), |p| + gap, s) == p + Zeros(gap) + s + Zeros(n - gap - |s|)
  {
  }

  lemma ZeroField(n: nat)
    requires n == 2 || n == 4
    ensures Little(0, n) == Zeros(n)
  {
    assert Little(0, 1) == [0] + Little(0, 0);
    assert Little(0, 2) == [0] + Little(0, 1);
    assert Little(0, 3) == [0] + Little(0, 2);
    assert Little(0, 4) == [0] + Little(0, 3);
  }

  lemma HeadFields(r: seq<Byte>, sections: nat)
    requires sections > 0 && r == Head(sections)
    ensures Has(r, 0, IDENTITY) && Has(r, 16, Little(1, 2)) && Has(r, 18, Little(EM_SIA32, 2)) && Has(r, 20, Little(1, 4))
    ensures Has(r, 24, Little(0, 4)) && Has(r, 28, Little(0, 4)) && Has(r, 40, Little(52, 2))
    ensures Has(r, 42, Little(0, 2)) && Has(r, 44, Little(0, 2)) && Has(r, 46, Little(40, 2))
    ensures Has(r, 48, Little(sections, 2)) && Has(r, 50, Little(sections - 1, 2))
  {
    hide Little;
    ZeroField(2);
    ZeroField(4);
  }

  lemma HeaderWord(out: seq<Byte>, head: seq<Byte>, s: seq<Byte>, at: nat, n: nat, v: nat)
    requires Has(out, 0, head) && |out| >= 52 && |s| == 4 && Has(head, at, Little(v, n)) && (at + n <= 32 || 36 <= at)
    requires (n == 2 && v < W16) || (n == 4 && v < WORD_LIMIT)
    ensures ReadField(Patch(out, 32, s), at, n) == Some(v)
  {
    hide Little;
    HasPart(out, 0, head, at, Little(v, n));
    PatchKeeps(out, 32, s, at, Little(v, n));
    if n == 2 {
      Field16(Patch(out, 32, s), at, v);
    } else {
      Field32(Patch(out, 32, s), at, v);
    }
  }

  lemma HeaderPatched(out: seq<Byte>, sections: nat, table: nat)
    requires 0 < sections < W16 && table < WORD_LIMIT && |out| >= 52 && Has(out, 0, Head(sections))
    ensures HeaderLaid(Patch(out, 32, Little(table, 4)), sections, table)
  {
    hide Little, Has, ReadField, Patch, Head;
    var s, r := Little(table, 4), Head(sections);
    HeadFields(r, sections);
    HasPart(out, 0, r, 0, IDENTITY);
    PatchKeeps(out, 32, s, 0, IDENTITY);
    HeaderWord(out, r, s, 16, 2, 1);
    HeaderWord(out, r, s, 18, 2, EM_SIA32);
    HeaderWord(out, r, s, 20, 4, 1);
    HeaderWord(out, r, s, 24, 4, 0);
    HeaderWord(out, r, s, 28, 4, 0);
    HeaderWord(out, r, s, 40, 2, 52);
    HeaderWord(out, r, s, 42, 2, 0);
    HeaderWord(out, r, s, 44, 2, 0);
    HeaderWord(out, r, s, 46, 2, 40);
    HeaderWord(out, r, s, 48, 2, sections);
    HeaderWord(out, r, s, 50, 2, sections - 1);
    PatchHas(out, 32, s);
    Field32(Patch(out, 32, s), 32, table);
  }

  lemma FileLaid(out: seq<Byte>, contents: seq<Content>, names: seq<nat>, offsets: seq<nat>, table: nat)
    requires 1 < |contents| < W16 && 52 <= table < WORD_LIMIT && |out| == table + 40 * |contents| && Has(out, 0, Head(|contents|))
    requires HeadersIn(out, contents, names, offsets, table, |contents|) && Placed(out, contents, |contents|, offsets)
    requires Named(contents[|contents| - 1].data, TitlesOf(contents), names)
    requires forall i :: 0 <= i < |contents| ==> SmallContent(contents[i])
    ensures Laid(Patch(out, 32, Little(table, 4)), contents, names, offsets, table)
  {
    hide Little, Has, HeaderRecord, Patch, Head, Named, SmallContent, HeaderLaid, PlacedOne;
    var bytes := Patch(out, 32, Little(table, 4));
    HeaderPatched(out, |contents|, table);
    HeadersPatch(out, contents, names, offsets, table, |contents|, Little(table, 4));
    PlacedPatch(out, contents, |contents|, offsets, Little(table, 4));
    forall i | 0 <= i < |contents|
      ensures offsets[i] < WORD_LIMIT && (contents[i].align > 0 ==> offsets[i] % contents[i].align == 0)
      ensures contents[i].kind != SHT_NOBITS ==> Has(bytes, offsets[i], contents[i].data)
    {
      OnePlaced(bytes, contents[i], offsets[i]);
    }
  }

  lemma OnePlaced(out: seq<Byte>, c: Content, offset: nat)
    requires PlacedOne(out, c, offset)
    ensures offset < WORD_LIMIT && (c.align > 0 ==> offset % c.align == 0)
    ensures c.kind != SHT_NOBITS ==> Has(out, offset, c.data)
  {
  }
}
