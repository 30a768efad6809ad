/** What the loops of the linker keep. */
module LinkSteps {
  import opened Alignment
  import opened Artifacts
  import opened Bytes
  import LittleEndian
  import opened Layout
  import opened LinkSpec

  /** One stretch of bytes replaced, the rest as before. */
  ghost predicate Replaced(m: seq<Byte>, m': seq<Byte>, start: nat, bytes: seq<Byte>) {
    start + |bytes| <= |m| && m' == m[..start] + bytes + m[start + |bytes|..]
  }

  /** The sites of the first n relocations. */
  ghost predicate Spans(s: Section, n: nat, occupied: seq<(nat, nat)>)
    requires n <= |s.relocations|
  {
    |occupied| == n && forall k :: 0 <= k < n ==> occupied[k] == (s.relocations[k].offset, s.relocations[k].offset + 4)
  }

  lemma SpansClash(s: Section, n: nat, occupied: seq<(nat, nat)>, symbols: map<Name, nat>)
    requires n < |s.relocations| && Spans(s, n, occupied)
    ensures var r := s.relocations[n];
      Applies(s, n, symbols) <==>
        && r.offset + 4 <= |s.bytes| && !(exists q :: q in occupied && r.offset < q.1 && r.offset + 4 > q.0)
        && r.target in symbols && 0 <= Target(r, symbols) < WORD_LIMIT
    ensures !Applies(s, n, symbols) ==> !Relocatable(s, |s.relocations|, symbols)
  {
    var r := s.relocations[n];
    if q :| q in occupied && r.offset < q.1 && r.offset + 4 > q.0 {
      var k :| 0 <= k < n && occupied[k] == q;
      assert Overlap(r, s.relocations[k]);
    }
    if k :| 0 <= k < n && Overlap(r, s.relocations[k]) {
      assert occupied[k] in occupied;
    }
  }

  lemma OneApplies(s: Section, n: nat, symbols: map<Name, nat>)
    requires n < |s.relocations| && Relocatable(s, n, symbols) && Applies(s, n, symbols)
    ensures Relocatable(s, n + 1, symbols)
  {
  }

  lemma NothingPatched(s: Section, symbols: map<Name, nat>, m: seq<Byte>, start: nat)
    requires start + |s.bytes| <= |m| && m[start..start + |s.bytes|] == s.bytes
    ensures Relocatable(s, 0, symbols) && Replaced(m, m, start, Patched(s, 0, symbols))
  {
    assert m == m[..start] + m[start..start + |s.bytes|] + m[start + |s.bytes|..];
  }

  lemma OnePatched(m0: seq<Byte>, m1: seq<Byte>, m2: seq<Byte>, start: nat, s: Section, n: nat, symbols: map<Name, nat>)
    requires n < |s.relocations| && Relocatable(s, n, symbols) && Applies(s, n, symbols) && Relocatable(s, n + 1, symbols)
    requires start + |s.bytes| <= |m0| && Replaced(m0, m1, start, Patched(s, n, symbols))
    requires var at := start + s.relocations[n].offset;
      at + 4 <= |m1| && m2 == m1[..at] + LittleEndian.Little(Target(s.relocations[n], symbols), 4) + m1[at + 4..]
    ensures Replaced(m0, m2, start, Patched(s, n + 1, symbols))
  {
    hide LittleEndian.Little, Relocatable, Patched;
    var p := Patched(s, n, symbols);
    PatchedStep(s, n, symbols);
    SpliceInside(m0[..start], p, m0[start + |p|..], s.relocations[n].offset, LittleEndian.Little(Target(s.relocations[n], symbols), 4));
  }

  lemma PatchedStep(s: Section, n: nat, symbols: map<Name, nat>)
    requires n < |s.relocations| && Relocatable(s, n, symbols) && Applies(s, n, symbols) && Relocatable(s, n + 1, symbols)
    ensures var p, at := Patched(s, n, symbols), s.relocations[n].offset;
      Patched(s, n + 1, symbols) == p[..at] + LittleEndian.Little(Target(s.relocations[n], symbols), 4) + p[at + 4..]
  {
  }

  lemma SpliceInside(a: seq<Byte>, p: seq<Byte>, b: seq<Byte>, at: nat, w: seq<Byte>)
    requires at + |w| <= |p|
    ensures (a + p + b)[..|a| + at] + w + (a + p + b)[|a| + at + |w|..] == a + (p[..at] + w + p[at + |w|..]) + b
  {
    var m := a + p + b;
    assert m[..|a| + at] == a + p[..at];
    assert m[|a| + at + |w|..] == p[at + |w|..] + b;
  }

  /** One more section placed. */
  lemma OnePlaced(a: Artifact, i: nat, base: nat, limit: nat, cursor: nat)
    requires i < |Sections(a)| && Aligned(Sections(a)) && Placed(Sections(a), i, base, limit) == At(cursor)
    ensures var ss := Sections(a);
      if !Fits(cursor, |ss[i].bytes|, ss[i].align, limit) then Placed(ss, |ss|, base, limit).Full?
      else
        var start := AlignUp(cursor, ss[i].align);
        && Placed(ss, i + 1, base, limit) == At(start + |ss[i].bytes|)
        && SymbolTable(ss, i + 1, base, limit) == SymbolTable(ss, i, base, limit)[ss[i].name := start]
        && Regions(a, i + 1, base, limit)
             == Regions(a, i, base, limit) + [RegionOf(ss[i], start, ReadOnlyAt(a, i), i < |a.functions|)]
  {
    hide AlignUp, Fits;
    var ss := Sections(a);
    if !Fits(cursor, |ss[i].bytes|, ss[i].align, limit) {
      FullStays(ss, i + 1, |ss|, base, limit);
    }
  }

  lemma NothingPlaced(a: Artifact, base: nat, limit: nat)
    requires Aligned(Sections(a))
    ensures Placed(Sections(a), 0, base, limit) == At(base)
    ensures SymbolTable(Sections(a), 0, base, limit) == map[] && Regions(a, 0, base, limit) == []
  {
  }

  lemma {:induction false} FullStays(ss: seq<Section>, i: nat, n: nat, base: nat, limit: nat)
    requires i <= n <= |ss| && Aligned(ss) && Placed(ss, i, base, limit).Full?
    ensures Placed(ss, n, base, limit).Full?
  {
    if i < n {
      FullStays(ss, i, n - 1, base, limit);
    }
  }

  // ---------------------------------------------------------------- filling the image

  /** The first i sections are in the image, and the rest of it is zero. */
  ghost predicate Filled(m: seq<Byte>, ss: seq<Section>, i: nat, base: nat, limit: nat, symbols: map<Name, nat>)
    requires i <= |ss| && Aligned(ss)
  {
    && Placed(ss, i, base, limit).At?
    && (forall k :: 0 <= k < i ==> Relocatable(ss[k], |ss[k].relocations|, symbols))
    && var flat := Flat(ss, i, base, limit, symbols);
       |flat| <= |m| && m == flat + Zeros(|m| - |flat|)
  }

  lemma NothingFilled(m: seq<Byte>, ss: seq<Section>, base: nat, limit: nat, symbols: map<Name, nat>)
    requires Aligned(ss) && forall k :: 0 <= k < |m| ==> m[k] == 0
    ensures Filled(m, ss, 0, base, limit, symbols)
  {
    EmptyFlat(ss, base, limit, symbols);
    assert m == [] + Zeros(|m|);
  }

  lemma SectionFilled(m0: seq<Byte>, m1: seq<Byte>, m2: seq<Byte>, ss: seq<Section>, i: nat, base: nat, limit: nat,
                      symbols: map<Name, nat>)
    requires i < |ss| && Aligned(ss) && Placed(ss, i + 1, base, limit).At? && Filled(m0, ss, i, base, limit, symbols)
    requires Relocatable(ss[i], |ss[i].relocations|, symbols)
    requires Placed(ss, i, base, limit).At? && Address(ss, i, base, limit) - base + |ss[i].bytes| <= |m0|
    requires Replaced(m0, m1, Address(ss, i, base, limit) - base, ss[i].bytes)
    requires Replaced(m1, m2, Address(ss, i, base, limit) - base, Linked(ss[i], symbols))
    ensures Filled(m2, ss, i + 1, base, limit, symbols)
  {
    hide Placed, AlignUp, Fits, Relocatable, Linked, Flat;
    FlatStep(ss, i + 1, base, limit, symbols);
    var start, size := Address(ss, i, base, limit) - base, |ss[i].bytes|;
    var before, after := Flat(ss, i, base, limit, symbols), Flat(ss, i + 1, base, limit, symbols);
    assert m0[..start] == before + Zeros(start - |before|);
    assert m0[start + size..] == Zeros(|m0| - start - size);
    assert m2[..start] == m0[..start] && m2[start + size..] == m0[start + size..];
    assert after == after[..start] + after[start..];
  }

  lemma AllFilled(m: seq<Byte>, ss: seq<Section>, base: nat, limit: nat, symbols: map<Name, nat>)
    requires Aligned(ss) && Filled(m, ss, |ss|, base, limit, symbols)
    requires Placed(ss, |ss|, base, limit).At? && |m| == Placed(ss, |ss|, base, limit).at - base
    ensures AllRelocatable(ss, symbols) && m == Flat(ss, |ss|, base, limit, symbols)
  {
    assert Zeros(0) == [];
  }

  lemma {:induction false} RegionAt(a: Artifact, i: nat, n: nat, base: nat, limit: nat)
    requires i < n <= |Sections(a)| && Aligned(Sections(a)) && Placed(Sections(a), n, base, limit).At?
    ensures Placed(Sections(a), i, base, limit).At?
    ensures var s := Sections(a)[i];
      Regions(a, n, base, limit)[i]
        == RegionOf(s, Address(Sections(a), i, base, limit), ReadOnlyAt(a, i), i < |a.functions|)
  {
    hide AlignUp, Fits;
    if i < n - 1 {
      RegionAt(a, i, n - 1, base, limit);
    }
  }

  lemma NotLinkable(a: Artifact, base: nat, entry: Name, maxBytes: nat, i: nat)
    requires Placeable(a, base, maxBytes) && i < |Sections(a)|
    requires !Relocatable(Sections(a)[i], |Sections(a)[i].relocations|, Symbols(a, base, maxBytes))
    ensures !Linkable(a, base, entry, maxBytes)
  {
  }

  // ---------------------------------------------------------------- what an image holds

  /** Region i describes section i: it is aligned, inside the budget and the address space, and in
      front of every later region. */
  lemma ImageRegions(a: Artifact, base: nat, entry: Name, maxBytes: nat, i: nat, j: nat)
    requires Linkable(a, base, entry, maxBytes) && i < |Sections(a)| && i < j <= |Sections(a)|
    ensures var image, s := ImageOf(a, base, entry, maxBytes), Sections(a)[i];
      && |image.regions| == |Sections(a)|
      && var region := image.regions[i];
         && region.name == s.name && region.size == |s.bytes| && s.name in image.symbols
         && image.symbols[s.name] == region.address && s.align > 0 && region.address % s.align == 0
         && base <= region.address && region.address + region.size <= base + |image.bytes|
         && region.address + region.size <= base + maxBytes && region.address + region.size <= WORD_LIMIT
         && (j < |Sections(a)| ==> region.address + region.size <= image.regions[j].address)
  {
    hide Sections, Validate, Placed, AlignUp, Fits, SymbolTable, Regions, Flat, Relocatable;
    ValidAligned(a);
    var ss, limit := Sections(a), Limit(base, maxBytes);
    Disjoint(ss, i, j, base, limit);
    Disjoint(ss, i, |ss|, base, limit);
    ValidNames(a);
    SymbolsAre(ss, |ss|, base, limit);
    RegionAt(a, i, |ss|, base, limit);
    if j < |ss| {
      RegionAt(a, j, |ss|, base, limit);
    }
    SizedFlat(ss, base, limit, Symbols(a, base, maxBytes));
  }

  lemma ValidNames(a: Artifact)
    requires Validate(a)
    ensures Unique(Sections(a))
  {
  }

  lemma SizedFlat(ss: seq<Section>, base: nat, limit: nat, symbols: map<Name, nat>)
    requires Aligned(ss) && Placed(ss, |ss|, base, limit).At? && AllRelocatable(ss, symbols)
    ensures base + |Flat(ss, |ss|, base, limit, symbols)| == Placed(ss, |ss|, base, limit).at
  {
  }

  /** The bytes of a region are the section's, with every site holding symbol plus addend. */
  lemma ImageContents(a: Artifact, base: nat, entry: Name, maxBytes: nat, i: nat)
    requires Linkable(a, base, entry, maxBytes) && i < |Sections(a)|
    ensures var image, s := ImageOf(a, base, entry, maxBytes), Sections(a)[i];
      && |image.regions| == |Sections(a)| && base <= image.regions[i].address
      && var start := image.regions[i].address - base;
         && start + |s.bytes| <= |image.bytes|
         && (forall k :: 0 <= k < |s.relocations| ==>
               SiteHolds(s.relocations[k], image.bytes[start..start + |s.bytes|], image.symbols))
         && forall x :: 0 <= x < |s.bytes| && (forall k :: 0 <= k < |s.relocations| ==> !InSite(s.relocations[k], x)) ==>
              image.bytes[start..start + |s.bytes|][x] == s.bytes[x]
  {
    hide Sections, Validate, Placed, AlignUp, Fits, SymbolTable, Regions, Flat, Relocatable, SiteHolds, InSite;
    ValidAligned(a);
    var ss, limit, symbols := Sections(a), Limit(base, maxBytes), Symbols(a, base, maxBytes);
    assert Relocatable(ss[i], |ss[i].relocations|, symbols);
    PlacedBefore(ss, i, |ss|, base, limit);
    RegionAt(a, i, |ss|, base, limit);
    FlatSection(ss, i, |ss|, base, limit, symbols);
    SitesPatched(ss[i], |ss[i].relocations|, symbols);
  }

  /** Whatever lies in no region is zero. */
  lemma ImagePadding(a: Artifact, base: nat, entry: Name, maxBytes: nat, x: nat)
    requires Linkable(a, base, entry, maxBytes)
    requires var image := ImageOf(a, base, entry, maxBytes);
      x < |image.bytes| && forall i :: 0 <= i < |image.regions| ==>
        !(image.regions[i].address <= base + x < image.regions[i].address + image.regions[i].size)
    ensures ImageOf(a, base, entry, maxBytes).bytes[x] == 0
  {
    hide Sections, Validate, Placed, AlignUp, Fits, SymbolTable, Regions, Flat, Relocatable;
    ValidAligned(a);
    var ss, limit, symbols := Sections(a), Limit(base, maxBytes), Symbols(a, base, maxBytes);
    forall i | 0 <= i < |ss|
      ensures Placed(ss, i, base, limit).At? && Outside(ss, i, base, limit, x)
    {
      PlacedBefore(ss, i, |ss|, base, limit);
      RegionAt(a, i, |ss|, base, limit);
    }
    FlatPadding(ss, |ss|, base, limit, symbols, x);
  }
}
