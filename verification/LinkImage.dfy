/** The linker of saltwater-sia/image.rs: one artifact into a flat image, relocated in place. */
module LinkImage {
  import opened Alignment
  import opened Options
  import opened Artifacts
  import opened Bytes
  import LittleEndian
  import opened Layout
  import opened LinkSpec
  import opened LinkSteps
  import opened ImageSpec
  import opened ImageOnly

  /** reserve: an aligned start and the cursor after it, within the address range and the budget. */
  method Reserve(cursor: nat, size: nat, align: nat, limit: nat) returns (ok: bool, start: nat, end: nat)
    requires align > 0
    ensures ok <==> Fits(cursor, size, align, limit)
    ensures ok ==> start == AlignUp(cursor, align) && end == start + size
  {
    start := AlignUp(cursor, align);
    end := start + size;
    ok := !(start > 0xffff_ffff || end > limit);
  }

  /** relocate: patches one region of the image. */
  method Relocate(image: array<Byte>, start: nat, s: Section, symbols: map<Name, nat>) returns (ok: bool)
    requires start + |s.bytes| <= image.Length && image[start..start + |s.bytes|] == s.bytes
    modifies image
    ensures ok <==> Relocatable(s, |s.relocations|, symbols)
    ensures ok ==> Replaced(old(image[..]), image[..], start, Linked(s, symbols))
  {
    hide Patched, Applies, LittleEndian.Little, Relocatable, Replaced;
    var occupied: seq<(nat, nat)> := [];
    NothingPatched(s, symbols, image[..], start);
    for n := 0 to |s.relocations|
      invariant image.Length == |old(image[..])| && Relocatable(s, n, symbols) && Spans(s, n, occupied)
      invariant Replaced(old(image[..]), image[..], start, Patched(s, n, symbols))
    {
      var r := s.relocations[n];
      var end := r.offset + 4;
      var clash := exists q :: q in occupied && r.offset < q.1 && end > q.0;
      SpansClash(s, n, occupied, symbols);
      if end > |s.bytes| || clash || r.target !in symbols || !(0 <= symbols[r.target] + r.addend < WORD_LIMIT) {
        return false;
      }
      occupied := occupied + [(r.offset, end)];
      OneApplies(s, n, symbols);
      ghost var before := image[..];
      PatchWord(image, start + r.offset, Target(r, symbols));
      OnePatched(old(image[..]), before, image[..], start, s, n, symbols);
    }
    ok := true;
  }

  method PatchWord(image: array<Byte>, at: nat, v: nat)
    requires at + 4 <= image.Length && v < WORD_LIMIT
    modifies image
    ensures image[..] == old(image[..])[..at] + LittleEndian.Little(v, 4) + old(image[..])[at + 4..]
  {
    ghost var before := image[..];
    var word := LittleEndian.Little(v, 4);
    image[at], image[at + 1], image[at + 2], image[at + 3] := word[0], word[1], word[2], word[3];
    assert image[..] == before[..at] + word + before[at + 4..];
  }

  /** Places all sections: addresses and regions. */
  method Place(a: Artifact, base: nat, limit: nat)
    returns (ok: bool, cursor: nat, symbols: map<Name, nat>, regions: seq<Region>)
    requires Validate(a)
    ensures Aligned(Sections(a))
    ensures ok <==> Placed(Sections(a), |Sections(a)|, base, limit).At?
    ensures ok ==> cursor == Placed(Sections(a), |Sections(a)|, base, limit).at
    ensures ok ==> symbols == SymbolTable(Sections(a), |Sections(a)|, base, limit)
    ensures ok ==> regions == Regions(a, |Sections(a)|, base, limit)
  {
    hide AlignUp, Fits, Validate, Placed, SymbolTable, Regions;
    ValidAligned(a);
    ghost var ss := Sections(a);
    cursor, symbols, regions := base, map[], [];
    NothingPlaced(a, base, limit);
    for i := 0 to |a.functions|
      invariant Placed(ss, i, base, limit) == At(cursor)
      invariant symbols == SymbolTable(ss, i, base, limit) && regions == Regions(a, i, base, limit)
    {
      var f := OfFunction(a.functions[i]);
      OnePlaced(a, i, base, limit, cursor);
      var start, end;
      ok, start, end := Reserve(cursor, |f.bytes|, 4, limit);
      if !ok {
        return;
      }
      symbols := symbols[f.name := start];
      regions := regions + [Region(f.name, start, |f.bytes|, true, true, false)];
      cursor := end;
    }
    ok, cursor, symbols, regions := PlaceData(a, base, limit, cursor, symbols, regions);
  }

  method PlaceData(a: Artifact, base: nat, limit: nat, cursor0: nat, symbols0: map<Name, nat>, regions0: seq<Region>)
    returns (ok: bool, cursor: nat, symbols: map<Name, nat>, regions: seq<Region>)
    requires Aligned(Sections(a)) && Placed(Sections(a), |a.functions|, base, limit) == At(cursor0)
    requires symbols0 == SymbolTable(Sections(a), |a.functions|, base, limit)
    requires regions0 == Regions(a, |a.functions|, base, limit)
    ensures ok <==> Placed(Sections(a), |Sections(a)|, base, limit).At?
    ensures ok ==> cursor == Placed(Sections(a), |Sections(a)|, base, limit).at
    ensures ok ==> symbols == SymbolTable(Sections(a), |Sections(a)|, base, limit)
    ensures ok ==> regions == Regions(a, |Sections(a)|, base, limit)
  {
    hide AlignUp, Fits, Placed, SymbolTable, Regions;
    ghost var ss, first := Sections(a), |a.functions|;
    cursor, symbols, regions := cursor0, symbols0, regions0;
    for i := 0 to |a.data|
      invariant Placed(ss, first + i, base, limit) == At(cursor)
      invariant symbols == SymbolTable(ss, first + i, base, limit) && regions == Regions(a, first + i, base, limit)
    {
      var d := OfData(a.data[i]);
      assert ss[first + i] == d && ss[first + i].align > 0;
      OnePlaced(a, first + i, base, limit, cursor);
      var start, end;
      ok, start, end := Reserve(cursor, |d.bytes|, d.align, limit);
      if !ok {
        return;
      }
      symbols := symbols[d.name := start];
      var readOnly := a.data[i].readOnly;
      var clear := !readOnly && d.relocations == [] && forall k :: 0 <= k < |d.bytes| ==> d.bytes[k] == 0;
      regions := regions + [Region(d.name, start, |d.bytes|, readOnly, false, clear)];
      cursor := end;
    }
    ok := true;
  }

  method CopyIn(image: array<Byte>, start: nat, bytes: seq<Byte>)
    requires start + |bytes| <= image.Length
    modifies image
    ensures Replaced(old(image[..]), image[..], start, bytes) && image[start..start + |bytes|] == bytes
  {
    ghost var before := image[..];
    for k := 0 to |bytes|
      invariant image[..] == before[..start] + bytes[..k] + before[start + k..]
    {
      image[start + k] := bytes[k];
    }
    assert image[..] == before[..start] + bytes + before[start + |bytes|..];
    assert image[..][start..start + |bytes|] == bytes;
  }

  /** Copies a section into the zeroed image and relocates it there. */
  method Fill(image: array<Byte>, ghost ss: seq<Section>, i: nat, s: Section, start: nat, base: nat, ghost limit: nat,
              symbols: map<Name, nat>) returns (ok: bool)
    requires i < |ss| && ss[i] == s && Aligned(ss) && Placed(ss, |ss|, base, limit).At?
    requires image.Length == Placed(ss, |ss|, base, limit).at - base
    requires Placed(ss, i, base, limit).At? && start == Address(ss, i, base, limit) - base
    requires Filled(image[..], ss, i, base, limit, symbols)
    modifies image
    ensures ok <==> Relocatable(s, |s.relocations|, symbols)
    ensures ok ==> Filled(image[..], ss, i + 1, base, limit, symbols)
  {
    hide Placed, AlignUp, Fits, Filled, Relocatable, Linked, Replaced;
    ghost var before := image[..];
    Disjoint(ss, i, |ss|, base, limit);
    PlacedBefore(ss, i + 1, |ss|, base, limit);
    CopyIn(image, start, s.bytes);
    ghost var copied := image[..];
    ok := Relocate(image, start, s, symbols);
    if ok {
      SectionFilled(before, copied, image[..], ss, i, base, limit, symbols);
    }
  }

  /** link_image: the one image that keeps its promises, or none when a valid artifact has no such image. */
  method Link(a: Artifact, base: nat, entry: Name, maxBytes: nat) returns (r: Option<Image>)
    requires base < WORD_LIMIT && maxBytes < WORD_LIMIT
    ensures r.Some? <==> Linkable(a, base, entry, maxBytes)
    ensures r.Some? ==> r.value == ImageOf(a, base, entry, maxBytes)
    ensures r.Some? ==> Validate(a) && Faithful(a, base, entry, maxBytes, r.value)
    ensures r.None? && Validate(a) ==> forall image :: !Faithful(a, base, entry, maxBytes, image)
  {
    hide Faithful, Linkable, ImageOf, Validate;
    r := LinkInPlace(a, base, entry, maxBytes);
    assert r.Some? ==> Validate(a) by { LinkableValid(a, base, entry, maxBytes); }
    if Validate(a) {
      forall image
        ensures Faithful(a, base, entry, maxBytes, image)
          <==> Linkable(a, base, entry, maxBytes) && image == ImageOf(a, base, entry, maxBytes)
      {
        OnlyImage(a, base, entry, maxBytes, image);
      }
    }
  }

  lemma LinkableValid(a: Artifact, base: nat, entry: Name, maxBytes: nat)
    ensures Linkable(a, base, entry, maxBytes) ==> Validate(a)
  {
  }

  method LinkInPlace(a: Artifact, base: nat, entry: Name, maxBytes: nat) returns (r: Option<Image>)
    requires base < WORD_LIMIT && maxBytes < WORD_LIMIT
    ensures r.Some? <==> Linkable(a, base, entry, maxBytes)
    ensures r.Some? ==> r.value == ImageOf(a, base, entry, maxBytes)
  {
    hide Placed, AlignUp, Fits, Filled, Relocatable, Validate, SymbolTable, Regions, Flat;
    if !Validate(a) || base % 4 != 0 || !HasFunction(a, entry) {
      return None;
    }
    var limit := Limit(base, maxBytes);
    var ok, cursor, symbols, regions := Place(a, base, limit);
    if !ok {
      return None;
    }
    ghost var ss := Sections(a);
    var image := new Byte[cursor - base](_ => 0);
    NothingFilled(image[..], ss, base, limit, symbols);
    for i := 0 to |a.functions|
      invariant Filled(image[..], ss, i, base, limit, symbols)
    {
      RegionAt(a, i, |ss|, base, limit);
      ok := Fill(image, ss, i, OfFunction(a.functions[i]), regions[i].address - base, base, limit, symbols);
      if !ok {
        NotLinkable(a, base, entry, maxBytes, i);
        return None;
      }
    }
    for i := 0 to |a.data|
      invariant Filled(image[..], ss, |a.functions| + i, base, limit, symbols)
    {
      assert ss[|a.functions| + i] == OfData(a.data[i]);
      RegionAt(a, |a.functions| + i, |ss|, base, limit);
      ok := Fill(image, ss, |a.functions| + i, OfData(a.data[i]), regions[|a.functions| + i].address - base, base, limit,
        symbols);
      if !ok {
        NotLinkable(a, base, entry, maxBytes, |a.functions| + i);
        return None;
      }
    }
    AllFilled(image[..], ss, base, limit, symbols);
    EntrySymbol(a, base, entry, maxBytes);
    r := Some(Image(base, symbols[entry], image[..], symbols, regions));
  }
}
