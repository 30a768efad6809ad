/** What an image promises, said of the artifact's functions and data themselves. */
module ImageSpec {
  import opened Artifacts
  import opened Bytes
  import opened LinkSpec
  import LittleEndian

  /** Where the sections in front of number i end. */
  function EndBefore(image: Image, i: nat): nat
    requires i <= |image.regions|
  {
    if i == 0 then image.base else image.regions[i - 1].address + image.regions[i - 1].size
  }

  /** A region starts at the first aligned address behind the ones in front of it. */
  predicate Packed(image: Image, i: nat, align: nat)
    requires i < |image.regions|
  {
    var at, low := image.regions[i].address, EndBefore(image, i);
    align > 0 && low <= at < low + align && at % align == 0
  }

  /** The bytes of a region are the body's, but for the sites, and every site holds symbol plus addend. */
  predicate HoldsBody(image: Image, r: Region, body: seq<Byte>, relocations: seq<Relocation>) {
    image.base <= r.address && HoldsAt(image, r.address - image.base, body, relocations)
  }

  predicate HoldsAt(image: Image, start: nat, body: seq<Byte>, relocations: seq<Relocation>) {
    && start + |body| <= |image.bytes|
    && (forall k :: 0 <= k < |relocations| ==> HoldsSite(image, start, |body|, relocations, k))
    && forall x :: 0 <= x < |body| && (forall k :: 0 <= k < |relocations| ==> !InSite(relocations[k], x)) ==>
         image.bytes[start + x] == body[x]
  }

  /** A site is inside the body, shares no byte with an earlier one, and holds a word. */
  predicate HoldsSite(image: Image, start: nat, size: nat, relocations: seq<Relocation>, k: nat)
    requires k < |relocations| && start + size <= |image.bytes|
  {
    var q := relocations[k];
    && q.offset + 4 <= size && (forall j :: 0 <= j < k ==> q.offset + 4 <= relocations[j].offset || relocations[j].offset + 4 <= q.offset)
    && q.target in image.symbols && 0 <= image.symbols[q.target] + q.addend < WORD_LIMIT
    && image.bytes[start + q.offset..start + q.offset + 4] == LittleEndian.Little(image.symbols[q.target] + q.addend, 4)
  }

  predicate NamedAt(image: Image, name: Name, r: Region) {
    r.name == name && name in image.symbols && image.symbols[name] == r.address
  }

  /** Code is read-only and executable. */
  predicate FunctionRegion(image: Image, i: nat, f: Function)
    requires i < |image.regions|
  {
    var r := image.regions[i];
    && NamedAt(image, f.name, r) && r.size == |f.code| && r.readOnly && r.executable && !r.zeroFill
    && Packed(image, i, 4) && HoldsBody(image, r, f.code, f.relocations)
  }

  /** Data has its own permission, and is zero-filled when it is writable zeros without relocations. */
  predicate DataRegion(image: Image, i: nat, d: Data)
    requires i < |image.regions|
  {
    var r := image.regions[i];
    && NamedAt(image, d.name, r) && r.size == |d.bytes| && r.readOnly == d.readOnly && !r.executable
    && (r.zeroFill <==> !d.readOnly && d.relocations == [] && forall x :: 0 <= x < |d.bytes| ==> d.bytes[x] == 0)
    && Packed(image, i, d.align) && HoldsBody(image, r, d.bytes, d.relocations)
  }

  /** The image starts at a region that is executable and has the entry's name. */
  predicate StartsAt(a: Artifact, image: Image, entry: Name)
    requires |image.regions| == |a.functions| + |a.data|
  {
    exists i :: 0 <= i < |a.functions| && a.functions[i].name == entry && image.regions[i].name == entry
                && image.regions[i].executable && image.entry == image.regions[i].address
  }

  predicate Outside(image: Image, i: nat, x: nat)
    requires i < |image.regions|
  {
    !(image.regions[i].address <= image.base + x < image.regions[i].address + image.regions[i].size)
  }

  predicate Faithful(a: Artifact, base: nat, entry: Name, maxBytes: nat, image: Image) {
    && image.base == base && base % 4 == 0 && |image.regions| == |a.functions| + |a.data|
    && (forall i :: 0 <= i < |a.functions| ==> FunctionRegion(image, i, a.functions[i]))
    && (forall i :: 0 <= i < |a.data| ==> DataRegion(image, |a.functions| + i, a.data[i]))
    && StartsAt(a, image, entry)
    && (forall name :: name in image.symbols ==> exists i :: 0 <= i < |image.regions| && image.regions[i].name == name)
    && (forall i :: 0 <= i < |image.regions| ==> image.regions[i].address < WORD_LIMIT)
    && base + |image.bytes| == EndBefore(image, |image.regions|) <= base + maxBytes
    && base + |image.bytes| <= WORD_LIMIT
    && forall x :: 0 <= x < |image.bytes| && (forall i :: 0 <= i < |image.regions| ==> Outside(image, i, x)) ==> image.bytes[x] == 0
  }
}

/** Linking returns the one image that keeps its promises, whenever there is one. */
module ImageLaws {
  import opened Alignment
  import opened Options
  import opened Artifacts
  import opened Bytes
  import opened Layout
  import opened LinkSpec
  import opened LinkSteps
  import opened ImageSpec
  import LittleEndian

  /** A region of the image of an artifact, and its section. */
  lemma RegionKept(a: Artifact, base: nat, entry: Name, maxBytes: nat, i: nat)
    requires Linkable(a, base, entry, maxBytes) && i < |Sections(a)|
    ensures var image, s := ImageOf(a, base, entry, maxBytes), Sections(a)[i];
      && |image.regions| == |Sections(a)| && image.regions[i] == RegionOf(s, image.regions[i].address, ReadOnlyAt(a, i), i < |a.functions|)
      && NamedAt(image, s.name, image.regions[i]) && Packed(image, i, s.align) && HoldsBody(image, image.regions[i], s.bytes, s.relocations)
      && image.regions[i].address < WORD_LIMIT
  {
    hide Sections, Validate, Placed, AlignUp, Fits, SymbolTable, Regions, Flat, Relocatable, HoldsBody, Packed;
    ImageRegions(a, base, entry, maxBytes, i, i + 1);
    ValidAligned(a);
    RegionAt(a, i, |Sections(a)|, base, Limit(base, maxBytes));
    RegionPacked(a, base, entry, maxBytes, i);
    RegionHolds(a, base, entry, maxBytes, i);
  }

  lemma RegionPacked(a: Artifact, base: nat, entry: Name, maxBytes: nat, i: nat)
    requires Linkable(a, base, entry, maxBytes) && i < |Sections(a)|
    ensures var image := ImageOf(a, base, entry, maxBytes);
      |image.regions| == |Sections(a)| && Packed(image, i, Sections(a)[i].align) && image.regions[i].address < WORD_LIMIT
  {
    hide Sections, Validate, Placed, AlignUp, Fits, SymbolTable, Regions, Flat, Relocatable;
    ValidAligned(a);
    var ss, limit := Sections(a), Limit(base, maxBytes);
    Disjoint(ss, i, |ss|, base, limit);
    RegionAt(a, i, |ss|, base, limit);
    if i > 0 {
      RegionAt(a, i - 1, |ss|, base, limit);
      PlacedBefore(ss, i, |ss|, base, limit);
      PlacedStep(ss, i - 1, base, limit);
    } else {
      assert Placed(ss, 0, base, limit) == At(base) by { PlacedNone(ss, base, limit); }
    }
  }

  lemma PlacedNone(ss: seq<Section>, base: nat, limit: nat)
    requires Aligned(ss)
    ensures Placed(ss, 0, base, limit) == At(base)
  {
  }

  lemma RegionHolds(a: Artifact, base: nat, entry: Name, maxBytes: nat, i: nat)
    requires Linkable(a, base, entry, maxBytes) && i < |Sections(a)|
    ensures var image, s := ImageOf(a, base, entry, maxBytes), Sections(a)[i];
      |image.regions| == |Sections(a)| && HoldsBody(image, image.regions[i], s.bytes, s.relocations)
  {
    hide Sections, Validate, Placed, SymbolTable, Regions, Flat, InSite, LittleEndian.Little;
    ImageContents(a, base, entry, maxBytes, i);
    var image, s := ImageOf(a, base, entry, maxBytes), Sections(a)[i];
    var start := image.regions[i].address - base;
    var bytes := image.bytes[start..start + |s.bytes|];
    forall k | 0 <= k < |s.relocations|
      ensures HoldsSite(image, start, |s.bytes|, s.relocations, k)
    {
      var q := s.relocations[k];
      assert SiteHolds(q, bytes, image.symbols);
      assert Relocatable(s, |s.relocations|, image.symbols) && Applies(s, k, image.symbols);
      Inner(image.bytes, start, |s.bytes|, q.offset);
    }
  }

  lemma Inner(bytes: seq<Byte>, start: nat, size: nat, at: nat)
    requires at + 4 <= size && start + size <= |bytes|
    ensures bytes[start..start + size][at..at + 4] == bytes[start + at..start + at + 4]
  {
    var s, x, y := bytes[start..start + size], bytes[start..start + size][at..at + 4], bytes[start + at..start + at + 4];
    forall k | 0 <= k < 4
      ensures x[k] == y[k]
    {
      assert x[k] == s[at + k];
    }
  }

  lemma ImageEnds(a: Artifact, base: nat, entry: Name, maxBytes: nat)
    requires Linkable(a, base, entry, maxBytes)
    ensures var image := ImageOf(a, base, entry, maxBytes);
      && |image.regions| == |Sections(a)| > 0 && base + |image.bytes| == EndBefore(image, |image.regions|)
      && base + |image.bytes| <= base + maxBytes && base + |image.bytes| <= WORD_LIMIT
    ensures forall name :: name in ImageOf(a, base, entry, maxBytes).symbols ==> exists i :: 0 <= i < |Sections(a)| && Sections(a)[i].name == name
  {
    hide Sections, Validate, Placed, AlignUp, Fits, SymbolTable, Regions, Flat, Relocatable;
    ValidAligned(a);
    ValidNames(a);
    var ss, limit := Sections(a), Limit(base, maxBytes);
    assert |ss| > 0 by { var i :| 0 <= i < |a.functions| && a.functions[i].name == entry; }
    RegionAt(a, |ss| - 1, |ss|, base, limit);
    PlacedStep(ss, |ss| - 1, base, limit);
    Disjoint(ss, |ss| - 1, |ss|, base, limit);
    SizedFlat(ss, base, limit, Symbols(a, base, maxBytes));
    SymbolsAre(ss, |ss|, base, limit);
  }

  lemma EntryThere(a: Artifact, base: nat, entry: Name, maxBytes: nat)
    requires Linkable(a, base, entry, maxBytes)
    ensures |ImageOf(a, base, entry, maxBytes).regions| == |a.functions| + |a.data| && StartsAt(a, ImageOf(a, base, entry, maxBytes), entry)
  {
    hide Validate, Placeable, AllRelocatable, HoldsBody, Packed, Symbols;
    var i :| 0 <= i < |a.functions| && a.functions[i].name == entry;
    RegionKept(a, base, entry, maxBytes, i);
  }

  lemma FunctionKept(a: Artifact, base: nat, entry: Name, maxBytes: nat, i: nat)
    requires Linkable(a, base, entry, maxBytes) && i < |a.functions|
    ensures |ImageOf(a, base, entry, maxBytes).regions| == |Sections(a)|
    ensures FunctionRegion(ImageOf(a, base, entry, maxBytes), i, a.functions[i])
  {
    hide Linkable, HoldsBody, Packed, ImageOf;
    RegionKept(a, base, entry, maxBytes, i);
  }

  lemma DataKept(a: Artifact, base: nat, entry: Name, maxBytes: nat, i: nat)
    requires Linkable(a, base, entry, maxBytes) && i < |a.data|
    ensures |ImageOf(a, base, entry, maxBytes).regions| == |Sections(a)|
    ensures DataRegion(ImageOf(a, base, entry, maxBytes), |a.functions| + i, a.data[i])
  {
    hide Linkable, HoldsBody, Packed, ImageOf;
    RegionKept(a, base, entry, maxBytes, |a.functions| + i);
    assert Sections(a)[|a.functions| + i] == OfData(a.data[i]);
  }

  lemma BlankKept(a: Artifact, base: nat, entry: Name, maxBytes: nat, x: nat)
    requires Linkable(a, base, entry, maxBytes) && x < |ImageOf(a, base, entry, maxBytes).bytes|
    requires forall i :: 0 <= i < |ImageOf(a, base, entry, maxBytes).regions| ==> ImageSpec.Outside(ImageOf(a, base, entry, maxBytes), i, x)
    ensures ImageOf(a, base, entry, maxBytes).bytes[x] == 0
  {
    hide Linkable, ImageOf;
    BaseKept(a, base, entry, maxBytes);
    var image := ImageOf(a, base, entry, maxBytes);
    forall i | 0 <= i < |image.regions|
      ensures !(image.regions[i].address <= base + x < image.regions[i].address + image.regions[i].size)
    {
      assert ImageSpec.Outside(image, i, x);
    }
    ImagePadding(a, base, entry, maxBytes, x);
  }

  lemma SymbolsKept(a: Artifact, base: nat, entry: Name, maxBytes: nat, name: Name)
    requires Linkable(a, base, entry, maxBytes) && name in ImageOf(a, base, entry, maxBytes).symbols
    ensures var regions := ImageOf(a, base, entry, maxBytes).regions;
      exists i :: 0 <= i < |regions| && regions[i].name == name
  {
    hide Linkable, HoldsBody, Packed, ImageOf;
    ImageEnds(a, base, entry, maxBytes);
    var i :| 0 <= i < |Sections(a)| && Sections(a)[i].name == name;
    RegionKept(a, base, entry, maxBytes, i);
  }

  /** The image that the specification gives keeps all promises. */
  lemma ImageFaithful(a: Artifact, base: nat, entry: Name, maxBytes: nat)
    requires Linkable(a, base, entry, maxBytes)
    ensures Faithful(a, base, entry, maxBytes, ImageOf(a, base, entry, maxBytes))
  {
    hide Linkable, HoldsBody, Packed, StartsAt, ImageOf, FunctionRegion, DataRegion, ImageSpec.Outside, EndBefore;
    var image := ImageOf(a, base, entry, maxBytes);
    ImageEnds(a, base, entry, maxBytes);
    EntryThere(a, base, entry, maxBytes);
    BaseKept(a, base, entry, maxBytes);
    forall i | 0 <= i < |a.functions|
      ensures FunctionRegion(image, i, a.functions[i])
    {
      FunctionKept(a, base, entry, maxBytes, i);
    }
    forall i | 0 <= i < |a.data|
      ensures DataRegion(image, |a.functions| + i, a.data[i])
    {
      DataKept(a, base, entry, maxBytes, i);
    }
    forall i | 0 <= i < |image.regions|
      ensures image.regions[i].address < WORD_LIMIT
    {
      RegionKept(a, base, entry, maxBytes, i);
    }
    forall name | name in image.symbols
      ensures exists i :: 0 <= i < |image.regions| && image.regions[i].name == name
    {
      SymbolsKept(a, base, entry, maxBytes, name);
    }
    forall x | 0 <= x < |image.bytes| && forall i :: 0 <= i < |image.regions| ==> ImageSpec.Outside(image, i, x)
      ensures image.bytes[x] == 0
    {
      BlankKept(a, base, entry, maxBytes, x);
    }
  }

  lemma BaseKept(a: Artifact, base: nat, entry: Name, maxBytes: nat)
    requires Linkable(a, base, entry, maxBytes)
    ensures base % 4 == 0 && ImageOf(a, base, entry, maxBytes).base == base
  {
  }

  // ---------------------------------------------------------------- no other image keeps the promises

  lemma SectionShown(a: Artifact, base: nat, entry: Name, maxBytes: nat, image: Image, i: nat)
    requires Faithful(a, base, entry, maxBytes, image) && i < |Sections(a)|
    ensures |image.regions| == |Sections(a)|
    ensures var s, r := Sections(a)[i], image.regions[i];
      && NamedAt(image, s.name, r) && Packed(image, i, s.align) && HoldsBody(image, r, s.bytes, s.relocations)
      && r == RegionOf(s, r.address, ReadOnlyAt(a, i), i < |a.functions|)
  {
    hide Faithful, Packed, HoldsBody;
    if i < |a.functions| {
      FunctionShown(a, base, entry, maxBytes, image, i);
    } else {
      DataShown(a, base, entry, maxBytes, image, i - |a.functions|);
      assert Sections(a)[|a.functions| + (i - |a.functions|)] == OfData(a.data[i - |a.functions|]);
    }
  }

  lemma FunctionShown(a: Artifact, base: nat, entry: Name, maxBytes: nat, image: Image, i: nat)
    requires Faithful(a, base, entry, maxBytes, image) && i < |a.functions|
    ensures |image.regions| == |Sections(a)| && FunctionRegion(image, i, a.functions[i])
  {
    hide FunctionRegion, DataRegion, StartsAt, ImageSpec.Outside, EndBefore;
  }

  lemma DataShown(a: Artifact, base: nat, entry: Name, maxBytes: nat, image: Image, i: nat)
    requires Faithful(a, base, entry, maxBytes, image) && i < |a.data|
    ensures |image.regions| == |Sections(a)| && DataRegion(image, |a.functions| + i, a.data[i])
  {
    hide FunctionRegion, DataRegion, StartsAt, ImageSpec.Outside, EndBefore;
  }

  lemma {:induction false} EndsGrow(a: Artifact, base: nat, entry: Name, maxBytes: nat, image: Image, i: nat, j: nat)
    requires Faithful(a, base, entry, maxBytes, image) && i <= j <= |image.regions| == |Sections(a)|
    ensures EndBefore(image, i) <= EndBefore(image, j)
  {
    hide NamedAt, HoldsBody, StartsAt, Faithful, ImageSpec.Outside, Sections;
    if i < j {
      EndsGrow(a, base, entry, maxBytes, image, i, j - 1);
      SectionShown(a, base, entry, maxBytes, image, j - 1);
    }
  }

  lemma AlignedOnce(low: nat, at: nat, align: nat)
    requires align > 0 && low <= at < low + align && at % align == 0
    ensures at == AlignUp(low, align)
  {
    hide AlignUp;
    var up := AlignUp(low, align);
    if up < at {
      MultipleGap(at, up, align);
    } else if at < up {
      MultipleGap(up, at, align);
    }
  }
}

/** The promises leave no freedom. */
module ImageOnly {
  import opened Alignment
  import opened Artifacts
  import opened Bytes
  import opened Layout
  import opened LinkSpec
  import opened LinkSteps
  import opened ImageSpec
  import opened ImageLaws
  import LittleEndian

  /** The first n sections are placed where the image has them. */
  lemma {:induction false} ShownPlaced(a: Artifact, base: nat, entry: Name, maxBytes: nat, image: Image, n: nat)
    requires Faithful(a, base, entry, maxBytes, image) && n <= |Sections(a)| && Aligned(Sections(a))
    ensures |image.regions| == |Sections(a)|
    ensures Placed(Sections(a), n, base, Limit(base, maxBytes)) == At(EndBefore(image, n))
    ensures forall i :: 0 <= i < n ==>
      && Placed(Sections(a), i, base, Limit(base, maxBytes)).At?
      && image.regions[i].address == Address(Sections(a), i, base, Limit(base, maxBytes))
  {
    hide NamedAt, HoldsBody, StartsAt, Faithful, ImageSpec.Outside, AlignUp, Sections;
    var limit := Limit(base, maxBytes);
    Whole(a, base, entry, maxBytes, image);
    if n > 0 {
      ShownPlaced(a, base, entry, maxBytes, image, n - 1);
      SectionShown(a, base, entry, maxBytes, image, n - 1);
      AlignedOnce(EndBefore(image, n - 1), image.regions[n - 1].address, Sections(a)[n - 1].align);
      EndsGrow(a, base, entry, maxBytes, image, n, |image.regions|);
    }
  }

  lemma Whole(a: Artifact, base: nat, entry: Name, maxBytes: nat, image: Image)
    requires Faithful(a, base, entry, maxBytes, image)
    ensures |image.regions| == |Sections(a)| && image.base == base && base % 4 == 0
    ensures base + |image.bytes| == EndBefore(image, |image.regions|) <= Limit(base, maxBytes)
    ensures forall i :: 0 <= i < |image.regions| ==> image.regions[i].address < WORD_LIMIT
  {
    hide NamedAt, HoldsBody, StartsAt, FunctionRegion, DataRegion, ImageSpec.Outside, EndBefore;
  }

  /** The symbols are the table of the specification. */
  lemma ShownSymbols(a: Artifact, base: nat, entry: Name, maxBytes: nat, image: Image)
    requires Faithful(a, base, entry, maxBytes, image) && Validate(a)
    ensures Placeable(a, base, maxBytes) && image.symbols == Symbols(a, base, maxBytes)
  {
    hide HoldsBody, StartsAt, Faithful, ImageSpec.Outside, AlignUp, Sections, Placed, SymbolTable, Validate, Packed;
    var ss, limit := Sections(a), Limit(base, maxBytes);
    ValidAligned(a);
    ValidNames(a);
    ShownPlaced(a, base, entry, maxBytes, image, |ss|);
    SymbolsAre(ss, |ss|, base, limit);
    var symbols := Symbols(a, base, maxBytes);
    forall i | 0 <= i < |ss|
      ensures ss[i].name in image.symbols && image.symbols[ss[i].name] == symbols[ss[i].name] && image.regions[i].name == ss[i].name
    {
      SectionShown(a, base, entry, maxBytes, image, i);
    }
    forall name | name in image.symbols
      ensures name in symbols
    {
      Whole(a, base, entry, maxBytes, image);
      NamesShown(a, base, entry, maxBytes, image, name);
      var i :| 0 <= i < |image.regions| && image.regions[i].name == name;
      assert ss[i].name == name;
    }
  }

  lemma NamesShown(a: Artifact, base: nat, entry: Name, maxBytes: nat, image: Image, name: Name)
    requires Faithful(a, base, entry, maxBytes, image) && name in image.symbols
    ensures exists i :: 0 <= i < |image.regions| && image.regions[i].name == name
  {
    hide NamedAt, HoldsBody, StartsAt, FunctionRegion, DataRegion, ImageSpec.Outside, EndBefore;
  }

  lemma ShownRelocatable(a: Artifact, base: nat, entry: Name, maxBytes: nat, image: Image)
    requires Faithful(a, base, entry, maxBytes, image)
    ensures AllRelocatable(Sections(a), image.symbols)
  {
    hide NamedAt, StartsAt, Faithful, ImageSpec.Outside, Sections, Packed, LittleEndian.Little;
    forall i | 0 <= i < |Sections(a)|
      ensures Relocatable(Sections(a)[i], |Sections(a)[i].relocations|, image.symbols)
    {
      SectionShown(a, base, entry, maxBytes, image, i);
      var s := Sections(a)[i];
      forall k | 0 <= k < |s.relocations|
        ensures Applies(s, k, image.symbols)
      {
        assert HoldsSite(image, image.regions[i].address - image.base, |s.bytes|, s.relocations, k);
      }
    }
  }

  /** An artifact with a faithful image links. */
  lemma FaithfulLinks(a: Artifact, base: nat, entry: Name, maxBytes: nat, image: Image)
    requires Faithful(a, base, entry, maxBytes, image) && Validate(a)
    ensures Linkable(a, base, entry, maxBytes)
  {
    hide Sections, AllRelocatable, Placeable, Symbols, Validate, FunctionRegion, DataRegion, ImageSpec.Outside, EndBefore;
    ShownSymbols(a, base, entry, maxBytes, image);
    ShownRelocatable(a, base, entry, maxBytes, image);
    var i :| 0 <= i < |a.functions| && a.functions[i].name == entry;
  }

  /** Two faithful images have the same regions. */
  lemma SameRegions(a: Artifact, base: nat, entry: Name, maxBytes: nat, x: Image, y: Image)
    requires Faithful(a, base, entry, maxBytes, x) && Faithful(a, base, entry, maxBytes, y) && Validate(a)
    ensures x.regions == y.regions && |x.regions| == |Sections(a)| && x.symbols == y.symbols && |x.bytes| == |y.bytes|
  {
    hide HoldsBody, StartsAt, Faithful, ImageSpec.Outside, AlignUp, Sections, Placed, Validate, Packed, NamedAt, Symbols;
    ValidAligned(a);
    ShownSymbols(a, base, entry, maxBytes, x);
    ShownSymbols(a, base, entry, maxBytes, y);
    Whole(a, base, entry, maxBytes, x);
    Whole(a, base, entry, maxBytes, y);
    ShownPlaced(a, base, entry, maxBytes, x, |Sections(a)|);
    ShownPlaced(a, base, entry, maxBytes, y, |Sections(a)|);
    forall i | 0 <= i < |x.regions|
      ensures x.regions[i] == y.regions[i]
    {
      SectionShown(a, base, entry, maxBytes, x, i);
      SectionShown(a, base, entry, maxBytes, y, i);
    }
  }

  lemma SameByte(x: Image, y: Image, r: Region, s: Section, at: nat)
    requires x.base == y.base && x.symbols == y.symbols && at < |s.bytes|
    requires HoldsBody(x, r, s.bytes, s.relocations) && HoldsBody(y, r, s.bytes, s.relocations)
    ensures x.bytes[r.address - x.base + at] == y.bytes[r.address - x.base + at]
  {
    hide LittleEndian.Little;
    var start := r.address - x.base;
    if k :| 0 <= k < |s.relocations| && InSite(s.relocations[k], at) {
      assert HoldsSite(x, start, |s.bytes|, s.relocations, k) && HoldsSite(y, start, |s.bytes|, s.relocations, k);
      var from, n := start + s.relocations[k].offset, at - s.relocations[k].offset;
      assert x.bytes[from..from + 4][n] == x.bytes[from + n] && y.bytes[from..from + 4][n] == y.bytes[from + n];
    } else {
      assert x.bytes[start + at] == s.bytes[at] == y.bytes[start + at];
    }
  }

  lemma SameBytes(a: Artifact, base: nat, entry: Name, maxBytes: nat, x: Image, y: Image, at: nat)
    requires Faithful(a, base, entry, maxBytes, x) && Faithful(a, base, entry, maxBytes, y) && Validate(a)
    requires at < |x.bytes| == |y.bytes|
    ensures x.bytes[at] == y.bytes[at]
  {
    hide HoldsBody, StartsAt, Faithful, AlignUp, Sections, Placed, Validate, Packed, NamedAt, Symbols;
    SameRegions(a, base, entry, maxBytes, x, y);
    Whole(a, base, entry, maxBytes, x);
    Whole(a, base, entry, maxBytes, y);
    if i :| 0 <= i < |x.regions| && !ImageSpec.Outside(x, i, at) {
      SectionShown(a, base, entry, maxBytes, x, i);
      SectionShown(a, base, entry, maxBytes, y, i);
      SameByte(x, y, x.regions[i], Sections(a)[i], base + at - x.regions[i].address);
    } else {
      forall i | 0 <= i < |y.regions|
        ensures ImageSpec.Outside(y, i, at)
      {
        assert ImageSpec.Outside(x, i, at);
      }
      Blank(a, base, entry, maxBytes, x, at);
      Blank(a, base, entry, maxBytes, y, at);
    }
  }

  lemma Blank(a: Artifact, base: nat, entry: Name, maxBytes: nat, image: Image, at: nat)
    requires Faithful(a, base, entry, maxBytes, image) && at < |image.bytes|
    requires forall i :: 0 <= i < |image.regions| ==> ImageSpec.Outside(image, i, at)
    ensures image.bytes[at] == 0
  {
    hide NamedAt, HoldsBody, StartsAt, FunctionRegion, DataRegion, ImageSpec.Outside, EndBefore;
  }

  lemma SameEntry(a: Artifact, base: nat, entry: Name, maxBytes: nat, x: Image, y: Image)
    requires Faithful(a, base, entry, maxBytes, x) && Faithful(a, base, entry, maxBytes, y) && Validate(a)
    ensures x.entry == y.entry
  {
    hide FunctionRegion, DataRegion, ImageSpec.Outside, EndBefore, Sections, Validate;
    SameRegions(a, base, entry, maxBytes, x, y);
    ValidNames(a);
    var i :| 0 <= i < |a.functions| && a.functions[i].name == entry && x.entry == x.regions[i].address;
    var j :| 0 <= j < |a.functions| && a.functions[j].name == entry && y.entry == y.regions[j].address;
    assert Sections(a)[i].name == Sections(a)[j].name;
  }

  /** A valid artifact has at most one faithful image, and links exactly when it has one. */
  lemma OnlyImage(a: Artifact, base: nat, entry: Name, maxBytes: nat, image: Image)
    requires Validate(a)
    ensures Faithful(a, base, entry, maxBytes, image)
      <==> Linkable(a, base, entry, maxBytes) && image == ImageOf(a, base, entry, maxBytes)
  {
    hide Faithful, Linkable, ImageOf, Validate;
    if Linkable(a, base, entry, maxBytes) {
      ImageFaithful(a, base, entry, maxBytes);
    }
    if Faithful(a, base, entry, maxBytes, image) {
      FaithfulLinks(a, base, entry, maxBytes, image);
      ImageFaithful(a, base, entry, maxBytes);
      var other := ImageOf(a, base, entry, maxBytes);
      SameRegions(a, base, entry, maxBytes, image, other);
      Whole(a, base, entry, maxBytes, image);
      Whole(a, base, entry, maxBytes, other);
      SameEntry(a, base, entry, maxBytes, image, other);
      forall at | 0 <= at < |image.bytes|
        ensures image.bytes[at] == other.bytes[at]
      {
        SameBytes(a, base, entry, maxBytes, image, other, at);
      }
    }
  }
}
