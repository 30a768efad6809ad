/** What linking one artifact into an image produces. */
module LinkSpec {
  import opened Alignment
  import opened Artifacts
  import opened Bytes
  import LittleEndian
  import opened Layout

  datatype Region = Region(name: Name, address: nat, size: nat, readOnly: bool, executable: bool, zeroFill: bool)

  datatype Image = Image(base: nat, entry: nat, bytes: seq<Byte>, symbols: map<Name, nat>, regions: seq<Region>)

  function WriteWord(b: seq<Byte>, at: nat, v: nat): (r: seq<Byte>)
    requires at + 4 <= |b| && v < WORD_LIMIT
    ensures |r| == |b| && r[at..at + 4] == LittleEndian.Little(v, 4)
    ensures forall k :: 0 <= k < |b| && !(at <= k < at + 4) ==> r[k] == b[k]
  {
    b[..at] + LittleEndian.Little(v, 4) + b[at + 4..]
  }

  // ---------------------------------------------------------------- relocations of one section

  function Target(r: Relocation, symbols: map<Name, nat>): int
    requires r.target in symbols
  {
    symbols[r.target] + r.addend
  }

  predicate Overlap(r: Relocation, q: Relocation) {
    r.offset < q.offset + 4 && r.offset + 4 > q.offset
  }

  /** Relocation n is inside, meets no earlier one and has a value that fits. */
  predicate Applies(s: Section, n: nat, symbols: map<Name, nat>)
    requires n < |s.relocations|
  {
    var r := s.relocations[n];
    && r.offset + 4 <= |s.bytes|
    && (forall k :: 0 <= k < n ==> !Overlap(r, s.relocations[k]))
    && r.target in symbols && 0 <= Target(r, symbols) < WORD_LIMIT
  }

  predicate Relocatable(s: Section, n: nat, symbols: map<Name, nat>)
    requires n <= |s.relocations|
  {
    forall k :: 0 <= k < n ==> Applies(s, k, symbols)
  }

  /** The section's bytes with its first n relocations applied. */
  function Patched(s: Section, n: nat, symbols: map<Name, nat>): (r: seq<Byte>)
    requires n <= |s.relocations| && Relocatable(s, n, symbols)
    ensures |r| == |s.bytes|
  {
    if n == 0 then s.bytes
    else
      assert Applies(s, n - 1, symbols);
      WriteWord(Patched(s, n - 1, symbols), s.relocations[n - 1].offset, Target(s.relocations[n - 1], symbols))
  }

  function Linked(s: Section, symbols: map<Name, nat>): (r: seq<Byte>)
    requires Relocatable(s, |s.relocations|, symbols)
    ensures |r| == |s.bytes|
  {
    Patched(s, |s.relocations|, symbols)
  }

  /** The word at a site is the symbol's address plus the addend. */
  ghost predicate SiteHolds(r: Relocation, bytes: seq<Byte>, symbols: map<Name, nat>) {
    && r.offset + 4 <= |bytes| && r.target in symbols && 0 <= Target(r, symbols) < WORD_LIMIT
    && bytes[r.offset..r.offset + 4] == LittleEndian.Little(Target(r, symbols), 4)
  }

  /** Every site holds its symbol plus addend, and every other byte is the input's. */
  lemma {:induction false} SitesPatched(s: Section, n: nat, symbols: map<Name, nat>)
    requires n <= |s.relocations| && Relocatable(s, n, symbols)
    ensures forall k :: 0 <= k < n ==> SiteHolds(s.relocations[k], Patched(s, n, symbols), symbols)
    ensures forall i :: 0 <= i < |s.bytes| && (forall k :: 0 <= k < n ==> !InSite(s.relocations[k], i)) ==>
      Patched(s, n, symbols)[i] == s.bytes[i]
  {
    hide LittleEndian.Little;
    if n > 0 {
      SitesPatched(s, n - 1, symbols);
      var before, after := Patched(s, n - 1, symbols), Patched(s, n, symbols);
      assert Applies(s, n - 1, symbols);
      forall k | 0 <= k < n
        ensures SiteHolds(s.relocations[k], after, symbols)
      {
        if k < n - 1 {
          assert SiteHolds(s.relocations[k], before, symbols) && !Overlap(s.relocations[n - 1], s.relocations[k]);
          SameSite(before, after, s.relocations[n - 1].offset, s.relocations[k].offset);
        }
      }
      forall i | 0 <= i < |s.bytes| && (forall k :: 0 <= k < n ==> !InSite(s.relocations[k], i))
        ensures after[i] == s.bytes[i]
      {
        assert !InSite(s.relocations[n - 1], i);
      }
    }
  }

  predicate InSite(r: Relocation, i: nat) {
    r.offset <= i < r.offset + 4
  }

  lemma SameSite(a: seq<Byte>, b: seq<Byte>, at: nat, other: nat)
    requires |a| == |b| && at + 4 <= |a| && other + 4 <= |a| && (other + 4 <= at || at + 4 <= other)
    requires forall k :: 0 <= k < |a| && !(at <= k < at + 4) ==> b[k] == a[k]
    ensures b[other..other + 4] == a[other..other + 4]
  {
  }

  // ---------------------------------------------------------------- the image

  function Limit(base: nat, maxBytes: nat): nat {
    if base + maxBytes < WORD_LIMIT then base + maxBytes else WORD_LIMIT
  }

  /** The address of each of the first n sections. */
  function SymbolTable(ss: seq<Section>, n: nat, base: nat, limit: nat): map<Name, nat>
    requires n <= |ss| && Aligned(ss) && Placed(ss, n, base, limit).At?
  {
    if n == 0 then map[]
    else SymbolTable(ss, n - 1, base, limit)[ss[n - 1].name := Address(ss, n - 1, base, limit)]
  }

  lemma {:induction false} SymbolsAre(ss: seq<Section>, n: nat, base: nat, limit: nat)
    requires n <= |ss| && Aligned(ss) && Unique(ss) && Placed(ss, n, base, limit).At?
    ensures forall name :: name in SymbolTable(ss, n, base, limit) <==> exists i :: 0 <= i < n && ss[i].name == name
    ensures forall i :: 0 <= i < n ==>
      Placed(ss, i, base, limit).At? && SymbolTable(ss, n, base, limit)[ss[i].name] == Address(ss, i, base, limit)
  {
    hide AlignUp, Fits, Placed, SymbolTable;
    SymbolStep(ss, n, base, limit);
    if n > 0 {
      SymbolsAre(ss, n - 1, base, limit);
      PlacedBefore(ss, n - 1, n, base, limit);
    }
  }

  lemma SymbolStep(ss: seq<Section>, n: nat, base: nat, limit: nat)
    requires n <= |ss| && Aligned(ss) && Placed(ss, n, base, limit).At?
    ensures n == 0 ==> SymbolTable(ss, n, base, limit) == map[]
    ensures n > 0 ==> Placed(ss, n - 1, base, limit).At?
    ensures n > 0 ==> (SymbolTable(ss, n, base, limit)
                   == SymbolTable(ss, n - 1, base, limit)[ss[n - 1].name := Address(ss, n - 1, base, limit)])
  {
    hide AlignUp, Fits;
  }

  function RegionOf(s: Section, address: nat, readOnly: bool, executable: bool): Region {
    Region(s.name, address, |s.bytes|, readOnly, executable,
      !executable && !readOnly && s.relocations == [] && forall i :: 0 <= i < |s.bytes| ==> s.bytes[i] == 0)
  }

  predicate ReadOnlyAt(a: Artifact, i: nat)
    requires i < |Sections(a)|
  {
    i < |a.functions| || a.data[i - |a.functions|].readOnly
  }

  function Regions(a: Artifact, n: nat, base: nat, limit: nat): (r: seq<Region>)
    requires n <= |Sections(a)| && Aligned(Sections(a)) && Placed(Sections(a), n, base, limit).At?
    ensures |r| == n
  {
    if n == 0 then []
    else
      var s, address := Sections(a)[n - 1], Address(Sections(a), n - 1, base, limit);
      Regions(a, n - 1, base, limit) + [RegionOf(s, address, ReadOnlyAt(a, n - 1), n - 1 < |a.functions|)]
  }

  ghost predicate AllRelocatable(ss: seq<Section>, symbols: map<Name, nat>) {
    forall i :: 0 <= i < |ss| ==> Relocatable(ss[i], |ss[i].relocations|, symbols)
  }

  /** The first n sections, each after the padding that aligns it. */
  function Flat(ss: seq<Section>, n: nat, base: nat, limit: nat, symbols: map<Name, nat>): (r: seq<Byte>)
    requires n <= |ss| && Aligned(ss) && Placed(ss, n, base, limit).At?
    requires forall i :: 0 <= i < n ==> Relocatable(ss[i], |ss[i].relocations|, symbols)
    ensures |r| == Placed(ss, n, base, limit).at - base
  {
    if n == 0 then []
    else
      var before := Placed(ss, n - 1, base, limit).at;
      Flat(ss, n - 1, base, limit, symbols) + Zeros(Address(ss, n - 1, base, limit) - before)
      + Linked(ss[n - 1], symbols)
  }

  lemma FlatStep(ss: seq<Section>, n: nat, base: nat, limit: nat, symbols: map<Name, nat>)
    requires 0 < n <= |ss| && Aligned(ss) && Placed(ss, n, base, limit).At?
    requires forall i :: 0 <= i < n ==> Relocatable(ss[i], |ss[i].relocations|, symbols)
    ensures Placed(ss, n - 1, base, limit).At?
    ensures var start := Address(ss, n - 1, base, limit) - base;
      && start + |ss[n - 1].bytes| == |Flat(ss, n, base, limit, symbols)|
      && Flat(ss, n, base, limit, symbols)[start..] == Linked(ss[n - 1], symbols)
      && Flat(ss, n, base, limit, symbols)[..start]
         == Flat(ss, n - 1, base, limit, symbols) + Zeros(start - |Flat(ss, n - 1, base, limit, symbols)|)
  {
    hide AlignUp, Fits, Relocatable, Linked, Zeros;
  }

  /** Section i is in the image at its address, linked. */
  lemma {:induction false} FlatSection(ss: seq<Section>, i: nat, n: nat, base: nat, limit: nat, symbols: map<Name, nat>)
    requires i < n <= |ss| && Aligned(ss) && Placed(ss, n, base, limit).At?
    requires forall k :: 0 <= k < n ==> Relocatable(ss[k], |ss[k].relocations|, symbols)
    ensures Placed(ss, i, base, limit).At?
    ensures var start, flat := Address(ss, i, base, limit) - base, Flat(ss, n, base, limit, symbols);
      start + |ss[i].bytes| <= |flat| && flat[start..start + |ss[i].bytes|] == Linked(ss[i], symbols)
  {
    hide AlignUp, Fits, Relocatable, Linked, Zeros, Flat, Placed;
    FlatStep(ss, n, base, limit, symbols);
    var flat := Flat(ss, n, base, limit, symbols);
    if i < n - 1 {
      FlatSection(ss, i, n - 1, base, limit, symbols);
      var start, before := Address(ss, i, base, limit) - base, Flat(ss, n - 1, base, limit, symbols);
      var here := Address(ss, n - 1, base, limit) - base;
      assert flat[..here][start..start + |ss[i].bytes|] == before[start..start + |ss[i].bytes|];
    }
  }

  /** Bytes in no section are zero. */
  lemma {:induction false} FlatPadding(ss: seq<Section>, n: nat, base: nat, limit: nat, symbols: map<Name, nat>, x: nat)
    requires n <= |ss| && Aligned(ss) && Placed(ss, n, base, limit).At?
    requires forall k :: 0 <= k < n ==> Relocatable(ss[k], |ss[k].relocations|, symbols)
    requires x < |Flat(ss, n, base, limit, symbols)|
    requires forall i :: 0 <= i < n ==> Placed(ss, i, base, limit).At? && Outside(ss, i, base, limit, x)
    ensures Flat(ss, n, base, limit, symbols)[x] == 0
  {
    hide AlignUp, Fits, Relocatable, Linked, Placed, Flat;
    if n > 0 {
      FlatStep(ss, n, base, limit, symbols);
      var flat := Flat(ss, n, base, limit, symbols);
      var start := Address(ss, n - 1, base, limit) - base;
      assert Outside(ss, n - 1, base, limit, x);
      assert flat[x] == flat[..start][x];
      if x < |Flat(ss, n - 1, base, limit, symbols)| {
        FlatPadding(ss, n - 1, base, limit, symbols, x);
      }
    } else {
      assert |Flat(ss, 0, base, limit, symbols)| == 0 by { EmptyFlat(ss, base, limit, symbols); }
    }
  }

  lemma EmptyFlat(ss: seq<Section>, base: nat, limit: nat, symbols: map<Name, nat>)
    requires Aligned(ss)
    ensures Flat(ss, 0, base, limit, symbols) == []
  {
  }

  ghost predicate Outside(ss: seq<Section>, i: nat, base: nat, limit: nat, x: nat)
    requires i < |ss| && Aligned(ss) && Placed(ss, i, base, limit).At?
  {
    !(Address(ss, i, base, limit) - base <= x < Address(ss, i, base, limit) - base + |ss[i].bytes|)
  }

  // ---------------------------------------------------------------- when linking succeeds

  lemma {:induction false} PowerPositive(n: nat)
    requires PowerOfTwo(n)
    ensures n > 0
  {
  }

  lemma ValidAligned(a: Artifact)
    requires Validate(a)
    ensures Aligned(Sections(a))
  {
    forall i | 0 <= i < |Sections(a)|
      ensures Sections(a)[i].align > 0
    {
      if i >= |a.functions| {
        assert Sections(a)[|a.functions| + (i - |a.functions|)] == OfData(a.data[i - |a.functions|]);
        PowerPositive(a.data[i - |a.functions|].align);
      }
    }
  }

  predicate HasFunction(a: Artifact, name: Name) {
    exists i :: 0 <= i < |a.functions| && a.functions[i].name == name
  }

  ghost predicate Placeable(a: Artifact, base: nat, maxBytes: nat) {
    Validate(a) && (ValidAligned(a); Placed(Sections(a), |Sections(a)|, base, Limit(base, maxBytes)).At?)
  }

  function Symbols(a: Artifact, base: nat, maxBytes: nat): map<Name, nat>
    requires Placeable(a, base, maxBytes)
  {
    ValidAligned(a);
    SymbolTable(Sections(a), |Sections(a)|, base, Limit(base, maxBytes))
  }

  ghost predicate Linkable(a: Artifact, base: nat, entry: Name, maxBytes: nat) {
    && base % 4 == 0 && HasFunction(a, entry) && Placeable(a, base, maxBytes)
    && AllRelocatable(Sections(a), Symbols(a, base, maxBytes))
  }

  lemma EntrySymbol(a: Artifact, base: nat, entry: Name, maxBytes: nat)
    requires Placeable(a, base, maxBytes) && HasFunction(a, entry)
    ensures entry in Symbols(a, base, maxBytes)
  {
    ValidAligned(a);
    SymbolsAre(Sections(a), |Sections(a)|, base, Limit(base, maxBytes));
    var i :| 0 <= i < |a.functions| && a.functions[i].name == entry;
    assert Sections(a)[i].name == entry;
  }

  /** The image. */
  function ImageOf(a: Artifact, base: nat, entry: Name, maxBytes: nat): Image
    requires Linkable(a, base, entry, maxBytes)
  {
    ValidAligned(a);
    EntrySymbol(a, base, entry, maxBytes);
    var ss, limit, symbols := Sections(a), Limit(base, maxBytes), Symbols(a, base, maxBytes);
    Image(base, symbols[entry], Flat(ss, |ss|, base, limit, symbols), symbols, Regions(a, |ss|, base, limit))
  }
}
