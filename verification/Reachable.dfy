/** Linking only what the entry reaches. */
module Reachable {
  import opened Alignment
  import opened Options
  import opened Artifacts
  import opened Bytes
  import opened Merge
  import opened MergeObjects
  import opened MergeLaws
  import opened Layout
  import opened LinkSpec
  import opened ImageSpec
  import opened LinkImage

  // ---------------------------------------------------------------- what is reached

  /** Contains the entry and, with a section's name, the names that section refers to. */
  ghost predicate Closed(ss: seq<Section>, entry: Name, names: set<Name>) {
    && entry in names
    && forall i, k :: 0 <= i < |ss| && 0 <= k < |ss[i].relocations| && ss[i].name in names ==>
         ss[i].relocations[k].target in names
  }

  ghost predicate AllDefined(ss: seq<Section>, names: set<Name>) {
    forall name :: name in names ==> Defines(ss, name)
  }

  /** The least closed set, all of it defined. */
  ghost predicate Reached(ss: seq<Section>, entry: Name, live: set<Name>) {
    && Closed(ss, entry, live) && AllDefined(ss, live)
    && forall names :: Closed(ss, entry, names) ==> live <= names
  }

  function Targets(s: Section): (r: seq<Name>)
    ensures |r| == |s.relocations| && forall k :: 0 <= k < |r| ==> r[k] == s.relocations[k].target
  {
    seq(|s.relocations|, k requires 0 <= k < |s.relocations| => s.relocations[k].target)
  }

  /** The names each definition refers to. */
  method Dependencies(ss: seq<Section>) returns (edges: map<Name, seq<Name>>)
    requires Unique(ss)
    ensures forall name :: name in edges <==> Defines(ss, name)
    ensures forall i :: 0 <= i < |ss| ==> ss[i].name in edges && edges[ss[i].name] == Targets(ss[i])
  {
    edges := map[];
    for n := 0 to |ss|
      invariant forall name :: name in edges <==> exists i :: 0 <= i < n && ss[i].name == name
      invariant forall i :: 0 <= i < n ==> ss[i].name in edges && edges[ss[i].name] == Targets(ss[i])
    {
      edges := edges[ss[n].name := Targets(ss[n])];
    }
  }

  /** The names still to visit, and those visited, lie in every closed set; what was visited leads
      only to names of either kind. */
  ghost predicate Walking(ss: seq<Section>, entry: Name, edges: map<Name, seq<Name>>, live: set<Name>, pending: seq<Name>) {
    && (entry in live || entry in pending)
    && live <= edges.Keys
    && (forall name, t :: name in live && t in edges[name] ==> t in live || t in pending)
    && forall names :: Closed(ss, entry, names) ==> live <= names && forall t :: t in pending ==> t in names
  }

  /** The worklist of link_reachable_images. It fails exactly when every closed set contains a name
      without a definition. */
  method Reach(ss: seq<Section>, entry: Name) returns (ok: bool, live: set<Name>)
    requires Unique(ss)
    ensures ok ==> Reached(ss, entry, live)
    ensures !ok ==> forall names :: Closed(ss, entry, names) ==> !AllDefined(ss, names)
  {
    hide Closed, Unique;
    var edges := Dependencies(ss);
    live := {};
    var pending := [entry];
    WalkStart(ss, entry, edges);
    while pending != []
      invariant Walking(ss, entry, edges, live, pending)
      decreases edges.Keys - live, |pending|
    {
      var name := pending[|pending| - 1];
      var rest := pending[..|pending| - 1];
      assert pending == rest + [name];
      if name in live {
        WalkAgain(ss, entry, edges, live, rest, name);
        pending := rest;
      } else if name !in edges {
        assert forall names :: Closed(ss, entry, names) ==> name in names && !Defines(ss, name);
        return false, {};
      } else {
        WalkOn(ss, entry, edges, live, rest, name);
        live := live + {name};
        pending := rest + edges[name];
      }
    }
    ok := true;
    WalkEnd(ss, entry, edges, live);
  }

  lemma WalkStart(ss: seq<Section>, entry: Name, edges: map<Name, seq<Name>>)
    ensures Walking(ss, entry, edges, {}, [entry])
  {
  }

  lemma WalkAgain(ss: seq<Section>, entry: Name, edges: map<Name, seq<Name>>, live: set<Name>, rest: seq<Name>, name: Name)
    requires Walking(ss, entry, edges, live, rest + [name]) && name in live
    ensures Walking(ss, entry, edges, live, rest)
  {
    hide Closed;
    assert forall t :: t in rest + [name] <==> t in rest || t == name;
  }

  lemma WalkOn(ss: seq<Section>, entry: Name, edges: map<Name, seq<Name>>, live: set<Name>, rest: seq<Name>, name: Name)
    requires Walking(ss, entry, edges, live, rest + [name]) && name in edges && name !in live
    requires forall i :: 0 <= i < |ss| ==> ss[i].name in edges && edges[ss[i].name] == Targets(ss[i])
    requires Defines(ss, name)
    ensures Walking(ss, entry, edges, live + {name}, rest + edges[name])
  {
    var next := rest + edges[name];
    assert forall t :: t in next <==> t in rest || t in edges[name];
    assert forall t :: t in rest + [name] <==> t in rest || t == name;
    var i :| 0 <= i < |ss| && ss[i].name == name;
    forall names | Closed(ss, entry, names)
      ensures live + {name} <= names && forall t :: t in next ==> t in names
    {
      forall t | t in edges[name]
        ensures t in names
      {
        var k :| 0 <= k < |Targets(ss[i])| && Targets(ss[i])[k] == t;
        assert ss[i].relocations[k].target == t;
      }
    }
  }

  lemma WalkEnd(ss: seq<Section>, entry: Name, edges: map<Name, seq<Name>>, live: set<Name>)
    requires Walking(ss, entry, edges, live, [])
    requires forall name :: name in edges <==> Defines(ss, name)
    requires forall i :: 0 <= i < |ss| ==> ss[i].name in edges && edges[ss[i].name] == Targets(ss[i])
    ensures Reached(ss, entry, live)
  {
    forall i, k | 0 <= i < |ss| && 0 <= k < |ss[i].relocations| && ss[i].name in live
      ensures ss[i].relocations[k].target in live
    {
      assert Targets(ss[i])[k] in edges[ss[i].name];
    }
  }

  // ---------------------------------------------------------------- what is left

  function KeptFunctions(fs: seq<Function>, live: set<Name>): seq<Function> {
    if fs == [] then []
    else KeptFunctions(fs[..|fs| - 1], live) + if fs[|fs| - 1].name in live then [fs[|fs| - 1]] else []
  }

  function KeptData(ds: seq<Data>, live: set<Name>): seq<Data> {
    if ds == [] then []
    else KeptData(ds[..|ds| - 1], live) + if ds[|ds| - 1].name in live then [ds[|ds| - 1]] else []
  }

  function Pruned(a: Artifact, live: set<Name>): Artifact {
    Artifact(if a.locals.Some? then Some(a.locals.value * live) else None,
      KeptFunctions(a.functions, live), KeptData(a.data, live))
  }

  lemma {:induction false} KeptConcat(a: seq<Section>, b: seq<Section>, live: set<Name>)
    ensures Kept(a + b, live) == Kept(a, live) + Kept(b, live)
    decreases |b|
  {
    if b == [] {
      assert a + b == a;
    } else {
      assert (a + b)[..|a + b| - 1] == a + b[..|b| - 1];
      KeptConcat(a, b[..|b| - 1], live);
    }
  }

  function SectionsOfFunctions(fs: seq<Function>): seq<Section> {
    Sections(Artifact(None, fs, []))
  }

  function SectionsOfData(ds: seq<Data>): seq<Section> {
    Sections(Artifact(None, [], ds))
  }

  lemma {:induction false} FunctionsKept(fs: seq<Function>, live: set<Name>)
    ensures SectionsOfFunctions(KeptFunctions(fs, live)) == Kept(SectionsOfFunctions(fs), live)
    ensures forall f :: f in KeptFunctions(fs, live) <==> f in fs && f.name in live
  {
    if fs != [] {
      var front, last := fs[..|fs| - 1], fs[|fs| - 1];
      FunctionsKept(front, live);
      assert SectionsOfFunctions(fs)[..|fs| - 1] == SectionsOfFunctions(front);
      assert fs == front + [last];
      assert SectionsOfFunctions(KeptFunctions(front, live) + [last])
          == SectionsOfFunctions(KeptFunctions(front, live)) + [OfFunction(last)];
      assert KeptFunctions(front, live) + [] == KeptFunctions(front, live);
    } else {
      assert SectionsOfFunctions([]) == [];
    }
  }

  lemma {:induction false} DataKept(ds: seq<Data>, live: set<Name>)
    ensures SectionsOfData(KeptData(ds, live)) == Kept(SectionsOfData(ds), live)
    ensures forall d :: d in KeptData(ds, live) <==> d in ds && d.name in live
  {
    if ds != [] {
      var front, last := ds[..|ds| - 1], ds[|ds| - 1];
      DataKept(front, live);
      assert SectionsOfData(ds)[..|ds| - 1] == SectionsOfData(front);
      assert ds == front + [last];
      assert SectionsOfData(KeptData(front, live) + [last]) == SectionsOfData(KeptData(front, live)) + [OfData(last)];
      assert KeptData(front, live) + [] == KeptData(front, live);
    } else {
      assert SectionsOfData([]) == [];
    }
  }

  lemma PrunedSections(a: Artifact, live: set<Name>)
    ensures Sections(Pruned(a, live)) == Kept(Sections(a), live)
    ensures forall f :: f in Pruned(a, live).functions <==> f in a.functions && f.name in live
    ensures forall d :: d in Pruned(a, live).data <==> d in a.data && d.name in live
  {
    hide Kept, KeptFunctions, KeptData, Sections, SectionsOfFunctions, SectionsOfData;
    FunctionsKept(a.functions, live);
    DataKept(a.data, live);
    KeptConcat(SectionsOfFunctions(a.functions), SectionsOfData(a.data), live);
    SectionsSplit(a);
    SectionsSplit(Pruned(a, live));
  }

  /** What survives keeps its order. */
  lemma {:induction false} KeptOrdered(ss: seq<Section>, live: set<Name>, p: nat, q: nat, i: nat, j: nat)
    requires Unique(ss) && p < q < |Kept(ss, live)| && i < |ss| && j < |ss|
    requires Kept(ss, live)[p] == ss[i] && Kept(ss, live)[q] == ss[j]
    ensures i < j
  {
    var front, last := ss[..|ss| - 1], ss[|ss| - 1];
    var kept := Kept(front, live);
    assert Kept(ss, live) == kept + if last.name in live then [last] else [];
    hide Kept, Unique;
    KeptMembers(front, live);
    assert kept[p] in kept;
    var x :| 0 <= x < |front| && front[x] == kept[p];
    assert ss[x] == ss[i];
    Distinct(ss, x, i);
    if q < |kept| {
      assert kept[q] in kept;
      var y :| 0 <= y < |front| && front[y] == kept[q];
      assert ss[y] == ss[j];
      Distinct(ss, y, j);
      FrontUnique(ss);
      KeptOrdered(front, live, p, q, i, j);
    } else {
      Distinct(ss, |ss| - 1, j);
    }
  }

  lemma Distinct(ss: seq<Section>, i: nat, j: nat)
    requires Unique(ss) && i < |ss| && j < |ss| && ss[i] == ss[j]
    ensures i == j
  {
  }

  lemma FrontUnique(ss: seq<Section>)
    requires Unique(ss) && ss != []
    ensures Unique(ss[..|ss| - 1])
  {
  }

  lemma SectionsSplit(a: Artifact)
    ensures Sections(a) == SectionsOfFunctions(a.functions) + SectionsOfData(a.data)
  {
  }

  // ---------------------------------------------------------------- the pruned artifact

  lemma PrunedValid(a: Artifact, entry: Name, live: set<Name>)
    requires Validate(a) && HasFunction(a, entry) && entry in live
    ensures Validate(Pruned(a, live)) && HasFunction(Pruned(a, live), entry)
  {
    hide Kept, KeptFunctions, KeptData, Sections, Unique;
    var p := Pruned(a, live);
    PrunedSections(a, live);
    KeptUnique(Sections(a), live);
    KeptMembers(Sections(a), live);
    var i :| 0 <= i < |a.functions| && a.functions[i].name == entry;
    assert a.functions[i] in p.functions;
    forall name | IsLocal(p, name)
      ensures Defines(Sections(p), name)
    {
      var k :| 0 <= k < |Sections(a)| && Sections(a)[k].name == name;
      assert Sections(a)[k] in Sections(p);
    }
    forall k | 0 <= k < |p.functions|
      ensures p.functions[k].name != [] && p.functions[k].code != [] && |p.functions[k].code| % 2 == 0
    {
      assert p.functions[k] in p.functions;
    }
    forall k | 0 <= k < |p.data|
      ensures p.data[k].name != [] && PowerOfTwo(p.data[k].align) && RelocationsInside(OfData(p.data[k]))
    {
      assert p.data[k] in p.data;
    }
  }

  /** Surviving definitions keep their order and never move up. */
  lemma PrunedLower(a: Artifact, entry: Name, live: set<Name>, base: nat, maxBytes: nat)
    requires Placeable(a, base, maxBytes) && HasFunction(a, entry) && entry in live
    ensures Placeable(Pruned(a, live), base, maxBytes)
    ensures var full, less := Symbols(a, base, maxBytes), Symbols(Pruned(a, live), base, maxBytes);
      forall name :: name in less <==> name in full && name in live
    ensures var full, less := Symbols(a, base, maxBytes), Symbols(Pruned(a, live), base, maxBytes);
      forall name :: name in less ==> name in full && less[name] <= full[name]
  {
    hide Kept, KeptFunctions, KeptData, Sections, Unique, Placed, SymbolTable, AlignUp, Fits, Validate;
    var ss, limit := Sections(a), Limit(base, maxBytes);
    PrunedValid(a, entry, live);
    PrunedSections(a, live);
    ValidAligned(a);
    ValidAligned(Pruned(a, live));
    ValidUnique(a);
    KeptWhole(ss, live);
    KeptLower(ss, |ss|, live, base, limit);
    TablesLower(ss, live, base, limit);
  }

  lemma TablesLower(ss: seq<Section>, live: set<Name>, base: nat, limit: nat)
    requires Aligned(ss) && Aligned(Kept(ss, live)) && Unique(ss)
    requires Placed(ss, |ss|, base, limit).At? && Placed(Kept(ss, live), |Kept(ss, live)|, base, limit).At?
    ensures var full, less := SymbolTable(ss, |ss|, base, limit), SymbolTable(Kept(ss, live), |Kept(ss, live)|, base, limit);
      (forall name :: name in less <==> name in full && name in live)
      && forall name :: name in less ==> name in full && less[name] <= full[name]
  {
    hide Kept, Unique, Placed, SymbolTable, AlignUp, Fits;
    KeptUnique(ss, live);
    KeptMembers(ss, live);
    SymbolsAre(ss, |ss|, base, limit);
    SymbolsAre(Kept(ss, live), |Kept(ss, live)|, base, limit);
    var full, less := SymbolTable(ss, |ss|, base, limit), SymbolTable(Kept(ss, live), |Kept(ss, live)|, base, limit);
    forall name | name in full && name in live
      ensures name in less && less[name] <= full[name]
    {
      var i :| 0 <= i < |ss| && ss[i].name == name;
      KeptLower(ss, i, live, base, limit);
    }
    forall name | name in less
      ensures name in full && name in live
    {
      var k :| 0 <= k < |Kept(ss, live)| && Kept(ss, live)[k].name == name;
      assert Kept(ss, live)[k] in Kept(ss, live);
      var i :| 0 <= i < |ss| && ss[i] == Kept(ss, live)[k];
    }
  }

  lemma KeptWhole(ss: seq<Section>, live: set<Name>)
    ensures KeptBefore(ss, |ss|, live) == |Kept(ss, live)|
  {
    assert ss[..|ss|] == ss;
  }

  /** No surviving relocation goes below address zero. */
  ghost predicate NoUnderflow(ss: seq<Section>, symbols: map<Name, nat>) {
    forall i, k :: 0 <= i < |ss| && 0 <= k < |ss[i].relocations| && ss[i].relocations[k].target in symbols ==>
      Target(ss[i].relocations[k], symbols) >= 0
  }

  /** When the whole links, what the entry reaches links as well unless a lower symbol makes a
      negative addend go below zero. */
  lemma PrunedLinks(a: Artifact, entry: Name, live: set<Name>, base: nat, maxBytes: nat)
    requires Linkable(a, base, entry, maxBytes) && Reached(Sections(a), entry, live)
    ensures Placeable(Pruned(a, live), base, maxBytes)
    ensures Linkable(Pruned(a, live), base, entry, maxBytes)
      <==> NoUnderflow(Sections(Pruned(a, live)), Symbols(Pruned(a, live), base, maxBytes))
  {
    hide Kept, KeptFunctions, KeptData, Sections, Placed, SymbolTable, Validate, Symbols, Relocatable, Placeable, Pruned, NoUnderflow;
    var ss, p := Sections(a), Pruned(a, live);
    PrunedLower(a, entry, live, base, maxBytes);
    PrunedSections(a, live);
    KeptMembers(ss, live);
    PrunedEntry(a, entry, live, base, maxBytes);
    var full, less := Symbols(a, base, maxBytes), Symbols(p, base, maxBytes);
    if NoUnderflow(Sections(p), less) {
      forall i | 0 <= i < |Sections(p)|
        ensures Relocatable(Sections(p)[i], |Sections(p)[i].relocations|, less)
      {
        assert Sections(p)[i] in Sections(p);
        var k :| 0 <= k < |ss| && ss[k] == Sections(p)[i];
        DefinedSymbols(a, live, base, maxBytes);
        LowerRelocatable(ss, k, entry, live, full, less, Sections(p), i);
      }
    } else {
      Underflows(Sections(p), less);
    }
  }

  lemma PrunedEntry(a: Artifact, entry: Name, live: set<Name>, base: nat, maxBytes: nat)
    requires Linkable(a, base, entry, maxBytes) && entry in live
    ensures HasFunction(Pruned(a, live), entry)
  {
    PrunedValid(a, entry, live);
  }

  lemma DefinedSymbols(a: Artifact, live: set<Name>, base: nat, maxBytes: nat)
    requires Placeable(a, base, maxBytes) && AllDefined(Sections(a), live)
    ensures forall name :: name in live ==> name in Symbols(a, base, maxBytes)
  {
    hide Sections, Placed, SymbolTable, Validate;
    ValidUnique(a);
    ValidAligned(a);
    SymbolsAre(Sections(a), |Sections(a)|, base, Limit(base, maxBytes));
  }

  lemma LowerRelocatable(ss: seq<Section>, k: nat, entry: Name, live: set<Name>, full: map<Name, nat>, less: map<Name, nat>,
                         ps: seq<Section>, i: nat)
    requires k < |ss| && Closed(ss, entry, live) && ss[k].name in live && Relocatable(ss[k], |ss[k].relocations|, full)
    requires i < |ps| && ps[i] == ss[k] && NoUnderflow(ps, less)
    requires forall name :: name in less <==> name in full && name in live
    requires forall name :: name in less ==> name in full && less[name] <= full[name]
    ensures Relocatable(ss[k], |ss[k].relocations|, less)
  {
    forall n | 0 <= n < |ss[k].relocations|
      ensures Applies(ss[k], n, less)
    {
      assert Applies(ss[k], n, full);
    }
  }

  lemma Underflows(ss: seq<Section>, symbols: map<Name, nat>)
    requires !NoUnderflow(ss, symbols)
    ensures !AllRelocatable(ss, symbols)
  {
    var i, k :| 0 <= i < |ss| && 0 <= k < |ss[i].relocations| && ss[i].relocations[k].target in symbols
             && Target(ss[i].relocations[k], symbols) < 0;
    assert !Applies(ss[i], k, symbols);
  }

  // ---------------------------------------------------------------- link_reachable_images

  /** The checks made on every input before anything is left out. */
  predicate SitesFine(s: Section) {
    forall n :: 0 <= n < |s.relocations| ==>
      && s.relocations[n].offset + 4 <= |s.bytes|
      && forall k :: 0 <= k < n ==> !Overlap(s.relocations[n], s.relocations[k])
  }

  predicate AllSitesFine(objects: seq<Artifact>) {
    forall i, k :: 0 <= i < |objects| && 0 <= k < |Sections(objects[i])| ==> SitesFine(Sections(objects[i])[k])
  }

  /** The image is that of a merge of the objects. */
  ghost predicate LinkedFrom(objects: seq<Artifact>, base: nat, entry: Name, maxBytes: nat, whole: Artifact, image: Image) {
    MergeResult(objects, entry, Some(whole)) && Linkable(whole, base, entry, maxBytes)
    && image == ImageOf(whole, base, entry, maxBytes) && Faithful(whole, base, entry, maxBytes, image)
  }

  /** The image is that of what the entry reaches in a merge of the objects. */
  ghost predicate PrunedFrom(objects: seq<Artifact>, base: nat, entry: Name, maxBytes: nat, whole: Artifact, live: set<Name>,
                             image: Image) {
    && MergeResult(objects, entry, Some(whole)) && AllSitesFine(objects) && Reached(Sections(whole), entry, live)
    && Linkable(Pruned(whole, live), base, entry, maxBytes) && image == ImageOf(Pruned(whole, live), base, entry, maxBytes)
    && Faithful(Pruned(whole, live), base, entry, maxBytes, image)
  }

  /** link_images. */
  method LinkAll(objects: seq<Artifact>, base: nat, entry: Name, maxBytes: nat)
    returns (r: Option<Image>, ghost merged: Option<Artifact>)
    requires base < WORD_LIMIT && maxBytes < WORD_LIMIT
    ensures MergeResult(objects, entry, merged) && (merged.Some? ==> Validate(merged.value))
    ensures r.Some? <==> merged.Some? && Linkable(merged.value, base, entry, maxBytes)
    ensures r.Some? ==> r.value == ImageOf(merged.value, base, entry, maxBytes)
    ensures r.Some? ==> Faithful(merged.value, base, entry, maxBytes, r.value)
    ensures r.Some? ==> exists whole :: LinkedFrom(objects, base, entry, maxBytes, whole, r.value)
  {
    hide Linkable, Validate, Mergeable, Faithful;
    var m;
    ghost var names;
    m, names := MergeAll(objects, entry);
    merged := m;
    assert m.Some? && |objects| > 1 ==> MergedBy(objects, names, m.value);
    ResultValid(objects, entry, merged);
    if m == None {
      return None, None;
    }
    r := Link(m.value, base, entry, maxBytes);
    assert r.Some? ==> LinkedFrom(objects, base, entry, maxBytes, m.value, r.value);
  }

  /** link_reachable_images. */
  method LinkReachable(objects: seq<Artifact>, base: nat, entry: Name, maxBytes: nat)
    returns (r: Option<Image>, ghost merged: Option<Artifact>, ghost live: set<Name>)
    requires base < WORD_LIMIT && maxBytes < WORD_LIMIT
    ensures MergeResult(objects, entry, merged) && (merged.Some? ==> Validate(merged.value))
    ensures r.Some? ==> merged.Some? && AllSitesFine(objects) && Reached(Sections(merged.value), entry, live)
    ensures r.Some? ==> Linkable(Pruned(merged.value, live), base, entry, maxBytes)
    ensures r.Some? ==> r.value == ImageOf(Pruned(merged.value, live), base, entry, maxBytes)
    ensures r.Some? ==> Faithful(Pruned(merged.value, live), base, entry, maxBytes, r.value)
    ensures r.Some? ==> exists whole, kept :: PrunedFrom(objects, base, entry, maxBytes, whole, kept, r.value)
    ensures r.None? && merged.Some? && AllSitesFine(objects) ==>
      (forall names :: Closed(Sections(merged.value), entry, names) ==> !AllDefined(Sections(merged.value), names))
      || (Reached(Sections(merged.value), entry, live) && !Linkable(Pruned(merged.value, live), base, entry, maxBytes))
  {
    hide Linkable, Validate, Mergeable, AllSitesFine, Reached, Closed, AllDefined, Pruned, Faithful;
    live := {};
    var m;
    ghost var names;
    m, names := MergeAll(objects, entry);
    merged := m;
    assert m.Some? && |objects| > 1 ==> MergedBy(objects, names, m.value);
    ResultValid(objects, entry, merged);
    if m == None {
      return None, None, {};
    }
    if !AllSitesFine(objects) {
      return None, merged, {};
    }
    MergedUniqueSections(objects, entry, merged);
    var ok, kept := Reach(Sections(m.value), entry);
    live := kept;
    if !ok {
      return None, merged, live;
    }
    r := Link(Pruned(m.value, kept), base, entry, maxBytes);
    assert r.Some? ==> PrunedFrom(objects, base, entry, maxBytes, m.value, kept, r.value);
  }

  // ---------------------------------------------------------------- pruning loses no program

  /** Every section of an input is in the merged artifact, with the same bytes and sites. */
  lemma SectionAppears(objects: seq<Artifact>, names: seq<Renaming>, merged: Artifact, i: nat, k: nat) returns (p: nat)
    requires MergedBy(objects, names, merged) && i < |objects| && k < |Sections(objects[i])|
    ensures p < |Sections(merged)| && SitesFine(Sections(merged)[p]) == SitesFine(Sections(objects[i])[k])
  {
    hide CaptureFree;
    var functions := |objects[i].functions|;
    if k < functions {
      FunctionsAppear(objects, names, |objects|, i, k);
      p :| 0 <= p < |merged.functions| && merged.functions[p] == RenameFunction(names[i], objects[i].functions[k]);
    } else {
      DataAppear(objects, names, |objects|, i, k - functions);
      var q :| 0 <= q < |merged.data| && merged.data[q] == RenameData(names[i], objects[i].data[k - functions]);
      assert Sections(objects[i])[functions + (k - functions)] == OfData(objects[i].data[k - functions]);
      p := |merged.functions| + q;
    }
    SameSites(Sections(objects[i])[k], Sections(merged)[p]);
  }

  lemma SameSites(s: Section, t: Section)
    requires |t.bytes| == |s.bytes| && |t.relocations| == |s.relocations|
    requires forall k :: 0 <= k < |s.relocations| ==> t.relocations[k].offset == s.relocations[k].offset
    ensures SitesFine(s) == SitesFine(t)
  {
    assert forall n, k :: 0 <= n < |s.relocations| && 0 <= k < |s.relocations| ==>
      Overlap(s.relocations[n], s.relocations[k]) == Overlap(t.relocations[n], t.relocations[k]);
  }

  lemma RelocatableSites(s: Section, symbols: map<Name, nat>)
    requires Relocatable(s, |s.relocations|, symbols)
    ensures SitesFine(s)
  {
    forall n | 0 <= n < |s.relocations|
      ensures s.relocations[n].offset + 4 <= |s.bytes|
      ensures forall k :: 0 <= k < n ==> !Overlap(s.relocations[n], s.relocations[k])
    {
      assert Applies(s, n, symbols);
    }
  }

  lemma LinkableSites(objects: seq<Artifact>, entry: Name, merged: Artifact, base: nat, maxBytes: nat)
    requires MergeResult(objects, entry, Some(merged)) && Linkable(merged, base, entry, maxBytes)
    ensures AllSitesFine(objects)
  {
    hide Sections, SitesFine, Relocatable, Validate, Mergeable, Symbols, MergedBy;
    forall i, k | 0 <= i < |objects| && 0 <= k < |Sections(objects[i])|
      ensures SitesFine(Sections(objects[i])[k])
    {
      var p := k;
      if |objects| > 1 {
        var names :| MergedBy(objects, names, merged);
        p := SectionAppears(objects, names, merged, i, k);
      }
      RelocatableSites(Sections(merged)[p], Symbols(merged, base, maxBytes));
    }
  }

  /** The names of all sections. */
  function NamesOf(ss: seq<Section>): set<Name> {
    set i | 0 <= i < |ss| :: ss[i].name
  }

  lemma AllNamesClosed(a: Artifact, base: nat, entry: Name, maxBytes: nat)
    requires Linkable(a, base, entry, maxBytes)
    ensures Closed(Sections(a), entry, NamesOf(Sections(a))) && AllDefined(Sections(a), NamesOf(Sections(a)))
  {
    hide Placed, SymbolTable, Validate;
    var ss := Sections(a);
    ValidUnique(a);
    ValidAligned(a);
    SymbolsAre(ss, |ss|, base, Limit(base, maxBytes));
    EntrySymbol(a, base, entry, maxBytes);
    forall i, k | 0 <= i < |ss| && 0 <= k < |ss[i].relocations|
      ensures ss[i].relocations[k].target in NamesOf(ss)
    {
      assert Applies(ss[i], k, Symbols(a, base, maxBytes));
    }
  }

  /** When all objects link together and no addend is negative, linking what is reached succeeds. */
  lemma ReachableLinks(objects: seq<Artifact>, entry: Name, merged: Artifact, live: set<Name>, base: nat, maxBytes: nat)
    requires MergeResult(objects, entry, Some(merged)) && Linkable(merged, base, entry, maxBytes)
    requires forall i, k :: 0 <= i < |Sections(merged)| && 0 <= k < |Sections(merged)[i].relocations| ==>
      Sections(merged)[i].relocations[k].addend >= 0
    ensures AllSitesFine(objects)
    ensures exists names :: Closed(Sections(merged), entry, names) && AllDefined(Sections(merged), names)
    ensures Reached(Sections(merged), entry, live) ==> Linkable(Pruned(merged, live), base, entry, maxBytes)
  {
    hide Sections, Linkable, Validate, Mergeable, Symbols, Placeable, Pruned, MergeResult, AllSitesFine, Closed, AllDefined;
    LinkableSites(objects, entry, merged, base, maxBytes);
    AllNamesClosed(merged, base, entry, maxBytes);
    if Reached(Sections(merged), entry, live) {
      PrunedLinks(merged, entry, live, base, maxBytes);
      PrunedSections(merged, live);
      KeptMembers(Sections(merged), live);
      var ps := Sections(Pruned(merged, live));
      forall i, k | 0 <= i < |ps| && 0 <= k < |ps[i].relocations|
        ensures ps[i].relocations[k].addend >= 0
      {
        assert ps[i] in ps;
        var j :| 0 <= j < |Sections(merged)| && Sections(merged)[j] == ps[i];
      }
    }
  }
}
