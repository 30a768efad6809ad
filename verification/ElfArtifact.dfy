/** What is recovered from a written object: the artifact, with addends in its bodies and in its relocations. */
module ElfArtifact {
  import opened Options
  import opened Artifacts
  import opened Bytes
  import opened ElfFormat
  import opened ElfObject
  import opened ElfSteps
  import opened ElfReading
  import opened ElfRecover
  import opened ElfRebuild

  predicate RelocationsIn(body: seq<Byte>, rs: seq<Relocation>) {
    forall k :: 0 <= k < |rs| ==> rs[k].offset + 4 <= |body|
  }

  /** A function with its addends written into its code, and relocations with the addends that the code holds. */
  function RestoredFunction(f: Function): Function
    requires RelocationsIn(f.code, f.relocations)
  {
    f.(code := Patched(f.code, f.relocations), relocations := Seen(Patched(f.code, f.relocations), f.relocations))
  }

  function RestoredData(d: Data): Data
    requires RelocationsIn(d.bytes, d.relocations)
  {
    d.(bytes := Patched(d.bytes, d.relocations), relocations := Seen(Patched(d.bytes, d.relocations), d.relocations))
  }

  /** The same functions, objects, alignments, read-only bits and locals, in whatever order, with addends written
      into their sites and relocations as the sites hold them. */
  ghost predicate SameObject(a: Artifact, r: Artifact)
    requires AllPatchable(Items(a))
  {
    && r.locals == Some(Locals(a))
    && |r.functions| == |a.functions| && |r.data| == |a.data|
    && (forall i :: 0 <= i < |a.functions| ==> RelocationsIn(a.functions[i].code, a.functions[i].relocations))
    && (forall i :: 0 <= i < |a.data| ==> RelocationsIn(a.data[i].bytes, a.data[i].relocations))
    && (forall i :: 0 <= i < |a.functions| ==> RestoredFunction(a.functions[i]) in r.functions)
    && (forall f :: f in r.functions ==> exists i :: 0 <= i < |a.functions| && f == RestoredFunction(a.functions[i]))
    && (forall i :: 0 <= i < |a.data| ==> RestoredData(a.data[i]) in r.data)
    && (forall d :: d in r.data ==> exists i :: 0 <= i < |a.data| && d == RestoredData(a.data[i]))
  }

  lemma ItemsSplit(a: Artifact, i: nat)
    requires i < |Items(a)|
    ensures Items(a)[i].code <==> i < |a.functions|
    ensures i < |a.functions| ==> Items(a)[i] == OfCode(a.functions[i])
    ensures i >= |a.functions| ==> Items(a)[i] == OfObject(a.data[i - |a.functions|])
  {
    if i >= |a.functions| {
      assert Items(a)[|a.functions| + (i - |a.functions|)] == OfObject(a.data[i - |a.functions|]);
    }
  }

  /** Two lists of different numbers with the same elements have the same length. */
  lemma {:induction false} SameLength(x: seq<nat>, low: nat, high: nat)
    requires low <= high && Distinct(x) && forall i: nat :: i in x <==> low <= i < high
    ensures |x| == high - low
    decreases high - low
  {
    if x == [] {
      assert low !in x;
    } else {
      assert x[0] in x && high - 1 in x;
      var p :| 0 <= p < |x| && x[p] == high - 1;
      var rest := x[..p] + x[p + 1..];
      forall i: nat
        ensures i in rest <==> low <= i < high - 1
      {
        if i in x && i != high - 1 {
          var q :| 0 <= q < |x| && x[q] == i;
          assert if q < p then rest[q] == i else rest[q - 1] == i;
        }
      }
      SameLength(rest, low, high - 1);
    }
  }

  /** Of all definitions, in any order, the functions are the first ones and the objects the others. */
  lemma ChosenAll(a: Artifact, order: seq<nat>)
    requires Permutes(order, |Items(a)|)
    ensures var codes, objects := Chosen(Items(a), order, true), Chosen(Items(a), order, false);
      && Distinct(codes) && Distinct(objects)
      && (forall i: nat :: i in codes <==> i < |a.functions|)
      && (forall i: nat :: i in objects <==> |a.functions| <= i < |Items(a)|)
      && |codes| == |a.functions| && |objects| == |a.data|
  {
    var items := Items(a);
    var codes, objects := Chosen(items, order, true), Chosen(items, order, false);
    ChosenFacts(items, order, true);
    ChosenFacts(items, order, false);
    forall i: nat
      ensures (i in codes <==> i < |a.functions|) && (i in objects <==> |a.functions| <= i < |items|)
    {
      if i < |items| {
        ItemsSplit(a, i);
        assert i in order;
      }
    }
    SameLength(codes, 0, |a.functions|);
    SameLength(objects, |a.functions|, |items|);
  }

  /** The functions and objects that the reader ends with. */
  ghost predicate Complete(a: Artifact, order: seq<nat>, r: Artifact) {
    && Permutes(order, |Items(a)|) && AtLimit(Items(a), order, |Items(a)|, 0, r.functions, r.data)
    && r.locals == Some(Locals(a))
  }

  lemma FunctionRestored(a: Artifact, order: seq<nat>, r: Artifact, p: nat)
    requires Complete(a, order, r) && p < |r.functions| && |r.functions| == |Chosen(Items(a), order, true)|
    ensures var i := Chosen(Items(a), order, true)[p];
      && i < |a.functions| && RelocationsIn(a.functions[i].code, a.functions[i].relocations)
      && r.functions[p] == RestoredFunction(a.functions[i])
  {
    hide Patched;
    ChosenAll(a, order);
    var i := Chosen(Items(a), order, true)[p];
    assert i in Chosen(Items(a), order, true);
    ItemsSplit(a, i);
    assert Patchable(Items(a)[i].body, Items(a)[i].relocations);
  }

  lemma DataRestored(a: Artifact, order: seq<nat>, r: Artifact, p: nat)
    requires Validate(a) && Complete(a, order, r) && p < |r.data| && |r.data| == |Chosen(Items(a), order, false)|
    ensures var i := Chosen(Items(a), order, false)[p];
      && |a.functions| <= i < |Items(a)| && RelocationsIn(a.data[i - |a.functions|].bytes, a.data[i - |a.functions|].relocations)
      && r.data[p] == RestoredData(a.data[i - |a.functions|])
  {
    hide Patched, Validate;
    ChosenAll(a, order);
    var i := Chosen(Items(a), order, false)[p];
    assert i in Chosen(Items(a), order, false);
    ItemsSplit(a, i);
    AlignedData(a, i - |a.functions|);
    assert Patchable(Items(a)[i].body, Items(a)[i].relocations);
  }

  lemma AlignedData(a: Artifact, k: nat)
    requires Validate(a) && k < |a.data|
    ensures a.data[k].align > 0 && PowerOfTwo(a.data[k].align) && a.data[k].name != []
  {
  }

  lemma CompleteShape(a: Artifact, order: seq<nat>, r: Artifact)
    requires Complete(a, order, r)
    ensures Permutes(order, |Items(a)|) && r.locals == Some(Locals(a))
    ensures AllPatchable(Items(a)) && |r.functions| == |Chosen(Items(a), order, true)| == |a.functions|
    ensures |r.data| == |Chosen(Items(a), order, false)| == |a.data|
  {
    hide Chosen;
    ChosenAll(a, order);
  }

  lemma AllIn(a: Artifact)
    requires AllPatchable(Items(a))
    ensures forall i :: 0 <= i < |a.functions| ==> RelocationsIn(a.functions[i].code, a.functions[i].relocations)
    ensures forall i :: 0 <= i < |a.data| ==> RelocationsIn(a.data[i].bytes, a.data[i].relocations)
  {
    forall i | 0 <= i < |a.functions|
      ensures RelocationsIn(a.functions[i].code, a.functions[i].relocations)
    {
      assert Patchable(Items(a)[i].body, Items(a)[i].relocations);
    }
    forall i | 0 <= i < |a.data|
      ensures RelocationsIn(a.data[i].bytes, a.data[i].relocations)
    {
      assert Patchable(Items(a)[|a.functions| + i].body, Items(a)[|a.functions| + i].relocations);
    }
  }

  /** The reader's result is the artifact that was written. */
  lemma Restored(a: Artifact, order: seq<nat>, r: Artifact)
    requires Validate(a) && Complete(a, order, r)
    ensures AllPatchable(Items(a)) && SameObject(a, r)
  {
    hide Validate, Complete, Items, RelocationsIn, RestoredFunction, RestoredData, AllPatchable, Chosen, Locals;
    CompleteShape(a, order, r);
    var codes, objects := Chosen(Items(a), order, true), Chosen(Items(a), order, false);
    ChosenAll(a, order);
    AllIn(a);
    forall p | 0 <= p < |r.functions|
      ensures codes[p] < |a.functions| && r.functions[p] == RestoredFunction(a.functions[codes[p]])
    {
      FunctionRestored(a, order, r, p);
    }
    forall p | 0 <= p < |r.data|
      ensures |a.functions| <= objects[p] < |Items(a)| && r.data[p] == RestoredData(a.data[objects[p] - |a.functions|])
    {
      DataRestored(a, order, r, p);
    }
    forall i | 0 <= i < |a.functions|
      ensures RestoredFunction(a.functions[i]) in r.functions
    {
      var p := IndexIn(codes, i);
      assert r.functions[p] == RestoredFunction(a.functions[i]);
    }
    forall i | 0 <= i < |a.data|
      ensures RestoredData(a.data[i]) in r.data
    {
      var p := IndexIn(objects, |a.functions| + i);
      assert r.data[p] == RestoredData(a.data[i]);
    }
  }

  lemma IndexIn(x: seq<nat>, i: nat) returns (p: nat)
    requires i in x
    ensures p < |x| && x[p] == i
  {
    p :| 0 <= p < |x| && x[p] == i;
  }

  // ---------------------------------------------------------------- the result is valid

  /** Which definition section q of the result is. */
  function SourceOf(codes: seq<nat>, objects: seq<nat>, q: nat): nat
    requires q < |codes| + |objects|
  {
    if q < |codes| then codes[q] else objects[q - |codes|]
  }

  lemma SectionNamed(a: Artifact, order: seq<nat>, r: Artifact, q: nat)
    requires Validate(a) && Complete(a, order, r) && q < |Sections(r)|
    ensures var codes, objects := Chosen(Items(a), order, true), Chosen(Items(a), order, false);
      && q < |codes| + |objects| && SourceOf(codes, objects, q) < |Items(a)|
      && Sections(r)[q].name == Items(a)[SourceOf(codes, objects, q)].name
  {
    hide Validate, Complete, Chosen;
    CompleteShape(a, order, r);
    var codes, objects := Chosen(Items(a), order, true), Chosen(Items(a), order, false);
    if q < |codes| {
      FunctionRestored(a, order, r, q);
      ItemsSplit(a, codes[q]);
    } else {
      assert Sections(r)[|r.functions| + (q - |codes|)] == OfData(r.data[q - |codes|]);
      DataRestored(a, order, r, q - |codes|);
      ItemsSplit(a, objects[q - |codes|]);
    }
  }

  lemma ResultUnique(a: Artifact, order: seq<nat>, r: Artifact)
    requires Validate(a) && Complete(a, order, r) && DistinctItems(Items(a))
    ensures Unique(Sections(r))
  {
    hide Validate, Complete, Chosen, Items, Sections;
    CompleteShape(a, order, r);
    ChosenAll(a, order);
    var codes, objects := Chosen(Items(a), order, true), Chosen(Items(a), order, false);
    forall i, j | 0 <= i < j < |Sections(r)|
      ensures Sections(r)[i].name != Sections(r)[j].name
    {
      SectionNamed(a, order, r, i);
      SectionNamed(a, order, r, j);
      SourcesDiffer(codes, objects, |a.functions|, i, j);
    }
  }

  lemma SourcesDiffer(codes: seq<nat>, objects: seq<nat>, n: nat, i: nat, j: nat)
    requires Distinct(codes) && Distinct(objects) && i < j < |codes| + |objects|
    requires (forall x: nat :: x in codes ==> x < n) && forall x: nat :: x in objects ==> n <= x
    ensures SourceOf(codes, objects, i) != SourceOf(codes, objects, j)
  {
    if i < |codes| <= j {
      assert codes[i] in codes && objects[j - |codes|] in objects;
    }
  }

  lemma ResultDefines(a: Artifact, order: seq<nat>, r: Artifact, name: Name)
    requires Validate(a) && Complete(a, order, r) && Defines(Sections(a), name)
    ensures Defines(Sections(r), name)
  {
    hide Validate, Complete, Chosen, Items, Sections;
    CompleteShape(a, order, r);
    ChosenAll(a, order);
    var codes, objects := Chosen(Items(a), order, true), Chosen(Items(a), order, false);
    var i :| 0 <= i < |Sections(a)| && Sections(a)[i].name == name;
    ItemNamed(a, i);
    if i < |a.functions| {
      var p := IndexIn(codes, i);
      SectionNamed(a, order, r, p);
      assert Sections(r)[p].name == name;
    } else {
      var p := IndexIn(objects, i);
      SectionNamed(a, order, r, |codes| + p);
      assert Sections(r)[|codes| + p].name == name;
    }
  }

  lemma ItemNamed(a: Artifact, i: nat)
    requires i < |Sections(a)|
    ensures i < |Items(a)| && Items(a)[i].name == Sections(a)[i].name
  {
    if i >= |a.functions| {
      assert Items(a)[|a.functions| + (i - |a.functions|)] == OfObject(a.data[i - |a.functions|]);
      assert Sections(a)[|a.functions| + (i - |a.functions|)] == OfData(a.data[i - |a.functions|]);
    }
  }

  lemma ResultValid(a: Artifact, order: seq<nat>, r: Artifact)
    requires Validate(a) && Complete(a, order, r)
    ensures Validate(r)
  {
    hide Complete, Chosen, Items, Sections, Patched, Unique, Defines, PowerOfTwo;
    CompleteShape(a, order, r);
    ItemsDistinct(a);
    ResultUnique(a, order, r);
    forall name | name in r.locals.value
      ensures Defines(Sections(r), name)
    {
      ResultDefines(a, order, r, name);
    }
    forall p | 0 <= p < |r.functions|
      ensures r.functions[p].name != [] && r.functions[p].code != [] && |r.functions[p].code| % 2 == 0
    {
      FunctionRestored(a, order, r, p);
    }
    forall p | 0 <= p < |r.data|
      ensures r.data[p].name != [] && PowerOfTwo(r.data[p].align) && RelocationsInside(OfData(r.data[p]))
    {
      DataRestored(a, order, r, p);
    }
  }

  /** Names that the reader takes for local are the artifact's local names. */
  lemma LocalsBack(a: Artifact, order: seq<nat>, names: set<Name>)
    requires Validate(a) && Permutes(order, |Items(a)|) && LocalNames(Items(a), order, |order|, Locals(a), names)
    ensures names == Locals(a)
  {
    hide Items, Sections;
    forall x | x in Locals(a)
      ensures x in names
    {
      assert Defines(Sections(a), x);
      var i :| 0 <= i < |Sections(a)| && Sections(a)[i].name == x;
      ItemNamed(a, i);
      var p := IndexIn(order, i);
      assert Items(a)[order[p]].name == x;
    }
  }

  /** The next relocation section, its target and its owner. */
  lemma RelationStep(bytes: seq<Byte>, w: Written, sections: seq<ReadSection>, symbols: seq<ReadSymbol>, i: nat, owners: map<nat, nat>,
                     names: set<Name>, functions0: seq<Function>, data0: seq<Data>, functions: seq<Function>, data: seq<Data>)
    requires Given(bytes, w, sections, symbols) && i < |sections| && sections[i].kind == SHT_REL && Progress(w, i, functions, data)
    requires Rebuilt(w.a, w.o.order, |w.o.order|, owners, names, functions0, data0)
    ensures |Items(w.a)| + 3 <= i && RelFine(sections, |Items(w.a)| + 1, sections[i]) && sections[i].info in owners
    ensures sections[i].info < |sections| && owners[sections[i].info] < |symbols|
    ensures RecordsOf(bytes, w, sections, symbols, i - (|Items(w.a)| + 3), sections[i], sections[sections[i].info],
                      symbols[owners[sections[i].info]], functions, data)
  {
    hide Progress, Given, Rebuilt, Describes, Validate, AtLimit, Items, AllPatchable, DistinctItems, KindOf, RelFine, Permutes;
    hide SymbolTables, IsUndefined, Symbols, Owned, Relocated, RelationIs, RecordsOf;
    GivenShape(bytes, w, sections, symbols);
    KindsSeen(bytes, w, sections, symbols, i);
    var j := i - (|Items(w.a)| + 3);
    OwnersOf(w, owners, names, functions0, data0);
    RelationSeen(bytes, w, sections, symbols, j, owners);
    ProgressTo(w, j, functions, data);
    RecordsReady(bytes, w, sections, symbols, j, owners, functions, data);
  }
}
