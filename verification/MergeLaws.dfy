/** What merging returns: a valid artifact that holds every section of its inputs. */
module MergeLaws {
  import opened Options
  import opened Artifacts
  import opened Merge
  import opened MergeObjects

  /** What merging returns, for some choice of new names. */
  ghost predicate MergeResult(objects: seq<Artifact>, entry: Name, merged: Option<Artifact>) {
    && (objects == [] ==> merged == None)
    && (|objects| == 1 ==> merged == if Validate(objects[0]) then Some(objects[0]) else None)
    && (|objects| > 1 ==> (merged.Some? <==> Mergeable(objects, entry)))
    && (|objects| > 1 && merged.Some? ==> exists names :: MergedBy(objects, names, merged.value))
  }

  ghost predicate MergedBy(objects: seq<Artifact>, names: seq<Renaming>, merged: Artifact) {
    && |names| == |objects| && CaptureFree(objects, names) && Marked(names)
    && merged == MergedArtifact(objects, names, NewNames(names))
  }

  lemma ValidUnique(a: Artifact)
    requires Validate(a)
    ensures Unique(Sections(a))
  {
  }

  lemma MergedUniqueSections(objects: seq<Artifact>, entry: Name, merged: Option<Artifact>)
    requires MergeResult(objects, entry, merged) && merged.Some?
    ensures Unique(Sections(merged.value))
  {
    hide Sections, CaptureFree, Separate, MergedArtifact, Unique;
    if |objects| > 1 {
      var names :| MergedBy(objects, names, merged.value);
      forall n | 0 <= n < |objects|
        ensures Unique(Sections(objects[n]))
      {
        ValidUnique(objects[n]);
      }
      MergedUnique(objects, names, NewNames(names));
    } else {
      ValidUnique(merged.value);
    }
  }

  lemma {:induction false} FunctionsAppear(objects: seq<Artifact>, names: seq<Renaming>, n: nat, i: nat, k: nat)
    requires i < n <= |objects| == |names| && k < |objects[i].functions|
    ensures RenameFunction(names[i], objects[i].functions[k]) in MergedFunctions(objects, names, n)
  {
    if i < n - 1 {
      FunctionsAppear(objects, names, n - 1, i, k);
    } else {
      assert RenameFunctions(names[i], objects[i].functions)[k] == RenameFunction(names[i], objects[i].functions[k]);
    }
  }

  lemma {:induction false} DataAppear(objects: seq<Artifact>, names: seq<Renaming>, n: nat, i: nat, k: nat)
    requires i < n <= |objects| == |names| && k < |objects[i].data|
    ensures RenameData(names[i], objects[i].data[k]) in MergedData(objects, names, n)
  {
    if i < n - 1 {
      DataAppear(objects, names, n - 1, i, k);
    } else {
      assert RenameAllData(names[i], objects[i].data)[k] == RenameData(names[i], objects[i].data[k]);
    }
  }

  /** Every section of an input is in the merged artifact under its new name. */
  lemma SectionArrives(objects: seq<Artifact>, names: seq<Renaming>, i: nat, k: nat, locals: set<Name>)
    requires |names| == |objects| && i < |objects| && k < |Sections(objects[i])|
    ensures Defines(Sections(MergedArtifact(objects, names, locals)), Rename(names[i], Sections(objects[i])[k].name))
  {
    hide Rename, MergedFunctions, MergedData, RenameRelocations;
    var merged, functions := MergedArtifact(objects, names, locals), |objects[i].functions|;
    if k < functions {
      FunctionsAppear(objects, names, |objects|, i, k);
      var p :| 0 <= p < |merged.functions| && merged.functions[p] == RenameFunction(names[i], objects[i].functions[k]);
      assert Sections(merged)[p].name == Rename(names[i], Sections(objects[i])[k].name);
    } else {
      DataAppear(objects, names, |objects|, i, k - functions);
      var q :| 0 <= q < |merged.data| && merged.data[q] == RenameData(names[i], objects[i].data[k - functions]);
      assert Sections(objects[i])[functions + (k - functions)] == OfData(objects[i].data[k - functions]);
      assert Sections(merged)[|merged.functions| + q].name == Rename(names[i], Sections(objects[i])[k].name);
    }
  }

  /** Names are not empty after renaming. */
  lemma RenamedNonempty(names: seq<Renaming>, i: nat, name: Name)
    requires Marked(names) && i < |names| && name != []
    ensures Rename(names[i], name) != []
  {
    if name in names[i] {
      assert Scoped(i, name) <= names[i][name] && Scoped(i, name)[0] == 64;
    }
  }

  lemma LocalsDefined(objects: seq<Artifact>, names: seq<Renaming>, name: Name)
    requires AllValid(objects) && CaptureFree(objects, names) && name in NewNames(names)
    ensures Defines(Sections(MergedArtifact(objects, names, NewNames(names))), name)
  {
    hide Sections, Unique;
    var i, x :| 0 <= i < |names| && x in names[i] && name == names[i][x];
    assert Validate(objects[i]) && Defines(Sections(objects[i]), x);
    var k :| 0 <= k < |Sections(objects[i])| && Sections(objects[i])[k].name == x;
    SectionArrives(objects, names, i, k, NewNames(names));
  }

  lemma FunctionsValid(objects: seq<Artifact>, names: seq<Renaming>, p: nat)
    requires AllValid(objects) && |names| == |objects| && Marked(names) && p < |MergedFunctions(objects, names, |objects|)|
    ensures var f := MergedFunctions(objects, names, |objects|)[p]; f.name != [] && f.code != [] && |f.code| % 2 == 0
  {
    hide Unique, Defines, Marked;
    FunctionsCame(objects, names, |objects|);
    var o := FunctionOrigins(objects, |objects|)[p];
    assert Validate(objects[o.unit]);
    assert Sections(objects[o.unit])[o.section] == OfFunction(objects[o.unit].functions[o.section]);
    RenamedNonempty(names, o.unit, objects[o.unit].functions[o.section].name);
  }

  lemma DataValid(objects: seq<Artifact>, names: seq<Renaming>, p: nat)
    requires AllValid(objects) && |names| == |objects| && Marked(names) && p < |MergedData(objects, names, |objects|)|
    ensures var d := MergedData(objects, names, |objects|)[p]; d.name != [] && PowerOfTwo(d.align) && RelocationsInside(OfData(d))
  {
    hide Unique, Defines, Marked, PowerOfTwo;
    DataCame(objects, names, |objects|);
    var o := DataOrigins(objects, |objects|)[p];
    var a := objects[o.unit];
    assert Validate(a);
    assert Sections(a)[|a.functions| + (o.section - |a.functions|)] == OfData(a.data[o.section - |a.functions|]);
    RenamedNonempty(names, o.unit, a.data[o.section - |a.functions|].name);
  }

  /** Merging valid objects gives a valid object. */
  lemma MergedValid(objects: seq<Artifact>, entry: Name, names: seq<Renaming>, merged: Artifact)
    requires Mergeable(objects, entry) && MergedBy(objects, names, merged)
    ensures Validate(merged)
  {
    hide CaptureFree, Marked, Rename, Scoped, NewNames, MergedFunctions, MergedData, RelocationsInside, PowerOfTwo;
    var i :| 0 <= i < |objects| && External(objects[i], entry);
    var k :| 0 <= k < |Sections(objects[i])| && Sections(objects[i])[k].name == entry;
    SectionArrives(objects, names, i, k, NewNames(names));
    hide Sections, External, Separate;
    forall n | 0 <= n < |objects|
      ensures Unique(Sections(objects[n]))
    {
      ValidUnique(objects[n]);
    }
    MergedUnique(objects, names, NewNames(names));
    forall name | name in NewNames(names)
      ensures Defines(Sections(merged), name)
    {
      LocalsDefined(objects, names, name);
    }
    forall p | 0 <= p < |merged.functions|
      ensures merged.functions[p].name != [] && merged.functions[p].code != [] && |merged.functions[p].code| % 2 == 0
    {
      FunctionsValid(objects, names, p);
    }
    forall p | 0 <= p < |merged.data|
      ensures merged.data[p].name != [] && PowerOfTwo(merged.data[p].align) && RelocationsInside(OfData(merged.data[p]))
    {
      DataValid(objects, names, p);
    }
  }

  lemma ResultValid(objects: seq<Artifact>, entry: Name, merged: Option<Artifact>)
    requires MergeResult(objects, entry, merged)
    ensures merged.Some? ==> Validate(merged.value)
  {
    hide Mergeable, MergedBy, Validate;
    if |objects| > 1 && merged.Some? {
      var names :| MergedBy(objects, names, merged.value);
      MergedValid(objects, entry, names, merged.value);
    }
  }
}
