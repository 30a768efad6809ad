/** What merging does to the functions and data of its objects. */
module MergeMeaning {
  import opened Options
  import opened Artifacts
  import opened Merge

  /** Only a private name gets another spelling. */
  predicate Respelled(names: Renaming, before: Name, after: Name) {
    if before in names then after == names[before] else after == before
  }

  predicate SitesKept(names: Renaming, before: seq<Relocation>, after: seq<Relocation>) {
    && |after| == |before|
    && forall k :: 0 <= k < |before| ==>
         && after[k].offset == before[k].offset && after[k].addend == before[k].addend
         && Respelled(names, before[k].target, after[k].target)
  }

  predicate FunctionKept(names: Renaming, before: Function, after: Function) {
    Respelled(names, before.name, after.name) && after.code == before.code && SitesKept(names, before.relocations, after.relocations)
  }

  predicate DataKept(names: Renaming, before: Data, after: Data) {
    && Respelled(names, before.name, after.name) && after.bytes == before.bytes && after.align == before.align
    && after.readOnly == before.readOnly && SitesKept(names, before.relocations, after.relocations)
  }

  /** How many functions the objects in front of number i have. */
  function FunctionsBefore(objects: seq<Artifact>, i: nat): nat
    requires i <= |objects|
  {
    if i == 0 then 0 else FunctionsBefore(objects, i - 1) + |objects[i - 1].functions|
  }

  function DataBefore(objects: seq<Artifact>, i: nat): nat
    requires i <= |objects|
  {
    if i == 0 then 0 else DataBefore(objects, i - 1) + |objects[i - 1].data|
  }

  /** Function k of object i is in the merged artifact at its place, unchanged but for its spellings. */
  predicate FunctionAt(objects: seq<Artifact>, names: seq<Renaming>, fs: seq<Function>, i: nat, k: nat)
    requires i < |objects| == |names| && k < |objects[i].functions|
  {
    var p := FunctionsBefore(objects, i) + k;
    p < |fs| && FunctionKept(names[i], objects[i].functions[k], fs[p])
  }

  ghost predicate FunctionsKept(objects: seq<Artifact>, names: seq<Renaming>, fs: seq<Function>, n: nat)
    requires n <= |objects| == |names|
  {
    && |fs| == FunctionsBefore(objects, n)
    && forall i, k :: 0 <= i < n && 0 <= k < |objects[i].functions| ==> FunctionAt(objects, names, fs, i, k)
  }

  /** Datum k of object i is in the merged artifact at its place, unchanged but for its spellings. */
  predicate DataAt(objects: seq<Artifact>, names: seq<Renaming>, ds: seq<Data>, i: nat, k: nat)
    requires i < |objects| == |names| && k < |objects[i].data|
  {
    var p := DataBefore(objects, i) + k;
    p < |ds| && DataKept(names[i], objects[i].data[k], ds[p])
  }

  ghost predicate AllDataKept(objects: seq<Artifact>, names: seq<Renaming>, ds: seq<Data>, n: nat)
    requires n <= |objects| == |names|
  {
    && |ds| == DataBefore(objects, n)
    && forall i, k :: 0 <= i < n && 0 <= k < |objects[i].data| ==> DataAt(objects, names, ds, i, k)
  }

  /** The functions and the data of the objects follow one another in the merged artifact, each as it
      was but for the spelling of private names, and the new spellings are its private names. */
  ghost predicate Corresponds(objects: seq<Artifact>, names: seq<Renaming>, merged: Artifact) {
    && |names| == |objects|
    && FunctionsKept(objects, names, merged.functions, |objects|)
    && AllDataKept(objects, names, merged.data, |objects|)
    && merged.locals.Some?
    && forall name :: name in merged.locals.value <==>
         exists i, x :: 0 <= i < |objects| && x in names[i] && names[i][x] == name
  }

  /** Each place among the merged functions belongs to one function of one object. */
  lemma {:induction false} FunctionPlace(objects: seq<Artifact>, n: nat, p: nat) returns (i: nat, k: nat)
    requires n <= |objects| && p < FunctionsBefore(objects, n)
    ensures i < n && k < |objects[i].functions| && p == FunctionsBefore(objects, i) + k
    ensures forall j :: 0 <= j < n && FunctionsBefore(objects, j) <= p < FunctionsBefore(objects, j) + |objects[j].functions| ==> j == i
  {
    if p < FunctionsBefore(objects, n - 1) {
      i, k := FunctionPlace(objects, n - 1, p);
    } else {
      i, k := n - 1, p - FunctionsBefore(objects, n - 1);
    }
    forall j | 0 <= j < n && FunctionsBefore(objects, j) <= p < FunctionsBefore(objects, j) + |objects[j].functions|
      ensures j == i
    {
      if j < i {
        FunctionsGrow(objects, j, i);
      } else if i < j {
        FunctionsGrow(objects, i, j);
      }
    }
  }

  lemma {:induction false} FunctionsGrow(objects: seq<Artifact>, i: nat, j: nat)
    requires i < j <= |objects|
    ensures FunctionsBefore(objects, i) + |objects[i].functions| <= FunctionsBefore(objects, j)
  {
    if i < j - 1 {
      FunctionsGrow(objects, i, j - 1);
    }
  }

  lemma {:induction false} DataPlace(objects: seq<Artifact>, n: nat, p: nat) returns (i: nat, k: nat)
    requires n <= |objects| && p < DataBefore(objects, n)
    ensures i < n && k < |objects[i].data| && p == DataBefore(objects, i) + k
    ensures forall j :: 0 <= j < n && DataBefore(objects, j) <= p < DataBefore(objects, j) + |objects[j].data| ==> j == i
  {
    if p < DataBefore(objects, n - 1) {
      i, k := DataPlace(objects, n - 1, p);
    } else {
      i, k := n - 1, p - DataBefore(objects, n - 1);
    }
    forall j | 0 <= j < n && DataBefore(objects, j) <= p < DataBefore(objects, j) + |objects[j].data|
      ensures j == i
    {
      if j < i {
        DataGrow(objects, j, i);
      } else if i < j {
        DataGrow(objects, i, j);
      }
    }
  }

  lemma {:induction false} DataGrow(objects: seq<Artifact>, i: nat, j: nat)
    requires i < j <= |objects|
    ensures DataBefore(objects, i) + |objects[i].data| <= DataBefore(objects, j)
  {
    if i < j - 1 {
      DataGrow(objects, i, j - 1);
    }
  }

  lemma {:induction false} MergedFunctionsKept(objects: seq<Artifact>, names: seq<Renaming>, n: nat)
    requires n <= |objects| == |names|
    ensures FunctionsKept(objects, names, MergedFunctions(objects, names, n), n)
  {
    if n > 0 {
      MergedFunctionsKept(objects, names, n - 1);
      FunctionsAdded(objects, names, MergedFunctions(objects, names, n - 1), n - 1);
    }
  }

  lemma FunctionsAdded(objects: seq<Artifact>, names: seq<Renaming>, front: seq<Function>, n: nat)
    requires n < |objects| == |names| && FunctionsKept(objects, names, front, n)
    ensures FunctionsKept(objects, names, front + RenameFunctions(names[n], objects[n].functions), n + 1)
  {
    var last := RenameFunctions(names[n], objects[n].functions);
    var fs := front + last;
    assert |fs| == FunctionsBefore(objects, n + 1);
    forall i, k | 0 <= i < n + 1 && 0 <= k < |objects[i].functions|
      ensures FunctionAt(objects, names, fs, i, k)
    {
      if i == n {
        assert fs[|front| + k] == last[k];
      } else {
        FunctionsGrow(objects, i, n);
        assert FunctionAt(objects, names, front, i, k);
        assert fs[FunctionsBefore(objects, i) + k] == front[FunctionsBefore(objects, i) + k];
      }
    }
  }

  lemma {:induction false} MergedDataKept(objects: seq<Artifact>, names: seq<Renaming>, n: nat)
    requires n <= |objects| == |names|
    ensures AllDataKept(objects, names, MergedData(objects, names, n), n)
  {
    if n > 0 {
      MergedDataKept(objects, names, n - 1);
      DataAdded(objects, names, MergedData(objects, names, n - 1), n - 1);
    }
  }

  lemma DataAdded(objects: seq<Artifact>, names: seq<Renaming>, front: seq<Data>, n: nat)
    requires n < |objects| == |names| && AllDataKept(objects, names, front, n)
    ensures AllDataKept(objects, names, front + RenameAllData(names[n], objects[n].data), n + 1)
  {
    var last := RenameAllData(names[n], objects[n].data);
    var ds := front + last;
    assert |ds| == DataBefore(objects, n + 1);
    forall i, k | 0 <= i < n + 1 && 0 <= k < |objects[i].data|
      ensures DataAt(objects, names, ds, i, k)
    {
      if i == n {
        assert ds[|front| + k] == last[k];
      } else {
        DataGrow(objects, i, n);
        assert DataAt(objects, names, front, i, k);
        assert ds[DataBefore(objects, i) + k] == front[DataBefore(objects, i) + k];
      }
    }
  }

  /** The merged artifact corresponds to its objects. */
  lemma MergedCorresponds(objects: seq<Artifact>, names: seq<Renaming>, locals: set<Name>)
    requires |names| == |objects|
    requires forall name :: name in locals <==> exists i, x :: 0 <= i < |objects| && x in names[i] && names[i][x] == name
    ensures Corresponds(objects, names, MergedArtifact(objects, names, locals))
  {
    MergedFunctionsKept(objects, names, |objects|);
    MergedDataKept(objects, names, |objects|);
  }
}
