/** Merging objects: names private to a translation unit are renamed so that they meet nothing else. */
module Merge {
  import opened Options
  import opened Artifacts

  /** What renaming a private name does: one map for each object. */
  type Renaming = map<Name, Name>

  function Rename(names: Renaming, name: Name): Name {
    if name in names then names[name] else name
  }

  function RenameRelocation(names: Renaming, r: Relocation): Relocation {
    r.(target := Rename(names, r.target))
  }

  function RenameRelocations(names: Renaming, rs: seq<Relocation>): (r: seq<Relocation>)
    ensures |r| == |rs| && forall k :: 0 <= k < |rs| ==> r[k] == RenameRelocation(names, rs[k])
  {
    seq(|rs|, k requires 0 <= k < |rs| => RenameRelocation(names, rs[k]))
  }

  function RenameFunction(names: Renaming, f: Function): Function {
    Function(Rename(names, f.name), f.code, RenameRelocations(names, f.relocations))
  }

  function RenameData(names: Renaming, d: Data): Data {
    d.(name := Rename(names, d.name), relocations := RenameRelocations(names, d.relocations))
  }

  function RenameFunctions(names: Renaming, fs: seq<Function>): (r: seq<Function>)
    ensures |r| == |fs| && forall k :: 0 <= k < |fs| ==> r[k] == RenameFunction(names, fs[k])
  {
    seq(|fs|, k requires 0 <= k < |fs| => RenameFunction(names, fs[k]))
  }

  function RenameAllData(names: Renaming, ds: seq<Data>): (r: seq<Data>)
    ensures |r| == |ds| && forall k :: 0 <= k < |ds| ==> r[k] == RenameData(names, ds[k])
  {
    seq(|ds|, k requires 0 <= k < |ds| => RenameData(names, ds[k]))
  }

  /** The functions of the first n objects, renamed. */
  function MergedFunctions(objects: seq<Artifact>, names: seq<Renaming>, n: nat): seq<Function>
    requires n <= |objects| && n <= |names|
  {
    if n == 0 then []
    else MergedFunctions(objects, names, n - 1) + RenameFunctions(names[n - 1], objects[n - 1].functions)
  }

  function MergedData(objects: seq<Artifact>, names: seq<Renaming>, n: nat): seq<Data>
    requires n <= |objects| && n <= |names|
  {
    if n == 0 then [] else MergedData(objects, names, n - 1) + RenameAllData(names[n - 1], objects[n - 1].data)
  }

  // ---------------------------------------------------------------- what renaming must respect

  ghost predicate Mentioned(objects: seq<Artifact>, name: Name) {
    exists i :: 0 <= i < |objects| && (External(objects[i], name) || Refers(objects[i], name))
  }

  /** Every private name gets a name of its own that no object mentions. */
  ghost predicate CaptureFree(objects: seq<Artifact>, names: seq<Renaming>) {
    && |names| == |objects|
    && (forall i :: 0 <= i < |objects| ==> objects[i].locals.Some? && names[i].Keys == objects[i].locals.value)
    && (forall i, x :: 0 <= i < |objects| && x in names[i] ==> !Mentioned(objects, names[i][x]))
    && forall i, x, j, y :: SameNew(objects, names, i, x, j, y) ==> i == j && x == y
  }

  ghost predicate SameNew(objects: seq<Artifact>, names: seq<Renaming>, i: int, x: Name, j: int, y: Name)
    requires |names| == |objects|
  {
    0 <= i < |objects| && 0 <= j < |objects| && x in names[i] && y in names[j] && names[i][x] == names[j][y]
  }

  /** No two objects define the same external name. */
  ghost predicate Separate(objects: seq<Artifact>) {
    forall i, j, name :: 0 <= i < j < |objects| && External(objects[i], name) ==> !External(objects[j], name)
  }

  /** Definition k of object i, as it appears after merging. */
  ghost predicate Came(objects: seq<Artifact>, names: seq<Renaming>, i: nat, k: nat, s: Section)
    requires |names| == |objects|
  {
    && i < |objects| && k < |Sections(objects[i])|
    && var o := Sections(objects[i])[k];
       s == Section(Rename(names[i], o.name), o.bytes, o.align, RenameRelocations(names[i], o.relocations))
  }

  // ---------------------------------------------------------------- where merged sections come from

  /** Merged sections in order: which object, and which of its sections. */
  datatype Origin = Origin(unit: nat, section: nat)

  function FunctionOrigins(objects: seq<Artifact>, n: nat): seq<Origin>
    requires n <= |objects|
  {
    if n == 0 then []
    else FunctionOrigins(objects, n - 1) + seq(|objects[n - 1].functions|, (k: nat) => Origin(n - 1, k))
  }

  function DataOrigins(objects: seq<Artifact>, n: nat): seq<Origin>
    requires n <= |objects|
  {
    if n == 0 then []
    else
      var first := |objects[n - 1].functions|;
      DataOrigins(objects, n - 1) + seq(|objects[n - 1].data|, (k: nat) => Origin(n - 1, first + k))
  }

  function Origins(objects: seq<Artifact>): seq<Origin> {
    FunctionOrigins(objects, |objects|) + DataOrigins(objects, |objects|)
  }

  function MergedArtifact(objects: seq<Artifact>, names: seq<Renaming>, locals: set<Name>): Artifact
    requires |names| == |objects|
  {
    Artifact(Some(locals), MergedFunctions(objects, names, |objects|), MergedData(objects, names, |objects|))
  }

  lemma {:induction false} FunctionsCame(objects: seq<Artifact>, names: seq<Renaming>, n: nat)
    requires n <= |objects| == |names|
    ensures |FunctionOrigins(objects, n)| == |MergedFunctions(objects, names, n)|
    ensures forall p :: 0 <= p < |FunctionOrigins(objects, n)| ==>
      var o := FunctionOrigins(objects, n)[p];
      && o.unit < n && |objects[o.unit].functions| > o.section
      && Came(objects, names, o.unit, o.section, OfFunction(MergedFunctions(objects, names, n)[p]))
    ensures forall p, q :: 0 <= p < q < |FunctionOrigins(objects, n)| ==>
      FunctionOrigins(objects, n)[p] != FunctionOrigins(objects, n)[q]
  {
    if n > 0 {
      FunctionsCame(objects, names, n - 1);
    }
  }

  lemma {:induction false} DataCame(objects: seq<Artifact>, names: seq<Renaming>, n: nat)
    requires n <= |objects| == |names|
    ensures |DataOrigins(objects, n)| == |MergedData(objects, names, n)|
    ensures forall p :: 0 <= p < |DataOrigins(objects, n)| ==>
      var o := DataOrigins(objects, n)[p];
      && o.unit < n && |objects[o.unit].functions| <= o.section && |Sections(objects[o.unit])| > o.section
      && Came(objects, names, o.unit, o.section, OfData(MergedData(objects, names, n)[p]))
    ensures forall p, q :: 0 <= p < q < |DataOrigins(objects, n)| ==>
      DataOrigins(objects, n)[p] != DataOrigins(objects, n)[q]
  {
    if n > 0 {
      DataCame(objects, names, n - 1);
    }
  }

  /** Every merged section is one section of one object, renamed, and none comes twice. */
  lemma SectionsCame(objects: seq<Artifact>, names: seq<Renaming>, locals: set<Name>)
    requires |names| == |objects|
    ensures var ss := Sections(MergedArtifact(objects, names, locals));
      && |Origins(objects)| == |ss|
      && (forall p :: 0 <= p < |ss| ==> Came(objects, names, Origins(objects)[p].unit, Origins(objects)[p].section, ss[p]))
      && forall p, q :: 0 <= p < q < |ss| ==> Origins(objects)[p] != Origins(objects)[q]
  {
    FunctionsCame(objects, names, |objects|);
    DataCame(objects, names, |objects|);
  }

  // ---------------------------------------------------------------- the main results

  lemma RenamedName(objects: seq<Artifact>, names: seq<Renaming>, i: nat, k: nat)
    requires CaptureFree(objects, names) && i < |objects| && k < |Sections(objects[i])|
    ensures var name := Sections(objects[i])[k].name;
      if IsLocal(objects[i], name) then name in names[i] && Rename(names[i], name) == names[i][name]
      else Rename(names[i], name) == name && External(objects[i], name)
  {
  }

  /** A private name does not meet an external one. */
  lemma PrivateApart(objects: seq<Artifact>, names: seq<Renaming>, i: nat, x: Name, j: nat, l: nat)
    requires CaptureFree(objects, names) && i < |objects| && j < |objects| && l < |Sections(objects[j])|
    requires IsLocal(objects[i], x) && !IsLocal(objects[j], Sections(objects[j])[l].name)
    ensures Rename(names[i], x) != Rename(names[j], Sections(objects[j])[l].name)
  {
    RenamedName(objects, names, j, l);
    assert Mentioned(objects, Sections(objects[j])[l].name);
  }

  lemma SameSection(a: Artifact, k: nat, l: nat)
    requires Unique(Sections(a)) && k < |Sections(a)| && l < |Sections(a)| && Sections(a)[k].name == Sections(a)[l].name
    ensures k == l
  {
  }

  /** Two sections with one name after merging are the same section. */
  lemma NamesApart(objects: seq<Artifact>, names: seq<Renaming>, i: nat, k: nat, j: nat, l: nat)
    requires CaptureFree(objects, names) && Separate(objects)
    requires forall n :: 0 <= n < |objects| ==> Unique(Sections(objects[n]))
    requires i < |objects| && j < |objects| && k < |Sections(objects[i])| && l < |Sections(objects[j])|
    requires Rename(names[i], Sections(objects[i])[k].name) == Rename(names[j], Sections(objects[j])[l].name)
    ensures i == j && k == l
  {
    var x, y := Sections(objects[i])[k].name, Sections(objects[j])[l].name;
    RenamedName(objects, names, i, k);
    RenamedName(objects, names, j, l);
    if IsLocal(objects[i], x) && !IsLocal(objects[j], y) {
      PrivateApart(objects, names, i, x, j, l);
    } else if !IsLocal(objects[i], x) && IsLocal(objects[j], y) {
      PrivateApart(objects, names, j, y, i, k);
    } else if IsLocal(objects[i], x) {
      assert SameNew(objects, names, i, x, j, y);
      SameSection(objects[i], k, l);
    } else {
      assert i == j;
      SameSection(objects[i], k, l);
    }
  }

  /** Merged definitions have different names. */
  lemma MergedUnique(objects: seq<Artifact>, names: seq<Renaming>, locals: set<Name>)
    requires CaptureFree(objects, names) && Separate(objects) && |names| == |objects|
    requires forall n :: 0 <= n < |objects| ==> Unique(Sections(objects[n]))
    ensures Unique(Sections(MergedArtifact(objects, names, locals)))
  {
    hide CaptureFree, Separate, Unique, Rename;
    var ss := Sections(MergedArtifact(objects, names, locals));
    SectionsCame(objects, names, locals);
    forall p, q | 0 <= p < q < |ss|
      ensures ss[p].name != ss[q].name
    {
      var a, b := Origins(objects)[p], Origins(objects)[q];
      if ss[p].name == ss[q].name {
        NamesApart(objects, names, a.unit, a.section, b.unit, b.section);
      }
    }
    UniqueIntro(ss);
  }

  lemma UniqueIntro(ss: seq<Section>)
    requires forall p, q :: 0 <= p < q < |ss| ==> ss[p].name != ss[q].name
    ensures Unique(ss)
  {
  }

  /** A relocation of object i that names a private definition of i ends up naming that definition;
      one that names anything else keeps its spelling, and whatever it meets is an external
      definition of that spelling, of which there is at most one. */
  lemma Resolves(objects: seq<Artifact>, names: seq<Renaming>, i: nat, target: Name, j: nat, l: nat)
    requires CaptureFree(objects, names) && Separate(objects)
    requires forall n :: 0 <= n < |objects| ==> Validate(objects[n])
    requires i < |objects| && j < |objects| && l < |Sections(objects[j])|
    requires IsLocal(objects[i], target) || Refers(objects[i], target)
    ensures Rename(names[i], target) == Rename(names[j], Sections(objects[j])[l].name) <==>
      if IsLocal(objects[i], target) then i == j && Sections(objects[j])[l].name == target
      else Sections(objects[j])[l].name == target && External(objects[j], target)
  {
    hide Validate, Separate;
    var x := Sections(objects[j])[l].name;
    RenamedName(objects, names, j, l);
    if IsLocal(objects[i], target) && !IsLocal(objects[j], x) {
      PrivateApart(objects, names, i, target, j, l);
    } else if IsLocal(objects[i], target) {
      assert Rename(names[i], target) == Rename(names[j], x) ==> SameNew(objects, names, i, target, j, x);
    } else {
      assert Mentioned(objects, target);
      if IsLocal(objects[j], x) {
        assert x in names[j] && !Mentioned(objects, names[j][x]);
      }
    }
  }
}

/** The merging of image.rs. */
module MergeObjects {
  import opened Options
  import opened Artifacts
  import opened Merge
  import opened MergeMeaning

  /** All the names in the first n sections that are not private. */
  function ExternalsOf(a: Artifact): (names: set<Name>)
    ensures forall name :: name in names <==> External(a, name)
  {
    set i | 0 <= i < |Sections(a)| && !IsLocal(a, Sections(a)[i].name) :: Sections(a)[i].name
  }

  function ReferencesOf(a: Artifact): (names: set<Name>)
    ensures forall name :: name in names <==> Refers(a, name)
  {
    set i, k | 0 <= i < |Sections(a)| && 0 <= k < |Sections(a)[i].relocations|
             && !IsLocal(a, Sections(a)[i].relocations[k].target) :: Sections(a)[i].relocations[k].target
  }

  /** What merging several objects requires. */
  ghost predicate Mergeable(objects: seq<Artifact>, entry: Name) {
    && AllValid(objects) && Separate(objects)
    && exists i :: 0 <= i < |objects| && External(objects[i], entry)
  }

  function Digits(v: nat): Name {
    (if v < 10 then [] else Digits(v / 10)) + [48 + v % 10]
  }

  /** @tu, the number of the object, a colon and the name. */
  function Scoped(ordinal: nat, name: Name): Name {
    [64, 116, 117] + Digits(ordinal) + [58] + name
  }

  /** New names start with the mark of their object and the old name. */
  ghost predicate Marked(names: seq<Renaming>) {
    forall i, x :: 0 <= i < |names| && x in names[i] ==> Scoped(i, x) <= names[i][x]
  }

  ghost predicate AllValid(objects: seq<Artifact>) {
    forall i :: 0 <= i < |objects| ==> Validate(objects[i]) && objects[i].locals.Some?
  }

  ghost predicate ExternalIn(objects: seq<Artifact>, n: nat, name: Name) {
    exists i :: 0 <= i < n && i < |objects| && External(objects[i], name)
  }

  /** Validates the objects and collects their external definitions, each of which may occur once. */
  method CollectExternals(objects: seq<Artifact>) returns (ok: bool, occupied: set<Name>)
    ensures ok <==> (Separate(objects) && AllValid(objects))
    ensures ok ==> forall name :: name in occupied <==> ExternalIn(objects, |objects|, name)
  {
    hide Validate, External;
    occupied := {};
    for n := 0 to |objects|
      invariant forall i :: 0 <= i < n ==> Validate(objects[i]) && objects[i].locals.Some?
      invariant forall name :: name in occupied <==> ExternalIn(objects, n, name)
      invariant forall i, j, name :: 0 <= i < j < n && External(objects[i], name) ==> !External(objects[j], name)
    {
      if !Validate(objects[n]) || objects[n].locals.None? {
        return false, {};
      }
      var more := ExternalsOf(objects[n]);
      if occupied * more != {} {
        SomeName(occupied * more);
        ghost var name :| name in occupied * more;
        assert ExternalIn(objects, n, name);
        return false, {};
      }
      assert forall i, name :: 0 <= i < n && External(objects[i], name) ==> ExternalIn(objects, n, name);
      assert forall name :: name in occupied && External(objects[n], name) ==> name in occupied * more;
      occupied := occupied + more;
    }
    ok := true;
  }

  /** A spelling that is not taken: at signs are added until there is none. */
  method Fresh(occupied: set<Name>, scoped0: Name) returns (scoped: Name)
    ensures scoped !in occupied && scoped0 <= scoped
  {
    scoped := scoped0;
    while scoped in occupied
      invariant scoped0 <= scoped
      decreases Longer(occupied, |scoped|)
    {
      LongerShrinks(occupied, scoped);
      scoped := scoped + [64];
    }
  }

  function Longer(occupied: set<Name>, n: nat): nat {
    |set name | name in occupied && |name| >= n|
  }

  lemma LongerShrinks(occupied: set<Name>, name: Name)
    requires name in occupied
    ensures Longer(occupied, |name| + 1) < Longer(occupied, |name|)
  {
    var small := set other | other in occupied && |other| >= |name| + 1;
    var large := set other | other in occupied && |other| >= |name|;
    assert small < large by {
      assert name in large && name !in small;
    }
    ProperSmaller(small, large);
  }

  lemma ProperSmaller(small: set<Name>, large: set<Name>)
    requires small < large
    ensures |small| < |large|
  {
    var rest := large - small;
    assert large == small + rest && small !! rest;
    assert rest != {};
  }

  /** The names chosen so far, for the objects before n and some of n's private names. */
  ghost predicate Chosen(occupied0: set<Name>, occupied: set<Name>, names: seq<Renaming>) {
    && occupied0 <= occupied
    && (forall i, x :: 0 <= i < |names| && x in names[i] ==> names[i][x] in occupied && names[i][x] !in occupied0)
    && forall i, x, j, y :: Clash(names, i, x, j, y) ==> i == j && x == y
  }

  ghost predicate Clash(names: seq<Renaming>, i: int, x: Name, j: int, y: Name) {
    0 <= i < |names| && 0 <= j < |names| && x in names[i] && y in names[j] && names[i][x] == names[j][y]
  }

  lemma ChooseOne(occupied0: set<Name>, occupied: set<Name>, names: seq<Renaming>, name: Name, scoped: Name)
    requires names != [] && Chosen(occupied0, occupied, names) && scoped !in occupied && name !in names[|names| - 1]
    ensures var last := |names| - 1;
      Chosen(occupied0, occupied + {scoped}, names[last := names[last][name := scoped]])
  {
    var last := |names| - 1;
    var more := names[last := names[last][name := scoped]];
    forall i, x, j, y | Clash(more, i, x, j, y)
      ensures i == j && x == y
    {
      assert !(i == last && x == name) && !(j == last && y == name) ==> Clash(names, i, x, j, y);
    }
  }

  /** One new name for each private name of an object. */
  method ScopeLocals(ordinal: nat, locals: set<Name>, occupied0: set<Name>, ghost taken: set<Name>, ghost names0: seq<Renaming>)
    returns (names: Renaming, occupied: set<Name>)
    requires Chosen(taken, occupied0, names0)
    ensures names.Keys == locals && Chosen(taken, occupied, names0 + [names])
    ensures forall x :: x in names ==> Scoped(ordinal, x) <= names[x]
  {
    names, occupied := map[], occupied0;
    var remaining := locals;
    assert Chosen(taken, occupied, names0 + [names]) by {
      assert forall i, x, j, y :: Clash(names0 + [names], i, x, j, y) ==> Clash(names0, i, x, j, y);
    }
    while remaining != {}
      invariant remaining <= locals && names.Keys == locals - remaining
      invariant forall x :: x in names ==> Scoped(ordinal, x) <= names[x]
      invariant Chosen(taken, occupied, names0 + [names])
      decreases |remaining|
    {
      SomeName(remaining);
      var name :| name in remaining;
      var scoped := Fresh(occupied, Scoped(ordinal, name));
      ghost var all := names0 + [names];
      ChooseOne(taken, occupied, all, name, scoped);
      assert all[|all| - 1 := all[|all| - 1][name := scoped]] == names0 + [names[name := scoped]];
      occupied := occupied + {scoped};
      names := names[name := scoped];
      remaining := remaining - {name};
    }
  }

  /** Adds the names that objects use without defining them. */
  method CollectReferences(objects: seq<Artifact>, occupied0: set<Name>) returns (occupied: set<Name>)
    ensures forall name :: name in occupied <==> name in occupied0 || ReferredBy(objects, |objects|, name)
  {
    hide Refers;
    occupied := occupied0;
    for n := 0 to |objects|
      invariant forall name :: name in occupied <==> name in occupied0 || ReferredBy(objects, n, name)
    {
      occupied := occupied + ReferencesOf(objects[n]);
    }
  }

  ghost predicate ReferredBy(objects: seq<Artifact>, n: nat, name: Name) {
    exists i :: 0 <= i < n && i < |objects| && Refers(objects[i], name)
  }

  lemma MentionedNames(objects: seq<Artifact>, occupied: set<Name>)
    requires forall name :: name in occupied <==> ExternalIn(objects, |objects|, name) || ReferredBy(objects, |objects|, name)
    ensures forall name :: name in occupied <==> Mentioned(objects, name)
  {
    hide External, Refers;
  }

  /** All the new names. */
  function NewNames(names: seq<Renaming>): set<Name> {
    set i, x | 0 <= i < |names| && x in names[i] :: names[i][x]
  }

  /** The names chosen are free of capture. */
  lemma ChosenFree(objects: seq<Artifact>, taken: set<Name>, occupied: set<Name>, names: seq<Renaming>)
    requires AllValid(objects) && |names| == |objects| && Chosen(taken, occupied, names)
    requires forall i :: 0 <= i < |objects| ==> names[i].Keys == objects[i].locals.value
    requires forall name :: name in taken <==> Mentioned(objects, name)
    ensures CaptureFree(objects, names)
  {
    hide Mentioned, Validate;
    forall i, x, j, y | SameNew(objects, names, i, x, j, y)
      ensures i == j && x == y
    {
      assert Clash(names, i, x, j, y);
    }
  }

  /** One object is taken as it is. Several are merged unless one is invalid or of the older format,
      two define the same external name, or none defines the entry. */
  method MergeAll(objects: seq<Artifact>, entry: Name) returns (r: Option<Artifact>, ghost names: seq<Renaming>)
    ensures objects == [] ==> r == None
    ensures |objects| == 1 ==> r == if Validate(objects[0]) then Some(objects[0]) else None
    ensures |objects| > 1 ==> (r.Some? <==> Mergeable(objects, entry))
    ensures |objects| > 1 && r.Some? ==> CaptureFree(objects, names)
    ensures |objects| > 1 && r.Some? ==> Marked(names)
    ensures |objects| > 1 && r.Some? ==> r.value == MergedArtifact(objects, names, NewNames(names))
    ensures |objects| > 1 && r.Some? ==> Corresponds(objects, names, r.value)
  {
    hide Validate, External, Separate, Mentioned, Refers, CaptureFree, Chosen, Scoped, RenameFunction, RenameData, Corresponds;
    names := [];
    if objects == [] {
      return None, [];
    }
    if |objects| == 1 {
      return if Validate(objects[0]) then Some(objects[0]) else None, [];
    }
    var ok, defined := CollectExternals(objects);
    if !ok || entry !in defined {
      return None, [];
    }
    var occupied := CollectReferences(objects, defined);
    MentionedNames(objects, occupied);
    r, names := MergeSeveral(objects, occupied);
  }

  /** The loop over the objects: the names of each get their scope, and its definitions are appended. */
  method MergeSeveral(objects: seq<Artifact>, taken: set<Name>) returns (r: Option<Artifact>, ghost names: seq<Renaming>)
    requires AllValid(objects) && forall name :: name in taken <==> Mentioned(objects, name)
    ensures r.Some? && |names| == |objects| && CaptureFree(objects, names) && Marked(names)
    ensures r.value == MergedArtifact(objects, names, NewNames(names))
    ensures Corresponds(objects, names, r.value)
  {
    hide Validate, Mentioned, CaptureFree, Chosen, Scoped, RenameFunction, RenameData, Corresponds, MergedFunctions, MergedData;
    names := [];
    NoneChosen(taken);
    NothingMerged(objects);
    var occupied, functions, data, locals := taken, [], [], {};
    for n := 0 to |objects|
      invariant |names| == n && Chosen(taken, occupied, names)
      invariant forall i :: 0 <= i < n ==> names[i].Keys == objects[i].locals.value
      invariant forall i, x :: 0 <= i < n && x in names[i] ==> Scoped(i, x) <= names[i][x]
      invariant functions == MergedFunctions(objects, names, n) && data == MergedData(objects, names, n)
      invariant locals == NewNames(names)
    {
      ghost var before := names;
      var renaming;
      renaming, occupied := ScopeLocals(n, objects[n].locals.value, occupied, taken, names);
      names := names + [renaming];
      MergedPrefix(objects, before, renaming, n);
      MergedStep(objects, names, n);
      functions := functions + RenameFunctions(renaming, objects[n].functions);
      data := data + RenameAllData(renaming, objects[n].data);
      locals := locals + set x | x in renaming :: renaming[x];
    }
    ChosenFree(objects, taken, occupied, names);
    MergedCorresponds(objects, names, NewNames(names));
    r := Some(Artifact(Some(locals), functions, data));
  }

  lemma MergedStep(objects: seq<Artifact>, names: seq<Renaming>, n: nat)
    requires n < |objects| && n < |names|
    ensures MergedFunctions(objects, names, n + 1)
      == MergedFunctions(objects, names, n) + RenameFunctions(names[n], objects[n].functions)
    ensures MergedData(objects, names, n + 1) == MergedData(objects, names, n) + RenameAllData(names[n], objects[n].data)
  {
  }

  lemma NothingMerged(objects: seq<Artifact>)
    ensures MergedFunctions(objects, [], 0) == [] && MergedData(objects, [], 0) == []
  {
  }

  lemma NoneChosen(taken: set<Name>)
    ensures Chosen(taken, taken, []) && NewNames([]) == {}
  {
  }

  lemma {:induction false} MergedPrefix(objects: seq<Artifact>, names: seq<Renaming>, renaming: Renaming, n: nat)
    requires n <= |names| && n <= |objects|
    ensures MergedFunctions(objects, names + [renaming], n) == MergedFunctions(objects, names, n)
    ensures MergedData(objects, names + [renaming], n) == MergedData(objects, names, n)
    ensures NewNames(names + [renaming]) == NewNames(names) + set x | x in renaming :: renaming[x]
  {
    if n > 0 {
      MergedPrefix(objects, names, renaming, n - 1);
    } else {
      assert (names + [renaming])[|names|] == renaming;
      assert forall i :: 0 <= i < |names| ==> (names + [renaming])[i] == names[i];
    }
  }
}
