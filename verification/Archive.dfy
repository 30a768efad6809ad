/** Lazy extraction from a static library: members are taken only while they define a name that is
    still needed. */
module Archive {
  import opened Artifacts
  import opened MergeObjects

  datatype Member = Member(title: Name, artifact: Artifact)

  /** Names used, and the entry, that no object defines for others to see. */
  ghost predicate Unresolved(objects: seq<Artifact>, entry: Name, name: Name) {
    && (name == entry || exists i :: 0 <= i < |objects| && Refers(objects[i], name))
    && forall i :: 0 <= i < |objects| ==> !External(objects[i], name)
  }

  ghost predicate Needed(a: Artifact, objects: seq<Artifact>, entry: Name) {
    exists name :: External(a, name) && Unresolved(objects, entry, name)
  }

  /** The artifacts of chosen members. */
  function Taken(members: seq<Member>, picked: seq<nat>): (r: seq<Artifact>)
    requires forall k :: 0 <= k < |picked| ==> picked[k] < |members|
    ensures |r| == |picked| && forall k :: 0 <= k < |picked| ==> r[k] == members[picked[k]].artifact
  {
    seq(|picked|, k requires 0 <= k < |picked| => members[picked[k]].artifact)
  }

  function Labels(members: seq<Member>, picked: seq<nat>): (r: seq<Name>)
    requires forall k :: 0 <= k < |picked| ==> picked[k] < |members|
    ensures |r| == |picked| && forall k :: 0 <= k < |picked| ==> r[k] == members[picked[k]].title
  {
    seq(|picked|, k requires 0 <= k < |picked| => members[picked[k]].title)
  }

  /** Member `index` was the first not yet taken that was needed when the members before it in the
      order of extraction had been taken. */
  ghost predicate TakenInTurn(members: seq<Member>, objects: seq<Artifact>, entry: Name, picked: seq<nat>, k: nat)
    requires k < |picked| && forall j :: 0 <= j < |picked| ==> picked[j] < |members|
  {
    var before := objects + Taken(members, picked[..k]);
    && Needed(members[picked[k]].artifact, before, entry)
    && forall i :: 0 <= i < picked[k] && i !in picked[..k] ==> !Needed(members[i].artifact, before, entry)
  }

  /** A run of extractions: no member twice, each in its turn. */
  ghost predicate Extraction(members: seq<Member>, objects: seq<Artifact>, entry: Name, picked: seq<nat>) {
    && (forall k :: 0 <= k < |picked| ==> picked[k] < |members|)
    && (forall j, k :: 0 <= j < k < |picked| ==> picked[j] != picked[k])
    && forall k :: 0 <= k < |picked| ==> TakenInTurn(members, objects, entry, picked, k)
  }

  ghost predicate Settled(members: seq<Member>, objects: seq<Artifact>, entry: Name, picked: seq<nat>)
    requires forall k :: 0 <= k < |picked| ==> picked[k] < |members|
  {
    forall i :: 0 <= i < |members| && i !in picked ==>
      !Needed(members[i].artifact, objects + Taken(members, picked), entry)
  }

  function Indices(n: nat): (r: set<nat>)
    ensures forall i :: i in r <==> 0 <= i < n
  {
    if n == 0 then {} else Indices(n - 1) + {n - 1}
  }

  /** The caller's list of objects, which extraction extends. */
  class ObjectList {
    var items: seq<Artifact>

    constructor (items: seq<Artifact>)
      ensures this.items == items
    {
      this.items := items;
    }
  }

  class StaticArchive {
    const members: seq<Member>

    ghost predicate Bound() {
      forall i :: 0 <= i < |members| ==> members[i].artifact.locals.Some?
    }

    constructor (members: seq<Member>)
      ensures this.members == members
    {
      this.members := members;
    }

    /** extract_needed. It fails only on an invalid object or one of the older format, and always
        ends; what it took came in turn, and when it succeeds nothing left is needed. */
    method ExtractNeeded(objects: ObjectList, entry: Name) returns (ok: bool, extracted: seq<Name>, ghost picked: seq<nat>)
      requires Bound()
      modifies objects
      ensures Extraction(members, old(objects.items), entry, picked)
      ensures objects.items == old(objects.items) + Taken(members, picked)
      ensures extracted == Labels(members, picked)
      ensures ok <==> AllValid(objects.items)
      ensures ok ==> Settled(members, old(objects.items), entry, picked)
    {
      hide Needed, Extraction, Settled, AllValid, Validate;
      ghost var first := objects.items;
      var selected: set<nat> := {};
      extracted, picked := [], [];
      NothingPicked(members, first, entry);
      ExtractionBounds(members, first, entry, picked);
      while true
        invariant Extraction(members, first, entry, picked)
        invariant forall k :: 0 <= k < |picked| ==> picked[k] < |members|
        invariant objects.items == first + Taken(members, picked)
        invariant extracted == Labels(members, picked)
        invariant forall i :: i in selected <==> i in picked
        invariant selected <= Indices(|members|)
        decreases Indices(|members|) - selected
      {
        var references;
        ok, references := Outstanding(objects, entry);
        if !ok {
          return;
        }
        var index := FindCandidate(references, selected);
        CandidateNeeded(members, objects.items, entry, references);
        if index == |members| {
          NothingNeeded(members, first, entry, picked, selected);
          break;
        }
        ghost var before := picked;
        OnePicked(members, first, entry, picked, selected, index);
        assert index in Indices(|members|);
        picked := picked + [index];
        selected := selected + {index};
        extracted := extracted + [members[index].title];
        objects.items := objects.items + [members[index].artifact];
        assert Taken(members, picked) == Taken(members, before) + [members[index].artifact];
      }
    }

    /** The names still needed by a list of objects; fails on an object that cannot be linked. */
    method Outstanding(objects: ObjectList, entry: Name) returns (ok: bool, references: set<Name>)
      ensures ok <==> AllValid(objects.items)
      ensures ok ==> forall name :: name in references <==> Unresolved(objects.items, entry, name)
    {
      hide Validate, External, Refers;
      var definitions: set<Name> := {};
      references := {entry};
      for n := 0 to |objects.items|
        invariant forall i :: 0 <= i < n ==> Validate(objects.items[i]) && objects.items[i].locals.Some?
        invariant forall name :: name in definitions <==> ExternalIn(objects.items, n, name)
        invariant forall name :: name in references <==> name == entry || ReferredBy(objects.items, n, name)
      {
        if !Validate(objects.items[n]) || objects.items[n].locals.None? {
          return false, {};
        }
        definitions := definitions + ExternalsOf(objects.items[n]);
        references := references + ReferencesOf(objects.items[n]);
      }
      OutstandingNames(objects.items, entry, definitions, references);
      references := references - definitions;
      ok := true;
    }

    /** The first member not taken that defines one of the names. */
    method FindCandidate(references: set<Name>, selected: set<nat>) returns (index: nat)
      ensures index <= |members|
      ensures index < |members| ==> index !in selected && ExternalsOf(members[index].artifact) * references != {}
      ensures forall i :: 0 <= i < index && i !in selected ==> ExternalsOf(members[i].artifact) * references == {}
    {
      index := 0;
      while index < |members| && (index in selected || ExternalsOf(members[index].artifact) * references == {})
        invariant index <= |members|
        invariant forall i :: 0 <= i < index && i !in selected ==> ExternalsOf(members[i].artifact) * references == {}
      {
        index := index + 1;
      }
    }
  }

  lemma NothingPicked(members: seq<Member>, objects: seq<Artifact>, entry: Name)
    ensures Extraction(members, objects, entry, []) && objects == objects + Taken(members, []) && Labels(members, []) == []
  {
  }

  lemma ExtractionBounds(members: seq<Member>, objects: seq<Artifact>, entry: Name, picked: seq<nat>)
    requires Extraction(members, objects, entry, picked)
    ensures forall k :: 0 <= k < |picked| ==> picked[k] < |members|
  {
  }

  lemma OutstandingNames(objects: seq<Artifact>, entry: Name, definitions: set<Name>, references: set<Name>)
    requires forall name :: name in definitions <==> ExternalIn(objects, |objects|, name)
    requires forall name :: name in references <==> name == entry || ReferredBy(objects, |objects|, name)
    ensures forall name :: name in references - definitions <==> Unresolved(objects, entry, name)
  {
    hide External, Refers;
  }

  /** Sharing a name with the outstanding ones is being needed. */
  lemma CandidateNeeded(members: seq<Member>, objects: seq<Artifact>, entry: Name, references: set<Name>)
    requires forall name :: name in references <==> Unresolved(objects, entry, name)
    ensures forall i :: 0 <= i < |members| ==>
      (ExternalsOf(members[i].artifact) * references != {} <==> Needed(members[i].artifact, objects, entry))
  {
    hide External, Unresolved;
    forall i | 0 <= i < |members|
      ensures ExternalsOf(members[i].artifact) * references != {} <==> Needed(members[i].artifact, objects, entry)
    {
      var common := ExternalsOf(members[i].artifact) * references;
      SomeName(common);
      if common != {} {
        var name :| name in common;
        assert External(members[i].artifact, name);
      }
      if Needed(members[i].artifact, objects, entry) {
        var name :| External(members[i].artifact, name) && Unresolved(objects, entry, name);
        assert name in common;
      }
    }
  }

  lemma NothingNeeded(members: seq<Member>, objects: seq<Artifact>, entry: Name, picked: seq<nat>, selected: set<nat>)
    requires forall k :: 0 <= k < |picked| ==> picked[k] < |members|
    requires forall i :: i in selected <==> i in picked
    requires forall i :: 0 <= i < |members| && i !in selected ==>
      !Needed(members[i].artifact, objects + Taken(members, picked), entry)
    ensures Settled(members, objects, entry, picked)
  {
  }

  lemma OnePicked(members: seq<Member>, objects: seq<Artifact>, entry: Name, picked: seq<nat>, selected: set<nat>, index: nat)
    requires Extraction(members, objects, entry, picked) && index < |members| && index !in selected
    requires forall k :: 0 <= k < |picked| ==> picked[k] < |members|
    requires forall i :: i in selected <==> i in picked
    requires Needed(members[index].artifact, objects + Taken(members, picked), entry)
    requires forall i :: 0 <= i < index && i !in selected ==>
      !Needed(members[i].artifact, objects + Taken(members, picked), entry)
    ensures Extraction(members, objects, entry, picked + [index])
  {
    hide Needed;
    var more := picked + [index];
    forall k | 0 <= k < |more|
      ensures TakenInTurn(members, objects, entry, more, k)
    {
      assert more[..k] == if k < |picked| then picked[..k] else picked;
      if k < |picked| {
        assert TakenInTurn(members, objects, entry, picked, k);
      }
    }
  }
}
