/** Object files of the SIA compiler: functions and data with relocations, and which of their names
    are private to the translation unit. */
module Artifacts {
  import opened Options
  import opened Bytes

  /** Names as their UTF-8 bytes. */
  type Name = seq<Byte>

  datatype Relocation = Relocation(offset: nat, target: Name, addend: int)

  datatype Function = Function(name: Name, code: seq<Byte>, relocations: seq<Relocation>)

  datatype Data = Data(name: Name, bytes: seq<Byte>, align: nat, readOnly: bool, relocations: seq<Relocation>)

  /** `locals` is absent from objects of the older format, which does not record binding. */
  datatype Artifact = Artifact(locals: Option<set<Name>>, functions: seq<Function>, data: seq<Data>)

  /** What functions and data have in common for the linker. */
  datatype Section = Section(name: Name, bytes: seq<Byte>, align: nat, relocations: seq<Relocation>)

  function OfFunction(f: Function): Section {
    Section(f.name, f.code, 4, f.relocations)
  }

  function OfData(d: Data): Section {
    Section(d.name, d.bytes, d.align, d.relocations)
  }

  /** Functions, then data. */
  function Sections(a: Artifact): (r: seq<Section>)
    ensures |r| == |a.functions| + |a.data|
    ensures forall i :: 0 <= i < |a.functions| ==> r[i] == OfFunction(a.functions[i])
    ensures forall i :: 0 <= i < |a.data| ==> r[|a.functions| + i] == OfData(a.data[i])
  {
    seq(|a.functions|, i requires 0 <= i < |a.functions| => OfFunction(a.functions[i]))
    + seq(|a.data|, i requires 0 <= i < |a.data| => OfData(a.data[i]))
  }

  predicate PowerOfTwo(n: nat) {
    n == 1 || (n > 0 && n % 2 == 0 && PowerOfTwo(n / 2))
  }

  predicate Defines(ss: seq<Section>, name: Name) {
    exists i :: 0 <= i < |ss| && ss[i].name == name
  }

  predicate Unique(ss: seq<Section>) {
    forall i, j :: 0 <= i < j < |ss| ==> ss[i].name != ss[j].name
  }

  predicate RelocationsInside(s: Section) {
    forall k :: 0 <= k < |s.relocations| ==> s.relocations[k].offset + 4 <= |s.bytes|
  }

  /** The checks every reader and writer makes. */
  predicate Validate(a: Artifact) {
    && !(a.functions == [] && a.data == [])
    && (a.locals.Some? ==> forall name :: name in a.locals.value ==> Defines(Sections(a), name))
    && Unique(Sections(a))
    && (forall i :: 0 <= i < |a.functions| ==>
          a.functions[i].name != [] && a.functions[i].code != [] && |a.functions[i].code| % 2 == 0)
    && (forall i :: 0 <= i < |a.data| ==>
          a.data[i].name != [] && PowerOfTwo(a.data[i].align) && RelocationsInside(OfData(a.data[i])))
  }

  predicate IsLocal(a: Artifact, name: Name) {
    a.locals.Some? && name in a.locals.value
  }

  /** An artifact's definition that other objects can see. */
  predicate External(a: Artifact, name: Name) {
    Defines(Sections(a), name) && !IsLocal(a, name)
  }

  /** A name an artifact needs from elsewhere, or from its own external definitions. */
  predicate Refers(a: Artifact, name: Name) {
    !IsLocal(a, name) && exists i, k :: 0 <= i < |Sections(a)| && 0 <= k < |Sections(a)[i].relocations|
                                      && Sections(a)[i].relocations[k].target == name
  }

  lemma SomeName(names: set<Name>)
    ensures names == {} || exists name :: name in names
  {
    if forall name :: name !in names {
      assert names == {};
    }
  }
}
