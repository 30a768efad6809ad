/** Writing an artifact as an ELF object and reading it back. */
module ElfRoundTrip {
  import opened Options
  import opened Artifacts
  import opened Bytes
  import opened BundleFormat
  import opened ElfFormat
  import opened ElfObject
  import opened ElfSteps
  import opened ElfSizes
  import opened ElfReading
  import opened ElfRecover
  import opened ElfArtifact
  import ElfReader
  import ElfWriter

  /** Limits of section numbers and of the reader's budget. */
  ghost predicate FitsReader(a: Artifact, bytes: seq<Byte>) {
    |Items(a)| < 0xfff1 && |bytes| <= MAX_OBJECT && BodiesSize(Items(a)) <= MAX_OBJECT
  }

  /** to_elf_bytes and from_elf_bytes: a valid artifact without NULs whose addends can be patched is written when it
      fits, and what is written reads back, when targets have names and the reader's limits hold. */
  method RoundTrip(a: Artifact) returns (wrote: bool, bytes: seq<Byte>, ok: bool, r: Artifact)
    requires Typed(a)
    ensures wrote ==> Validate(a) && AllPatchable(Items(a)) && NulFree(a)
    ensures Validate(a) && AllPatchable(Items(a)) && NulFree(a) && |Items(a)| + 4 + |Relocated(Items(a))| < W16 && Bound(a) < WORD_LIMIT ==>
      wrote
    ensures wrote && TargetsNamed(a) && FitsReader(a, bytes) ==> ok && Validate(r) && SameObject(a, r)
  {
    hide Typed, Validate, AllPatchable, NulFree, TargetsNamed, Describes, Laid, Items, SameObject, Bound, Relocated, BodiesSize;
    ok, r := false, Artifact(None, [], []);
    ghost var o, names, offsets, table;
    wrote, bytes, o, names, offsets, table := ElfWriter.Write(a);
    if wrote {
      ok, r := ElfReader.Read(bytes, Written(a, o, names, offsets, table));
    }
  }

  /** Relocations come back unchanged, addends included, exactly when no later site changes an earlier addend. */
  lemma FunctionUnchanged(f: Function)
    requires Patchable(f.code, f.relocations)
    ensures RestoredFunction(f).relocations == f.relocations <==> forall k :: 0 <= k < |f.relocations| ==> Survives(f.relocations, k)
  {
    SeenSame(f.code, f.relocations);
  }

  lemma DataUnchanged(d: Data)
    requires Patchable(d.bytes, d.relocations)
    ensures RestoredData(d).relocations == d.relocations <==> forall k :: 0 <= k < |d.relocations| ==> Survives(d.relocations, k)
  {
    SeenSame(d.bytes, d.relocations);
  }

  /** When sites share no byte, relocations come back as they were, and bytes outside every site too. */
  lemma DisjointUnchanged(body: seq<Byte>, rs: seq<Relocation>, at: nat)
    requires Patchable(body, rs) && SitesDisjoint(rs) && at < |body|
    ensures Seen(Patched(body, rs), rs) == rs
    ensures (forall k :: 0 <= k < |rs| ==> !(rs[k].offset <= at < rs[k].offset + 4)) ==> Patched(body, rs)[at] == body[at]
  {
    hide Patched, Survives;
    forall k | 0 <= k < |rs|
      ensures Survives(rs, k)
    {
      DisjointSurvive(rs, k);
    }
    SeenSame(body, rs);
    PatchedByte(body, rs, at);
    if forall k :: 0 <= k < |rs| ==> !(rs[k].offset <= at < rs[k].offset + 4) {
      NobodyWrites(rs, at);
    }
  }

  /** A BSS object keeps its size, and its bytes are the zeros they were. */
  lemma BssUnchanged(d: Data)
    requires IsBss(OfObject(d))
    ensures Patchable(d.bytes, d.relocations) && RestoredData(d) == d && SectionOf(OfObject(d)).kind == SHT_NOBITS
  {
  }
}
