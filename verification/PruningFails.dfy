/** An object that links as a whole, and no longer once what its entry does not reach is left out. */
module PruningFails {
  import opened Alignment
  import opened Options
  import opened Artifacts
  import opened Bytes
  import opened Layout
  import opened LinkSpec
  import opened ImageSpec
  import opened MergeLaws
  import opened Reachable

  const UNUSED: Name := [1]
  const ENTRY: Name := [2]
  const CODE: seq<Byte> := [0, 0, 0, 0]

  /** The entry refers to the four bytes in front of itself, where an unused function stands. */
  function Referring(): Function {
    Function(ENTRY, CODE, [Relocation(0, ENTRY, -4)])
  }

  function Whole(): Artifact {
    Artifact(None, [Function(UNUSED, CODE, []), Referring()], [])
  }

  function Rest(): Artifact {
    Artifact(None, [Referring()], [])
  }

  lemma Shapes()
    ensures Sections(Whole()) == [Section(UNUSED, CODE, 4, []), Section(ENTRY, CODE, 4, [Relocation(0, ENTRY, -4)])]
    ensures Sections(Rest()) == [Section(ENTRY, CODE, 4, [Relocation(0, ENTRY, -4)])]
    ensures Validate(Whole()) && Validate(Rest()) && HasFunction(Whole(), ENTRY)
  {
    assert UNUSED[0] != ENTRY[0];
    assert Whole().functions[1].name == ENTRY;
  }

  lemma Addresses()
    ensures AlignUp(0, 4) == 0 && AlignUp(4, 4) == 4
  {
  }

  /** The entry stands at 4, so its site gets address 0. */
  lemma WholeLinks()
    ensures Linkable(Whole(), 0, ENTRY, 8)
  {
    Shapes();
    Addresses();
    var ss := Sections(Whole());
    hide Sections, Validate, AlignUp;
    ValidAligned(Whole());
    assert Placed(ss, 0, 0, 8) == At(0) && Placed(ss, 1, 0, 8) == At(4) && Placed(ss, 2, 0, 8) == At(8);
    assert SymbolTable(ss, 1, 0, 8) == map[UNUSED := 0];
    assert Symbols(Whole(), 0, 8)[ENTRY] == 4;
    assert Applies(ss[1], 0, Symbols(Whole(), 0, 8));
  }

  lemma EntryKept()
    ensures Pruned(Whole(), {ENTRY}) == Rest()
  {
    var unused := Function(UNUSED, CODE, []);
    assert UNUSED[0] != ENTRY[0];
    assert KeptFunctions([], {ENTRY}) == [] && [unused][..0] == [];
    assert KeptFunctions([unused], {ENTRY}) == [];
    assert Whole().functions[..1] == [unused];
    assert KeptFunctions(Whole().functions, {ENTRY}) == [Referring()];
  }

  lemma OnlyEntryReached()
    ensures Reached(Sections(Whole()), ENTRY, {ENTRY})
  {
    Shapes();
    var ss := Sections(Whole());
    assert UNUSED[0] != ENTRY[0];
    hide Sections, Validate;
    assert ss[1].name == ENTRY && Defines(ss, ENTRY);
    assert Closed(ss, ENTRY, {ENTRY});
    forall names | Closed(ss, ENTRY, names)
      ensures {ENTRY} <= names
    {
    }
  }

  /** Alone, the entry stands at 0. */
  lemma RestFails()
    ensures !Linkable(Rest(), 0, ENTRY, 8)
  {
    Shapes();
    Addresses();
    var ss := Sections(Rest());
    hide Sections, Validate, AlignUp;
    ValidAligned(Rest());
    assert Placed(ss, 0, 0, 8) == At(0) && Placed(ss, 1, 0, 8) == At(4);
    assert Symbols(Rest(), 0, 8)[ENTRY] == 0;
    assert !Applies(ss[0], 0, Symbols(Rest(), 0, 8));
  }

  /** Everything of the one object links; what its entry reaches is the entry alone, and that does not. */
  lemma PruningBreaks()
    ensures MergeResult([Whole()], ENTRY, Some(Whole())) && Linkable(Whole(), 0, ENTRY, 8) && AllSitesFine([Whole()])
    ensures Reached(Sections(Whole()), ENTRY, {ENTRY}) && !Linkable(Pruned(Whole(), {ENTRY}), 0, ENTRY, 8)
    ensures forall live :: Reached(Sections(Whole()), ENTRY, live) ==> live == {ENTRY}
  {
    Shapes();
    WholeLinks();
    EntryKept();
    OnlyEntryReached();
    RestFails();
    hide Linkable, Validate;
  }

  /** Both linkers on that object: the one that leaves nothing out gives an image, the other none. */
  method PruningRefuses() returns (whole: Option<Image>, pruned: Option<Image>)
    ensures whole.Some? && pruned.None?
  {
    hide Linkable, Validate, Reached, AllSitesFine, Pruned, Faithful, LinkedFrom, PrunedFrom, Closed, AllDefined, Sections, Whole;
    PruningBreaks();
    ghost var merged, live;
    whole, merged := LinkAll([Whole()], 0, ENTRY, 8);
    pruned, merged, live := LinkReachable([Whole()], 0, ENTRY, 8);
  }
}
