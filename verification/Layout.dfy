/** Addresses of sections in a linked image. */
module Layout {
  import opened Alignment
  import opened Artifacts
  import opened Bytes
  import opened Powers

  /** The end of what is placed so far, or that something did not fit. */
  datatype Cursor = At(at: nat) | Full

  lemma MultipleGap(x: nat, y: nat, align: nat)
    requires align > 0 && x % align == 0 && y % align == 0 && y < x
    ensures y + align <= x
  {
    DivMod(x, align);
    DivMod(y, align);
    MulCancelStrict(align, y / align, x / align);
    MulMono(align, y / align + 1, x / align);
  }

  lemma AlignUpMono(a: nat, b: nat, align: nat)
    requires a <= b && align > 0
    ensures AlignUp(a, align) <= AlignUp(b, align)
  {
    var x, y := AlignUp(a, align), AlignUp(b, align);
    if y < x {
      MultipleGap(x, y, align);
    }
  }

  /** Room for a section of this size, or none: the start must be an address and the end within the limit. */
  predicate Fits(cursor: nat, size: nat, align: nat, limit: nat)
    requires align > 0
  {
    AlignUp(cursor, align) < WORD_LIMIT && AlignUp(cursor, align) + size <= limit
  }

  predicate Aligned(ss: seq<Section>) {
    forall i :: 0 <= i < |ss| ==> ss[i].align > 0
  }

  /** The cursor after the first n sections. */
  function Placed(ss: seq<Section>, n: nat, base: nat, limit: nat): (c: Cursor)
    requires n <= |ss| && Aligned(ss)
    ensures c.At? ==> base <= c.at
  {
    if n == 0 then At(base)
    else
      var before := Placed(ss, n - 1, base, limit);
      if before.Full? || !Fits(before.at, |ss[n - 1].bytes|, ss[n - 1].align, limit) then Full
      else At(AlignUp(before.at, ss[n - 1].align) + |ss[n - 1].bytes|)
  }

  /** The address of section i. */
  function Address(ss: seq<Section>, i: nat, base: nat, limit: nat): (a: nat)
    requires i < |ss| && Aligned(ss) && Placed(ss, i, base, limit).At?
    ensures base <= a
  {
    AlignUp(Placed(ss, i, base, limit).at, ss[i].align)
  }

  lemma {:induction false} PlacedBefore(ss: seq<Section>, i: nat, n: nat, base: nat, limit: nat)
    requires i <= n <= |ss| && Aligned(ss) && Placed(ss, n, base, limit).At?
    ensures Placed(ss, i, base, limit).At? && Placed(ss, i, base, limit).at <= Placed(ss, n, base, limit).at
  {
    if i < n {
      PlacedBefore(ss, i, n - 1, base, limit);
    }
  }

  /** An aligned place for a section that starts at an address and ends in front of `next`. */
  predicate InPlace(start: nat, s: Section, next: nat, base: nat, limit: nat)
    requires s.align > 0
  {
    base <= start < WORD_LIMIT && start % s.align == 0 && start + |s.bytes| <= next && start + |s.bytes| <= limit
  }

  /** Sections follow one another without overlap, aligned, inside the address range. */
  lemma Disjoint(ss: seq<Section>, i: nat, j: nat, base: nat, limit: nat)
    requires i < |ss| && i < j <= |ss| && Aligned(ss) && Placed(ss, |ss|, base, limit).At?
    ensures Placed(ss, i, base, limit).At? && Placed(ss, j, base, limit).At?
    ensures InPlace(Address(ss, i, base, limit), ss[i], Placed(ss, j, base, limit).at, base, limit)
    ensures j < |ss| ==> InPlace(Address(ss, i, base, limit), ss[i], Address(ss, j, base, limit), base, limit)
  {
    hide Placed, AlignUp;
    PlacedBefore(ss, i + 1, |ss|, base, limit);
    PlacedBefore(ss, j, |ss|, base, limit);
    PlacedBefore(ss, i + 1, j, base, limit);
    PlacedStep(ss, i, base, limit);
  }

  lemma PlacedStep(ss: seq<Section>, i: nat, base: nat, limit: nat)
    requires i < |ss| && Aligned(ss) && Placed(ss, i + 1, base, limit).At?
    ensures Placed(ss, i, base, limit).At? && Fits(Placed(ss, i, base, limit).at, |ss[i].bytes|, ss[i].align, limit)
    ensures Address(ss, i, base, limit) + |ss[i].bytes| == Placed(ss, i + 1, base, limit).at
    ensures InPlace(Address(ss, i, base, limit), ss[i], Placed(ss, i + 1, base, limit).at, base, limit)
  {
    hide AlignUp;
  }

  // ---------------------------------------------------------------- leaving sections out

  /** The sections whose name is kept. */
  function Kept(ss: seq<Section>, live: set<Name>): seq<Section> {
    if ss == [] then []
    else Kept(ss[..|ss| - 1], live) + if ss[|ss| - 1].name in live then [ss[|ss| - 1]] else []
  }

  lemma {:induction false} KeptMembers(ss: seq<Section>, live: set<Name>)
    ensures forall s :: s in Kept(ss, live) <==> s in ss && s.name in live
  {
    if ss != [] {
      KeptMembers(ss[..|ss| - 1], live);
      assert ss == ss[..|ss| - 1] + [ss[|ss| - 1]];
    }
  }

  lemma {:induction false} KeptUnique(ss: seq<Section>, live: set<Name>)
    requires Unique(ss)
    ensures Unique(Kept(ss, live))
  {
    if ss != [] {
      var front := ss[..|ss| - 1];
      KeptUnique(front, live);
      KeptMembers(front, live);
    }
  }

  /** How many of the first i sections are kept. */
  function KeptBefore(ss: seq<Section>, i: nat, live: set<Name>): nat
    requires i <= |ss|
  {
    |Kept(ss[..i], live)|
  }

  lemma KeptStep(ss: seq<Section>, i: nat, live: set<Name>)
    requires i < |ss|
    ensures Kept(ss[..i + 1], live) == Kept(ss[..i], live) + if ss[i].name in live then [ss[i]] else []
  {
    assert ss[..i + 1][..i] == ss[..i];
  }

  lemma {:induction false} KeptPrefix(ss: seq<Section>, i: nat, live: set<Name>)
    requires i <= |ss|
    ensures Kept(ss[..i], live) <= Kept(ss, live)
    decreases |ss| - i
  {
    if i < |ss| {
      KeptStep(ss, i, live);
      KeptPrefix(ss, i + 1, live);
    } else {
      assert ss[..i] == ss;
    }
  }

  /** What is kept is never placed higher. */
  lemma {:induction false} KeptLower(ss: seq<Section>, i: nat, live: set<Name>, base: nat, limit: nat)
    requires i <= |ss| && Aligned(ss) && Placed(ss, |ss|, base, limit).At?
    ensures Aligned(Kept(ss, live)) && KeptBefore(ss, i, live) <= |Kept(ss, live)|
    ensures Placed(ss, i, base, limit).At?
    ensures var c := Placed(Kept(ss, live), KeptBefore(ss, i, live), base, limit);
      c.At? && c.at <= Placed(ss, i, base, limit).at
    ensures i < |ss| && ss[i].name in live ==>
      && KeptBefore(ss, i, live) < |Kept(ss, live)| && Kept(ss, live)[KeptBefore(ss, i, live)] == ss[i]
      && Address(Kept(ss, live), KeptBefore(ss, i, live), base, limit) <= Address(ss, i, base, limit)
  {
    hide AlignUp, Kept;
    var ks, k := Kept(ss, live), KeptBefore(ss, i, live);
    KeptMembers(ss, live);
    KeptAligned(ss, live);
    KeptPrefix(ss, i, live);
    PlacedBefore(ss, i, |ss|, base, limit);
    if i > 0 {
      KeptLower(ss, i - 1, live, base, limit);
      KeptStep(ss, i - 1, live);
      if ss[i - 1].name in live {
        AlignUpMono(Placed(ks, k - 1, base, limit).at, Placed(ss, i - 1, base, limit).at, ss[i - 1].align);
      }
    } else {
      assert ss[..0] == [];
      NothingKept(live);
    }
    if i < |ss| && ss[i].name in live {
      KeptStep(ss, i, live);
      KeptPrefix(ss, i + 1, live);
      AlignUpMono(Placed(ks, k, base, limit).at, Placed(ss, i, base, limit).at, ss[i].align);
    }
  }

  lemma NothingKept(live: set<Name>)
    ensures Kept([], live) == []
  {
  }

  lemma KeptAligned(ss: seq<Section>, live: set<Name>)
    requires Aligned(ss)
    ensures Aligned(Kept(ss, live))
  {
    KeptMembers(ss, live);
    forall k | 0 <= k < |Kept(ss, live)|
      ensures Kept(ss, live)[k].align > 0
    {
      assert Kept(ss, live)[k] in Kept(ss, live);
    }
  }
}
