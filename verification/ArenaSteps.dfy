/** What walking, carving and merging in the arena keep. */
module ArenaSteps {
  import opened ArenaTiles
  import opened ArenaMemory
  import opened Bytes

  /** The tiles cover the used part of the memory, header after header. */
  ghost predicate Laid(m: seq<Byte>, shift: nat, ts: seq<Tile>, used: nat) {
    Total(ts) == used && shift + used <= |m| && Chain(m, shift, ts)
  }

  /** The checks on a header with `left` bytes up to the end of the used part. */
  ghost predicate Plausible(m: seq<Byte>, at: nat, left: nat)
    requires at + 8 <= |m|
  {
    var size, span := Word(m, at), Word(m, at + 4);
    span >= 16 && span % 8 == 0 && span <= left && size <= span - 8
  }

  lemma WordFrame(m: seq<Byte>, m': seq<Byte>, at: nat, lo: nat, hi: nat)
    requires SameOutside(m, m', lo, hi) && at + 4 <= |m| && (at + 4 <= lo || hi <= at)
    ensures Word(m', at) == Word(m, at)
  {
  }

  lemma HeaderFrame(m: seq<Byte>, m': seq<Byte>, at: nat, t: Tile, lo: nat, hi: nat)
    requires SameOutside(m, m', lo, hi) && HeaderIs(m, at, t) && (at + 8 <= lo || hi <= at)
    ensures HeaderIs(m', at, t)
  {
    hide Word;
    WordFrame(m, m', at, lo, hi);
    WordFrame(m, m', at + 4, lo, hi);
  }

  lemma PayloadsSame(m: seq<Byte>, shift: nat, ts: seq<Tile>, used: nat)
    requires Tiled(ts) && Laid(m, shift, ts, used)
    ensures SamePayloads(m, m, shift, Lives(ts, 0))
  {
    TiledSized(ts);
    forall b | b in Lives(ts, 0)
      ensures b.span >= 8 && shift + b.at + b.span <= |m|
    {
      LivesBounds(ts, 0, b);
    }
  }

  /** At the boundary between done and rest the next header is a good one. */
  lemma WalkAhead(m: seq<Byte>, shift: nat, done: seq<Tile>, rest: seq<Tile>, used: nat)
    requires Laid(m, shift, done + rest, used) && AllSized(done + rest)
    ensures rest == [] <==> Total(done) == used
    ensures Total(done) <= used
    ensures rest != [] ==> var t, at := rest[0], shift + Total(done);
      && Sized(t) && Total(done) + t.span <= used && t.span < WORD_LIMIT
      && HeaderIs(m, at, t) && Plausible(m, at, used - Total(done))
  {
    hide Word, AllSized, Total;
    TotalConcat(done, rest);
    ChainConcat(m, shift, done, rest);
    AllSizedConcat(done, rest);
    PositiveTotal(rest);
    if rest != [] {
      HeadSized(rest);
      Cons(rest[0], rest[1..]);
    } else {
      NoTotal();
    }
  }

  // ---------------------------------------------------------------- searching

  /** No hole among the tiles passed fits, so the search may go on in the rest. */
  ghost predicate Searched(ts: seq<Tile>, done: seq<Tile>, rest: seq<Tile>, size: nat) {
    && ts == done + rest && AllSized(ts)
    && Put(ts, size) == done + Put(rest, size)
    && PutLive(ts, size, 0) == PutLive(rest, size, Total(done))
    && (AnyFits(ts, SpanFor(size)) <==> AnyFits(rest, SpanFor(size)))
  }

  lemma SpanIs(size: nat, span: nat)
    requires span == (size + 15) / 8 * 8 && size <= MAX_SIZE
    ensures span == SpanFor(size) && span < WORD_LIMIT && span % 8 == 0 && size <= span - 8
  {
  }

  lemma NoTotal()
    ensures Total([]) == 0
  {
  }

  lemma PositiveTotal(ts: seq<Tile>)
    requires AllSized(ts)
    ensures ts == [] || Total(ts) >= 16
  {
    if ts != [] {
      HeadSized(ts);
    }
  }

  lemma SearchStart(ts: seq<Tile>, size: nat)
    requires Tiled(ts)
    ensures Searched(ts, [], ts, size) && Total([]) == 0
  {
    TiledSized(ts);
  }

  lemma SearchTurn(ts: seq<Tile>, done: seq<Tile>, rest: seq<Tile>, size: nat)
    requires Searched(ts, done, rest, size) && rest != [] && !Fits(rest[0], SpanFor(size))
    ensures Searched(ts, done + [rest[0]], rest[1..], size)
    ensures Total(done + [rest[0]]) == Total(done) + rest[0].span
  {
    hide SpanFor, AnyFits, AllSized, Total, Fits;
    TotalConcat(done, [rest[0]]);
    OneTile(rest[0]);
    AnyFitsRest(rest, SpanFor(size));
    PutPast(rest, size, Total(done));
    Regroup(done, rest[0], Put(rest[1..], size));
    Regroup(done, rest[0], rest[1..]);
    assert rest == [rest[0]] + rest[1..];
  }

  lemma PutPast(rest: seq<Tile>, size: nat, at: nat)
    requires rest != [] && !Fits(rest[0], SpanFor(size))
    ensures Put(rest, size) == [rest[0]] + Put(rest[1..], size)
    ensures PutLive(rest, size, at) == PutLive(rest[1..], size, at + rest[0].span)
  {
  }

  lemma Regroup(done: seq<Tile>, t: Tile, rest: seq<Tile>)
    ensures done + ([t] + rest) == (done + [t]) + rest == done + [t] + rest
  {
  }

  lemma SearchEnd(m: seq<Byte>, shift: nat, done: seq<Tile>, rest: seq<Tile>, used: nat, ts: seq<Tile>, size: nat)
    requires Searched(ts, done, rest, size) && Laid(m, shift, ts, used) && Total(done) >= used
    ensures rest == [] && done == ts && !AnyFits(ts, SpanFor(size))
  {
    hide Chain, SpanFor, AllSized;
    TotalConcat(done, rest);
    AllSizedConcat(done, rest);
    PositiveTotal(rest);
    NothingFits(SpanFor(size));
    assert done + [] == done;
  }

  /** A block added at the end. */
  lemma Extended(m: seq<Byte>, m': seq<Byte>, shift: nat, ts: seq<Tile>, used: nat, size: nat)
    requires Tiled(ts) && Laid(m, shift, ts, used) && size > 0 && Searched(ts, ts, [], size)
    requires shift + used + SpanFor(size) <= |m| == |m'|
    requires HeaderIs(m', shift + used, Tile(size, SpanFor(size)))
    requires SameOutside(m, m', shift + used, shift + used + 8)
    ensures ts + [Tile(size, SpanFor(size))] == Put(ts, size)
    ensures Tiled(Put(ts, size)) && Laid(m', shift, Put(ts, size), used + SpanFor(size))
    ensures Lives(Put(ts, size), 0) == Lives(ts, 0) + {PutLive(ts, size, 0)} && PutLive(ts, size, 0).at == used
    ensures SamePayloads(m, m', shift, Lives(ts, 0))
  {
    hide SpanFor, Lives, HeaderIs, SameOutside, SamePayloads, AnyFits;
    var t := Tile(size, SpanFor(size));
    NothingFits(SpanFor(size));
    TiledSized(ts);
    PutTiled(ts, size);
    PutLives(ts, size, 0);
    ChainFrame(m, m', shift, ts, shift + used, shift + used + 8);
    ChainConcat(m', shift, ts, [t]);
    ChainOne(m', shift + used, t);
    PayloadsBeside(m, m', shift, ts, 0, shift + used, shift + used + 8);
  }

  lemma ChainOne(m: seq<Byte>, at: nat, t: Tile)
    ensures Chain(m, at, [t]) <==> HeaderIs(m, at, t)
  {
    assert [t][1..] == [];
  }

  // ---------------------------------------------------------------- carving

  lemma CarvedTwo(m0: seq<Byte>, m1: seq<Byte>, m: seq<Byte>, at: nat, t: Tile, size: nat, span: nat)
    requires span >= 16 && t.span >= span + 16
    requires HeaderIs(m1, at + span, Tile(0, t.span - span)) && SameOutside(m0, m1, at + span, at + span + 8)
    requires HeaderIs(m, at, Tile(size, span)) && SameOutside(m1, m, at, at + 8)
    ensures Chain(m, at, Carve(t, size, span)) && SameOutside(m0, m, at, at + t.span)
    ensures Total(Carve(t, size, span)) == t.span
  {
    hide HeaderIs;
    HeaderFrame(m1, m, at + span, Tile(0, t.span - span), at, at + 8);
    Cons(Tile(size, span), [Tile(0, t.span - span)]);
    OneTile(Tile(0, t.span - span));
    ChainOne(m, at + span, Tile(0, t.span - span));
  }

  lemma CarvedOne(m0: seq<Byte>, m: seq<Byte>, at: nat, t: Tile, size: nat, span: nat)
    requires t.span >= span && t.span - span < 16 && t.span >= 8
    requires HeaderIs(m, at, Tile(size, t.span)) && SameOutside(m0, m, at, at + 8)
    ensures Chain(m, at, Carve(t, size, span)) && SameOutside(m0, m, at, at + t.span)
    ensures Total(Carve(t, size, span)) == t.span
  {
    hide HeaderIs;
    OneTile(Tile(size, t.span));
    ChainOne(m, at, Tile(size, t.span));
  }

  /** A carved hole is the allocation. */
  lemma Filled(m: seq<Byte>, m': seq<Byte>, shift: nat, ts: seq<Tile>, done: seq<Tile>, rest: seq<Tile>, used: nat, size: nat)
    requires Tiled(ts) && Laid(m, shift, ts, used) && size > 0 && Searched(ts, done, rest, size)
    requires rest != [] && Fits(rest[0], SpanFor(size)) && |m'| == |m|
    requires var at, mid := shift + Total(done), Carve(rest[0], size, SpanFor(size));
      Chain(m', at, mid) && SameOutside(m, m', at, at + rest[0].span) && Total(mid) == rest[0].span
    ensures Tiled(Put(ts, size)) && Laid(m', shift, Put(ts, size), used)
    ensures Lives(Put(ts, size), 0) == Lives(ts, 0) + {PutLive(ts, size, 0)} && PutLive(ts, size, 0).at == Total(done)
    ensures SamePayloads(m, m', shift, Lives(ts, 0))
  {
    hide SpanFor, Lives, SameOutside, SamePayloads, AnyFits, Carve, Chain, AllSized, Tiled, Total;
    var t, more := rest[0], rest[1..];
    var mid := Carve(t, size, SpanFor(size));
    assert rest == [t] + more;
    PutHere(rest, size, Total(done));
    PutTiled(ts, size);
    PutLives(ts, size, 0);
    AnyFitsRest(rest, SpanFor(size));
    Regroup3(done, mid, more);
    PartsSized(done, t, more, ts);
    ChainSplice(m, m', shift, done, t, mid, more);
    HolePayloads(m, m', shift, done, t, more, ts);
  }

  lemma Regroup3(a: seq<Tile>, b: seq<Tile>, c: seq<Tile>)
    ensures a + b + c == a + (b + c)
  {
  }

  /** A change inside a hole. */
  lemma HolePayloads(m: seq<Byte>, m': seq<Byte>, shift: nat, done: seq<Tile>, t: Tile, more: seq<Tile>, ts: seq<Tile>)
    requires AllSized(ts) && ts == done + ([t] + more) && Hole(t) && shift + Total(ts) <= |m|
    requires SameOutside(m, m', shift + Total(done), shift + Total(done) + t.span)
    ensures SamePayloads(m, m', shift, Lives(ts, 0))
  {
    hide Lives, SameOutside, SamePayloads, AllSized, Total, Sized;
    PartsSized(done, t, more, ts);
    PartsTotal(done, t, more, ts);
    PartsLives(done, t, more, ts);
    PayloadsAround(m, m', shift, done, t, more, shift + Total(done) + t.span);
    HoleLives(done, t);
    assert Lives(ts, 0) == Lives(done, 0) + Lives(more, Total(done) + t.span);
  }

  lemma PutHere(rest: seq<Tile>, size: nat, at: nat)
    requires rest != [] && Fits(rest[0], SpanFor(size))
    ensures Put(rest, size) == Carve(rest[0], size, SpanFor(size)) + rest[1..]
    ensures PutLive(rest, size, at).at == at
  {
  }

  // ---------------------------------------------------------------- parts of a list of tiles

  lemma PartsSized(done: seq<Tile>, t: Tile, more: seq<Tile>, ts: seq<Tile>)
    requires AllSized(ts) && ts == done + ([t] + more)
    ensures ts == done + [t] + more && AllSized(done) && Sized(t) && AllSized(more)
  {
    hide AllSized, Sized, Total;
    Regroup(done, t, more);
    AllSizedConcat(done, [t] + more);
    HeadSized([t] + more);
    Cons(t, more);
  }

  lemma PartsTotal(done: seq<Tile>, t: Tile, more: seq<Tile>, ts: seq<Tile>)
    requires ts == done + ([t] + more)
    ensures Total(ts) == Total(done) + t.span + Total(more)
  {
    hide Total;
    Cons(t, more);
    TotalConcat(done, [t] + more);
  }

  lemma UnionAssociates(a: set<Live>, b: set<Live>, c: set<Live>)
    ensures a + (b + c) == a + b + c
  {
  }

  lemma ConsLives(t: Tile, more: seq<Tile>, at: nat)
    ensures Lives([t] + more, at) == Lives([t], at) + Lives(more, at + t.span)
  {
    hide *;
    OneTile(t);
    LivesConcat([t], more, at);
  }

  lemma PartsLives(done: seq<Tile>, t: Tile, more: seq<Tile>, ts: seq<Tile>)
    requires ts == done + ([t] + more)
    ensures Lives(ts, 0) == Lives(done, 0) + Lives([t], Total(done)) + Lives(more, Total(done) + t.span)
  {
    hide *;
    LivesConcat(done, [t] + more, 0);
    assert 0 + Total(done) == Total(done);
    ConsLives(t, more, Total(done));
    UnionAssociates(Lives(done, 0), Lives([t], Total(done)), Lives(more, Total(done) + t.span));
  }

  lemma HoleLives(done: seq<Tile>, t: Tile)
    requires Hole(t)
    ensures Lives([t], Total(done)) == {}
  {
    assert [t][1..] == [];
  }

  // ---------------------------------------------------------------- finding a block

  /** The block looked for is not among the tiles passed. */
  ghost predicate Sought(ts: seq<Tile>, done: seq<Tile>, rest: seq<Tile>, target: int) {
    && ts == done + rest && AllSized(ts)
    && At(ts, target, 0) == At(rest, target - Total(done), Total(done))
  }

  lemma SoughtStart(ts: seq<Tile>, target: int)
    requires Tiled(ts)
    ensures Sought(ts, [], ts, target) && Total([]) == 0
  {
    TiledSized(ts);
  }

  lemma SoughtTurn(ts: seq<Tile>, done: seq<Tile>, rest: seq<Tile>, target: int)
    requires Sought(ts, done, rest, target) && rest != [] && target != Total(done)
    ensures Sought(ts, done + [rest[0]], rest[1..], target)
    ensures Total(done + [rest[0]]) == Total(done) + rest[0].span
  {
    hide AllSized, Total;
    TotalConcat(done, [rest[0]]);
    OneTile(rest[0]);
    Regroup(done, rest[0], rest[1..]);
    assert rest == [rest[0]] + rest[1..];
    AtPast(rest, target - Total(done), Total(done));
  }

  lemma AtPast(rest: seq<Tile>, offset: int, at: nat)
    requires rest != [] && offset != 0
    ensures At(rest, offset, at) == At(rest[1..], offset - rest[0].span, at + rest[0].span)
  {
  }

  lemma AtHere(rest: seq<Tile>, at: nat)
    requires rest != []
    ensures At(rest, 0, at) == if Hole(rest[0]) then {} else {Live(at, rest[0].size, rest[0].span)}
  {
  }

  lemma SoughtEnd(m: seq<Byte>, shift: nat, done: seq<Tile>, rest: seq<Tile>, used: nat, ts: seq<Tile>, target: int)
    requires Sought(ts, done, rest, target) && Laid(m, shift, ts, used) && Total(done) >= used
    ensures At(ts, target, 0) == {}
  {
    hide Chain, AllSized;
    TotalConcat(done, rest);
    AllSizedConcat(done, rest);
    PositiveTotal(rest);
  }

  lemma {:induction false} MarkSplit(done: seq<Tile>, t: Tile, more: seq<Tile>, target: int, size: nat)
    requires AllSized(done) && Total(done) == target
    ensures Mark(done + ([t] + more), target, size) == done + ([t.(size := size)] + more)
  {
    if done == [] {
      assert done + ([t] + more) == [t] + more;
      assert ([t] + more)[1..] == more;
    } else {
      HeadSized(done);
      assert (done + ([t] + more))[1..] == done[1..] + ([t] + more);
      MarkSplit(done[1..], t, more, target - done[0].span, size);
    }
  }

  /** The size in one header replaced: the block is resized, or given back. */
  lemma Remarked(m: seq<Byte>, m': seq<Byte>, shift: nat, ts: seq<Tile>, done: seq<Tile>, rest: seq<Tile>, used: nat, size: nat)
    requires AllSized(ts) && Laid(m, shift, ts, used) && ts == done + rest && rest != [] && size < WORD_LIMIT
    requires |m'| == |m| && shift + Total(done) + 8 <= |m| && Word(m', shift + Total(done)) == size
    requires SameOutside(m, m', shift + Total(done), shift + Total(done) + 4)
    ensures Laid(m', shift, Mark(ts, Total(done), size), used)
    ensures Mark(ts, Total(done), size) == done + ([rest[0].(size := size)] + rest[1..])
    ensures SamePayloads(m, m', shift, Lives(ts, 0))
  {
    hide Lives, SamePayloads, Chain, AllSized, Word, Total, Mark;
    var t, more, at := rest[0], rest[1..], shift + Total(done);
    assert rest == [t] + more;
    PartsSized(done, t, more, ts);
    PartsTotal(done, t, more, ts);
    PartsLives(done, t, more, ts);
    MarkSplit(done, t, more, Total(done), size);
    HeaderAt(m, shift, done, t, more);
    WordFrame(m, m', at + 4, at, at + 4);
    Narrower(m, m', at, at + 4, at + t.span);
    ChainOne(m', at, t.(size := size));
    OneTile(t.(size := size));
    ChainSplice(m, m', shift, done, t, [t.(size := size)], more);
    Regroup(done, t.(size := size), more);
    PayloadsAround(m, m', shift, done, t, more, at + 4);
    SamePayloadsUnion(m, m', shift, Lives(done, 0) + Lives(more, Total(done) + t.span), Lives([t], Total(done)));
    assert Lives(ts, 0) == (Lives(done, 0) + Lives(more, Total(done) + t.span)) + Lives([t], Total(done));
    PartsTotal(done, t.(size := size), more, Mark(ts, Total(done), size));
  }

  lemma HeaderAt(m: seq<Byte>, shift: nat, done: seq<Tile>, t: Tile, more: seq<Tile>)
    requires Chain(m, shift, done + ([t] + more))
    ensures HeaderIs(m, shift + Total(done), t)
  {
    ChainConcat(m, shift, done, [t] + more);
  }

  lemma Narrower(m: seq<Byte>, m': seq<Byte>, lo: nat, hi: nat, wide: nat)
    requires SameOutside(m, m', lo, hi) && hi <= wide
    ensures SameOutside(m, m', lo, wide)
  {
  }

  // ---------------------------------------------------------------- merging

  /** Tiles passed are final; what is to come still has to be merged. */
  ghost predicate Merging(marked: seq<Tile>, done: seq<Tile>, rest: seq<Tile>) {
    && AllSized(done + rest) && Normal(marked) == done + Normal(rest)
    && Lives(done + rest, 0) == Lives(marked, 0)
  }

  lemma MergingStart(marked: seq<Tile>)
    requires AllSized(marked)
    ensures Merging(marked, [], marked) && Total([]) == 0
  {
    assert [] + marked == marked;
    assert [] + Normal(marked) == Normal(marked);
  }

  /** Past a tile in use, or a hole in front of one. */
  lemma MergingTurn(marked: seq<Tile>, done: seq<Tile>, rest: seq<Tile>)
    requires Merging(marked, done, rest) && rest != []
    requires !Hole(rest[0]) || (|rest| > 1 && !Hole(rest[1]))
    ensures Merging(marked, done + [rest[0]], rest[1..])
    ensures Total(done + [rest[0]]) == Total(done) + rest[0].span
    ensures done + [rest[0]] + rest[1..] == done + rest
  {
    hide AllSized, Total, Lives;
    TotalConcat(done, [rest[0]]);
    OneTile(rest[0]);
    assert rest == [rest[0]] + rest[1..];
    Regroup(done, rest[0], rest[1..]);
    Regroup(done, rest[0], Normal(rest[1..]));
  }

  /** Two holes that touch become one. */
  lemma MergingHoles(m: seq<Byte>, m': seq<Byte>, shift: nat, marked: seq<Tile>, done: seq<Tile>, rest: seq<Tile>, used: nat)
    requires Merging(marked, done, rest) && Laid(m, shift, done + rest, used)
    requires |rest| > 1 && Hole(rest[0]) && Hole(rest[1])
    requires shift + Total(done) + 8 <= |m| == |m'|
    requires Word(m', shift + Total(done) + 4) == rest[0].span + rest[1].span
    requires SameOutside(m, m', shift + Total(done) + 4, shift + Total(done) + 8)
    ensures var merged := [Tile(0, rest[0].span + rest[1].span)] + rest[2..];
      Merging(marked, done, merged) && Laid(m', shift, done + merged, used)
    ensures SamePayloads(m, m', shift, Lives(marked, 0))
  {
    hide Lives, SamePayloads, Chain, AllSized, Word, Total, Normal;
    var a, b, more, at := rest[0], rest[1], rest[2..], shift + Total(done);
    var t := Tile(0, a.span + b.span);
    var ts, ts' := done + rest, done + ([t] + more);
    assert rest == [a] + ([b] + more);
    PartsSized(done, a, [b] + more, ts);
    HeadSized([b] + more);
    Cons(b, more);
    TwoSized(done, a, b, more);
    PartsTotal(done, a, [b] + more, ts);
    PartsTotal(done, t, more, ts');
    PartsLives(done, a, [b] + more, ts);
    PartsLives(done, t, more, ts');
    HoleLives(done, a);
    HoleLives(done, t);
    HoleInFront(b, more, Total(done) + a.span);
    NormalMerges(rest);
    HeaderAt(m, shift, done, a, [b] + more);
    WordFrame(m, m', at, at + 4, at + 8);
    ChainOne(m', at, t);
    OneTile(t);
    MergedChain(m, m', shift, done, a, b, more);
    HeaderPayloads(m, m', shift, done, a, [b] + more, ts);
  }

  lemma HoleInFront(b: Tile, more: seq<Tile>, at: nat)
    requires Hole(b)
    ensures Lives([b] + more, at) == Lives(more, at + b.span)
  {
    Cons(b, more);
  }

  lemma NormalMerges(rest: seq<Tile>)
    requires |rest| > 1 && Hole(rest[0]) && Hole(rest[1])
    ensures Normal(rest) == Normal([Tile(0, rest[0].span + rest[1].span)] + rest[2..])
  {
  }

  lemma TwoSized(done: seq<Tile>, a: Tile, b: Tile, more: seq<Tile>)
    requires AllSized(done) && Sized(a) && Sized(b) && AllSized(more)
    ensures Sized(Tile(0, a.span + b.span)) && AllSized(done + ([Tile(0, a.span + b.span)] + more))
  {
    AllSizedConcat([Tile(0, a.span + b.span)], more);
    AllSizedConcat(done, [Tile(0, a.span + b.span)] + more);
  }

  /** The headers after a hole has swallowed the next one. */
  lemma MergedChain(m: seq<Byte>, m': seq<Byte>, shift: nat, done: seq<Tile>, a: Tile, b: Tile, more: seq<Tile>)
    requires AllSized(done) && Sized(a) && Sized(b) && AllSized(more) && Chain(m, shift, done + ([a] + ([b] + more)))
    requires HeaderIs(m', shift + Total(done), Tile(0, a.span + b.span))
    requires SameOutside(m, m', shift + Total(done) + 4, shift + Total(done) + 8)
    ensures Chain(m', shift, done + ([Tile(0, a.span + b.span)] + more))
  {
    hide AllSized, HeaderIs, SameOutside, Total;
    var at, t := shift + Total(done), Tile(0, a.span + b.span);
    ChainConcat(m, shift, done, [a] + ([b] + more));
    Cons(a, [b] + more);
    Cons(b, more);
    Cons(t, more);
    ChainFrame(m, m', shift, done, at + 4, at + 8);
    ChainFrame(m, m', at + a.span + b.span, more, at + 4, at + 8);
    ChainConcat(m', shift, done, [t] + more);
  }

  /** A change in one header leaves every block's bytes alone. */
  lemma HeaderPayloads(m: seq<Byte>, m': seq<Byte>, shift: nat, done: seq<Tile>, t: Tile, more: seq<Tile>, ts: seq<Tile>)
    requires AllSized(ts) && ts == done + ([t] + more) && shift + Total(ts) <= |m|
    requires SameOutside(m, m', shift + Total(done) + 4, shift + Total(done) + 8)
    ensures SamePayloads(m, m', shift, Lives(ts, 0))
  {
    hide Lives, SamePayloads, AllSized, Total, Sized;
    PartsSized(done, t, more, ts);
    PartsTotal(done, t, more, ts);
    PartsLives(done, t, more, ts);
    assert SameOutside(m, m', shift + Total(done), shift + Total(done) + 8);
    HeadRoom(t);
    PayloadsAround(m, m', shift, done, t, more, shift + Total(done) + 8);
    SamePayloadsUnion(m, m', shift, Lives(done, 0) + Lives(more, Total(done) + t.span), Lives([t], Total(done)));
    assert Lives(ts, 0) == (Lives(done, 0) + Lives(more, Total(done) + t.span)) + Lives([t], Total(done));
  }

  lemma HeadRoom(t: Tile)
    requires Sized(t)
    ensures t.span >= 16
  {
  }

  /** A hole at the end is cut off. */
  lemma MergingCut(m: seq<Byte>, shift: nat, marked: seq<Tile>, done: seq<Tile>, rest: seq<Tile>, used: nat)
    requires Merging(marked, done, rest) && Laid(m, shift, done + rest, used) && |rest| == 1 && Hole(rest[0])
    ensures Normal(marked) == done && Laid(m, shift, done, Total(done)) && Total(done) <= used
  {
    TotalConcat(done, rest);
    ChainConcat(m, shift, done, rest);
    assert done + [] == done;
  }

  lemma MergingEnd(m: seq<Byte>, shift: nat, marked: seq<Tile>, done: seq<Tile>, rest: seq<Tile>, used: nat)
    requires Merging(marked, done, rest) && Laid(m, shift, done + rest, used) && Total(done) >= used
    ensures rest == [] && Normal(marked) == done + rest == done
  {
    hide AllSized, Chain;
    TotalConcat(done, rest);
    AllSizedConcat(done, rest);
    PositiveTotal(rest);
    assert done + [] == done;
  }

  /** What is left of the arena when a block was given back. */
  lemma FreedLaid(ts: seq<Tile>, target: int, left: seq<Tile>)
    requires Tiled(ts) && At(ts, target, 0) != {} && left == Normal(Mark(ts, target, 0))
    ensures left == Freed(ts, target) && Tiled(left)
    ensures Lives(left, 0) == set b | b in Lives(ts, 0) && b.at != target
  {
    FreedTiled(ts, target);
  }

  lemma MarkedFits(ts: seq<Tile>, target: int, lives: set<Live>)
    requires Tiled(ts) && At(ts, target, 0) != {} && lives == Lives(ts, 0)
    ensures AllSized(Mark(ts, target, 0)) && Lives(Mark(ts, target, 0), 0) <= lives
  {
    TiledSized(ts);
    MarkSized(ts, target);
    MarkLives(ts, target, 0, 0);
  }

  lemma SamePayloadsPart(m: seq<Byte>, m': seq<Byte>, base: nat, bs: set<Live>, part: set<Live>)
    requires SamePayloads(m, m', base, bs) && part <= bs
    ensures SamePayloads(m, m', base, part)
  {
  }

  /** Bytes kept in one stretch of steps and then in the next. */
  lemma SamePayloadsChain(m: seq<Byte>, m': seq<Byte>, m'': seq<Byte>, base: nat, bs: set<Live>)
    requires SamePayloads(m, m', base, bs) && SamePayloads(m', m'', base, bs)
    ensures SamePayloads(m, m'', base, bs)
  {
  }

  // ---------------------------------------------------------------- glue for the loops

  /** A pointer in front of all blocks belongs to none. */
  lemma NotFreed(ts: seq<Tile>, base: nat, p: nat)
    requires Tiled(ts)
    ensures At(ts, p - base - 8, 0) == {} ==>
      Freed(ts, p - base - 8) == ts && Lives(ts, 0) == set b | b in Lives(ts, 0) && base + b.at + 8 != p
  {
    hide Lives, Normal, Mark;
    TiledSized(ts);
    AtLives(ts, p - base - 8, 0);
    if At(ts, p - base - 8, 0) == {} {
      assert forall b :: b in Lives(ts, 0) && b.at == p - base - 8 ==> b in At(ts, p - base - 8, 0);
    }
  }

  /** The tile at the offset looked for. */
  lemma Matched(ts: seq<Tile>, done: seq<Tile>, rest: seq<Tile>, target: int, before: seq<Tile>, here: seq<Tile>, found: nat)
    requires ts == done + rest && rest != [] && AllSized(ts) && Total(done) == target
    requires found == 0 ==> Sought(ts, done, rest, target)
    requires found != 0 ==> here != [] && ts == before + here && Total(before) == target && At(ts, target, 0) != {}
    requires found != 0 ==> !Hole(here[0])
    ensures Hole(rest[0]) ==> At(ts, target, 0) == {}
    ensures !Hole(rest[0]) ==> At(ts, target, 0) != {}
  {
    hide AllSized;
    if found == 0 {
      AtHere(rest, Total(done));
    } else {
      SameSplit(ts, done, rest, before, here);
    }
  }

  /** A list is split at a total in one way only. */
  lemma SameSplit(ts: seq<Tile>, a: seq<Tile>, b: seq<Tile>, c: seq<Tile>, d: seq<Tile>)
    requires AllSized(ts) && ts == a + b == c + d && Total(a) == Total(c)
    ensures a == c && b == d
  {
    AllSizedConcat(a, b);
    AllSizedConcat(c, d);
    assert a == ts[..|a|] && c == ts[..|c|];
    if |a| <= |c| {
      assert c == a + c[|a|..];
      TotalConcat(a, c[|a|..]);
      AllSizedConcat(a, c[|a|..]);
      PositiveTotal(c[|a|..]);
    } else {
      assert a == c + a[|c|..];
      TotalConcat(c, a[|c|..]);
      AllSizedConcat(c, a[|c|..]);
      PositiveTotal(a[|c|..]);
    }
    assert b == ts[|a|..] && d == ts[|c|..];
  }

  lemma WalkTurn(ts: seq<Tile>, done: seq<Tile>, rest: seq<Tile>, target: int, found: nat)
    requires ts == done + rest && rest != [] && AllSized(ts)
    requires found == 0 ==> Sought(ts, done, rest, target) && target != Total(done)
    ensures ts == (done + [rest[0]]) + rest[1..] && Total(done + [rest[0]]) == Total(done) + rest[0].span
    ensures found == 0 ==> Sought(ts, done + [rest[0]], rest[1..], target)
  {
    hide AllSized, Total, Sought;
    assert rest == [rest[0]] + rest[1..];
    Regroup(done, rest[0], rest[1..]);
    TotalConcat(done, [rest[0]]);
    OneTile(rest[0]);
    if found == 0 {
      SoughtTurn(ts, done, rest, target);
    }
  }

  lemma MergingSized(marked: seq<Tile>, done: seq<Tile>, rest: seq<Tile>)
    requires Merging(marked, done, rest)
    ensures AllSized(done + rest)
  {
  }

  lemma MergingSame(m: seq<Byte>, shift: nat, marked: seq<Tile>, done: seq<Tile>, rest: seq<Tile>, used: nat)
    requires Merging(marked, done, rest) && Laid(m, shift, done + rest, used)
    ensures SamePayloads(m, m, shift, Lives(marked, 0))
  {
    hide Lives, Normal, Chain, Total;
    var ts := done + rest;
    forall b | b in Lives(ts, 0)
      ensures b.span >= 8 && shift + b.at + b.span <= |m|
    {
      LivesBounds(ts, 0, b);
    }
  }

  /** The hole at hand, and the tile after it. */
  lemma MergingNext(m: seq<Byte>, shift: nat, marked: seq<Tile>, done: seq<Tile>, rest: seq<Tile>, used: nat)
    requires Merging(marked, done, rest) && Laid(m, shift, done + rest, used) && rest != []
    ensures Total(done) + rest[0].span <= used && Total(done) + 16 <= used
    ensures |rest| == 1 <==> Total(done) + rest[0].span == used
    ensures |rest| > 1 ==> var at := Total(done) + rest[0].span;
      at + 16 <= used && HeaderIs(m, shift + at, rest[1]) && at + rest[1].span <= used
  {
    hide Lives, Normal, Word, AllSized, Total;
    AllSizedConcat(done, rest);
    TotalConcat(done, rest);
    ChainConcat(m, shift, done, rest);
    HeadSized(rest);
    Cons(rest[0], rest[1..]);
    PositiveTotal(rest[1..]);
    if |rest| > 1 {
      HeadSized(rest[1..]);
      Cons(rest[1], rest[1..][1..]);
    } else {
      NoTotal();
    }
  }

  lemma FinishedPart(ts: seq<Tile>, marked: seq<Tile>, target: int, left: seq<Tile>)
    requires left == Normal(marked)
    ensures Lives(left, 0) == Lives(marked, 0)
  {
    NormalLives(marked, 0);
  }

  // ---------------------------------------------------------------- writing into a block

  /** The tile of a block in use. */
  lemma {:induction false} TileOf(ts: seq<Tile>, at: nat, b: Live) returns (done: seq<Tile>, more: seq<Tile>)
    requires b in Lives(ts, at)
    ensures ts == done + ([Tile(b.size, b.span)] + more) && at + Total(done) == b.at
  {
    if b == Live(at, ts[0].size, ts[0].span) && !Hole(ts[0]) {
      done, more := [], ts[1..];
      assert ts == [ts[0]] + ts[1..];
    } else {
      done, more := TileOf(ts[1..], at + ts[0].span, b);
      assert ts == [ts[0]] + ts[1..];
      assert ts == ([ts[0]] + done) + ([Tile(b.size, b.span)] + more);
      Cons(ts[0], done);
      done := [ts[0]] + done;
    }
  }

  /** A caller writing inside its block disturbs neither headers nor other blocks. */
  lemma PayloadWritten(m: seq<Byte>, m': seq<Byte>, shift: nat, ts: seq<Tile>, used: nat, b: Live, hi: nat)
    requires Tiled(ts) && Laid(m, shift, ts, used) && b in Lives(ts, 0)
    requires SameOutside(m, m', shift + b.at + 8, hi) && hi <= shift + b.at + b.span
    ensures Laid(m', shift, ts, used) && SamePayloads(m, m', shift, Lives(ts, 0) - {b})
  {
    hide Lives, Chain, AllSized, Total, Word;
    TiledSized(ts);
    LivesBounds(ts, 0, b);
    var done, more := TileOf(ts, 0, b);
    var t, at := Tile(b.size, b.span), shift + b.at;
    PartsSized(done, t, more, ts);
    PartsTotal(done, t, more, ts);
    HeaderAt(m, shift, done, t, more);
    HeaderFrame(m, m', at, t, at + 8, hi);
    ChainOne(m', at, t);
    OneTile(t);
    assert SameOutside(m, m', at, at + t.span);
    ChainSplice(m, m', shift, done, t, [t], more);
    forall c | c in Lives(ts, 0) - {b}
      ensures c.span >= 8 && shift + c.at + c.span <= |m| && Payload(m', shift, c) == Payload(m, shift, c)
    {
      LivesBounds(ts, 0, c);
      LivesDisjoint(ts, 0, b, c);
      PayloadUntouched(m, m', shift, c, at + 8, hi);
    }
  }

  /** The one block a pointer stands for. */
  lemma FoundHere(ts: seq<Tile>, done: seq<Tile>, rest: seq<Tile>, target: int)
    requires Sought(ts, done, rest, target) && rest != [] && Total(done) == target
    ensures At(ts, target, 0) == if Hole(rest[0]) then {} else {Live(target, rest[0].size, rest[0].span)}
    ensures At(ts, target, 0) <= Lives(ts, 0)
  {
    hide AllSized, Lives;
    AtHere(rest, Total(done));
    AtLives(ts, target, 0);
  }

  /** A resized block. */
  lemma Resized(ts: seq<Tile>, target: nat, b: Live, size: nat)
    requires Tiled(ts) && At(ts, target, 0) == {b} && 0 < size <= b.span - 8
    ensures Tiled(Mark(ts, target, size))
    ensures Lives(Mark(ts, target, size), 0) == Lives(ts, 0) - {b} + {b.(size := size)}
  {
    hide Lives, Mark, Total;
    TiledSized(ts);
    MarkTiled(ts, target, size, 0);
    MarkLives(ts, target, size, 0);
    assert (set c | c in {b} && size > 0 :: c.(size := size)) == {b.(size := size)};
  }

  /** A new block does not overlap an old one, and is not where one was. */
  lemma PutApart(ts: seq<Tile>, size: nat, b: Live)
    requires Tiled(ts) && size > 0 && b in Lives(ts, 0)
    ensures var c := PutLive(ts, size, 0);
      && b in Lives(Put(ts, size), 0) && c in Lives(Put(ts, size), 0) && c.size == size
      && (b == c || b.at + b.span <= c.at || c.at + c.span <= b.at)
    ensures At(Put(ts, size), b.at, 0) == {b}
  {
    hide Lives, Put;
    PutTiled(ts, size);
    PutLives(ts, size, 0);
    TiledSized(Put(ts, size));
    var c := PutLive(ts, size, 0);
    PutLiveSize(ts, size, 0);
    LivesDisjoint(Put(ts, size), 0, b, c);
    AtLives(Put(ts, size), b.at, 0);
    forall d | d in Lives(Put(ts, size), 0) && d.at == b.at
      ensures d == b
    {
      LivesPlaces(Put(ts, size), 0, b, d);
    }
  }

  lemma {:induction false} PutLiveSize(ts: seq<Tile>, size: nat, at: nat)
    ensures PutLive(ts, size, at).size == size
  {
    if ts != [] && !Fits(ts[0], SpanFor(size)) {
      PutLiveSize(ts[1..], size, at + ts[0].span);
    }
  }

  /** The block a request put was not there before. */
  lemma {:induction false} PutFresh(ts: seq<Tile>, size: nat, at: nat)
    requires AllSized(ts) && at % 8 == 0 && size > 0
    ensures PutLive(ts, size, at) !in Lives(ts, at) && PutLive(ts, size, at).at >= at
    ensures forall b :: b in Lives(ts, at) ==> b.at != PutLive(ts, size, at).at
  {
    hide SpanFor;
    if ts != [] {
      HeadSized(ts);
      var rest, next := ts[1..], at + ts[0].span;
      forall b | b in Lives(rest, next)
        ensures b.at >= next
      {
        LivesBounds(rest, next, b);
      }
      if !Fits(ts[0], SpanFor(size)) {
        PutFresh(rest, size, next);
      }
    }
  }

  /** The first n bytes of a block are now those of another. */
  ghost predicate Kept(m: seq<Byte>, m': seq<Byte>, shift: nat, b: Live, c: Live, n: nat) {
    && shift + b.at + 8 + n <= |m| && shift + c.at + 8 + n <= |m'|
    && m'[shift + c.at + 8..shift + c.at + 8 + n] == m[shift + b.at + 8..shift + b.at + 8 + n]
  }

  lemma SoughtSized(ts: seq<Tile>, done: seq<Tile>, rest: seq<Tile>, target: int)
    requires Sought(ts, done, rest, target)
    ensures AllSized(done + rest)
  {
  }

  lemma NullNamesNothing(ts: seq<Tile>, target: int)
    requires Tiled(ts) && target < 0
    ensures At(ts, target, 0) == {} && Lives(ts, 0) - At(ts, target, 0) == Lives(ts, 0)
  {
    hide Lives;
    TiledSized(ts);
    AtLives(ts, target, 0);
  }

  lemma NoneNamed(ts: seq<Tile>, target: int)
    requires At(ts, target, 0) == {}
    ensures Lives(ts, 0) - At(ts, target, 0) == Lives(ts, 0)
  {
  }

  lemma BlockAt(ts: seq<Tile>, target: int, b: Live)
    requires Tiled(ts) && At(ts, target, 0) == {b}
    ensures b in Lives(ts, 0) && b.at == target
    ensures (set c | c in Lives(ts, 0) && c.at != target) == Lives(ts, 0) - {b}
    ensures forall c :: c in Lives(ts, 0) && c.at == target ==> c == b
  {
    hide Lives;
    TiledSized(ts);
    AtLives(ts, target, 0);
    assert b in At(ts, target, 0);
    assert forall c :: c in Lives(ts, 0) && c.at == target ==> c in At(ts, target, 0);
  }

  lemma BlockFits(m: seq<Byte>, shift: nat, ts: seq<Tile>, used: nat, done: seq<Tile>, rest: seq<Tile>)
    requires Tiled(ts) && Laid(m, shift, ts, used) && ts == done + rest && rest != []
    ensures AllSized(ts) && rest[0].size <= rest[0].span - 8 && 16 <= rest[0].span
    ensures Total(done) + rest[0].span <= used && shift + used <= |m|
  {
    hide Chain;
    TiledSized(ts);
    WalkAhead(m, shift, done, rest, used);
  }

  lemma KeptInPlace(m: seq<Byte>, m': seq<Byte>, shift: nat, b: Live, c: Live, n: nat)
    requires SameOutside(m, m', shift + b.at, shift + b.at + 4) && shift + b.at + 8 + n <= |m| && c.at == b.at
    ensures Kept(m, m', shift, b, c, n)
  {
  }

  lemma PutFreshRoom(ts: seq<Tile>, size: nat, b: Live)
    requires Tiled(ts) && size > 0 && b in Lives(ts, 0)
    ensures PutLive(ts, size, 0) !in Lives(ts, 0) && PutLive(ts, size, 0).at != b.at && PutLive(ts, size, 0) != b
    ensures PutLive(ts, size, 0).size == size
  {
    TiledSized(ts);
    PutFresh(ts, size, 0);
    PutLiveSize(ts, size, 0);
  }

  lemma PutFreshAll(ts: seq<Tile>, size: nat)
    requires Tiled(ts) && size > 0
    ensures PutLive(ts, size, 0) !in Lives(ts, 0)
    ensures PutLive(ts, size, 0) in Lives(Put(ts, size), 0)
    ensures Lives(Put(ts, size), 0) - {PutLive(ts, size, 0)} == Lives(ts, 0)
  {
    TiledSized(ts);
    PutFresh(ts, size, 0);
    PutLives(ts, size, 0);
  }

  lemma InsideMemory(m: seq<Byte>, shift: nat, ts: seq<Tile>, used: nat, b: Live)
    requires Tiled(ts) && Laid(m, shift, ts, used) && b in Lives(ts, 0)
    ensures b.size <= b.span - 8 && shift + b.at + b.span <= |m| && b.at % 8 == 0
  {
    hide Chain, Lives;
    TiledSized(ts);
    LivesBounds(ts, 0, b);
  }

  /** The bytes copied were those at the start, because allocation left the old block alone. */
  lemma KeptCopied(m0: seq<Byte>, m1: seq<Byte>, m2: seq<Byte>, shift: nat, b: Live, c: Live, n: nat, bs: set<Live>)
    requires SamePayloads(m0, m1, shift, bs) && b in bs && n <= b.span - 8 && n <= c.span - 8
    requires |m0| == |m1| == |m2| && shift + b.at + b.span <= |m1| && shift + c.at + c.span <= |m2| && b.span >= 8 && c.span >= 8
    requires m2[shift + c.at + 8..shift + c.at + 8 + n] == m1[shift + b.at + 8..shift + b.at + 8 + n]
    ensures Kept(m0, m2, shift, b, c, n)
  {
    PayloadFront(m0, shift, b, n);
    PayloadFront(m1, shift, b, n);
  }

  lemma PayloadFront(m: seq<Byte>, shift: nat, b: Live, n: nat)
    requires b.span >= 8 && n <= b.span - 8 && shift + b.at + b.span <= |m|
    ensures m[shift + b.at + 8..shift + b.at + 8 + n] == Payload(m, shift, b)[..n]
  {
  }

  lemma KeptStays(m0: seq<Byte>, m1: seq<Byte>, m2: seq<Byte>, shift: nat, b: Live, c: Live, n: nat, bs: set<Live>)
    requires Kept(m0, m1, shift, b, c, n) && SamePayloads(m1, m2, shift, bs) && c in bs && c.span >= 8 && n <= c.span - 8
    ensures Kept(m0, m2, shift, b, c, n)
  {
    PayloadFront(m1, shift, c, n);
    PayloadFront(m2, shift, c, n);
  }

  lemma ProductFits(count: nat, size: nat)
    ensures size != 0 && count > 0xffff_ffff / size <==> count * size >= WORD_LIMIT
  {
    if size != 0 {
      var q := 0xffff_ffff / size;
      assert 0xffff_ffff == q * size + 0xffff_ffff % size;
      if count > q {
        assert count * size >= (q + 1) * size == q * size + size;
      } else {
        assert count * size <= q * size;
      }
    }
  }

  lemma RoomSize(ts: seq<Tile>, left: nat, size: nat)
    requires Room(ts, left, size)
    ensures size > 0
  {
  }
}
