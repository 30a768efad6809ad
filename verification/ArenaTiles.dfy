/** The blocks of the first-fit arena as a list of tiles, and what allocating and freeing do to it.
    A tile of size zero is a hole. */
module ArenaTiles {

  datatype Tile = Tile(size: nat, span: nat)

  const MAX_SIZE: nat := 0xffff_fff0

  predicate Hole(t: Tile) {
    t.size == 0
  }

  predicate Sized(t: Tile) {
    t.span % 8 == 0 && t.span >= 16 && t.size <= t.span - 8
  }

  ghost predicate AllSized(ts: seq<Tile>) {
    forall i :: 0 <= i < |ts| ==> Sized(ts[i])
  }

  /** Spans are multiples of eight with room for a header and the size; no two holes touch and the
      last tile is in use. */
  ghost predicate Tiled(ts: seq<Tile>) {
    ts == [] || (Sized(ts[0]) && Tiled(ts[1..]) && (Hole(ts[0]) ==> |ts| > 1 && !Hole(ts[1])))
  }

  lemma {:induction false} TiledSized(ts: seq<Tile>)
    requires Tiled(ts)
    ensures AllSized(ts)
  {
    if ts != [] {
      TiledSized(ts[1..]);
      assert forall i :: 0 < i < |ts| ==> ts[i] == ts[1..][i - 1];
    }
  }

  /** The same in terms of places in the list. */
  lemma {:induction false} TiledPlaces(ts: seq<Tile>)
    ensures Tiled(ts) <==>
      && AllSized(ts) && (forall i :: 0 < i < |ts| ==> !(Hole(ts[i - 1]) && Hole(ts[i])))
      && (ts != [] ==> !Hole(ts[|ts| - 1]))
  {
    if ts != [] {
      var rest := ts[1..];
      TiledPlaces(rest);
      assert forall i :: 0 < i < |ts| ==> ts[i] == rest[i - 1];
      assert forall i :: 0 <= i < |rest| ==> rest[i] == ts[i + 1];
      if |ts| > 1 {
        assert rest[|rest| - 1] == ts[|ts| - 1];
        if Hole(ts[0]) && Hole(ts[1]) {
          assert Hole(ts[1 - 1]);
        }
      }
    }
  }

  lemma AllSizedConcat(a: seq<Tile>, b: seq<Tile>)
    ensures AllSized(a + b) <==> AllSized(a) && AllSized(b)
  {
    if AllSized(a + b) {
      assert forall i :: 0 <= i < |a| ==> a[i] == (a + b)[i];
      assert forall i :: 0 <= i < |b| ==> b[i] == (a + b)[|a| + i];
    }
  }

  lemma HeadSized(ts: seq<Tile>)
    requires AllSized(ts) && ts != []
    ensures Sized(ts[0]) && AllSized(ts[1..]) && ts == [ts[0]] + ts[1..] && Total(ts) >= 16
  {
    assert Sized(ts[0]);
  }

  function Total(ts: seq<Tile>): nat {
    if ts == [] then 0 else ts[0].span + Total(ts[1..])
  }

  lemma {:induction false} TotalConcat(a: seq<Tile>, b: seq<Tile>)
    ensures Total(a + b) == Total(a) + Total(b)
  {
    if a == [] {
      assert a + b == b;
    } else {
      assert (a + b)[1..] == a[1..] + b;
      TotalConcat(a[1..], b);
    }
  }

  lemma {:induction false} TotalAligned(ts: seq<Tile>)
    requires AllSized(ts)
    ensures Total(ts) % 8 == 0
  {
    if ts != [] {
      assert Sized(ts[0]);
      TotalAligned(ts[1..]);
    }
  }

  // ---------------------------------------------------------------- blocks in use

  /** A block in use: where it starts, the size asked for and the room it has. */
  datatype Live = Live(at: nat, size: nat, span: nat)

  function Lives(ts: seq<Tile>, at: nat): set<Live> {
    if ts == [] then {}
    else (if Hole(ts[0]) then {} else {Live(at, ts[0].size, ts[0].span)}) + Lives(ts[1..], at + ts[0].span)
  }

  lemma {:induction false} LivesConcat(a: seq<Tile>, b: seq<Tile>, at: nat)
    ensures Lives(a + b, at) == Lives(a, at) + Lives(b, at + Total(a))
  {
    if a == [] {
      assert a + b == b;
    } else {
      assert (a + b)[1..] == a[1..] + b;
      LivesConcat(a[1..], b, at + a[0].span);
    }
  }

  lemma {:induction false} LivesBounds(ts: seq<Tile>, at: nat, b: Live)
    requires AllSized(ts) && at % 8 == 0 && b in Lives(ts, at)
    ensures b.at % 8 == 0 && 0 < b.size <= b.span - 8 && at <= b.at && b.at + b.span <= at + Total(ts)
  {
    assert Sized(ts[0]);
    if b in Lives(ts[1..], at + ts[0].span) {
      LivesBounds(ts[1..], at + ts[0].span, b);
    }
  }

  /** Blocks in use do not overlap. */
  lemma {:induction false} LivesDisjoint(ts: seq<Tile>, at: nat, b: Live, c: Live)
    requires AllSized(ts) && at % 8 == 0 && b in Lives(ts, at) && c in Lives(ts, at)
    ensures b == c || b.at + b.span <= c.at || c.at + c.span <= b.at
  {
    assert Sized(ts[0]);
    var rest, next := ts[1..], at + ts[0].span;
    if b in Lives(rest, next) {
      LivesBounds(rest, next, b);
    }
    if c in Lives(rest, next) {
      LivesBounds(rest, next, c);
    }
    if b in Lives(rest, next) && c in Lives(rest, next) {
      LivesDisjoint(rest, next, b, c);
    }
  }

  /** Blocks have different places. */
  lemma LivesPlaces(ts: seq<Tile>, at: nat, b: Live, c: Live)
    requires AllSized(ts) && at % 8 == 0 && b in Lives(ts, at) && c in Lives(ts, at) && b.at == c.at
    ensures b == c
  {
    LivesBounds(ts, at, b);
    LivesBounds(ts, at, c);
    LivesDisjoint(ts, at, b, c);
  }

  /** A tiled arena without blocks in use is empty. */
  lemma {:induction false} SomethingLive(ts: seq<Tile>, at: nat)
    requires Tiled(ts)
    ensures ts == [] || Lives(ts, at) != {}
  {
    if ts != [] {
      SomethingLive(ts[1..], at + ts[0].span);
      if !Hole(ts[0]) {
        assert Live(at, ts[0].size, ts[0].span) in Lives(ts, at);
      }
    }
  }

  // ---------------------------------------------------------------- allocation

  /** The span of a block with room for its header and `size` bytes. */
  function SpanFor(size: nat): (span: nat)
    ensures span % 8 == 0 && size + 8 <= span < size + 16
  {
    (size + 15) / 8 * 8
  }

  predicate Fits(t: Tile, span: nat) {
    Hole(t) && t.span >= span
  }

  predicate AnyFits(ts: seq<Tile>, span: nat) {
    exists i :: 0 <= i < |ts| && Fits(ts[i], span)
  }

  /** A request that can be met: a valid size, and a hole or enough left at the end. */
  predicate Room(ts: seq<Tile>, left: nat, size: nat) {
    0 < size <= MAX_SIZE && (AnyFits(ts, SpanFor(size)) || SpanFor(size) <= left)
  }

  lemma AnyFitsRest(ts: seq<Tile>, span: nat)
    requires ts != []
    ensures AnyFits(ts, span) <==> Fits(ts[0], span) || AnyFits(ts[1..], span)
  {
    if AnyFits(ts[1..], span) {
      var i :| 0 <= i < |ts[1..]| && Fits(ts[1..][i], span);
      assert Fits(ts[i + 1], span);
    }
    if AnyFits(ts, span) {
      var i :| 0 <= i < |ts| && Fits(ts[i], span);
      assert i > 0 ==> Fits(ts[1..][i - 1], span);
    }
  }

  /** A hole put to use; what is left over becomes a hole if it has room for a header. */
  function Carve(t: Tile, size: nat, span: nat): seq<Tile>
    requires t.span >= span
  {
    if t.span - span >= 16 then [Tile(size, span)] + [Tile(0, t.span - span)] else [Tile(size, t.span)]
  }

  /** The first hole that fits is used, or a tile is added at the end. */
  function Put(ts: seq<Tile>, size: nat): (r: seq<Tile>)
    ensures r != []
  {
    if ts == [] then [Tile(size, SpanFor(size))]
    else if Fits(ts[0], SpanFor(size)) then Carve(ts[0], size, SpanFor(size)) + ts[1..]
    else [ts[0]] + Put(ts[1..], size)
  }

  /** The new block. */
  function PutLive(ts: seq<Tile>, size: nat, at: nat): Live {
    if ts == [] then Live(at, size, SpanFor(size))
    else if Fits(ts[0], SpanFor(size)) then Live(at, size, Carve(ts[0], size, SpanFor(size))[0].span)
    else PutLive(ts[1..], size, at + ts[0].span)
  }

  lemma {:induction false} PutTiled(ts: seq<Tile>, size: nat)
    requires Tiled(ts) && size > 0
    ensures Tiled(Put(ts, size))
    ensures ts == [] || !Hole(ts[0]) ==> !Hole(Put(ts, size)[0])
  {
    hide SpanFor;
    if ts == [] {
      assert [Tile(size, SpanFor(size))][1..] == [];
    } else if Fits(ts[0], SpanFor(size)) {
      CarveTiled(ts, size);
    } else {
      PutTiled(ts[1..], size);
      Cons(ts[0], Put(ts[1..], size));
    }
  }

  lemma CarveTiled(ts: seq<Tile>, size: nat)
    requires Tiled(ts) && size > 0 && ts != [] && Fits(ts[0], SpanFor(size))
    ensures Tiled(Carve(ts[0], size, SpanFor(size)) + ts[1..])
    ensures !Hole((Carve(ts[0], size, SpanFor(size)) + ts[1..])[0])
  {
    hide SpanFor;
    var t, span, rest := ts[0], SpanFor(size), ts[1..];
    if t.span - span >= 16 {
      var left := Tile(0, t.span - span);
      Cons(left, rest);
      Cons(Tile(size, span), [left] + rest);
      assert Carve(t, size, span) + rest == [Tile(size, span)] + ([left] + rest);
    } else {
      Cons(Tile(size, t.span), rest);
    }
  }

  lemma Cons(t: Tile, ts: seq<Tile>)
    ensures ([t] + ts)[0] == t && ([t] + ts)[1..] == ts
    ensures ts != [] ==> ([t] + ts)[1] == ts[0]
    ensures Total([t] + ts) == t.span + Total(ts)
  {
  }

  /** Allocation adds one block and leaves all others. */
  lemma {:induction false} PutLives(ts: seq<Tile>, size: nat, at: nat)
    requires size > 0
    ensures Lives(Put(ts, size), at) == Lives(ts, at) + {PutLive(ts, size, at)}
    ensures Total(Put(ts, size)) == Total(ts) + if AnyFits(ts, SpanFor(size)) then 0 else SpanFor(size)
  {
    hide SpanFor, AnyFits;
    if ts == [] {
      assert [Tile(size, SpanFor(size))][1..] == [];
      assert !AnyFits([], SpanFor(size)) by { NothingFits(SpanFor(size)); }
    } else {
      AnyFitsRest(ts, SpanFor(size));
      if Fits(ts[0], SpanFor(size)) {
        CarveLives(ts[0], ts[1..], size, SpanFor(size), at);
      } else {
        PutLives(ts[1..], size, at + ts[0].span);
        Cons(ts[0], Put(ts[1..], size));
      }
    }
  }

  lemma NothingFits(span: nat)
    ensures !AnyFits([], span)
  {
  }

  lemma CarveLives(t: Tile, rest: seq<Tile>, size: nat, span: nat, at: nat)
    requires t.span >= span && size > 0
    ensures var r := Carve(t, size, span) + rest;
      && Lives(r, at) == {Live(at, size, Carve(t, size, span)[0].span)} + Lives(rest, at + t.span)
      && Total(r) == t.span + Total(rest)
  {
    if t.span - span >= 16 {
      var left := Tile(0, t.span - span);
      Cons(left, rest);
      Cons(Tile(size, span), [left] + rest);
      assert Carve(t, size, span) + rest == [Tile(size, span)] + ([left] + rest);
    } else {
      Cons(Tile(size, t.span), rest);
    }
  }

  // ---------------------------------------------------------------- freeing

  /** Holes that touch become one, and a hole at the end goes. */
  function Normal(ts: seq<Tile>): seq<Tile>
    decreases |ts|
  {
    if ts == [] then []
    else if !Hole(ts[0]) then [ts[0]] + Normal(ts[1..])
    else if |ts| == 1 then []
    else if Hole(ts[1]) then Normal([Tile(0, ts[0].span + ts[1].span)] + ts[2..])
    else [ts[0]] + Normal(ts[1..])
  }

  lemma {:induction false} NormalTiled(ts: seq<Tile>)
    requires AllSized(ts)
    ensures Tiled(Normal(ts))
    ensures ts != [] && !Hole(ts[0]) ==> Normal(ts) != [] && !Hole(Normal(ts)[0])
    decreases |ts|
  {
    if ts == [] {
    } else if !Hole(ts[0]) {
      NormalTiled(ts[1..]);
      Cons(ts[0], Normal(ts[1..]));
    } else if |ts| == 1 {
    } else if Hole(ts[1]) {
      MergedSized(ts);
      NormalTiled([Tile(0, ts[0].span + ts[1].span)] + ts[2..]);
    } else {
      NormalTiled(ts[1..]);
      Cons(ts[0], Normal(ts[1..]));
    }
  }

  lemma MergedSized(ts: seq<Tile>)
    requires AllSized(ts) && |ts| > 1
    ensures AllSized([Tile(0, ts[0].span + ts[1].span)] + ts[2..])
  {
    assert Sized(ts[0]) && Sized(ts[1]);
  }

  lemma {:induction false} NormalLives(ts: seq<Tile>, at: nat)
    ensures Lives(Normal(ts), at) == Lives(ts, at) && Total(Normal(ts)) <= Total(ts)
    decreases |ts|
  {
    if ts == [] {
    } else if !Hole(ts[0]) {
      NormalLives(ts[1..], at + ts[0].span);
      Cons(ts[0], Normal(ts[1..]));
    } else if |ts| == 1 {
    } else if Hole(ts[1]) {
      var merged := Tile(0, ts[0].span + ts[1].span);
      NormalLives([merged] + ts[2..], at);
      Cons(merged, ts[2..]);
      assert ts[1..][1..] == ts[2..];
      assert Lives(ts[1..], at + ts[0].span) == Lives(ts[2..], at + ts[0].span + ts[1].span);
    } else {
      NormalLives(ts[1..], at + ts[0].span);
      Cons(ts[0], Normal(ts[1..]));
    }
  }

  // ---------------------------------------------------------------- one block

  /** The tile that starts at an offset, with another size; zero gives the block back. */
  function Mark(ts: seq<Tile>, offset: int, size: nat): (r: seq<Tile>)
    ensures |r| == |ts|
  {
    if ts == [] then []
    else if offset == 0 then [ts[0].(size := size)] + ts[1..]
    else [ts[0]] + Mark(ts[1..], offset - ts[0].span, size)
  }

  /** The block in use that starts at an offset. */
  function At(ts: seq<Tile>, offset: int, at: nat): (r: set<Live>)
  {
    if ts == [] then {}
    else if offset == 0 then (if Hole(ts[0]) then {} else {Live(at, ts[0].size, ts[0].span)})
    else At(ts[1..], offset - ts[0].span, at + ts[0].span)
  }

  /** It is the only block there. */
  lemma {:induction false} AtLives(ts: seq<Tile>, offset: int, at: nat)
    requires AllSized(ts) && at % 8 == 0
    ensures At(ts, offset, at) == set b | b in Lives(ts, at) && b.at == at + offset
  {
    if ts != [] {
      assert Sized(ts[0]);
      var rest, next := ts[1..], at + ts[0].span;
      forall b | b in Lives(rest, next)
        ensures b.at >= next
      {
        LivesBounds(rest, next, b);
      }
      AtLives(rest, offset - ts[0].span, next);
    }
  }

  lemma {:induction false} MarkLives(ts: seq<Tile>, offset: int, size: nat, at: nat)
    requires AllSized(ts) && at % 8 == 0 && At(ts, offset, at) != {}
    ensures Total(Mark(ts, offset, size)) == Total(ts)
    ensures Lives(Mark(ts, offset, size), at) == Lives(ts, at) - At(ts, offset, at)
      + set b | b in At(ts, offset, at) && size > 0 :: b.(size := size)
  {
    assert Sized(ts[0]);
    var rest, next := ts[1..], at + ts[0].span;
    forall b | b in Lives(rest, next)
      ensures b.at >= next
    {
      LivesBounds(rest, next, b);
    }
    if offset == 0 {
      Cons(ts[0].(size := size), rest);
    } else {
      MarkLives(rest, offset - ts[0].span, size, next);
      Cons(ts[0], Mark(rest, offset - ts[0].span, size));
      AtLives(rest, offset - ts[0].span, next);
    }
  }

  lemma {:induction false} MarkTiled(ts: seq<Tile>, offset: int, size: nat, at: nat)
    requires Tiled(ts) && size > 0 && forall b :: b in At(ts, offset, at) ==> size <= b.span - 8
    requires At(ts, offset, at) != {}
    ensures Tiled(Mark(ts, offset, size))
    ensures Hole(ts[0]) <==> Hole(Mark(ts, offset, size)[0])
  {
    if offset == 0 {
      assert Live(at, ts[0].size, ts[0].span) in At(ts, offset, at);
      Cons(ts[0].(size := size), ts[1..]);
    } else {
      MarkTiled(ts[1..], offset - ts[0].span, size, at + ts[0].span);
      Cons(ts[0], Mark(ts[1..], offset - ts[0].span, size));
    }
  }

  lemma {:induction false} MarkSized(ts: seq<Tile>, offset: int)
    requires AllSized(ts)
    ensures AllSized(Mark(ts, offset, 0))
  {
    if ts != [] {
      assert Sized(ts[0]);
      if offset != 0 {
        MarkSized(ts[1..], offset - ts[0].span);
      }
    }
  }

  // ---------------------------------------------------------------- histories

  /** Giving a block back; anything else is left alone. */
  function Freed(ts: seq<Tile>, offset: int): seq<Tile> {
    if At(ts, offset, 0) == {} then ts else Normal(Mark(ts, offset, 0))
  }

  lemma FreedTiled(ts: seq<Tile>, offset: int)
    requires Tiled(ts)
    ensures Tiled(Freed(ts, offset)) && Total(Freed(ts, offset)) <= Total(ts)
    ensures Lives(Freed(ts, offset), 0) == set b | b in Lives(ts, 0) && b.at != offset
  {
    hide Lives, Normal, Mark, Total;
    TiledSized(ts);
    AtLives(ts, offset, 0);
    if At(ts, offset, 0) == {} {
      assert forall b :: b in Lives(ts, 0) && b.at == offset ==> b in At(ts, offset, 0);
    } else {
      MarkLives(ts, offset, 0, 0);
      MarkSized(ts, offset);
      NormalTiled(Mark(ts, offset, 0));
      NormalLives(Mark(ts, offset, 0), 0);
    }
  }

  function FreedAll(ts: seq<Tile>, offsets: seq<int>): seq<Tile>
    decreases |offsets|
  {
    if offsets == [] then ts else FreedAll(Freed(ts, offsets[0]), offsets[1..])
  }

  /** Giving all blocks back, in any order, empties the arena. */
  lemma {:induction false} FreedAllEmpty(ts: seq<Tile>, offsets: seq<int>)
    requires Tiled(ts) && forall b :: b in Lives(ts, 0) ==> b.at in offsets
    ensures FreedAll(ts, offsets) == []
    decreases |offsets|
  {
    if offsets == [] {
      SomethingLive(ts, 0);
    } else {
      var next := Freed(ts, offsets[0]);
      FreedTiled(ts, offsets[0]);
      forall b | b in Lives(next, 0)
        ensures b.at in offsets[1..]
      {
        assert b in Lives(ts, 0) && b.at != offsets[0];
      }
      FreedAllEmpty(next, offsets[1..]);
    }
  }
}
