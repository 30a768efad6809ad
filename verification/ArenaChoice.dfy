/** Where an allocation goes, said of the blocks in use alone: gaps between them, not the list of tiles. */
module ArenaChoice {
  import opened ArenaTiles

  /** The bytes from p to q lie between blocks in use, and no more can be added at either end. */
  ghost predicate Gap(lives: set<Live>, first: nat, p: nat, q: nat) {
    && p < q
    && (p == first || Ends(lives, p)) && Starts(lives, q)
    && forall b :: b in lives ==> b.at + b.span <= p || q <= b.at
  }

  ghost predicate Starts(lives: set<Live>, q: nat) {
    exists b :: b in lives && b.at == q
  }

  ghost predicate Ends(lives: set<Live>, p: nat) {
    exists b :: b in lives && b.at + b.span == p
  }

  /** The first gap that is long enough. */
  ghost predicate FirstGap(lives: set<Live>, p: nat, q: nat, span: nat) {
    Gap(lives, 0, p, q) && q - p >= span && forall i: nat, j: nat :: Gap(lives, 0, i, j) && i < p ==> j - i < span
  }

  ghost predicate NoGap(lives: set<Live>, span: nat) {
    forall p: nat, q: nat :: Gap(lives, 0, p, q) ==> q - p < span
  }

  /** How much of a gap a block takes: all of it when what is left has no room for a header and its least payload. */
  function Used(gap: nat, span: nat): nat {
    if gap < span + 16 then gap else span
  }

  /** The holes among tiles. */
  ghost predicate HoleAt(ts: seq<Tile>, at: nat, p: nat, q: nat)
    decreases |ts|
  {
    ts != [] && ((Hole(ts[0]) && p == at && q == at + ts[0].span) || HoleAt(ts[1..], at + ts[0].span, p, q))
  }

  lemma {:induction false} HoleBounds(ts: seq<Tile>, at: nat, p: nat, q: nat)
    requires AllSized(ts) && HoleAt(ts, at, p, q)
    ensures at <= p && p + 16 <= q
    decreases |ts|
  {
    assert Sized(ts[0]);
    if HoleAt(ts[1..], at + ts[0].span, p, q) {
      HoleBounds(ts[1..], at + ts[0].span, p, q);
    }
  }

  /** Holes are the gaps. */
  lemma {:induction false} HolesAreGaps(ts: seq<Tile>, at: nat, p: nat, q: nat)
    requires Tiled(ts) && at % 8 == 0
    ensures HoleAt(ts, at, p, q) <==> Gap(Lives(ts, at), at, p, q)
    decreases |ts|
  {
    if ts != [] {
      var rest, next := ts[1..], at + ts[0].span;
      HolesAreGaps(rest, next, p, q);
      TiledSized(ts);
      RestLater(ts, at);
      if Hole(ts[0]) {
        NextStarts(rest, next);
        GapsBehindHole(ts, at, p, q);
      } else {
        GapsBehindBlock(ts, at, p, q);
      }
    }
  }

  lemma RestLater(ts: seq<Tile>, at: nat)
    requires AllSized(ts) && at % 8 == 0 && ts != []
    ensures Sized(ts[0]) && forall b :: b in Lives(ts[1..], at + ts[0].span) ==> at + ts[0].span <= b.at && b.span > 0
  {
    assert Sized(ts[0]) && forall i :: 0 <= i < |ts[1..]| ==> ts[1..][i] == ts[i + 1];
    forall b | b in Lives(ts[1..], at + ts[0].span)
      ensures at + ts[0].span <= b.at && b.span > 0
    {
      LivesBounds(ts[1..], at + ts[0].span, b);
    }
  }

  lemma NextStarts(ts: seq<Tile>, at: nat)
    requires ts != [] && !Hole(ts[0])
    ensures Live(at, ts[0].size, ts[0].span) in Lives(ts, at)
  {
  }

  lemma GapsBehindHole(ts: seq<Tile>, at: nat, p: nat, q: nat)
    requires ts != [] && Hole(ts[0]) && Sized(ts[0])
    requires |ts| > 1 && Live(at + ts[0].span, ts[1].size, ts[1].span) in Lives(ts[1..], at + ts[0].span)
    requires forall b :: b in Lives(ts[1..], at + ts[0].span) ==> at + ts[0].span <= b.at && b.span > 0
    ensures Gap(Lives(ts, at), at, p, q) <==>
      (p == at && q == at + ts[0].span) || Gap(Lives(ts[1..], at + ts[0].span), at + ts[0].span, p, q)
  {
    var lives, next := Lives(ts[1..], at + ts[0].span), at + ts[0].span;
    var b := Live(next, ts[1].size, ts[1].span);
    assert Lives(ts, at) == lives;
    assert Starts(lives, next);
    if Gap(lives, at, p, q) && p == at {
      assert q <= b.at;
    }
  }

  lemma GapsBehindBlock(ts: seq<Tile>, at: nat, p: nat, q: nat)
    requires ts != [] && !Hole(ts[0]) && Sized(ts[0])
    requires forall b :: b in Lives(ts[1..], at + ts[0].span) ==> at + ts[0].span <= b.at && b.span > 0
    ensures Gap(Lives(ts, at), at, p, q) <==> Gap(Lives(ts[1..], at + ts[0].span), at + ts[0].span, p, q)
  {
    var lives, next := Lives(ts[1..], at + ts[0].span), at + ts[0].span;
    var b := Live(at, ts[0].size, ts[0].span);
    assert Lives(ts, at) == {b} + lives && b in Lives(ts, at) && b.at + b.span == next;
    assert Ends(Lives(ts, at), next);
    if Gap(Lives(ts, at), at, p, q) {
      assert b.at + b.span <= p || q <= b.at;
      var c :| c in Lives(ts, at) && c.at == q;
      assert c in lives;
      if p != next {
        var e :| e in Lives(ts, at) && e.at + e.span == p;
        assert e in lives;
      }
    }
    if Gap(lives, next, p, q) {
      var c :| c in lives && c.at == q;
      assert c in Lives(ts, at);
      if p != next {
        var e :| e in lives && e.at + e.span == p;
        assert e in Lives(ts, at);
      }
    }
  }

  // ---------------------------------------------------------------- the choice

  /** The block lies in the first hole that fits. */
  ghost predicate InHole(ts: seq<Tile>, at: nat, b: Live, span: nat, q: nat) {
    && HoleAt(ts, at, b.at, q) && q - b.at >= span && b.span == Used(q - b.at, span)
    && forall i: nat, j: nat :: HoleAt(ts, at, i, j) && i < b.at ==> j - i < span
  }

  ghost predicate AtEnd(ts: seq<Tile>, at: nat, b: Live, span: nat) {
    b.at == at + Total(ts) && b.span == span && forall p: nat, q: nat :: HoleAt(ts, at, p, q) ==> q - p < span
  }

  /** Among tiles: the first hole that fits, or the end. */
  lemma {:induction false} PutHole(ts: seq<Tile>, size: nat, at: nat)
    requires AllSized(ts)
    ensures var b, span := PutLive(ts, size, at), SpanFor(size);
      b.size == size && (AtEnd(ts, at, b, span) || exists q: nat :: InHole(ts, at, b, span, q))
    decreases |ts|
  {
    hide SpanFor;
    var b, span := PutLive(ts, size, at), SpanFor(size);
    if ts != [] {
      assert Sized(ts[0]) && forall i :: 0 <= i < |ts[1..]| ==> ts[1..][i] == ts[i + 1];
      var rest, next := ts[1..], at + ts[0].span;
      if Fits(ts[0], span) {
        FirstFits(ts, size, at);
        assert InHole(ts, at, b, span, at + ts[0].span);
      } else {
        PutHole(rest, size, next);
        forall p: nat, q: nat
          ensures HoleAt(ts, at, p, q) <==> (Hole(ts[0]) && p == at && q == next) || HoleAt(rest, next, p, q)
        {
        }
        if !AtEnd(rest, next, b, span) {
          var q: nat :| InHole(rest, next, b, span, q);
          assert InHole(ts, at, b, span, q);
        }
      }
    }
  }

  lemma FirstFits(ts: seq<Tile>, size: nat, at: nat)
    requires AllSized(ts) && ts != [] && Fits(ts[0], SpanFor(size))
    ensures var b := PutLive(ts, size, at);
      && b == Live(at, size, Used(ts[0].span, SpanFor(size))) && HoleAt(ts, at, at, at + ts[0].span)
      && forall i: nat, j: nat :: HoleAt(ts, at, i, j) ==> at <= i
  {
    hide SpanFor;
    forall i: nat, j: nat | HoleAt(ts, at, i, j)
      ensures at <= i
    {
      HoleBounds(ts, at, i, j);
    }
  }

  /** Allocation takes the lowest gap between blocks that is long enough, and the end when there is none. It takes
      eight bytes more than asked for, rounded up to eight; of a gap it leaves what has room for another block. */
  lemma PutChoice(ts: seq<Tile>, size: nat)
    requires Tiled(ts)
    ensures var b, span, lives := PutLive(ts, size, 0), (size + 15) / 8 * 8, Lives(ts, 0);
      && b.size == size
      && (NoGap(lives, span) ==> b.at == Total(ts) && b.span == span)
      && (!NoGap(lives, span) ==> exists q: nat :: FirstGap(lives, b.at, q, span) && b.span == Used(q - b.at, span))
  {
    var b, span, lives := PutLive(ts, size, 0), SpanFor(size), Lives(ts, 0);
    hide SpanFor, Gap, PutLive;
    TiledSized(ts);
    PutHole(ts, size, 0);
    forall p: nat, q: nat
      ensures HoleAt(ts, 0, p, q) <==> Gap(lives, 0, p, q)
    {
      HolesAreGaps(ts, 0, p, q);
    }
    hide HoleAt;
    if !AtEnd(ts, 0, b, span) {
      var q: nat :| InHole(ts, 0, b, span, q);
      assert FirstGap(lives, b.at, q, span);
    }
  }

  // ---------------------------------------------------------------- the whole arena

  /** The blocks in use determine the arena, so allocating and freeing are determined by what they do to those. */
  lemma {:induction false} BlocksDetermine(ts: seq<Tile>, us: seq<Tile>, at: nat)
    requires Tiled(ts) && Tiled(us) && at % 8 == 0 && Lives(ts, at) == Lives(us, at)
    ensures ts == us
    decreases |ts| + |us|
  {
    SomethingLive(ts, at);
    SomethingLive(us, at);
    if ts != [] && us != [] {
      TiledSized(ts);
      TiledSized(us);
      RestLater(ts, at);
      RestLater(us, at);
      HeadsSame(ts, us, at);
      BlocksDetermine(ts[1..], us[1..], at + ts[0].span);
      assert ts == [ts[0]] + ts[1..] && us == [us[0]] + us[1..];
    }
  }

  lemma HeadsSame(ts: seq<Tile>, us: seq<Tile>, at: nat)
    requires Tiled(ts) && Tiled(us) && ts != [] && us != [] && Lives(ts, at) == Lives(us, at)
    requires Sized(ts[0]) && forall b :: b in Lives(ts[1..], at + ts[0].span) ==> at + ts[0].span <= b.at && b.span > 0
    requires Sized(us[0]) && forall b :: b in Lives(us[1..], at + us[0].span) ==> at + us[0].span <= b.at && b.span > 0
    ensures ts[0] == us[0] && Lives(ts[1..], at + ts[0].span) == Lives(us[1..], at + us[0].span)
  {
    var b, c := Live(at, ts[0].size, ts[0].span), Live(at, us[0].size, us[0].span);
    if Hole(ts[0]) {
      NextStarts(ts[1..], at + ts[0].span);
    }
    if Hole(us[0]) {
      NextStarts(us[1..], at + us[0].span);
    }
    if !Hole(ts[0]) {
      assert b in Lives(us, at);
      assert Lives(ts[1..], at + ts[0].span) == Lives(ts, at) - {b};
    }
    if !Hole(us[0]) {
      assert c in Lives(ts, at);
      assert Lives(us[1..], at + us[0].span) == Lives(us, at) - {c};
    }
    if Hole(ts[0]) && Hole(us[0]) {
      var d, e := Live(at + ts[0].span, ts[1].size, ts[1].span), Live(at + us[0].span, us[1].size, us[1].span);
      assert d in Lives(us, at) && e in Lives(ts, at);
    }
  }
}
