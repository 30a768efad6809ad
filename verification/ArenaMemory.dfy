/** The arena's metadata in bytes: an eight-byte header, size then span, in front of every block. */
module ArenaMemory {
  import opened ArenaTiles
  import opened Bytes
  import LittleEndian

  /** The little-endian word at an index. */
  function Word(m: seq<Byte>, at: nat): (w: nat)
    requires at + 4 <= |m|
    ensures w < WORD_LIMIT
    ensures w == (m[at] as nat) + 0x100 * (m[at + 1] as nat) + 0x1_0000 * (m[at + 2] as nat) + 0x100_0000 * (m[at + 3] as nat)
  {
    LittleEndian.FourBytes(m[at..at + 4]);
    LittleEndian.Value(m[at..at + 4])
  }

  /** The same bytes everywhere but between two indices. */
  ghost predicate SameOutside(m: seq<Byte>, m': seq<Byte>, lo: nat, hi: nat) {
    |m| == |m'| && forall i :: 0 <= i < |m| && !(lo <= i < hi) ==> m'[i] == m[i]
  }

  ghost predicate HeaderIs(m: seq<Byte>, at: nat, t: Tile) {
    at + 8 <= |m| && Word(m, at) == t.size && Word(m, at + 4) == t.span
  }

  /** The headers of these tiles stand one after the other. */
  ghost predicate Chain(m: seq<Byte>, at: nat, ts: seq<Tile>)
    decreases |ts|
  {
    ts == [] || (HeaderIs(m, at, ts[0]) && Chain(m, at + ts[0].span, ts[1..]))
  }

  lemma {:induction false} ChainConcat(m: seq<Byte>, at: nat, a: seq<Tile>, b: seq<Tile>)
    ensures Chain(m, at, a + b) <==> Chain(m, at, a) && Chain(m, at + Total(a), b)
    decreases |a|
  {
    hide HeaderIs;
    if a == [] {
      assert a + b == b;
    } else {
      assert (a + b)[1..] == a[1..] + b;
      ChainConcat(m, at + a[0].span, a[1..], b);
    }
  }

  /** Headers outside a changed stretch stay. */
  lemma {:induction false} ChainFrame(m: seq<Byte>, m': seq<Byte>, at: nat, ts: seq<Tile>, lo: nat, hi: nat)
    requires SameOutside(m, m', lo, hi) && AllSized(ts) && (at + Total(ts) <= lo || hi <= at)
    requires Chain(m, at, ts)
    ensures Chain(m', at, ts)
    decreases |ts|
  {
    if ts != [] {
      assert Sized(ts[0]);
      ChainFrame(m, m', at + ts[0].span, ts[1..], lo, hi);
    }
  }

  /** Changing what one tile covers, to other tiles. */
  lemma ChainSplice(m: seq<Byte>, m': seq<Byte>, base: nat, done: seq<Tile>, t: Tile, mid: seq<Tile>, rest: seq<Tile>)
    requires AllSized(done) && AllSized(rest) && Chain(m, base, done + [t] + rest)
    requires SameOutside(m, m', base + Total(done), base + Total(done) + t.span)
    requires Total(mid) == t.span && Chain(m', base + Total(done), mid)
    ensures Chain(m', base, done + mid + rest)
  {
    hide Chain, SameOutside;
    var at := base + Total(done);
    Cons(t, []);
    assert [t] + [] == [t];
    TotalConcat(done, [t]);
    TotalConcat(done, mid);
    ChainConcat(m, base, done + [t], rest);
    ChainConcat(m, base, done, [t]);
    ChainFrame(m, m', base, done, at, at + t.span);
    ChainFrame(m, m', at + t.span, rest, at, at + t.span);
    ChainConcat(m', base, done, mid);
    ChainConcat(m', base, done + mid, rest);
    assert Total([]) == 0;
  }

  // ---------------------------------------------------------------- what blocks hold

  /** The bytes of a block after its header. */
  function Payload(m: seq<Byte>, base: nat, b: Live): seq<Byte>
    requires base + b.at + b.span <= |m| && b.span >= 8
  {
    m[base + b.at + 8..base + b.at + b.span]
  }

  ghost predicate InBounds(m: seq<Byte>, base: nat, bs: set<Live>) {
    forall b :: b in bs ==> b.span >= 8 && base + b.at + b.span <= |m|
  }

  /** Blocks keep their bytes. */
  ghost predicate SamePayloads(m: seq<Byte>, m': seq<Byte>, base: nat, bs: set<Live>) {
    && InBounds(m, base, bs) && InBounds(m', base, bs)
    && forall b :: b in bs ==> Payload(m', base, b) == Payload(m, base, b)
  }

  lemma PayloadUntouched(m: seq<Byte>, m': seq<Byte>, base: nat, b: Live, lo: nat, hi: nat)
    requires SameOutside(m, m', lo, hi) && b.span >= 8 && base + b.at + b.span <= |m|
    requires base + b.at + b.span <= lo || hi <= base + b.at + 8
    ensures Payload(m', base, b) == Payload(m, base, b)
  {
  }

  /** Blocks of a stretch of tiles that a change does not reach keep their bytes. */
  lemma PayloadsBeside(m: seq<Byte>, m': seq<Byte>, base: nat, ts: seq<Tile>, at: nat, lo: nat, hi: nat)
    requires AllSized(ts) && at % 8 == 0 && base + at + Total(ts) <= |m| && SameOutside(m, m', lo, hi)
    requires base + at + Total(ts) <= lo || hi <= base + at + 8
    ensures SamePayloads(m, m', base, Lives(ts, at))
  {
    hide Lives, Total;
    forall b | b in Lives(ts, at)
      ensures b.span >= 8 && base + b.at + b.span <= |m| && Payload(m', base, b) == Payload(m, base, b)
    {
      LivesBounds(ts, at, b);
    }
  }

  lemma SamePayloadsUnion(m: seq<Byte>, m': seq<Byte>, base: nat, bs: set<Live>, cs: set<Live>)
    requires SamePayloads(m, m', base, bs) && SamePayloads(m, m', base, cs)
    ensures SamePayloads(m, m', base, bs + cs)
  {
  }

  /** Changes inside one tile leave all blocks of the others alone, and changes in its header leave
      its own bytes alone as well. */
  lemma PayloadsAround(m: seq<Byte>, m': seq<Byte>, base: nat, done: seq<Tile>, t: Tile, rest: seq<Tile>, hi: nat)
    requires AllSized(done) && Sized(t) && AllSized(rest) && base + Total(done) + t.span + Total(rest) <= |m|
    requires SameOutside(m, m', base + Total(done), hi) && hi <= base + Total(done) + t.span
    ensures SamePayloads(m, m', base, Lives(done, 0) + Lives(rest, Total(done) + t.span))
    ensures hi <= base + Total(done) + 8 ==> SamePayloads(m, m', base, Lives([t], Total(done)))
  {
    hide Lives, SamePayloads, SameOutside;
    var lo := base + Total(done);
    TotalAligned(done);
    PayloadsBeside(m, m', base, done, 0, lo, hi);
    PayloadsBeside(m, m', base, rest, Total(done) + t.span, lo, hi);
    SamePayloadsUnion(m, m', base, Lives(done, 0), Lives(rest, Total(done) + t.span));
    if hi <= base + Total(done) + 8 {
      OneTile(t);
      PayloadsBeside(m, m', base, [t], Total(done), lo, hi);
    }
  }

  lemma OneTile(t: Tile)
    ensures Total([t]) == t.span
  {
    assert [t][1..] == [];
  }
}
