/** The first-fit arena of runtime/allocator.c, over bytes. */
module ArenaAllocator {
  import opened ArenaTiles
  import opened ArenaMemory
  import opened Bytes
  import LittleEndian
  import opened ArenaSteps

  class Arena {
    var memory: array<Byte>
    /** Addresses of the caller's memory and of its first aligned byte. */
    var origin: nat
    var base: nat
    var capacity: nat
    var used: nat
    ghost var tiles: seq<Tile>

    ghost predicate Placed()
      reads this
    {
      && base % 8 == 0 && origin <= base && base - origin + capacity <= memory.Length
      && base + capacity < WORD_LIMIT && used <= capacity
    }

    ghost predicate Valid()
      reads this, memory
    {
      Placed() && Tiled(tiles) && Laid(memory[..], base - origin, tiles, used)
    }

    /** The blocks in use, by offset from the base. */
    ghost function Blocks(): set<Live>
      reads this
    {
      Lives(tiles, 0)
    }

    /** The pointer a caller holds for a block. */
    ghost function Pointer(b: Live): nat
      reads this
    {
      base + b.at + 8
    }

    constructor ()
      ensures Valid() && Blocks() == {} && used == 0 && capacity == 0
    {
      memory := new Byte[0];
      origin, base, capacity, used, tiles := 0, 0, 0, 0, [];
    }

    /** Takes over the caller's memory; fails for a null pointer and when no aligned byte is left or
        the end is out of the address space. */
    method Init(memory: array<Byte>, address: nat, capacity: nat) returns (failed: bool)
      requires address < WORD_LIMIT && capacity < WORD_LIMIT && capacity <= memory.Length
      modifies this
      ensures Valid() && Blocks() == {} && used == 0
      ensures failed <==> address == 0 || capacity < (8 - address % 8) % 8 || address + capacity >= WORD_LIMIT
      ensures failed ==> this.capacity == 0
      ensures !failed ==> this.memory == memory && this.origin == address && address <= base < address + 8
      ensures !failed ==> base + this.capacity == address + capacity
    {
      var padding := (WORD_LIMIT - address) % 8;
      base, this.capacity, used, tiles := 0, 0, 0, [];
      this.memory, origin := memory, 0;
      if address == 0 || capacity < padding || capacity > 0xffff_ffff - address {
        return true;
      }
      origin := address;
      base := address + padding;
      this.capacity := capacity - padding;
      return false;
    }

    method Reset()
      requires Valid()
      modifies this`used, this`tiles
      ensures Valid() && Blocks() == {} && used == 0
    {
      used, tiles := 0, [];
    }

    // -------------------------------------------------------------- words

    method Load(offset: nat) returns (w: nat)
      requires Placed() && offset + 4 <= capacity
      ensures w == Word(memory[..], base - origin + offset)
    {
      var i := base - origin + offset;
      w := (memory[i] as nat) + 0x100 * (memory[i + 1] as nat) + 0x1_0000 * (memory[i + 2] as nat)
        + 0x100_0000 * (memory[i + 3] as nat);
    }

    method Store(offset: nat, w: nat)
      requires Placed() && offset + 4 <= capacity && w < WORD_LIMIT
      modifies memory
      ensures Word(memory[..], base - origin + offset) == w
      ensures SameOutside(old(memory[..]), memory[..], base - origin + offset, base - origin + offset + 4)
    {
      var i := base - origin + offset;
      var word := LittleEndian.Little(w, 4);
      memory[i], memory[i + 1], memory[i + 2], memory[i + 3] := word[0], word[1], word[2], word[3];
      assert memory[..][i..i + 4] == word;
      LittleEndian.WordLimit();
      LittleEndian.LittleValue(w, 4);
    }

    /** cosmic_arena_header: a header is refused unless it describes a block inside the used part. */
    method Header(offset: nat) returns (found: bool, size: nat, span: nat)
      requires Placed()
      ensures found <==> offset + 8 <= used && Plausible(memory[..], base - origin + offset, used - offset)
      ensures found ==> size == Word(memory[..], base - origin + offset)
      ensures found ==> span == Word(memory[..], base - origin + offset + 4)
    {
      if used > capacity || offset > used || used - offset < 8 {
        return false, 0, 0;
      }
      size := Load(offset);
      span := Load(offset + 4);
      found := !(span < 16 || span % 8 != 0 || span > used - offset || size > span - 8);
    }

    /** Writes both words of a header. */
    method StoreHeader(offset: nat, t: Tile)
      requires Placed() && offset + 8 <= capacity && t.size < WORD_LIMIT && t.span < WORD_LIMIT
      modifies memory
      ensures HeaderIs(memory[..], base - origin + offset, t)
      ensures SameOutside(old(memory[..]), memory[..], base - origin + offset, base - origin + offset + 8)
    {
      hide Word;
      Store(offset, t.size);
      ghost var m := memory[..];
      Store(offset + 4, t.span);
      WordFrame(m, memory[..], base - origin + offset, base - origin + offset + 4, base - origin + offset + 8);
    }

    // -------------------------------------------------------------- allocation

    method Alloc(size: nat) returns (p: nat)
      requires Valid() && size < WORD_LIMIT
      modifies this`used, this`tiles, memory
      ensures Valid()
      ensures p != 0 <==> Room(old(tiles), capacity - old(used), size)
      ensures p == 0 ==> tiles == old(tiles) && used == old(used) && memory[..] == old(memory[..])
      ensures p != 0 ==> tiles == Put(old(tiles), size) && p == Pointer(PutLive(old(tiles), size, 0))
      ensures p != 0 ==> Blocks() == old(Blocks()) + {PutLive(old(tiles), size, 0)}
      ensures SamePayloads(old(memory[..]), memory[..], base - origin, old(Blocks()))
    {
      hide Tiled, Laid, Put, PutLive, SamePayloads, AnyFits, Plausible, Word, Total, Chain, SpanFor;
      ghost var m0, shift := memory[..], base - origin;
      PayloadsSame(m0, shift, tiles, used);
      p := 0;
      if size == 0 || size > 0xffff_fff0 || used > capacity {
        return;
      }
      var span := (size + 15) / 8 * 8;
      SpanIs(size, span);
      var offset := 0;
      ghost var done: seq<Tile>, rest := [], tiles;
      SearchStart(tiles, size);
      while offset < used
        invariant p == 0 && Valid() && memory[..] == m0 && tiles == old(tiles) && used == old(used)
        invariant Searched(tiles, done, rest, size) && offset == Total(done)
        decreases |rest|
      {
        WalkAhead(memory[..], shift, done, rest, used);
        var found, held, room := Header(offset);
        if !found {
          return;
        }
        if held == 0 && room >= span {
          p := UseHole(offset, size, span, room, done, rest);
          return;
        }
        SearchTurn(tiles, done, rest, size);
        done, rest := done + [rest[0]], rest[1..];
        offset := offset + room;
      }
      SearchEnd(memory[..], shift, done, rest, used, tiles, size);
      if span > capacity - used {
        return;
      }
      StoreHeader(used, Tile(size, span));
      p := base + used + 8;
      Extended(m0, memory[..], shift, tiles, used, size);
      tiles := tiles + [Tile(size, span)];
      used := used + span;
    }

    /** Puts the hole at an offset to use and splits off what is left over. */
    method UseHole(offset: nat, size: nat, span: nat, room: nat, ghost done: seq<Tile>, ghost rest: seq<Tile>) returns (p: nat)
      requires Valid() && 0 < size <= MAX_SIZE && span == SpanFor(size) <= room
      requires Searched(tiles, done, rest, size) && offset == Total(done) && rest != [] && rest[0] == Tile(0, room)
      modifies this`tiles, memory
      ensures Valid() && tiles == Put(old(tiles), size) && p == Pointer(PutLive(old(tiles), size, 0))
      ensures p != 0 && AnyFits(old(tiles), SpanFor(size))
      ensures Blocks() == old(Blocks()) + {PutLive(old(tiles), size, 0)}
      ensures SamePayloads(old(memory[..]), memory[..], base - origin, old(Blocks()))
    {
      hide Tiled, Laid, Put, PutLive, SamePayloads, Word, Total, Chain, SpanFor, SameOutside;
      ghost var m0, shift := memory[..], base - origin;
      WalkAhead(m0, shift, done, rest, used);
      var remainder := room - span;
      if remainder >= 16 {
        StoreHeader(offset + span, Tile(0, remainder));
        ghost var m1 := memory[..];
        StoreHeader(offset, Tile(size, span));
        CarvedTwo(m0, m1, memory[..], shift + offset, rest[0], size, span);
      } else {
        StoreHeader(offset, Tile(size, room));
        CarvedOne(m0, memory[..], shift + offset, rest[0], size, span);
      }
      Filled(m0, memory[..], shift, tiles, done, rest, used, size);
      AnyFitsRest(rest, span);
      tiles := Put(tiles, size);
      p := base + offset + 8;
    }

    // -------------------------------------------------------------- giving back

    method Free(p: nat) returns (failed: bool)
      requires Valid()
      modifies this`used, this`tiles, memory
      ensures Valid() && used <= old(used)
      ensures failed <==> p != 0 && At(old(tiles), p - base - 8, 0) == {}
      ensures tiles == if p == 0 then old(tiles) else Freed(old(tiles), p - base - 8)
      ensures failed || p == 0 ==> used == old(used) && memory[..] == old(memory[..])
      ensures Blocks() == set b | b in old(Blocks()) && Pointer(b) != p
      ensures SamePayloads(old(memory[..]), memory[..], base - origin, Blocks())
    {
      hide Tiled, Laid, Freed, At, Normal, Mark, SamePayloads, Plausible, Word, Total, Chain, Lives;
      ghost var m0, shift, target := memory[..], base - origin, p - base - 8;
      PayloadsSame(m0, shift, tiles, used);
      if p == 0 {
        return false;
      }
      NotFreed(tiles, base, p);
      failed := true;
      var offset, found := 0, 0;
      ghost var done: seq<Tile>, rest := [], tiles;
      ghost var before: seq<Tile>, here: seq<Tile> := [], [];
      SoughtStart(tiles, target);
      while offset < used
        invariant failed && Valid() && memory[..] == m0 && tiles == old(tiles) && used == old(used)
        invariant tiles == done + rest && AllSized(tiles) && offset == Total(done)
        invariant found == 0 ==> Sought(tiles, done, rest, target)
        invariant found != 0 ==> here != [] && !Hole(here[0]) && tiles == before + here && Total(before) == target == found - 1
        invariant found != 0 ==> At(tiles, target, 0) != {}
        decreases |rest|
      {
        WalkAhead(m0, shift, done, rest, used);
        var plausible, size, span := Header(offset);
        if !plausible {
          return;
        }
        if base + offset + 8 == p {
          Matched(tiles, done, rest, target, before, here, found);
          if size == 0 {
            return;
          }
          found := offset + 1;
          before, here := done, rest;
        }
        WalkTurn(tiles, done, rest, target, found);
        done, rest := done + [rest[0]], rest[1..];
        offset := offset + span;
      }
      if found == 0 {
        SoughtEnd(m0, shift, done, rest, used, tiles, target);
        return;
      }
      GiveBack(found - 1, before, here);
      failed := false;
    }

    /** Empties the block at an offset and merges holes. */
    method GiveBack(target: nat, ghost before: seq<Tile>, ghost here: seq<Tile>)
      requires Valid() && At(tiles, target, 0) != {}
      requires tiles == before + here && here != [] && Total(before) == target
      modifies this`used, this`tiles, memory
      ensures Valid() && used <= old(used) && tiles == Freed(old(tiles), target)
      ensures Blocks() == set b | b in old(Blocks()) && b.at != target
      ensures SamePayloads(old(memory[..]), memory[..], base - origin, Blocks())
    {
      hide Tiled, Laid, Freed, At, Normal, Mark, SamePayloads, Plausible, Word, Total, Chain, Lives, AllSized;
      ghost var m0, shift, ts := memory[..], base - origin, tiles;
      TiledSized(ts);
      WalkAhead(m0, shift, before, here, used);
      Store(target, 0);
      ghost var marked := Mark(ts, target, 0);
      Remarked(m0, memory[..], shift, ts, before, here, used, 0);
      MarkedFits(ts, target, Lives(ts, 0));
      SamePayloadsPart(m0, memory[..], shift, Lives(ts, 0), Lives(marked, 0));
      MergingStart(marked);
      ghost var done: seq<Tile>, rest := [], marked;
      assert [] + marked == marked;
      var offset := 0;
      while offset < used
        invariant Placed() && used == old(used) && offset == Total(done)
        invariant Merging(marked, done, rest) && Laid(memory[..], shift, done + rest, used)
        invariant SamePayloads(m0, memory[..], shift, Lives(marked, 0))
        decreases |rest|
      {
        MergingSized(marked, done, rest);
        WalkAhead(memory[..], shift, done, rest, used);
        var size := Load(offset);
        var span := Load(offset + 4);
        var nextOffset := offset + span;
        if size == 0 {
          ghost var m1, length := memory[..], |rest|;
          nextOffset, rest := MergeHoles(offset, span, marked, done, rest);
          SamePayloadsChain(m0, m1, memory[..], shift, Lives(marked, 0));
          if nextOffset == used {
            MergingCut(memory[..], shift, marked, done, rest, used);
            used := offset;
            FreedLaid(ts, target, done);
            tiles := done;
            FinishedPart(ts, marked, target, done);
            SamePayloadsPart(m0, memory[..], shift, Lives(marked, 0), Lives(done, 0));
            return;
          }
        }
        MergingTurn(marked, done, rest);
        done, rest := done + [rest[0]], rest[1..];
        offset := nextOffset;
      }
      MergingEnd(memory[..], shift, marked, done, rest, used);
      FreedLaid(ts, target, done);
      tiles := done;
      FinishedPart(ts, marked, target, done);
      SamePayloadsPart(m0, memory[..], shift, Lives(marked, 0), Lives(done, 0));
    }

    /** A hole swallows the holes that follow it. */
    method MergeHoles(offset: nat, span0: nat, ghost marked: seq<Tile>, ghost done: seq<Tile>, ghost rest0: seq<Tile>)
      returns (nextOffset: nat, ghost rest: seq<Tile>)
      requires Placed() && offset == Total(done) && rest0 != [] && rest0[0] == Tile(0, span0)
      requires Merging(marked, done, rest0) && Laid(memory[..], base - origin, done + rest0, used)
      modifies memory
      ensures Merging(marked, done, rest) && Laid(memory[..], base - origin, done + rest, used)
      ensures SamePayloads(old(memory[..]), memory[..], base - origin, Lives(marked, 0))
      ensures rest != [] && |rest| <= |rest0| && Hole(rest[0]) && nextOffset == offset + rest[0].span <= used
      ensures nextOffset == used <==> |rest| == 1
      ensures |rest| > 1 ==> !Hole(rest[1])
    {
      hide Laid, SamePayloads, Plausible, Word, Total, Chain, Lives, AllSized, Normal;
      ghost var m0, shift := memory[..], base - origin;
      rest := rest0;
      var span := span0;
      nextOffset := offset + span;
      MergingSame(m0, shift, marked, done, rest, used);
      MergingNext(m0, shift, marked, done, rest, used);
      while nextOffset < used
        invariant Placed() && Merging(marked, done, rest) && Laid(memory[..], shift, done + rest, used)
        invariant SamePayloads(m0, memory[..], shift, Lives(marked, 0))
        invariant rest != [] && |rest| <= |rest0| && rest[0] == Tile(0, span) && nextOffset == offset + span <= used
        invariant nextOffset == used <==> |rest| == 1
        decreases |rest|
      {
        MergingNext(memory[..], shift, marked, done, rest, used);
        ghost var m1 := memory[..];
        var nextSize := Load(nextOffset);
        if nextSize != 0 {
          return;
        }
        var nextSpan := Load(nextOffset + 4);
        Store(offset + 4, span + nextSpan);
        MergingHoles(m1, memory[..], shift, marked, done, rest, used);
        SamePayloadsChain(m0, m1, memory[..], shift, Lives(marked, 0));
        rest := [Tile(0, span + nextSpan)] + rest[2..];
        span := span + nextSpan;
        nextOffset := offset + span;
        MergingNext(memory[..], shift, marked, done, rest, used);
      }
    }

    // -------------------------------------------------------------- reallocation

    /** The block in use that a pointer stands for: one or none. */
    ghost function Named(ts: seq<Tile>, p: nat): set<Live>
      reads this
    {
      At(ts, p - base - 8, 0)
    }

    /** A pointer that names no block in use gives null and changes nothing; size zero gives the block
        back; a size that fits its span keeps the block where it is; otherwise the first bytes move
        to a new block, and when there is none everything stays. */
    method Realloc(p: nat, size: nat) returns (q: nat, ghost moved: Live)
      requires Valid() && size < WORD_LIMIT
      modifies this`used, this`tiles, memory
      ensures Valid()
      ensures p == 0 ==> (q != 0 <==> Room(old(tiles), capacity - old(used), size))
      ensures p == 0 && q != 0 ==> Blocks() == old(Blocks()) + {moved} && moved == PutLive(old(tiles), size, 0)
      ensures p != 0 && Named(old(tiles), p) == {} ==> q == 0
      ensures p != 0 && size == 0 ==> q == 0 && Blocks() == old(Blocks()) - Named(old(tiles), p)
      ensures p != 0 && size > 0 && Named(old(tiles), p) != {} ==>
        (q == 0 <==> !Room(old(tiles), capacity - old(used), size) && forall b :: b in Named(old(tiles), p) ==> size > b.span - 8)
      ensures q == 0 && !(p != 0 && size == 0) ==> tiles == old(tiles) && used == old(used) && memory[..] == old(memory[..])
      ensures q != 0 ==> Blocks() == old(Blocks()) - Named(old(tiles), p) + {moved} && Pointer(moved) == q && moved.size == size
      ensures q != 0 ==> forall b :: b in Named(old(tiles), p) && size <= b.span - 8 ==>
        q == p && moved == b.(size := size) && used == old(used)
      ensures q != 0 ==> forall b :: b in Named(old(tiles), p) && size > b.span - 8 ==> moved == PutLive(old(tiles), size, 0)
      ensures q != 0 ==> forall b :: b in Named(old(tiles), p) ==>
        Kept(old(memory[..]), memory[..], base - origin, b, moved, if b.size < size then b.size else size)
      ensures SamePayloads(old(memory[..]), memory[..], base - origin, old(Blocks()) - Named(old(tiles), p))
    {
      hide Tiled, Laid, Freed, At, Mark, SamePayloads, Plausible, Word, Total, Chain, Lives, AllSized, Put, PutLive, Room, Kept;
      ghost var m0, shift, target := memory[..], base - origin, p - base - 8;
      q, moved := 0, Live(0, 0, 0);
      PayloadsSame(m0, shift, tiles, used);
      SamePayloadsPart(m0, m0, shift, Lives(tiles, 0), Lives(tiles, 0) - Named(tiles, p));
      if p == 0 {
        NullNamesNothing(tiles, target);
        moved := PutLive(tiles, size, 0);
        PutLiveSize(tiles, size, 0);
        q := Alloc(size);
        return;
      }
      var offset := 0;
      ghost var done: seq<Tile>, rest := [], tiles;
      SoughtStart(tiles, target);
      while offset < used
        invariant q == 0 && Valid() && memory[..] == m0 && tiles == old(tiles) && used == old(used)
        invariant Sought(tiles, done, rest, target) && offset == Total(done)
        decreases |rest|
      {
        SoughtSized(tiles, done, rest, target);
        WalkAhead(m0, shift, done, rest, used);
        var plausible, oldSize, span := Header(offset);
        if !plausible {
          return;
        }
        if base + offset + 8 == p {
          FoundHere(tiles, done, rest, target);
          if oldSize == 0 {
            return;
          }
          q, moved := Move(offset, oldSize, span, size, done, rest);
          return;
        }
        SoughtTurn(tiles, done, rest, target);
        done, rest := done + [rest[0]], rest[1..];
        offset := offset + span;
      }
      SoughtEnd(m0, shift, done, rest, used, tiles, target);
      NoneNamed(tiles, target);
    }

    /** The reallocation of a block that was found. */
    method Move(offset: nat, oldSize: nat, span: nat, size: nat, ghost done: seq<Tile>, ghost rest: seq<Tile>)
      returns (q: nat, ghost moved: Live)
      requires Valid() && size < WORD_LIMIT && tiles == done + rest && rest != [] && rest[0] == Tile(oldSize, span)
      requires oldSize > 0 && Total(done) == offset && At(tiles, offset, 0) == {Live(offset, oldSize, span)}
      modifies this`used, this`tiles, memory
      ensures Valid()
      ensures size == 0 ==> q == 0 && Blocks() == old(Blocks()) - {Live(offset, oldSize, span)}
      ensures size > 0 ==> (q == 0 <==> size > span - 8 && !Room(old(tiles), capacity - old(used), size))
      ensures size > 0 && q == 0 ==> tiles == old(tiles) && used == old(used) && memory[..] == old(memory[..])
      ensures 0 < size <= span - 8 ==> q == base + offset + 8 && moved == Live(offset, size, span) && used == old(used)
      ensures q != 0 && size > span - 8 ==> moved == PutLive(old(tiles), size, 0)
      ensures q != 0 ==> Blocks() == old(Blocks()) - {Live(offset, oldSize, span)} + {moved}
      ensures q != 0 ==> Pointer(moved) == q && moved.size == size
      ensures q != 0 ==> Kept(old(memory[..]), memory[..], base - origin, Live(offset, oldSize, span), moved,
                              if oldSize < size then oldSize else size)
      ensures SamePayloads(old(memory[..]), memory[..], base - origin, old(Blocks()) - {Live(offset, oldSize, span)})
    {
      hide Tiled, Laid, Freed, At, Mark, SamePayloads, Plausible, Word, Total, Chain, Lives, AllSized, Put, PutLive, Room, Kept;
      ghost var m0, shift, b, ts := memory[..], base - origin, Live(offset, oldSize, span), tiles;
      q, moved := 0, b;
      BlockAt(ts, offset, b);
      PayloadsSame(m0, shift, ts, used);
      if size == 0 {
        var failed := Free(base + offset + 8);
        SamePayloadsPart(m0, memory[..], shift, Blocks(), Lives(ts, 0) - {b});
        return;
      }
      BlockFits(m0, shift, ts, used, done, rest);
      if size <= span - 8 {
        Store(offset, size);
        Remarked(m0, memory[..], shift, ts, done, rest, used, size);
        Resized(ts, offset, b, size);
        SamePayloadsPart(m0, memory[..], shift, Lives(ts, 0), Lives(ts, 0) - {b});
        moved := b.(size := size);
        KeptInPlace(m0, memory[..], shift, b, moved, if oldSize < size then oldSize else size);
        tiles := Mark(ts, offset, size);
        q := base + offset + 8;
        return;
      }
      q := Alloc(size);
      if q == 0 {
        SamePayloadsPart(m0, m0, shift, Lives(ts, 0), Lives(ts, 0) - {b});
        return;
      }
      moved := PutLive(ts, size, 0);
      PutFreshRoom(ts, size, b);
      PutApart(ts, size, b);
      CopyAndFree(offset, q, oldSize, b, moved, m0, ts);
    }

    /** Copies a block's bytes to a new one and gives it back. */
    method CopyAndFree(offset: nat, q: nat, oldSize: nat, ghost b: Live, ghost moved: Live, ghost m0: seq<Byte>,
                       ghost ts: seq<Tile>)
      requires Valid() && Tiled(ts) && b in Lives(ts, 0) && b.at == offset && b.size == oldSize
      requires Blocks() == Lives(ts, 0) + {moved} && moved !in Lives(ts, 0) && Pointer(moved) == q && oldSize < moved.size
      requires (b.at + b.span <= moved.at || moved.at + moved.span <= b.at) && At(tiles, b.at, 0) == {b} && moved.at != b.at
      requires forall c :: c in Lives(ts, 0) && c.at == b.at ==> c == b
      requires |m0| == memory.Length && SamePayloads(m0, memory[..], base - origin, Lives(ts, 0))
      modifies this`used, this`tiles, memory
      ensures Valid() && Blocks() == Lives(ts, 0) - {b} + {moved}
      ensures Kept(m0, memory[..], base - origin, b, moved, oldSize)
      ensures SamePayloads(m0, memory[..], base - origin, Lives(ts, 0) - {b})
    {
      hide Tiled, Laid, Freed, At, Mark, SamePayloads, Plausible, Word, Total, Chain, Lives, Put, PutLive, Kept;
      ghost var m1, shift := memory[..], base - origin;
      InsideMemory(m1, shift, tiles, used, b);
      InsideMemory(m1, shift, tiles, used, moved);
      var from, to := base - origin + offset + 8, q - origin;
      CopyBytes(from, to, oldSize);
      PayloadWritten(m1, memory[..], shift, tiles, used, moved, to + oldSize);
      ghost var m2 := memory[..];
      KeptCopied(m0, m1, m2, shift, b, moved, oldSize, Lives(ts, 0));
      SamePayloadsPart(m1, m2, shift, Blocks() - {moved}, Lives(ts, 0) - {b});
      SamePayloadsPart(m0, m1, shift, Lives(ts, 0), Lives(ts, 0) - {b});
      SamePayloadsChain(m0, m1, m2, shift, Lives(ts, 0) - {b});
      var failed := Free(base + offset + 8);
      assert Blocks() == Lives(ts, 0) - {b} + {moved};
      SamePayloadsPart(m2, memory[..], shift, Blocks(), Lives(ts, 0) - {b});
      SamePayloadsChain(m0, m2, memory[..], shift, Lives(ts, 0) - {b});
      KeptStays(m0, m2, memory[..], shift, b, moved, oldSize, Blocks());
    }

    /** Copies bytes to a place that does not overlap. */
    method CopyBytes(from: nat, to: nat, n: nat)
      requires from + n <= memory.Length && to + n <= memory.Length && (from + n <= to || to + n <= from)
      modifies memory
      ensures SameOutside(old(memory[..]), memory[..], to, to + n)
      ensures memory[..][to..to + n] == old(memory[..])[from..from + n]
    {
      ghost var m1 := memory[..];
      for i := 0 to n
        invariant SameOutside(m1, memory[..], to, to + i)
        invariant memory[to..to + i] == m1[from..from + i]
      {
        assert memory[..][from + i] == m1[from + i];
        memory[to + i] := memory[from + i];
        assert m1[from..from + i + 1] == m1[from..from + i] + [m1[from + i]];
        assert memory[to..to + i + 1] == memory[to..to + i] + [memory[to + i]];
      }
      assert memory[..][to..to + n] == memory[to..to + n];
    }

    /** Null when the product does not fit a word or there is no room; otherwise all bytes are zero. */
    method Calloc(count: nat, size: nat) returns (p: nat)
      requires Valid() && count < WORD_LIMIT && size < WORD_LIMIT
      modifies this`used, this`tiles, memory
      ensures Valid()
      ensures p != 0 <==> count * size < WORD_LIMIT && Room(old(tiles), capacity - old(used), count * size)
      ensures p == 0 ==> tiles == old(tiles) && used == old(used) && memory[..] == old(memory[..])
      ensures p != 0 ==> tiles == Put(old(tiles), count * size) && p == Pointer(PutLive(old(tiles), count * size, 0))
      ensures p != 0 ==> origin <= p && p - origin + count * size <= memory.Length
      ensures p != 0 ==> memory[p - origin..p - origin + count * size] == Zeros(count * size)
      ensures SamePayloads(old(memory[..]), memory[..], base - origin, old(Blocks()))
    {
      hide Tiled, Laid, SamePayloads, Plausible, Word, Total, Chain, Lives, Put, PutLive, Room, SpanFor;
      ghost var m0, shift, ts := memory[..], base - origin, tiles;
      PayloadsSame(m0, shift, ts, used);
      p := 0;
      ProductFits(count, size);
      if size != 0 && count > 0xffff_ffff / size {
        return;
      }
      var bytes := count * size;
      p := Alloc(bytes);
      if p == 0 {
        return;
      }
      ghost var m1, b, reached := memory[..], PutLive(ts, bytes, 0), used;
      RoomSize(ts, capacity - old(used), bytes);
      PutLiveSize(ts, bytes, 0);
      PutFreshAll(ts, bytes);
      InsideMemory(m1, shift, tiles, used, b);
      var at := p - origin;
      for i := 0 to bytes
        invariant Placed() && SameOutside(m1, memory[..], at, at + i) && tiles == Put(ts, bytes) && used == reached
        invariant memory[at..at + i] == Zeros(i)
      {
        memory[at + i] := 0;
        assert memory[at..at + i + 1] == memory[at..at + i] + [0];
        assert Zeros(i + 1) == Zeros(i) + [0];
      }
      PayloadWritten(m1, memory[..], shift, tiles, used, b, at + bytes);
      SamePayloadsPart(m1, memory[..], shift, Blocks() - {b}, Lives(ts, 0));
      SamePayloadsChain(m0, m1, memory[..], shift, Lives(ts, 0));
    }
  }
}
