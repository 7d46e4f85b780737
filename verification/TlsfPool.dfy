/**
 * One arena of the shared TLSF allocator: headers, segregated free lists and bitmaps,
 * updated in place under the arena lock.
 */
module TlsfPool {
  import opened Folding
  import opened Tiling
  import opened SortedList
  import opened TlsfIndex
  import opened LinkedStacks
  import opened BucketLists
  import opened TlsfBlocks

  class Pool {
    const raw: nat
    const end: nat           // address of the sentinel
    var tiles: Tiles         // size_and_flags and prev_physical of every block
    var links: Links         // next_free and prev_free
    var heads: Heads         // blocks[fl][sl]
    var slMap: seq<Word>     // sl_bitmap
    var flMap: Word          // fl_bitmap

    ghost var keys: Keys     // the listed blocks and their buckets
    ghost var used: map<nat, nat>  // the blocks handed out, with their spans
    ghost var stamp: map<nat, nat>
    ghost var clock: nat
    ghost var strict: bool   // PREV_FREE is exact and no two free blocks touch

    /** The free lists and bitmaps agree with each other. */
    ghost predicate Listed()
      reads this
    {
      Threaded(keys, links, heads, stamp, clock) && Proper(heads) && Marked(slMap, flMap, heads)
    }

    ghost predicate Valid()
      reads this
    {
      Sound(tiles, raw, end, strict) && keys == KeysOf(tiles) && Listed() && used == Used(tiles, end)
    }

    /** Valid(), folded: callers assert Seal(0) where they need the inside of it. */
    ghost predicate Sealed()
      reads this
    {
      forall k: nat {:trigger Seal(k)} :: Seal(k) ==> Valid()
    }

    /** tlsf_insert_free_block_nolock */
    method InsertFreeBlock(f: nat)
      requires Listed() && f !in keys && f != 0 && f in tiles && tiles[f].span < LIMIT
      modifies this`links, this`heads, this`slMap, this`flMap, this`keys, this`stamp, this`clock
      ensures Listed() && keys == old(keys)[f := MappingInsert(tiles[f].span)]
    {
      var b := MappingInsert(tiles[f].span);
      HasBucket(tiles[f].span);
      InsertInto(f, b);
    }

    /** The head push and the two bits. */
    method InsertInto(f: nat, b: Bucket)
      requires Listed() && f !in keys && f != 0 && b.fl < FL_MAX && b.sl < SL_COUNT
      modifies this`links, this`heads, this`slMap, this`flMap, this`keys, this`stamp, this`clock
      ensures Listed() && keys == old(keys)[f := b]
    {
      assert b == Bucket(b.fl, b.sl);
      ghost var heads0 := heads;
      var h := heads[b];
      PushThreaded(keys, links, heads, stamp, clock, f, b);
      MarkSet(slMap, flMap, heads, heads[b := f], b);
      links := links[f := Link(h, 0)];
      if h != 0 {
        assert Headed(keys, old(links), heads0, b);
        links := links[h := links[h].(prev := f)];
      }
      heads := heads[b := f];
      flMap := flMap[b.fl := true];
      slMap := slMap[b.fl := slMap[b.fl][b.sl := true]];
      keys, stamp, clock := keys[f := b], stamp[f := clock], clock + 1;
    }

    /** tlsf_remove_free_block_nolock */
    method RemoveFreeBlock(f: nat)
      requires Listed() && f in keys && f in tiles && keys[f] == MappingInsert(tiles[f].span)
      modifies this`links, this`heads, this`slMap, this`flMap, this`keys
      ensures Listed() && keys == old(keys) - {f}
    {
      var b := MappingInsert(tiles[f].span);
      UnhookThreaded(keys, links, heads, stamp, clock, f);
      ListedHasHead(keys, links, heads, stamp, clock, f);
      assert Hooked(keys, links, heads, stamp, clock, f) && Headed(keys, links, heads, b);
      ghost var heads0, ks := heads, links;
      var n, p := links[f].next, links[f].prev;
      if p != 0 {
        links := links[p := links[p].(next := n)];
      } else {
        heads := heads[b := n];
      }
      if n != 0 {
        links := links[n := links[n].(prev := p)];
      }
      assert links == Unhooked(ks, f) && heads == UnhookedHeads(ks, heads0, f, b);
      if heads[b] == 0 {
        MarkCleared(slMap, flMap, heads0, heads, b);
        slMap := slMap[b.fl := slMap[b.fl][b.sl := false]];
        if Ffs(slMap[b.fl], 0) == 32 {
          flMap := flMap[b.fl := false];
        }
      } else {
        MarkKept(slMap, flMap, heads0, heads, b);
      }
      keys := keys - {f};
    }
  
    /** tlsf_create_pool_custom, `start` being the address of the area behind the pool header. */
    constructor (start: nat, size: nat)
      requires start > 0 && MIN_BLOCK + HEADER <= Aligned(size) < LIMIT
      ensures raw == start && end == start + Aligned(size) - HEADER
      ensures Valid() && strict && tiles.Keys == {raw, end} && tiles[raw].free && used == map[]
    {
      var span := Aligned(size) - HEADER;
      raw, end := start, start + span;
      tiles := map[start := Tile(span, true, false, 0), start + span := Tile(0, false, false, start)];
      links := map[];
      heads := NoHeads();
      flMap := seq(32, _ => false);
      slMap := seq(FL_MAX, _ => seq(32, _ => false));
      keys, stamp, clock, strict, used := map[], map[], 0, true, map[];
      new;
      FreshListed(slMap, flMap);
      InsertFreeBlock(raw);
      FreshSound(raw, end, tiles);
    }

    /** tlsf_find_suitable_block: the head of the first bucket whose blocks all reach the rounded request. */
    method Find(total: nat) returns (f: nat)
      requires Valid() && total < LIMIT
      ensures f != 0 <==> HasFit(tiles, total)
      ensures f != 0 ==> GoodFit(tiles, f, total)
    {
      f := FindSuitable(slMap, flMap, heads, total);
      ghost var size := map a | a in tiles :: tiles[a].span;
      SizedTiles(tiles, raw, end, strict, size);
      FindCorrect(keys, size, links, heads, stamp, clock, slMap, flMap, total);
      FitReading(tiles, size, f, total);
    }

    /** The header writes of a split; `back` is the block behind the tail. */
    method WriteSplit(front: nat, total: nat, remaining: nat, back: nat)
      requires front in tiles && back in tiles
      modifies this`tiles
      ensures tiles == SplitEdits(old(tiles), front, total, remaining, back)
    {
      tiles := tiles[front := tiles[front].(span := total, free := false)];
      tiles := tiles[front + total := Tile(remaining, true, false, front)];
      tiles := tiles[back := tiles[back].(prevPhys := front + total, prevFree := true)];
    }

    /** The arena part of tlsf_alloc: unlink the block found and split it if the rest can stand alone. */
    method Carve(f: nat, total: nat)
      requires Valid() && MIN_BLOCK <= total && total % 8 == 0 && f in tiles && tiles[f].free && total <= tiles[f].span
      modifies this
      ensures Valid() && strict == old(strict)
      ensures used == old(used)[f := TakenSpan(old(tiles)[f].span, total)] && Carved(this, f, total)
    {
      var current := tiles[f].span;
      var remaining := current - total;
      if remaining >= MIN_BLOCK + HEADER {
        CarveFront(f, total, remaining);
      } else {
        CarveWhole(f);
      }
    }

    method CarveFront(f: nat, total: nat, remaining: nat)
      requires Valid() && MIN_BLOCK <= total && total % 8 == 0 && f in tiles && tiles[f].free
      requires remaining >= MIN_BLOCK + HEADER && tiles[f].span == total + remaining
      modifies this
      ensures Valid() && strict == old(strict) && used == old(used)[f := total]
    {
      AllocSplitEffect(tiles, raw, end, strict, f, total);
      RemoveFreeBlock(f);
      WriteSplit(f, total, remaining, f + tiles[f].span);
      ListTail(f + total);
    }

    method CarveWhole(f: nat)
      requires Valid() && f in tiles && tiles[f].free
      modifies this
      ensures Valid() && strict == old(strict) && used == old(used)[f := old(tiles)[f].span]
    {
      TakeSound(tiles, raw, end, strict, f);
      TakeSets(tiles, end, f);
      RemoveFreeBlock(f);
      var next := f + tiles[f].span;
      tiles := tiles[f := tiles[f].(free := false)];
      tiles := tiles[next := tiles[next].(prevFree := false)];
      assert tiles == Take(old(tiles), f);
      used := Used(tiles, end);
    }

    /** The two tests of tlsf_try_inplace_expand, for a block total that includes both headers. */
    method CanExpand(b: nat, total: nat) returns (ok: bool)
      requires Valid() && b in used
      ensures ok <==> CanGrow(tiles, b, total)
    {
      Facts(tiles, raw, end, b, strict);
      var next := b + tiles[b].span;
      ok := tiles[next].free && tiles[b].span + tiles[next].span >= total;
    }

    /** b takes over the free block behind it and gives back what it does not need. */
    method Swallow(b: nat, total: nat) returns (span: nat)
      requires Valid() && b in used && MIN_BLOCK <= total && total % 8 == 0 && CanGrow(tiles, b, total)
      modifies this
      ensures Valid() && strict == old(strict) && span >= total
      ensures span == GrownSpan(old(tiles), b, total) && used == old(used)[b := span]
    {
      var next := b + tiles[b].span;
      var combined := tiles[b].span + tiles[next].span;
      var remaining := combined - total;
      if remaining >= MIN_BLOCK + HEADER {
        SwallowFront(b, next, total, remaining);
        span := total;
      } else {
        SwallowWhole(b, next, combined);
        span := combined;
      }
    }

    method SwallowFront(b: nat, next: nat, total: nat, remaining: nat)
      requires Valid() && b in used && MIN_BLOCK <= total && total % 8 == 0
      requires next == Next(tiles, b) && next in tiles && tiles[next].free
      requires remaining >= MIN_BLOCK + HEADER && tiles[b].span + tiles[next].span == total + remaining
      modifies this
      ensures Valid() && strict == old(strict) && used == old(used)[b := total]
    {
      ghost var v := ExpandSplitReady(tiles, raw, end, strict, b, next, total, remaining);
      RemoveFreeBlock(next);
      WriteSwallow(b, next, total, remaining);
      ListTail(b + total);
    }

    method WriteSwallow(b: nat, next: nat, total: nat, remaining: nat)
      requires b in tiles && b != next && b + total + remaining in tiles && b + total + remaining != next
      modifies this`tiles
      ensures tiles == SplitEdits(old(tiles) - {next}, b, total, remaining, b + total + remaining)
    {
      tiles := tiles - {next};
      WriteSplit(b, total, remaining, b + total + remaining);
    }

    /** Lists the tail of a split. */
    method ListTail(x: nat)
      requires Sound(tiles, raw, end, strict) && Listed() && 0 < x && x in tiles && tiles[x].span < LIMIT
      requires x !in keys && KeysOf(tiles) == keys[x := MappingInsert(tiles[x].span)]
      modifies this`links, this`heads, this`slMap, this`flMap, this`keys, this`stamp, this`clock, this`used
      ensures Valid()
    {
      InsertFreeBlock(x);
      used := Used(tiles, end);
    }

    method SwallowWhole(b: nat, next: nat, combined: nat)
      requires Valid() && b in used && next == Next(tiles, b) && next in tiles && tiles[next].free
      requires combined == tiles[b].span + tiles[next].span
      modifies this
      ensures Valid() && strict == old(strict) && used == old(used)[b := combined]
    {
      SwallowReady(tiles, raw, end, strict, b, next, combined);
      RemoveFreeBlock(next);
      WriteWhole(b, next, combined);
      used := Used(tiles, end);
    }

    method WriteWhole(b: nat, next: nat, combined: nat)
      requires b in tiles && b != next && b + combined in tiles && b + combined != next
      modifies this`tiles
      ensures tiles == SwallowEdits(old(tiles), b, next, b + combined, combined)
    {
      var far := b + combined;
      tiles := tiles - {next};
      tiles := tiles[b := tiles[b].(span := combined)];
      tiles := tiles[far := tiles[far].(prevPhys := b, prevFree := false)];
    }

    /** The header writes of a merge: a grows over the block behind it. */
    method WriteJoin(a: nat, c: nat)
      requires a in tiles && c in tiles && tiles[a].span > 0 && tiles[c].span > 0 && c == Next(tiles, a)
      requires Next(tiles, c) in tiles
      modifies this`tiles
      ensures tiles == Join(old(tiles), a)
    {
      var size := tiles[a].span + tiles[c].span;
      tiles := tiles - {c};
      tiles := tiles[a := tiles[a].(span := size)];
      tiles := tiles[a + size := tiles[a + size].(prevPhys := a)];
    }

    /** Unlinks the free neighbour f and makes one block of a and the block c behind it. */
    method Annex(f: nat, a: nat, c: nat)
      requires Listed() && f in keys && f in tiles && keys[f] == MappingInsert(tiles[f].span)
      requires a in tiles && c in tiles && tiles[a].span > 0 && tiles[c].span > 0 && c == Next(tiles, a)
      requires Next(tiles, c) in tiles
      modifies this`tiles, this`links, this`heads, this`slMap, this`flMap, this`keys
      ensures Listed() && keys == old(keys) - {f} && tiles == Join(old(tiles), a)
    {
      RemoveFreeBlock(f);
      WriteJoin(a, c);
    }

    method CoalesceNext(b: nat, ghost u: Tiles) returns (ghost u': Tiles)
      requires Freeing(u, tiles, raw, end, strict, b) && keys == KeysOf(u) && Listed()
      modifies this`tiles, this`links, this`heads, this`slMap, this`flMap, this`keys
      ensures Freeing(u', tiles, raw, end, strict, b) && keys == KeysOf(u') && Listed()
      ensures Used(u', end) - {b} == Used(u, end) - {b}
      ensures u'[b].prevFree == u[b].prevFree && u'[b].prevPhys == u[b].prevPhys
      ensures strict ==> Next(u', b) in u' && !u'[Next(u', b)].free
    {
      u' := u;
      FreeingSees(u, tiles, raw, end, strict, b);
      var next := b + tiles[b].span;
      if tiles[next].free {
        CoalesceNextEffect(u, tiles, raw, end, strict, b);
        Annex(next, b, next);
        u' := MergeNext(u, b);
      }
    }

    method CoalescePrev(b: nat, ghost u: Tiles) returns (s: nat, ghost u': Tiles)
      requires Freeing(u, tiles, raw, end, strict, b) && keys == KeysOf(u) && Listed()
      requires strict ==> Next(u, b) in u && !u[Next(u, b)].free
      modifies this`tiles, this`links, this`heads, this`slMap, this`flMap, this`keys
      ensures Freeing(u', tiles, raw, end, strict, s) && keys == KeysOf(u') && Listed()
      ensures Used(u', end) - {s} == Used(u, end) - {b} && (strict ==> Alone(u', raw, s))
    {
      s, u' := b, u;
      FreeingSees(u, tiles, raw, end, strict, b);
      if tiles[b].prevFree {
        CoalescePrevEffect(u, tiles, raw, end, strict, b);
        var p := tiles[b].prevPhys;
        if p != 0 && tiles[p].free {
          Annex(p, p, b);
          s, u' := p, MergePrev(u, p);
        }
      } else if strict {
        NoFreeBefore(u, raw, end, b);
      }
    }

    /**
     * A cached block is stamped FREE and listed, without coalescing and without telling the
     * block behind it.  `strict` survives exactly when PutBackStrictIff says so.
     */
    method PutBack(b: nat)
      requires Valid() && b in used
      modifies this
      ensures Valid() && WentBack(this, b)
    {
      PutBackSound(tiles, raw, end, strict, b);
      PutBackSets(tiles, end, b);
      Facts(tiles, raw, end, b, strict);
      strict := strict && Next(tiles, b) == end && !tiles[b].prevFree;
      tiles := tiles[b := tiles[b].(free := true)];
      InsertFreeBlock(b);
      used := Used(tiles, end);
    }

    /** tlsf_free on the arena. */
    method FreeBlock(b: nat)
      requires Valid() && b in used
      modifies this
      ensures Valid() && strict == old(strict) && used == old(used) - {b}
    {
      ghost var u := tiles;
      tiles := tiles[b := tiles[b].(free := true)];
      assert Veiled(u, tiles, b) by {
        forall x | x in u ensures SameBut(u, tiles, b, x) {}
      }
      u := CoalesceNext(b, u);
      var s: nat;
      s, u := CoalescePrev(b, u);
      Finish(s, u);
    }

    method Finish(s: nat, ghost u: Tiles)
      requires Freeing(u, tiles, raw, end, strict, s) && keys == KeysOf(u) && Listed() && (strict ==> Alone(u, raw, s))
      modifies this
      ensures Valid() && strict == old(strict) && used == Used(u, end) - {s}
    {
      ReleaseSound(u, raw, end, strict, s);
      ReleaseSets(u, end, s);
      VeiledDone(u, tiles, s);
      Facts(u, raw, end, s, strict);
      var after := s + tiles[s].span;
      tiles := tiles[after := tiles[after].(prevFree := true)];
      InsertFreeBlock(s);
      used := Used(tiles, end);
    }
  }

  /** A free block f was handed out for `total` bytes: cut to them if 64 bytes and more are left over. */
  twostate predicate Carved(p: Pool, f: nat, total: nat)
    reads p
  {
    && f in old(p.tiles) && old(p.tiles)[f].free && total <= old(p.tiles)[f].span
    && p.used == old(p.used)[f := if old(p.tiles)[f].span >= total + 64 then total else old(p.tiles)[f].span]
  }

  /** Block b went back uncoalesced: what changed in its arena, and what became of `strict`. */
  twostate predicate WentBack(p: Pool, b: nat)
    reads p
  {
    && b in old(p.tiles) && !old(p.tiles)[b].free && p.tiles == PutBackEdits(old(p.tiles), b)
    && b in old(p.used) && old(p.used)[b] == old(p.tiles)[b].span && p.used == old(p.used) - {b}
    && p.strict == (old(p.strict) && Next(old(p.tiles), b) == p.end && !old(p.tiles)[b].prevFree)
  }

  function Aligned(n: nat): nat {
    (n + 7) / 8 * 8
  }

  function NoHeads(): Heads {
    map fl, sl | 0 <= fl < FL_MAX && 0 <= sl < SL_COUNT :: Bucket(fl, sl) := 0
  }

  lemma FreshListed(slMap: seq<Word>, flMap: Word)
    requires slMap == seq(FL_MAX, _ => seq(32, _ => false)) && flMap == seq(32, _ => false)
    ensures Threaded(map[], map[], NoHeads(), map[], 0) && Proper(NoHeads()) && Marked(slMap, flMap, NoHeads())
  {
    forall fl: nat | fl < 32 ensures FlBit(slMap, flMap, fl) {
      if fl < FL_MAX && Ffs(slMap[fl], 0) < 32 { assert slMap[fl][Ffs(slMap[fl], 0)]; }
    }
  }

  lemma FreshSound(raw: nat, end: nat, t: Tiles)
    requires 0 < raw && MIN_BLOCK <= end - raw < LIMIT && (end - raw) % 8 == 0
    requires t == map[raw := Tile(end - raw, true, false, 0), end := Tile(0, false, false, raw)]
    ensures Sound(t, raw, end, true) && Used(t, end) == map[]
    ensures KeysOf(t) == map[raw := MappingInsert(end - raw)]
  {
    assert Lonely(t, raw) && Lonely(t, end);
  }

  /** What the search promises about bucket keys, said of blocks. */
  lemma FitReading(t: Tiles, size: map<nat, nat>, f: nat, total: nat)
    requires size == map a | a in t :: t[a].span
    requires f != 0 ==> f in KeysOf(t) && total <= RoundedUp(total) <= size[f]
    requires forall g :: g in KeysOf(t) && size[g] >= RoundedUp(total) ==> f != 0 && AtMost(KeysOf(t)[f], KeysOf(t)[g])
    ensures f != 0 <==> HasFit(t, total)
    ensures f != 0 ==> GoodFit(t, f, total)
  {
    forall g ensures FitsAt(t, g, total) <==> g in KeysOf(t) && size[g] >= RoundedUp(total) {
      if g in t { CoversIff(t[g].span, total); }
    }
  }

  /** Listed blocks are smaller than the arena. */
  lemma SizedTiles(t: Tiles, raw: nat, end: nat, strict: bool, size: map<nat, nat>)
    requires Sound(t, raw, end, strict) && size == map a | a in t :: t[a].span
    ensures Sized(KeysOf(t), size)
  {
    forall f | f in KeysOf(t) ensures f in size && size[f] < LIMIT && KeysOf(t)[f] == MappingInsert(size[f]) {
      Facts(t, raw, end, f, strict);
    }
  }
}
