/**
 * The physical layer shared by both TLSF arenas: a region tiled by block headers.
 *
 * A block header holds the distance to the next header, its own FREE bit, the
 * PREV_FREE bit and the address of the physical predecessor.  Addresses are
 * naturals and 0 is NULL.  The header of a block that has been absorbed by a
 * neighbour becomes payload and is dropped from the map.
 */
module Tiling {
  const HEADER := 32     // sizeof(tlsf_block_t)
  const MIN_BLOCK := 32  // TLSF_MIN_BLOCK_SIZE

  datatype Tile = Tile(span: nat, free: bool, prevFree: bool, prevPhys: nat)

  type Tiles = map<nat, Tile>

  /** Where the block after a starts. */
  function Next(t: Tiles, a: nat): nat
    requires a in t
  {
    a + t[a].span
  }

  /**
   * Block a is well sized, stays inside the region and is known to its successor.
   * PREV_FREE is never set wrongly; when `exact`, it is not missing either, except
   * on the sentinel.
   */
  ghost predicate Fits(t: Tiles, raw: nat, end: nat, a: nat, exact: bool := true)
    requires a in t
  {
    && raw <= a && MIN_BLOCK <= t[a].span && t[a].span % 8 == 0
    && Next(t, a) <= end && Next(t, a) in t
    && t[Next(t, a)].prevPhys == a
    && (t[Next(t, a)].prevFree ==> t[a].free)
    && (exact && Next(t, a) != end && t[a].free ==> t[Next(t, a)].prevFree)
  }

  /** Block b has its physical predecessor right before it. */
  ghost predicate Follows(t: Tiles, b: nat)
    requires b in t
  {
    t[b].prevPhys in t && t[b].prevPhys < b && Next(t, t[b].prevPhys) == b
  }

  ghost predicate Clear(t: Tiles, a: nat, b: nat)
    requires a in t
  {
    Next(t, a) <= b
  }

  ghost predicate Ends(t: Tiles, raw: nat, end: nat) {
    && 0 < raw < end && raw in t && end in t
    && t[end].span == 0 && !t[end].free
    && t[raw].prevPhys == 0 && !t[raw].prevFree
  }

  /** With `exact`, everything the physical walk of the validator checks. */
  ghost predicate Tiled(t: Tiles, raw: nat, end: nat, exact: bool := true) {
    && Ends(t, raw, end)
    && (forall a {:trigger Fits(t, raw, end, a, exact)} :: a in t && a != end ==> Fits(t, raw, end, a, exact))
    && (forall b {:trigger Follows(t, b)} :: b in t && b != raw ==> Follows(t, b))
    && (forall a, b {:trigger Clear(t, a, b)} :: a in t && b in t && a < b ==> Clear(t, a, b))
  }

  /** No two neighbouring blocks are both free. */
  ghost predicate Lonely(t: Tiles, a: nat)
    requires a in t
  {
    t[a].free && Next(t, a) in t ==> !t[Next(t, a)].free
  }

  ghost predicate Coalesced(t: Tiles) {
    forall a {:trigger Lonely(t, a)} :: a in t ==> Lonely(t, a)
  }

  /** The blocks not on any free list, with their spans. */
  ghost function Used(t: Tiles, end: nat): map<nat, nat> {
    map a | a in t && a != end && !t[a].free :: t[a].span
  }

  // ------------------------------------------------------------- transformations

  /** Flips the FREE bit of a and tells its successor, unless that is `skip`. */
  function SetFree(t: Tiles, a: nat, free: bool, skip: nat): Tiles
    requires a in t && Next(t, a) in t && t[a].span > 0
  {
    var s := Next(t, a);
    var t1 := t[a := t[a].(free := free)];
    if s == skip then t1 else t1[s := t[s].(prevFree := free)]
  }

  /** a absorbs the block after it. */
  function Join(t: Tiles, a: nat): Tiles
    requires a in t && Next(t, a) in t && Next(t, Next(t, a)) in t
  {
    var c := Next(t, a);
    var d := Next(t, c);
    (t - {c})[a := t[a].(span := t[a].span + t[c].span)][d := t[d].(prevPhys := a)]
  }

  /** a keeps its first k bytes; the rest becomes a block in the same state. */
  function Cut(t: Tiles, a: nat, k: nat): Tiles
    requires a in t && Next(t, a) in t && k <= t[a].span
  {
    var d := Next(t, a);
    t[a := t[a].(span := k)][a + k := Tile(t[a].span - k, t[a].free, t[a].free, a)][d := t[d].(prevPhys := a + k)]
  }

  // --------------------------------------------------- each keeps the region tiled

  /** What every block of a tiled region satisfies, in one place. */
  lemma Facts(t: Tiles, raw: nat, end: nat, a: nat, exact: bool := true)
    requires Tiled(t, raw, end, exact) && a in t
    ensures raw <= a <= end && (a != end ==> Fits(t, raw, end, a, exact)) && (a != raw ==> Follows(t, a))
    ensures a != end ==> Next(t, a) in t && t[a].span > 0
  {
    assert a != end ==> Fits(t, raw, end, a, exact);
    assert a != raw ==> Follows(t, a);
  }

  /** Blocks with a common successor are the same block. */
  lemma SameNext(t: Tiles, raw: nat, end: nat, a: nat, b: nat, exact: bool := true)
    requires Tiled(t, raw, end, exact) && a in t && b in t && a != end && b != end && Next(t, a) == Next(t, b)
    ensures a == b
  {
    assert Fits(t, raw, end, a, exact) && Fits(t, raw, end, b, exact);
  }

  /** No block starts inside another. */
  lemma Outside(t: Tiles, raw: nat, end: nat, a: nat, x: nat, exact: bool := true)
    requires Tiled(t, raw, end, exact) && a in t && x in t
    ensures x <= a || Next(t, a) <= x
  {
    if a < x { assert Clear(t, a, x); }
  }

  lemma SetFreeAt(t: Tiles, raw: nat, end: nat, a: nat, free: bool, skip: nat, x: nat, exact: bool := true)
    requires Tiled(t, raw, end, exact) && a in t && a != end && x in t && (skip == 0 || skip == end)
    requires free || skip == 0 || !t[end].prevFree
    requires Next(t, a) in t && t[a].span > 0
    ensures var t' := SetFree(t, a, free, skip);
            x in t' && (x != end ==> Fits(t', raw, end, x, exact)) && (x != raw ==> Follows(t', x))
  {
    Facts(t, raw, end, x, exact);
    if x != end && Next(t, x) == Next(t, a) { SameNext(t, raw, end, a, x, exact); }
  }

  lemma SetFreeTiled(t: Tiles, raw: nat, end: nat, a: nat, free: bool, skip: nat, exact: bool := true)
    requires Tiled(t, raw, end, exact) && a in t && a != end && (skip == 0 || skip == end)
    requires free || skip == 0 || !t[end].prevFree
    ensures Next(t, a) in t && t[a].span > 0 && Tiled(SetFree(t, a, free, skip), raw, end, exact)
  {
    Facts(t, raw, end, a, exact);
    var t' := SetFree(t, a, free, skip);
    forall x | x in t' && x != end ensures Fits(t', raw, end, x, exact) {
      SetFreeAt(t, raw, end, a, free, skip, x, exact);
    }
    forall x | x in t' && x != raw ensures Follows(t', x) {
      SetFreeAt(t, raw, end, a, free, skip, x, exact);
    }
    forall x, y | x in t' && y in t' && x < y ensures Clear(t', x, y) {
      SetFreeClear(t, raw, end, a, free, skip, x, y, exact);
    }
  }

  lemma SetFreeClear(t: Tiles, raw: nat, end: nat, a: nat, free: bool, skip: nat, x: nat, y: nat, exact: bool := true)
    requires Tiled(t, raw, end, exact) && a in t && Next(t, a) in t && t[a].span > 0
    requires x in SetFree(t, a, free, skip) && y in SetFree(t, a, free, skip) && x < y
    ensures Clear(SetFree(t, a, free, skip), x, y)
  {
    assert Clear(t, x, y);
  }

  lemma JoinFits(t: Tiles, raw: nat, end: nat, a: nat, x: nat, exact: bool := true)
    requires Tiled(t, raw, end, exact) && a in t && a != end && x in t && x != end
    requires Next(t, a) in t && Next(t, a) != end && t[a].free == t[Next(t, a)].free && x != Next(t, a)
    requires Next(t, Next(t, a)) in t
    ensures x in Join(t, a) && Fits(Join(t, a), raw, end, x, exact)
  {
    var c := Next(t, a);
    Facts(t, raw, end, a, exact);
    Facts(t, raw, end, c, exact);
    Facts(t, raw, end, x, exact);
    if x != a {
      if Next(t, x) == c { SameNext(t, raw, end, a, x, exact); }
      if Next(t, x) == Next(t, c) { SameNext(t, raw, end, c, x, exact); }
    }
  }

  lemma JoinFollows(t: Tiles, raw: nat, end: nat, a: nat, x: nat, exact: bool := true)
    requires Tiled(t, raw, end, exact) && a in t && a != end && x in t && x != raw
    requires Next(t, a) in t && Next(t, a) != end && x != Next(t, a)
    requires Next(t, Next(t, a)) in t
    ensures x in Join(t, a) && Follows(Join(t, a), x)
  {
    Facts(t, raw, end, a, exact);
    Facts(t, raw, end, Next(t, a), exact);
    Facts(t, raw, end, x, exact);
  }

  lemma JoinTiled(t: Tiles, raw: nat, end: nat, a: nat, exact: bool := true)
    requires Tiled(t, raw, end, exact) && a in t && a != end
    requires Next(t, a) in t && Next(t, a) != end && t[a].free == t[Next(t, a)].free
    ensures Next(t, Next(t, a)) in t && Tiled(Join(t, a), raw, end, exact)
  {
    var c := Next(t, a);
    Facts(t, raw, end, a, exact);
    Facts(t, raw, end, c, exact);
    var t' := Join(t, a);
    forall x, y | x in t' && y in t' && x < y ensures Clear(t', x, y) {
      assert Clear(t, x, y);
      if x == a { Outside(t, raw, end, c, y, exact); }
    }
    forall x | x in t' && x != end ensures Fits(t', raw, end, x, exact) {
      JoinFits(t, raw, end, a, x, exact);
    }
    forall x | x in t' && x != raw ensures Follows(t', x) {
      JoinFollows(t, raw, end, a, x, exact);
    }
  }

  lemma CutFits(t: Tiles, raw: nat, end: nat, a: nat, k: nat, x: nat, exact: bool := true)
    requires Tiled(t, raw, end, exact) && a in t && a != end && x in t && x != end
    requires MIN_BLOCK <= k && k % 8 == 0 && MIN_BLOCK + k <= t[a].span && Next(t, a) in t
    ensures Fits(Cut(t, a, k), raw, end, x, exact)
    ensures Fits(Cut(t, a, k), raw, end, a + k, exact)
  {
    Facts(t, raw, end, a, exact);
    Facts(t, raw, end, x, exact);
    Outside(t, raw, end, a, x, exact);
    Outside(t, raw, end, a, Next(t, x), exact);
    if x != a && Next(t, x) == Next(t, a) { SameNext(t, raw, end, a, x, exact); }
  }

  lemma CutFollows(t: Tiles, raw: nat, end: nat, a: nat, k: nat, x: nat, exact: bool := true)
    requires Tiled(t, raw, end, exact) && a in t && a != end && x in t && x != raw
    requires MIN_BLOCK <= k && MIN_BLOCK + k <= t[a].span && Next(t, a) in t
    ensures Follows(Cut(t, a, k), x)
    ensures Follows(Cut(t, a, k), a + k)
  {
    Facts(t, raw, end, a, exact);
    Facts(t, raw, end, x, exact);
    Outside(t, raw, end, a, x, exact);
    Outside(t, raw, end, a, t[x].prevPhys, exact);
  }

  lemma CutClear(t: Tiles, raw: nat, end: nat, a: nat, k: nat, x: nat, y: nat, exact: bool := true)
    requires Tiled(t, raw, end, exact) && a in t && a != end && x < y
    requires MIN_BLOCK <= k && MIN_BLOCK + k <= t[a].span && Next(t, a) in t
    requires x in Cut(t, a, k) && y in Cut(t, a, k)
    ensures Clear(Cut(t, a, k), x, y)
  {
    Facts(t, raw, end, a, exact);
    if x in t { Outside(t, raw, end, a, x, exact); }
    if y in t { Outside(t, raw, end, a, y, exact); }
    if x in t && y in t { assert Clear(t, x, y); }
    if x in t && x < a { assert Clear(t, x, a); }
  }

  lemma CutTiled(t: Tiles, raw: nat, end: nat, a: nat, k: nat, exact: bool := true)
    requires Tiled(t, raw, end, exact) && a in t && a != end
    requires MIN_BLOCK <= k && k % 8 == 0 && MIN_BLOCK + k <= t[a].span
    ensures Next(t, a) in t && a + k !in t && Tiled(Cut(t, a, k), raw, end, exact)
  {
    Facts(t, raw, end, a, exact);
    var t' := Cut(t, a, k);
    if a + k in t { Outside(t, raw, end, a, a + k, exact); }
    Outside(t, raw, end, a, end, exact);
    forall x, y | x in t' && y in t' && x < y ensures Clear(t', x, y) {
      CutClear(t, raw, end, a, k, x, y, exact);
    }
    forall x | x in t' && x != end ensures Fits(t', raw, end, x, exact) {
      CutFits(t, raw, end, a, k, if x in t then x else a, exact);
    }
    forall x | x in t' && x != raw ensures Follows(t', x) {
      CutFollows(t, raw, end, a, k, if x in t then x else Next(t, a), exact);
    }
  }

  // ------------------------------------------------------- what tiling is good for

  /** Every byte of the region belongs to a block. */
  lemma {:induction false} NoGaps(t: Tiles, raw: nat, end: nat, x: nat, b: nat, exact: bool := true) returns (a: nat)
    requires Tiled(t, raw, end, exact) && b in t && raw <= x < b
    ensures a in t && a != end && a <= x < Next(t, a)
    decreases b
  {
    Facts(t, raw, end, b, exact);
    a := t[b].prevPhys;
    Facts(t, raw, end, a, exact);
    if x < a {
      a := NoGaps(t, raw, end, x, a, exact);
    }
  }

  /** No byte belongs to two blocks. */
  lemma NoOverlap(t: Tiles, raw: nat, end: nat, a: nat, b: nat, x: nat, exact: bool := true)
    requires Tiled(t, raw, end, exact) && a in t && b in t
    requires a <= x < Next(t, a) && b <= x < Next(t, b)
    ensures a == b
  {
    Outside(t, raw, end, a, b, exact);
    Outside(t, raw, end, b, a, exact);
  }

  /** PREV_FREE is exact. */
  lemma PrevFreeExact(t: Tiles, raw: nat, end: nat, b: nat)
    requires Tiled(t, raw, end) && b in t && b != end
    ensures t[b].prevFree <==> b != raw && t[b].prevPhys in t && t[t[b].prevPhys].free
  {
    Facts(t, raw, end, b);
    if b != raw { Facts(t, raw, end, t[b].prevPhys); }
  }

  /** PREV_FREE never lies. */
  lemma FlagHonest(t: Tiles, raw: nat, end: nat, b: nat, exact: bool := true)
    requires Tiled(t, raw, end, exact) && b in t && t[b].prevFree
    ensures b != raw && t[b].prevPhys in t && t[t[b].prevPhys].free
  {
    Facts(t, raw, end, b, exact);
    Facts(t, raw, end, t[b].prevPhys, exact);
  }

  /** With nothing in use, a coalesced region is a single free block. */
  lemma AllFreeIsOne(t: Tiles, raw: nat, end: nat, exact: bool := true)
    requires Tiled(t, raw, end, exact) && Coalesced(t)
    requires forall a :: a in t && a != end ==> t[a].free
    ensures t.Keys == {raw, end} && t[raw].free && t[raw].span == end - raw
  {
    Facts(t, raw, end, raw, exact);
    assert Lonely(t, raw);
    assert Next(t, raw) == end;
    forall b | b in t ensures b == raw || b == end {
      Facts(t, raw, end, b, exact);
      Outside(t, raw, end, raw, b, exact);
    }
  }

  /** Cutting and joining undo each other. */
  lemma CutJoin(t: Tiles, raw: nat, end: nat, a: nat, k: nat)
    requires Tiled(t, raw, end) && a in t && a != end
    requires MIN_BLOCK <= k && k % 8 == 0 && MIN_BLOCK + k <= t[a].span
    ensures Next(t, a) in t && Cut(t, a, k)[a].span == k
    ensures Next(Cut(t, a, k), a) in Cut(t, a, k) && Next(Cut(t, a, k), a + k) in Cut(t, a, k)
    ensures Join(Cut(t, a, k), a) == t
  {
    CutTiled(t, raw, end, a, k);
    Facts(t, raw, end, a);
  }

  /** Behind a free block comes a used one or the end. */
  lemma GapEnds(t: Tiles, raw: nat, end: nat, a: nat)
    requires Tiled(t, raw, end) && Coalesced(t) && a in t && t[a].free
    ensures Next(t, a) in t && a < Next(t, a) && (Next(t, a) == end || Next(t, a) in Used(t, end))
  {
    Facts(t, raw, end, a);
    assert Lonely(t, a);
  }
}
