/**
 * The block headers of a shared TLSF arena.  Allocation, release and growth are
 * compositions of four moves: take a free block, release a used one, join a used
 * block with the used block after it, and cut a used block in two.
 */
module TlsfBlocks {
  import opened Tiling
  import opened TlsfIndex
  import opened BucketLists

  /** Which free list each free block belongs on. */
  ghost function KeysOf(t: Tiles): Keys {
    map a | a in t && t[a].free :: MappingInsert(t[a].span)
  }

  /**
   * The region is tiled.  When `strict`, PREV_FREE is exact and no two free blocks
   * touch; otherwise PREV_FREE may be missing and free blocks may touch.
   */
  ghost predicate Sound(t: Tiles, raw: nat, end: nat, strict: bool) {
    Tiled(t, raw, end, strict) && (strict ==> Coalesced(t)) && end - raw < LIMIT
  }

  /** Giving up strictness gives up nothing else. */
  lemma Relax(t: Tiles, raw: nat, end: nat, strict: bool)
    requires Tiled(t, raw, end, strict)
    ensures Tiled(t, raw, end, false)
  {
    forall a | a in t && a != end ensures Fits(t, raw, end, a, false) {
      assert Fits(t, raw, end, a, strict);
    }
  }

  // ---------------------------------------------------------------- the four moves

  function Take(t: Tiles, f: nat): Tiles
    requires f in t && Next(t, f) in t && t[f].span > 0
  {
    SetFree(t, f, false, 0)
  }

  function Release(t: Tiles, s: nat): Tiles
    requires s in t && Next(t, s) in t && t[s].span > 0
  {
    SetFree(t, s, true, 0)
  }

  /** No free block touches a. */
  ghost predicate Alone(t: Tiles, raw: nat, a: nat)
    requires a in t
  {
    && (Next(t, a) in t ==> !t[Next(t, a)].free)
    && (a != raw && t[a].prevPhys in t ==> !t[t[a].prevPhys].free)
  }

  lemma TakeSets(t: Tiles, end: nat, f: nat)
    requires f in t && Next(t, f) in t && t[f].span > 0 && f != end && t[f].free
    ensures Used(Take(t, f), end) == Used(t, end)[f := t[f].span]
    ensures KeysOf(Take(t, f)) == KeysOf(t) - {f}
  {
  }

  lemma TakeSound(t: Tiles, raw: nat, end: nat, strict: bool, f: nat)
    requires Sound(t, raw, end, strict) && f in t && t[f].free
    ensures f != end && Next(t, f) in t && t[f].span > 0 && Sound(Take(t, f), raw, end, strict)
    ensures strict ==> Alone(Take(t, f), raw, f)
  {
    Facts(t, raw, end, f, strict);
    SetFreeTiled(t, raw, end, f, false, 0, strict);
    if strict {
      var t' := Take(t, f);
      forall a | a in t' ensures Lonely(t', a) {
        assert Lonely(t, a);
      }
      assert Lonely(t, f);
      if f != raw { assert Lonely(t, t[f].prevPhys); }
    }
  }

  lemma ReleaseSets(t: Tiles, end: nat, s: nat)
    requires s in t && Next(t, s) in t && t[s].span > 0 && s != end && !t[s].free
    ensures Used(Release(t, s), end) == Used(t, end) - {s}
    ensures KeysOf(Release(t, s)) == KeysOf(t)[s := MappingInsert(t[s].span)]
  {
  }

  lemma ReleaseSound(t: Tiles, raw: nat, end: nat, strict: bool, s: nat)
    requires Sound(t, raw, end, strict) && s in t && s != end && !t[s].free && (strict ==> Alone(t, raw, s))
    ensures Next(t, s) in t && t[s].span > 0 && Sound(Release(t, s), raw, end, strict)
  {
    Facts(t, raw, end, s, strict);
    SetFreeTiled(t, raw, end, s, true, 0, strict);
    if strict {
      var t' := Release(t, s);
      forall a | a in t' ensures Lonely(t', a) {
        assert Lonely(t, a);
        Facts(t, raw, end, a, strict);
      }
    }
  }

  lemma JoinSets(t: Tiles, end: nat, a: nat)
    requires a in t && Next(t, a) in t && Next(t, Next(t, a)) in t && t[a].span > 0 && t[Next(t, a)].span > 0
    requires a != end && Next(t, a) != end && !t[a].free && !t[Next(t, a)].free
    ensures Used(Join(t, a), end) == (Used(t, end) - {Next(t, a)})[a := t[a].span + t[Next(t, a)].span]
    ensures KeysOf(Join(t, a)) == KeysOf(t)
  {
  }

  lemma JoinSound(t: Tiles, raw: nat, end: nat, strict: bool, a: nat)
    requires Sound(t, raw, end, strict) && a in t && a != end && !t[a].free
    requires Next(t, a) in t && Next(t, a) != end && !t[Next(t, a)].free
    ensures t[a].span > 0 && t[Next(t, a)].span > 0
    ensures Next(t, Next(t, a)) in t && Sound(Join(t, a), raw, end, strict)
  {
    Facts(t, raw, end, a, strict);
    Facts(t, raw, end, Next(t, a), strict);
    JoinTiled(t, raw, end, a, strict);
    if strict {
      var t' := Join(t, a);
      forall x | x in t' ensures Lonely(t', x) {
        assert Lonely(t, x);
      }
    }
  }

  lemma CutSets(t: Tiles, end: nat, a: nat, k: nat)
    requires a in t && Next(t, a) in t && 0 < k < t[a].span && a + k !in t && a != end && a + k != end && !t[a].free
    ensures Used(Cut(t, a, k), end) == Used(t, end)[a := k][a + k := t[a].span - k]
    ensures KeysOf(Cut(t, a, k)) == KeysOf(t)
  {
  }

  lemma CutSound(t: Tiles, raw: nat, end: nat, strict: bool, a: nat, k: nat)
    requires Sound(t, raw, end, strict) && a in t && a != end && !t[a].free
    requires MIN_BLOCK <= k && k % 8 == 0 && MIN_BLOCK + k <= t[a].span
    ensures Next(t, a) in t && a + k !in t && Sound(Cut(t, a, k), raw, end, strict)
  {
    Facts(t, raw, end, a, strict);
    CutTiled(t, raw, end, a, k, strict);
    if strict {
      var t' := Cut(t, a, k);
      forall x | x in t' ensures Lonely(t', x) {
        if x in t { assert Lonely(t, x); }
      }
    }
  }

  // ------------------------------------------------------------------- compositions

  /** Cutting the tail off a used block and releasing it. */
  function Split(t: Tiles, a: nat, k: nat): Tiles
    requires a in t && Next(t, a) in t && 0 < k < t[a].span
  {
    Release(Cut(t, a, k), a + k)
  }

  lemma SplitEffect(t: Tiles, raw: nat, end: nat, strict: bool, a: nat, k: nat)
    requires Sound(t, raw, end, strict) && a in t && a != end && !t[a].free
    requires MIN_BLOCK <= k && k % 8 == 0 && MIN_BLOCK + k <= t[a].span
    requires strict ==> Next(t, a) in t && !t[Next(t, a)].free
    ensures Next(t, a) in t && a + k !in t && Sound(Split(t, a, k), raw, end, strict)
    ensures Used(Split(t, a, k), end) == Used(t, end)[a := k]
    ensures KeysOf(Split(t, a, k)) == KeysOf(t)[a + k := MappingInsert(t[a].span - k)]
  {
    Facts(t, raw, end, a, strict);
    CutSound(t, raw, end, strict, a, k);
    CutSets(t, end, a, k);
    var u := Cut(t, a, k);
    ReleaseSound(u, raw, end, strict, a + k);
    ReleaseSets(u, end, a + k);
    assert Used(t, end)[a := k][a + k := t[a].span - k] - {a + k} == Used(t, end)[a := k];
  }

  /** Used block a absorbs the free block after it. */
  function MergeNext(t: Tiles, a: nat): Tiles
    requires a in t && Next(t, a) in t && t[a].span > 0 && t[Next(t, a)].span > 0 && Next(t, Next(t, a)) in t
  {
    Join(Take(t, Next(t, a)), a)
  }

  lemma MergeNextEffect(t: Tiles, raw: nat, end: nat, strict: bool, a: nat)
    requires Sound(t, raw, end, strict) && a in t && a != end && !t[a].free
    requires Next(t, a) in t && t[Next(t, a)].free
    ensures t[a].span > 0 && t[Next(t, a)].span > 0 && Next(t, Next(t, a)) in t
    ensures Sound(MergeNext(t, a), raw, end, strict)
    ensures Used(MergeNext(t, a), end) == Used(t, end)[a := t[a].span + t[Next(t, a)].span]
    ensures KeysOf(MergeNext(t, a)) == KeysOf(t) - {Next(t, a)}
    ensures strict ==> !t[Next(t, Next(t, a))].free
  {
    var c := Next(t, a);
    Facts(t, raw, end, a, strict);
    TakeSound(t, raw, end, strict, c);
    TakeSets(t, end, c);
    var u := Take(t, c);
    JoinSound(u, raw, end, strict, a);
    JoinSets(u, end, a);
    if strict { assert Lonely(t, c); }
    assert c !in Used(t, end);
    assert (Used(t, end)[c := t[c].span] - {c})[a := t[a].span + t[c].span] == Used(t, end)[a := t[a].span + t[c].span];
  }

  /** Used block b is absorbed by the free block before it, which becomes used. */
  function MergePrev(t: Tiles, p: nat): Tiles
    requires p in t && Next(t, p) in t && t[p].span > 0 && Next(t, Next(t, p)) in t && t[Next(t, p)].span > 0
  {
    Join(Take(t, p), p)
  }

  lemma MergePrevEffect(t: Tiles, raw: nat, end: nat, strict: bool, b: nat)
    requires Sound(t, raw, end, strict) && b in t && b != end && !t[b].free && t[b].prevFree
    ensures b != raw && Next(t, b) in t && t[b].span > 0
    ensures var p := t[b].prevPhys;
            && p in t && Next(t, p) == b && t[p].span > 0 && t[p].free && p != end && p > 0
            && Sound(MergePrev(t, p), raw, end, strict)
            && Used(MergePrev(t, p), end) == (Used(t, end) - {b})[p := t[p].span + t[b].span]
            && KeysOf(MergePrev(t, p)) == KeysOf(t) - {p}
            && (strict ==> p == raw || (t[p].prevPhys in t && !t[t[p].prevPhys].free))
  {
    Facts(t, raw, end, b, strict);
    var p := t[b].prevPhys;
    Facts(t, raw, end, p, strict);
    TakeSound(t, raw, end, strict, p);
    TakeSets(t, end, p);
    var u := Take(t, p);
    JoinSound(u, raw, end, strict, p);
    JoinSets(u, end, p);
    if strict && p != raw { assert Lonely(t, t[p].prevPhys); }
    assert (Used(t, end)[p := t[p].span] - {b})[p := t[p].span + t[b].span] ==
           (Used(t, end) - {b})[p := t[p].span + t[b].span];
  }

  // ------------------------------------------------------------ edits of the splits

  /** Both split paths write the front block, the tail and the block behind, in this order. */
  function SplitEdits(t: Tiles, a: nat, k: nat, rest: nat, d: nat): Tiles
    requires a in t && d in t
  {
    var t1 := t[a := t[a].(span := k, free := false)];
    var t2 := t1[a + k := Tile(rest, true, false, a)];
    t2[d := t2[d].(prevPhys := a + k, prevFree := true)]
  }

  /** In tlsf_alloc the front block was free. */
  lemma AllocSplitIs(t: Tiles, f: nat, k: nat)
    requires f in t && 0 < k < t[f].span && Next(t, f) in t && f + k !in t
    ensures SplitEdits(t, f, k, t[f].span - k, Next(t, f)) == Split(Take(t, f), f, k)
  {
  }

  lemma AllocSplitEffect(t: Tiles, raw: nat, end: nat, strict: bool, f: nat, k: nat)
    requires Sound(t, raw, end, strict) && f in t && t[f].free
    requires MIN_BLOCK <= k && k % 8 == 0 && k + MIN_BLOCK + HEADER <= t[f].span
    ensures Next(t, f) in t
    ensures var v := SplitEdits(t, f, k, t[f].span - k, Next(t, f));
            && Sound(v, raw, end, strict) && Used(v, end) == Used(t, end)[f := k]
            && KeysOf(v) == (KeysOf(t) - {f})[f + k := MappingInsert(t[f].span - k)]
            && f + k !in KeysOf(t) && f + k in v && v[f + k].span == t[f].span - k < LIMIT
  {
    Facts(t, raw, end, f, strict);
    TakeSound(t, raw, end, strict, f);
    TakeSets(t, end, f);
    SplitOver(Take(t, f), raw, end, strict, f, k, Used(t, end));
    assert f + k !in Take(t, f);
    AllocSplitIs(t, f, k);
  }

  /** Splitting a block that has just been set to its full span. */
  lemma SplitOver(u: Tiles, raw: nat, end: nat, strict: bool, a: nat, k: nat, used: map<nat, nat>)
    requires Sound(u, raw, end, strict) && a in u && a != end && !u[a].free && Used(u, end) == used[a := u[a].span]
    requires MIN_BLOCK <= k && k % 8 == 0 && k + MIN_BLOCK + HEADER <= u[a].span
    requires strict ==> Next(u, a) in u && !u[Next(u, a)].free
    ensures Next(u, a) in u
    ensures var v := Split(u, a, k);
            && Sound(v, raw, end, strict) && Used(v, end) == used[a := k]
            && KeysOf(v) == KeysOf(u)[a + k := MappingInsert(u[a].span - k)]
            && a + k !in u && a + k !in KeysOf(u) && a + k in v && v[a + k].span == u[a].span - k < LIMIT
  {
    Facts(u, raw, end, a, strict);
    SplitEffect(u, raw, end, strict, a, k);
    assert used[a := u[a].span][a := k] == used[a := k];
  }

  /** In tlsf_try_inplace_expand the block behind the front one is swallowed first. */
  lemma ExpandSplitIs(t: Tiles, a: nat, c: nat, d: nat, k: nat, rest: nat)
    requires a in t && !t[a].free && t[a].span > 0 && c == Next(t, a) && c in t && t[c].span > 0 && d == Next(t, c)
    requires d in t
    requires 0 < k && 0 < rest && k + rest == t[a].span + t[c].span
    ensures SplitEdits(t - {c}, a, k, rest, d) == Split(MergeNext(t, a), a, k)
  {
  }

  lemma ExpandSplitEffect(t: Tiles, u: Tiles, raw: nat, end: nat, strict: bool, a: nat, c: nat, k: nat, rest: nat)
    requires Sound(t, raw, end, strict) && a in t && a != end && !t[a].free && c == Next(t, a) && c in t && t[c].free
    requires t[a].span > 0 && t[c].span > 0 && Next(t, c) in t && u == MergeNext(t, a)
    requires MIN_BLOCK <= k && k % 8 == 0 && MIN_BLOCK + HEADER <= rest && k + rest == u[a].span
    ensures Next(u, a) in u
    ensures var v := Split(u, a, k);
            && Sound(v, raw, end, strict) && Used(v, end) == Used(t, end)[a := k]
            && KeysOf(v) == (KeysOf(t) - {c})[a + k := MappingInsert(rest)]
            && a + k !in KeysOf(t) - {c} && a + k in v && v[a + k].span == rest < LIMIT
  {
    MergeNextEffect(t, raw, end, strict, a);
    MergedSplit(u, raw, end, strict, a, k, rest, Used(t, end), KeysOf(t) - {c});
  }

  /** Splitting a merged block, whatever it was merged from. */
  lemma MergedSplit(u: Tiles, raw: nat, end: nat, strict: bool, a: nat, k: nat, rest: nat, used: map<nat, nat>,
      keys: Keys)
    requires Sound(u, raw, end, strict) && a in u && a != end && !u[a].free && Used(u, end) == used[a := u[a].span]
    requires KeysOf(u) == keys
    requires MIN_BLOCK <= k && k % 8 == 0 && MIN_BLOCK + HEADER <= rest && k + rest == u[a].span
    requires strict ==> Next(u, a) in u && !u[Next(u, a)].free
    ensures Next(u, a) in u
    ensures var v := Split(u, a, k);
            && Sound(v, raw, end, strict) && Used(v, end) == used[a := k]
            && KeysOf(v) == keys[a + k := MappingInsert(rest)]
            && a + k !in keys && a + k in v && v[a + k].span == rest < LIMIT
  {
    SplitOver(u, raw, end, strict, a, k, used);
  }

  /** v is what the writes of the splitting path leave behind. */
  lemma ExpandSplitReady(t: Tiles, raw: nat, end: nat, strict: bool, a: nat, c: nat, k: nat, rest: nat)
    returns (v: Tiles)
    requires Sound(t, raw, end, strict) && a in t && a != end && !t[a].free && c == Next(t, a) && c in t && t[c].free
    requires MIN_BLOCK <= k && k % 8 == 0 && MIN_BLOCK + HEADER <= rest && k + rest == t[a].span + t[c].span
    ensures a != c && a + k + rest in t && a + k + rest != c && v == SplitEdits(t - {c}, a, k, rest, a + k + rest)
    ensures Sound(v, raw, end, strict) && Used(v, end) == Used(t, end)[a := k]
    ensures KeysOf(v) == (KeysOf(t) - {c})[a + k := MappingInsert(rest)]
    ensures a + k !in KeysOf(t) - {c} && a + k in v && v[a + k].span == rest < LIMIT
  {
    ExpandPlaces(t, raw, end, strict, a, c, k + rest);
    v := Split(MergeNext(t, a), a, k);
    ExpandSplitIs(t, a, c, a + k + rest, k, rest);
    ExpandSplitEffect(t, MergeNext(t, a), raw, end, strict, a, c, k, rest);
  }

  /** Block c behind a is whole, and so is whatever comes behind c. */
  lemma ExpandPlaces(t: Tiles, raw: nat, end: nat, strict: bool, a: nat, c: nat, both: nat)
    requires Sound(t, raw, end, strict) && a in t && a != end && c == Next(t, a) && c in t && t[c].free
    requires both == t[a].span + t[c].span
    ensures a != c && t[a].span > 0 && t[c].span > 0 && a + both == Next(t, c) && a + both in t && a + both != c
    ensures a + both != a
    ensures MergeNext(t, a)[a].span == both
  {
    Facts(t, raw, end, a, strict);
    Facts(t, raw, end, c, strict);
  }

  /** Swallowing c whole, in the terms of the code. */
  lemma SwallowReady(t: Tiles, raw: nat, end: nat, strict: bool, a: nat, c: nat, both: nat)
    requires Sound(t, raw, end, strict) && a in t && a != end && !t[a].free && c == Next(t, a) && c in t && t[c].free
    requires both == t[a].span + t[c].span
    ensures a != c && a + both in t && a + both != c && c in KeysOf(t) && KeysOf(t)[c] == MappingInsert(t[c].span)
    ensures var v := SwallowEdits(t, a, c, a + both, both);
            Sound(v, raw, end, strict) && KeysOf(v) == KeysOf(t) - {c} && Used(v, end) == Used(t, end)[a := both]
  {
    ExpandPlaces(t, raw, end, strict, a, c, both);
    ExpandWholeEffect(t, raw, end, strict, a);
  }

  /** The writes of the path that swallows the next block whole. */
  function SwallowEdits(t: Tiles, a: nat, c: nat, d: nat, combined: nat): Tiles
    requires a in t && d in t && a != c && d != c
  {
    var t1 := (t - {c})[a := t[a].(span := combined)];
    t1[d := t1[d].(prevPhys := a, prevFree := false)]
  }

  lemma ExpandWholeEffect(t: Tiles, raw: nat, end: nat, strict: bool, a: nat)
    requires Sound(t, raw, end, strict) && a in t && a != end && !t[a].free && Next(t, a) in t && t[Next(t, a)].free
    ensures t[Next(t, a)].span > 0 && t[a].span > 0 && Next(t, Next(t, a)) in t
    ensures var c := Next(t, a);
            var v := SwallowEdits(t, a, c, Next(t, c), t[a].span + t[c].span);
            && Sound(v, raw, end, strict) && Used(v, end) == Used(t, end)[a := t[a].span + t[c].span]
            && KeysOf(v) == KeysOf(t) - {c}
  {
    var c := Next(t, a);
    MergeNextEffect(t, raw, end, strict, a);
    assert SwallowEdits(t, a, c, Next(t, c), t[a].span + t[c].span) == MergeNext(t, a);
  }

  // ------------------------------------------------- the edits of tlsf_free in between

  ghost predicate SameBut(u: Tiles, v: Tiles, s: nat, x: nat)
    requires s in u && x in u
  {
    && x in v
    && v[x] == if x == s then u[x].(free := true)
               else if x == Next(u, s) then u[x].(prevFree := v[x].prevFree)
               else u[x]
  }

  /** v is u with s already stamped FREE and its successor not told yet. */
  ghost predicate Veiled(u: Tiles, v: Tiles, s: nat) {
    && s in u && u.Keys == v.Keys
    && forall x {:trigger SameBut(u, v, s, x)} :: x in u ==> SameBut(u, v, s, x)
  }

  lemma VeiledNext(u: Tiles, v: Tiles, b: nat)
    requires Veiled(u, v, b) && u[b].span > 0 && Next(u, b) in u && u[Next(u, b)].span > 0 && Next(u, Next(u, b)) in u
    requires u[Next(u, b)].free
    ensures v[b].span == u[b].span && v[Next(u, b)].span == u[Next(u, b)].span
    ensures Veiled(MergeNext(u, b), Join(v, b), b)
  {
    assert SameBut(u, v, b, b) && SameBut(u, v, b, Next(u, b)) && SameBut(u, v, b, Next(u, Next(u, b)));
    var u', v' := MergeNext(u, b), Join(v, b);
    forall x | x in u' ensures SameBut(u', v', b, x) {
      assert SameBut(u, v, b, x);
    }
  }

  lemma VeiledPrev(u: Tiles, v: Tiles, p: nat)
    requires p in u && u[p].span > 0 && Next(u, p) in u && u[Next(u, p)].span > 0 && Next(u, Next(u, p)) in u
    requires Veiled(u, v, Next(u, p)) && u[p].free
    ensures v[p].span == u[p].span && v[Next(u, p)].span == u[Next(u, p)].span
    ensures Veiled(MergePrev(u, p), Join(v, p), p)
  {
    var b := Next(u, p);
    assert SameBut(u, v, b, b) && SameBut(u, v, b, p) && SameBut(u, v, b, Next(u, b));
    var u', v' := MergePrev(u, p), Join(v, p);
    forall x | x in u' ensures SameBut(u', v', p, x) {
      assert SameBut(u, v, b, x);
    }
  }

  /** Telling the successor completes the release. */
  lemma VeiledDone(u: Tiles, v: Tiles, s: nat)
    requires Veiled(u, v, s) && u[s].span > 0 && Next(u, s) in u
    ensures v[s].span == u[s].span && v[Next(u, s) := v[Next(u, s)].(prevFree := true)] == Release(u, s)
  {
    assert SameBut(u, v, s, s);
    var v' := v[Next(u, s) := v[Next(u, s)].(prevFree := true)];
    forall x | x in u ensures x in v' && v'[x] == Release(u, s)[x] {
      assert SameBut(u, v, s, x);
    }
  }

  /** s is stamped FREE in v but not listed; u is what the headers are apart from that. */
  ghost predicate Freeing(u: Tiles, v: Tiles, raw: nat, end: nat, strict: bool, s: nat) {
    Sound(u, raw, end, strict) && Veiled(u, v, s) && s != end && !u[s].free
  }

  lemma FreeingSees(u: Tiles, v: Tiles, raw: nat, end: nat, strict: bool, b: nat)
    requires Freeing(u, v, raw, end, strict, b)
    ensures b in v && v[b] == u[b].(free := true) && Next(u, b) in u && Next(u, b) in v
    ensures v[Next(u, b)].free == u[Next(u, b)].free && v[Next(u, b)].span == u[Next(u, b)].span
  {
    Facts(u, raw, end, b, strict);
    assert SameBut(u, v, b, b) && SameBut(u, v, b, Next(u, b));
  }

  lemma CoalesceNextEffect(u: Tiles, v: Tiles, raw: nat, end: nat, strict: bool, b: nat)
    requires Freeing(u, v, raw, end, strict, b) && Next(u, b) in u && u[Next(u, b)].free
    ensures b in v && Next(v, b) == Next(u, b) && Next(u, b) in v && Next(v, Next(v, b)) in v
    ensures v[Next(v, b)].span > 0 && v[b].span > 0
    ensures Next(u, b) in KeysOf(u) && KeysOf(u)[Next(u, b)] == MappingInsert(v[Next(u, b)].span)
    ensures u[b].span > 0 && u[Next(u, b)].span > 0 && Next(u, Next(u, b)) in u
    ensures var u' := MergeNext(u, b);
            && Freeing(u', Join(v, b), raw, end, strict, b)
            && KeysOf(u') == KeysOf(u) - {Next(u, b)} && Used(u', end) - {b} == Used(u, end) - {b}
            && u'[b].prevFree == u[b].prevFree && u'[b].prevPhys == u[b].prevPhys
            && (strict ==> Next(u', b) in u' && !u'[Next(u', b)].free)
  {
    MergeNextEffect(u, raw, end, strict, b);
    VeiledNext(u, v, b);
    FreeingSees(u, v, raw, end, strict, b);
    var c := Next(u, b);
    assert SameBut(u, v, b, Next(u, c));
    assert Used(u, end)[b := u[b].span + u[c].span] - {b} == Used(u, end) - {b};
  }

  lemma CoalescePrevEffect(u: Tiles, v: Tiles, raw: nat, end: nat, strict: bool, b: nat)
    requires Freeing(u, v, raw, end, strict, b) && u[b].prevFree && (strict ==> Next(u, b) in u && !u[Next(u, b)].free)
    ensures b in v && var p := u[b].prevPhys;
            && p > 0 && p in u && p in v && v[p].free && Next(v, p) == b && Next(v, b) in v && v[b].span > 0
            && v[p].span > 0
            && u[p].span > 0 && Next(u, p) == b && Next(u, b) in u && u[b].span > 0
            && p in KeysOf(u) && KeysOf(u)[p] == MappingInsert(v[p].span)
            && Freeing(MergePrev(u, p), Join(v, p), raw, end, strict, p)
            && KeysOf(MergePrev(u, p)) == KeysOf(u) - {p} && Used(MergePrev(u, p), end) - {p} == Used(u, end) - {b}
            && (strict ==> Alone(MergePrev(u, p), raw, p))
  {
    MergePrevEffect(u, raw, end, strict, b);
    FreeingSees(u, v, raw, end, strict, b);
    var p := u[b].prevPhys;
    assert SameBut(u, v, b, p);
    VeiledPrev(u, v, p);
    AddedGone(Used(u, end) - {b}, p, u[p].span + u[b].span);
  }

  lemma AddedGone(m: map<nat, nat>, p: nat, n: nat)
    requires p !in m
    ensures m[p := n] - {p} == m
  {
  }

  /** A strict arena shows a free predecessor through PREV_FREE. */
  lemma NoFreeBefore(u: Tiles, raw: nat, end: nat, b: nat)
    requires Sound(u, raw, end, true) && b in u && b != end && !u[b].prevFree && Next(u, b) in u && !u[Next(u, b)].free
    ensures Alone(u, raw, b)
  {
    PrevFreeExact(u, raw, end, b);
  }

  // ------------------------------------------------------ putting a cached block back

  function PutBackEdits(t: Tiles, b: nat): Tiles
    requires b in t
  {
    t[b := t[b].(free := true)]
  }

  lemma PutBackSets(t: Tiles, end: nat, b: nat)
    requires b in t && b != end && !t[b].free
    ensures Used(PutBackEdits(t, b), end) == Used(t, end) - {b}
    ensures KeysOf(PutBackEdits(t, b)) == KeysOf(t)[b := MappingInsert(t[b].span)]
  {
  }

  lemma PutBackAt(t: Tiles, raw: nat, end: nat, strict: bool, b: nat, x: nat)
    requires Tiled(t, raw, end, strict) && b in t && b != end && !t[b].free && x in t
    ensures x != end ==> Fits(PutBackEdits(t, b), raw, end, x, strict && Next(t, b) == end)
    ensures x != raw ==> Follows(PutBackEdits(t, b), x)
  {
    Facts(t, raw, end, b, strict);
    Facts(t, raw, end, x, strict);
  }

  /** Stamping a used block FREE without telling anybody keeps the tiling, and PREV_FREE never lies. */
  lemma PutBackTiled(t: Tiles, raw: nat, end: nat, strict: bool, b: nat)
    requires Tiled(t, raw, end, strict) && b in t && b != end && !t[b].free
    ensures Next(t, b) in t && Tiled(PutBackEdits(t, b), raw, end, strict && Next(t, b) == end)
  {
    var t', exact := PutBackEdits(t, b), strict && Next(t, b) == end;
    Facts(t, raw, end, b, strict);
    forall x | x in t' && x != end ensures Fits(t', raw, end, x, exact) {
      PutBackAt(t, raw, end, strict, b, x);
    }
    forall x | x in t' && x != raw ensures Follows(t', x) {
      PutBackAt(t, raw, end, strict, b, x);
    }
    forall x, y | x in t' && y in t' && x < y ensures Clear(t', x, y) {
      assert Clear(t, x, y);
    }
  }

  lemma PutBackCoalesced(t: Tiles, raw: nat, end: nat, b: nat)
    requires Tiled(t, raw, end) && Coalesced(t) && b in t && b != end && !t[b].free && !t[b].prevFree
    requires Next(t, b) == end
    ensures Coalesced(PutBackEdits(t, b))
  {
    var t' := PutBackEdits(t, b);
    PrevFreeExact(t, raw, end, b);
    forall x | x in t' ensures Lonely(t', x) {
      assert Lonely(t, x);
      Facts(t, raw, end, x);
    }
  }

  lemma PutBackSound(t: Tiles, raw: nat, end: nat, strict: bool, b: nat)
    requires Sound(t, raw, end, strict) && b in t && b != end && !t[b].free
    ensures Next(t, b) in t && Sound(PutBackEdits(t, b), raw, end, strict && Next(t, b) == end && !t[b].prevFree)
  {
    PutBackTiled(t, raw, end, strict, b);
    if strict && Next(t, b) == end {
      if !t[b].prevFree {
        PutBackCoalesced(t, raw, end, b);
      } else {
        Relax(PutBackEdits(t, b), raw, end, true);
      }
    }
  }

  /**
   * Exactly when putting a cached block back leaves a strict arena strict: it is the
   * last block and the one before it is in use.
   */
  lemma PutBackStrictIff(t: Tiles, raw: nat, end: nat, b: nat)
    requires Sound(t, raw, end, true) && b in t && b != end && !t[b].free
    ensures Next(t, b) in t
    ensures Sound(PutBackEdits(t, b), raw, end, true) <==> Next(t, b) == end && !t[b].prevFree
  {
    var t' := PutBackEdits(t, b);
    PutBackSound(t, raw, end, true, b);
    Facts(t, raw, end, b);
    assert Next(t, b) != end ==> !Fits(t', raw, end, b, true);
    PrevFreeExact(t, raw, end, b);
    assert t[b].prevFree ==> !Lonely(t', t[b].prevPhys);
  }

  /** With nothing in use, a strict arena is one free block again. */
  lemma EmptyIsOneBlock(t: Tiles, raw: nat, end: nat)
    requires Sound(t, raw, end, true) && Used(t, end) == map[]
    ensures t.Keys == {raw, end} && t[raw].free && t[raw].span == end - raw
  {
    forall a | a in t && a != end ensures t[a].free {
      assert a !in Used(t, end);
    }
    AllFreeIsOne(t, raw, end);
  }

  // ------------------------------------------------------------------ what fits

  ghost predicate IsRounded(total: nat, r: nat) {
    r == RoundedUp(total)
  }

  /** x bytes reach the rounded request. */
  ghost predicate Covers(x: nat, total: nat) {
    forall r: nat {:trigger IsRounded(total, r)} :: IsRounded(total, r) ==> r <= x
  }

  lemma CoversIff(x: nat, total: nat)
    ensures Covers(x, total) <==> RoundedUp(total) <= x
  {
    assert IsRounded(total, RoundedUp(total));
  }

  ghost predicate FitsAt(t: Tiles, g: nat, total: nat) {
    g in t && t[g].free && Covers(t[g].span, total)
  }

  /** Some free block is at least the rounded request. */
  ghost predicate HasFit(t: Tiles, total: nat) {
    exists g {:trigger FitsAt(t, g, total)} :: FitsAt(t, g, total)
  }

  ghost predicate NotAfter(t: Tiles, f: nat, g: nat) {
    f in t && g in t && AtMost(MappingInsert(t[f].span), MappingInsert(t[g].span))
  }

  /** f is free, large enough, and no other large enough block is in an earlier bucket. */
  ghost predicate GoodFit(t: Tiles, f: nat, total: nat) {
    && FitsAt(t, f, total) && total <= t[f].span
    && forall g {:trigger FitsAt(t, g, total)} :: FitsAt(t, g, total) ==> NotAfter(t, f, g)
  }

  /** Around one used block there is room for what half of the rest covers. */
  lemma RoomAround(t: Tiles, raw: nat, end: nat, f: nat, n: nat, total: nat)
    requires Sound(t, raw, end, true) && Used(t, end) == map[f := n]
    requires 0 < total && n + 2 * RoundedUp(total) <= end - raw
    ensures HasFit(t, total)
  {
    RoundedUpBounds(total);
    assert f in Used(t, end);
    Facts(t, raw, end, f);
    CoversIff(f - raw, total);
    if f != raw {
      assert raw !in Used(t, end);
      GapEnds(t, raw, end, raw);
      Outside(t, raw, end, raw, f);
      assert Covers(f - raw, total) ==> FitsAt(t, raw, total);
    }
    var b := f + n;
    CoversIff(end - b, total);
    if b != end {
      assert b !in Used(t, end);
      GapEnds(t, raw, end, b);
      assert Covers(end - b, total) ==> FitsAt(t, b, total);
    }
  }

  /** With b put back, what fitted still fits, and what b covers fits too. */
  lemma PutBackFits(t: Tiles, b: nat, total: nat)
    requires b in t && !t[b].free
    ensures HasFit(PutBackEdits(t, b), total) <==> HasFit(t, total) || Covers(t[b].span, total)
  {
    var u := PutBackEdits(t, b);
    forall g ensures FitsAt(u, g, total) <==> FitsAt(t, g, total) || (g == b && Covers(t[b].span, total)) {}
    assert FitsAt(u, b, total) <==> Covers(t[b].span, total);
  }

  /** A fresh arena serves what its one block serves. */
  lemma FreshFits(t: Tiles, raw: nat, end: nat, strict: bool, total: nat)
    requires Sound(t, raw, end, strict) && t.Keys == {raw, end} && t[raw].free
    ensures HasFit(t, total) <==> Covers(end - raw, total)
  {
    Facts(t, raw, end, raw, strict);
    assert FitsAt(t, raw, total) <==> Covers(end - raw, total);
  }

  /** The block behind b is free and together they are large enough. */
  ghost predicate CanGrow(t: Tiles, b: nat, total: nat) {
    b in t && Next(t, b) in t && t[Next(t, b)].free && t[b].span + t[Next(t, b)].span >= total
  }

  /** What b keeps of itself and the block behind it. */
  ghost function GrownSpan(t: Tiles, b: nat, total: nat): nat
    requires CanGrow(t, b, total)
  {
    TakenSpan(t[b].span + t[Next(t, b)].span, total)
  }

  /** What a block of `span` bytes keeps when `total` are wanted. */
  function TakenSpan(span: nat, total: nat): nat {
    if span - total >= MIN_BLOCK + HEADER then total else span
  }
}
