/**
 * The per-thread TLSF arena as a heap structure: a tiled region, an address-sorted
 * doubly linked free list that coalesces eagerly, and the mailbox of deferred frees.
 */
module ArenaHeap {
  import opened Chains
  import opened Sums
  import opened Tiling
  import opened SortedList
  import opened ArenaMerge
  import opened ArenaValidator

  // -------------------------------------------------- the list edits of an insertion

  ghost predicate Around(F: set<nat>, end: nat, b: nat, p: nat, n: nat) {
    b !in F && 0 < b < end && IsPrev(F, b, p) && IsNext(F, end, b, n)
  }

  /** Dropping the free block above b from the list. */
  lemma DropAbove(F: set<nat>, ks: Links, end: nat, head: nat, b: nat, p: nat, n: nat)
    requires Sorted(F, ks, end, head) && Around(F, end, b, p, n) && n != 0
    ensures n in ks && Around(F - {n}, end, b, p, ks[n].next)
    ensures Sorted(F - {n}, Unlinked(ks, n), end, UnlinkedHead(ks, head, n))
  {
    assert LinkedAt(F, ks, end, n);
    UnlinkSorted(F, ks, end, head, n);
  }

  /** Dropping the free block below b, whose place b takes. */
  lemma DropBelow(F: set<nat>, ks: Links, end: nat, head: nat, b: nat, p: nat, n: nat)
    requires Sorted(F, ks, end, head) && Around(F, end, b, p, n) && p != 0
    ensures p in ks && Around(F - {p}, end, p, ks[p].prev, n)
    ensures Sorted(F - {p}, Unlinked(ks, p), end, UnlinkedHead(ks, head, p))
  {
    assert LinkedAt(F, ks, end, p);
    UnlinkSorted(F, ks, end, head, p);
  }

  lemma LinkAround(F: set<nat>, ks: Links, end: nat, head: nat, b: nat, p: nat, n: nat)
    requires Sorted(F, ks, end, head) && Around(F, end, b, p, n)
    ensures Sorted(F + {b}, Linked(ks, b, p, n), end, LinkedHead(head, b, p))
  {
    LinkSorted(F, ks, end, head, b, p, n);
  }

  /** The free list, the headers and the sentinel are all in order. */
  ghost predicate Good(t: Tiles, ks: Links, raw: nat, end: nat, head: nat, exact: bool) {
    && Tiled(t, raw, end, exact) && Coalesced(t) && !t[end].prevFree
    && t.Keys <= ks.Keys
    && Sorted(FreeSet(t), ks, end, head)
  }

  /** No word of a block outside the free list changed. */
  ghost predicate Untouched(F: set<nat>, ks: Links, ks': Links) {
    && ks.Keys == ks'.Keys
    && forall x {:trigger SameWord(ks, ks', x)} :: x in ks && x !in F ==> SameWord(ks, ks', x)
  }

  ghost predicate SameWord(ks: Links, ks': Links, x: nat) {
    x in ks && x in ks' && ks[x] == ks'[x]
  }

  lemma UntouchedTwice(A: set<nat>, B: set<nat>, C: set<nat>, ks: Links, ks1: Links, ks2: Links)
    requires Untouched(A, ks, ks1) && Untouched(B, ks1, ks2) && A <= C && B <= C
    ensures Untouched(C, ks, ks2)
  {
    forall x | x in ks && x !in C ensures SameWord(ks, ks2, x) {
      assert SameWord(ks, ks1, x) && SameWord(ks1, ks2, x);
    }
  }

  /** The words of the blocks in U are the same. */
  ghost predicate Kept(U: set<nat>, ks: Links, ks': Links) {
    forall x {:trigger SameWord(ks, ks', x)} :: x in U ==> SameWord(ks, ks', x)
  }

  lemma UntouchedKept(F: set<nat>, U: set<nat>, ks: Links, ks': Links)
    requires Untouched(F, ks, ks') && F !! U && U <= ks.Keys
    ensures Kept(U, ks, ks')
  {
  }

  lemma KeptTwice(U: set<nat>, ks: Links, ks1: Links, ks2: Links)
    requires Kept(U, ks, ks1) && Kept(U, ks1, ks2)
    ensures Kept(U, ks, ks2)
  {
    forall x | x in U ensures SameWord(ks, ks2, x) {
      assert SameWord(ks, ks1, x) && SameWord(ks1, ks2, x);
    }
  }

  lemma UnlinkedUntouched(F: set<nat>, ks: Links, end: nat, head: nat, f: nat)
    requires Sorted(F, ks, end, head) && f in F
    ensures f in ks && Untouched(F, ks, Unlinked(ks, f))
  {
    Neighbours(F, ks, end, head, f);
  }

  lemma LinkedUntouched(F: set<nat>, ks: Links, end: nat, b: nat, p: nat, n: nat)
    requires Around(F, end, b, p, n) && b in ks
    ensures Untouched(F + {b}, ks, Linked(ks, b, p, n))
  {
    LinkKeys(ks, b, p, n);
  }

  // ---------------------------------------------------------------- the mailbox

  ghost predicate MailAt(box: seq<nat>, ks: Links, i: nat)
    requires i < |box|
  {
    box[i] > 0 && box[i] in ks && ks[box[i]].next == First(box[i + 1..])
  }

  /** Walking next_free from the mailbox head visits exactly the blocks in box. */
  ghost predicate Mail(box: seq<nat>, ks: Links, head: nat) {
    && head == First(box)
    && (forall i {:trigger MailAt(box, ks, i)} :: 0 <= i < |box| ==> MailAt(box, ks, i))
    && (forall i, j {:trigger box[i], box[j]} :: 0 <= i < j < |box| ==> box[i] != box[j])
  }

  /** The used blocks are the live ones and the mailed ones, and no block is both. */
  ghost predicate Owns(used: map<nat, nat>, live: map<nat, nat>, box: seq<nat>) {
    && (forall a {:trigger a in used} :: a in used <==> a in live || a in box)
    && (forall a {:trigger a in live} :: a in live ==> a !in box && a in used && used[a] == live[a])
  }

  lemma MailTail(box: seq<nat>, ks: Links, head: nat)
    requires Mail(box, ks, head) && box != []
    ensures head == box[0] > 0 && head in ks && Mail(box[1..], ks, ks[head].next) && head !in box[1..]
  {
    assert MailAt(box, ks, 0);
    var tail := box[1..];
    forall i | 0 <= i < |tail| ensures MailAt(tail, ks, i) {
      assert MailAt(box, ks, i + 1);
      assert tail[i + 1..] == box[i + 2..];
    }
  }

  lemma MailPush(box: seq<nat>, ks: Links, head: nat, b: nat)
    requires Mail(box, ks, head) && b > 0 && b !in box && b in ks
    ensures Mail([b] + box, ks[b := ks[b].(next := head)], b)
  {
    var box', ks' := [b] + box, ks[b := ks[b].(next := head)];
    assert box'[1..] == box;
    forall i | 0 <= i < |box'| ensures MailAt(box', ks', i) {
      if i > 0 {
        assert MailAt(box, ks, i - 1);
        assert box'[i + 1..] == box[i..];
      }
    }
  }

  /** Edits of the free list do not reach the mailbox. */
  lemma MailFrame(F: set<nat>, box: seq<nat>, ks: Links, ks': Links, head: nat)
    requires Mail(box, ks, head) && Untouched(F, ks, ks') && forall x :: x in box ==> x !in F
    ensures Mail(box, ks', head)
  {
    forall i | 0 <= i < |box| ensures MailAt(box, ks', i) {
      assert MailAt(box, ks, i);
      assert SameWord(ks, ks', box[i]);
    }
  }

  lemma OwnsLive(used: map<nat, nat>, live: map<nat, nat>)
    requires Owns(used, live, [])
    ensures used == live
  {
  }

  /** Spans are positive, so the byte count reaches zero exactly when nothing is live. */
  lemma LiveZero(t: Tiles, raw: nat, end: nat, live: map<nat, nat>, box: seq<nat>, block: nat, exact: bool)
    requires Tiled(t, raw, end, exact) && Owns(Used(t, end), live, box)
    ensures Sum(live - {block}) == 0 <==> live - {block} == map[]
  {
    var rest := live - {block};
    if rest != map[] {
      var a :| a in rest;
      assert a in live && a in Used(t, end);
      Facts(t, raw, end, a, exact);
      SumPositive(rest, a);
    }
  }

  /** b has been stamped FREE but is not on the list yet; t is what the headers were before. */
  ghost predicate Waiting(t: Tiles, m: Tiles, ks: Links, raw: nat, end: nat, b: nat, exact: bool) {
    && Tiled(t, raw, end, exact) && Coalesced(t) && !t[end].prevFree && t.Keys <= ks.Keys
    && b in t && b != end && !t[b].free && Stamped(t, m, end, b)
  }

  /** The set left on the list by the merges. */
  ghost function ListAfter(F: set<nat>, m: Tiles, b: nat, p: nat, n: nat): set<nat>
    requires b in m && (n != 0 ==> n in m) && b in MergeUp(m, b, n)
  {
    F - (if Forward(m, b, n) then {n} else {}) - (if Backward(MergeUp(m, b, n), b, p) then {p} else {})
    + {Start(MergeUp(m, b, n), b, p)}
  }

  lemma InsertPossible(t: Tiles, m: Tiles, ks: Links, raw: nat, end: nat, b: nat, p: nat, n: nat, exact: bool)
    requires Waiting(t, m, ks, raw, end, b, exact) && Around(FreeSet(t), end, b, p, n)
    ensures b in m && (n != 0 ==> n in m) && b in MergeUp(m, b, n) && (p != 0 ==> p in MergeUp(m, b, n))
    ensures var w, s := MergeDown(MergeUp(m, b, n), b, p), Start(MergeUp(m, b, n), b, p); s in w && Next(w, s) in w
  {
    InsertEffect(t, m, raw, end, b, p, n, exact);
  }

  /** Once the list is spliced and the successor told, everything is in order again. */
  lemma InsertFinished(t: Tiles, m: Tiles, ks: Links, raw: nat, end: nat, head: nat, b: nat, p: nat, n: nat,
      exact: bool)
    requires Waiting(t, m, ks, raw, end, b, exact) && Around(FreeSet(t), end, b, p, n)
    requires (n != 0 ==> n in m) && b in MergeUp(m, b, n)
    requires Sorted(ListAfter(FreeSet(t), m, b, p, n), ks, end, head)
    ensures var w, s := MergeDown(MergeUp(m, b, n), b, p), Start(MergeUp(m, b, n), b, p);
            && s in w && Next(w, s) in w
            && Good(TellNext(w, end, s), ks, raw, end, head, exact)
            && Used(TellNext(w, end, s), end) == Used(t, end) - {b}
            && KeptBelow(t, TellNext(w, end, s), b)
  {
    InsertEffect(t, m, raw, end, b, p, n, exact);
  }

  class Arena {
    const raw: nat
    const end: nat        // address of the sentinel
    var tiles: Tiles      // size_and_flags and prev_physical of every block
    var links: Links      // next_free and prev_free of every block
    var freeList: nat
    var mailbox: nat      // remote_free, linked through next_free
    var liveBytes: nat

    ghost var live: map<nat, nat>  // blocks in user hands, with their spans
    ghost var box: seq<nat>        // blocks in the mailbox, last pushed first
    ghost var exact: bool          // no growth in place has dropped a PREV_FREE flag

    ghost predicate Valid()
      reads this
    {
      && Good(tiles, links, raw, end, freeList, exact)
      && Mail(box, links, mailbox)
      && Owns(Used(tiles, end), live, box)
      && liveBytes == Sum(live)
    }

    constructor (start: nat, size: nat)
      requires start > 0 && size % 8 == 0 && size >= HEADER + MIN_BLOCK
      ensures raw == start && end == start + size - 32
      ensures Valid() && exact && live == map[] && box == []
    {
      raw, end := start, start + size - HEADER;
      mailbox, liveBytes, live, box, exact := 0, 0, map[], [], true;
      tiles := map[start := Tile(size - HEADER, true, false, 0), start + size - HEADER := Tile(0, false, false, start)];
      links := map[start := Link(0, 0), start + size - HEADER := Link(0, 0)];
      freeList := start;
      new;
      InitialGood(start, start + size - HEADER, tiles, links, exact);
    }

    /** Stamps a used block FREE and inserts it. */
    method Stamp(block: nat)
      requires Good(tiles, links, raw, end, freeList, exact) && block in Used(tiles, end)
      modifies this`tiles, this`links, this`freeList
      ensures Good(tiles, links, raw, end, freeList, exact)
      ensures Used(tiles, end) == Used(old(tiles), end) - {block}
      ensures Untouched(FreeSet(old(tiles)) + {block}, old(links), links)
    {
      ghost var t := tiles;
      Facts(t, raw, end, block, exact);
      tiles := tiles[block := tiles[block].(free := true, prevFree := false)];
      assert Stamped(t, tiles, end, block) by {
        forall x | x in t && x != block && x != Next(t, block) ensures SameTile(t, tiles, x) {
        }
      }
      InsertFree(block, t);
    }

    /** Stamps a block while other used blocks wait in a mailbox list. */
    method StampBeside(block: nat, ghost rest: seq<nat>, ghost head: nat)
      requires Good(tiles, links, raw, end, freeList, exact) && block in Used(tiles, end)
      requires Mail(rest, links, head) && forall x :: x in rest ==> x in Used(tiles, end) && x != block
      modifies this`tiles, this`links, this`freeList
      ensures Good(tiles, links, raw, end, freeList, exact)
      ensures Used(tiles, end) == Used(old(tiles), end) - {block}
      ensures Mail(rest, links, head)
    {
      ghost var F, ks := FreeSet(tiles), links;
      forall x | x in rest ensures x !in F + {block} {
        assert x in Used(tiles, end);
      }
      Stamp(block);
      MailFrame(F + {block}, rest, ks, links, head);
    }

    /** tlsf_arena_reap: every mailed block moves to the free list. */
    method Reap()
      requires Valid()
      modifies this`tiles, this`links, this`freeList, this`mailbox, this`box
      ensures Valid() && box == [] && live == old(live)
    {
      var block := mailbox;
      mailbox := 0;
      ghost var rest := box;
      box := [];
      while block != 0
        invariant Good(tiles, links, raw, end, freeList, exact) && Mail(rest, links, block)
        invariant Owns(Used(tiles, end), live, rest) && box == [] && mailbox == 0
        decreases |rest|
      {
        MailTail(rest, links, block);
        var next := links[block].next;
        assert block in rest && block in Used(tiles, end);
        assert forall x :: x in rest[1..] ==> x in rest;
        StampBeside(block, rest[1..], next);
        rest := rest[1..];
        block := next;
      }
      assert |rest| > 0 ==> MailAt(rest, links, 0);
    }

    /** Empties the mailbox if there is anything in it. */
    method ReapFirst() returns (ghost reaped: Tiles)
      requires Valid()
      modifies this`tiles, this`links, this`freeList, this`mailbox, this`box
      ensures Valid() && box == [] && mailbox == 0 && reaped == tiles && Used(tiles, end) == live
    {
      if mailbox != 0 { Reap(); }
      if box != [] { MailTail(box, links, mailbox); }
      OwnsLive(Used(tiles, end), live);
      reaped := tiles;
    }

    /** The debug-build assertion holds exactly as long as no PREV_FREE flag is missing. */
    method CheckHeap() returns (ok: bool)
      requires Valid()
      ensures ok <==> Tiled(tiles, raw, end, true)
      ensures exact ==> ok
    {
      ValidatesIffExact(tiles, links, raw, end, freeList, exact);
      ok := Validate(tiles, links, raw, end, freeList);
    }

    /** First fit from the head of the list; 0 when no free block is large enough. */
    method FindFit(need: nat) returns (f: nat)
      requires Good(tiles, links, raw, end, freeList, exact)
      ensures f != 0 ==> f in FreeSet(tiles) && tiles[f].span >= need
      ensures forall g :: g in FreeSet(tiles) && (f == 0 || g < f) ==> tiles[g].span < need
    {
      ghost var F := FreeSet(tiles);
      f := freeList;
      ghost var last := 0;
      while f != 0 && tiles[f].span < need
        invariant IsNext(F, end, last, f)
        invariant forall g :: g in F && g <= last ==> tiles[g].span < need
        decreases if f == 0 then 0 else end - f
      {
        assert LinkedAt(F, links, end, f);
        last := f;
        f := links[f].next;
      }
    }

    /** Takes the whole free block f. */
    method TakeWhole(f: nat)
      requires Good(tiles, links, raw, end, freeList, exact) && f in FreeSet(tiles)
      modifies this`tiles, this`links, this`freeList
      ensures Good(tiles, links, raw, end, freeList, exact)
      ensures Used(tiles, end) == Used(old(tiles), end)[f := old(tiles)[f].span]
      ensures Kept(Used(old(tiles), end).Keys, old(links), links)
    {
      ghost var t, F := tiles, FreeSet(tiles);
      TakeTiles(t, raw, end, f, exact);
      TakeSets(t, end, f);
      UnlinkSorted(F, links, end, freeList, f);
      UnlinkedUntouched(F, links, end, freeList, f);
      UntouchedKept(F, Used(t, end).Keys, links, Unlinked(links, f));
      Neighbours(F, links, end, freeList, f);
      var after := f + tiles[f].span;
      UnlinkFree(f);
      tiles := tiles[f := tiles[f].(free := false, prevFree := false)];
      tiles := tiles[after := tiles[after].(prevPhys := f,
                                           prevFree := if after == end then tiles[after].prevFree else false)];
      assert tiles == SetFree(t, f, false, end);
    }

    /** Takes the first `need` bytes of the free block f and re-inserts the rest. */
    method TakePart(f: nat, need: nat)
      requires Good(tiles, links, raw, end, freeList, exact) && f in FreeSet(tiles)
      requires MIN_BLOCK <= need && need % 8 == 0 && need + MIN_BLOCK + HEADER <= tiles[f].span
      modifies this`tiles, this`links, this`freeList
      ensures Good(tiles, links, raw, end, freeList, exact)
      ensures Used(tiles, end) == Used(old(tiles), end)[f := need]
      ensures Kept(Used(old(tiles), end).Keys, old(links), links)
    {
      ghost var u := SplitPrepared(tiles, links, raw, end, freeList, f, need, exact);
      Neighbours(FreeSet(tiles), links, end, freeList, f);
      CutOff(f, need);
      InsertRest(f + need, u, Used(old(tiles), end).Keys, old(links));
    }

    /** Unlinks f and writes the headers of both halves. */
    method CutOff(f: nat, need: nat)
      requires f in tiles && need <= tiles[f].span && f in links
      requires (links[f].prev != 0 ==> links[f].prev in links) && (links[f].next != 0 ==> links[f].next in links)
      modifies this`tiles, this`links, this`freeList
      ensures tiles == SplitStamp(old(tiles), f, need)
      ensures links == Unlinked(old(links), f)[f + need := Link(0, 0)]
      ensures freeList == UnlinkedHead(old(links), old(freeList), f)
    {
      var remaining := tiles[f].span - need;
      UnlinkFree(f);
      tiles := tiles[f := tiles[f].(span := need, free := false, prevFree := false)];
      tiles := tiles[f + need := Tile(remaining, true, false, f)];
      links := links[f + need := Link(0, 0)];
    }

    /** Inserts a block, keeping the words of the blocks in U. */
    method InsertRest(r: nat, ghost u: Tiles, ghost U: set<nat>, ghost ks0: Links)
      requires Waiting(u, tiles, links, raw, end, r, exact) && Sorted(FreeSet(u), links, end, freeList)
      requires Kept(U, ks0, links) && FreeSet(u) + {r} !! U
      modifies this`tiles, this`links, this`freeList
      ensures Good(tiles, links, raw, end, freeList, exact)
      ensures Used(tiles, end) == Used(u, end) - {r}
      ensures Kept(U, ks0, links)
    {
      ghost var ks := links;
      InsertFree(r, u);
      forall x | x in U ensures x in ks { assert SameWord(ks0, ks, x); }
      UntouchedKept(FreeSet(u) + {r}, U, ks, links);
      KeptTwice(U, ks0, ks, links);
    }

    /** Splits f when the rest can stand as a block of its own, and takes it whole otherwise. */
    method Take(f: nat, need: nat) returns (span: nat)
      requires Good(tiles, links, raw, end, freeList, exact) && f in FreeSet(tiles)
      requires MIN_BLOCK <= need <= tiles[f].span && need % 8 == 0
      modifies this`tiles, this`links, this`freeList
      ensures Good(tiles, links, raw, end, freeList, exact)
      ensures Used(tiles, end) == Used(old(tiles), end)[f := span]
      ensures Kept(Used(old(tiles), end).Keys, old(links), links)
      ensures span == if old(tiles)[f].span - need >= MIN_BLOCK + HEADER then need else old(tiles)[f].span
    {
      span := tiles[f].span;
      if span - need >= MIN_BLOCK + HEADER {
        TakePart(f, need);
        span := need;
      } else {
        TakeWhole(f);
      }
    }

    /**
     * tlsf_arena_alloc for a total that includes the headers.  `reaped` is the headers after the
     * mailbox was emptied; the block returned is the lowest one there that is large enough.
     */
    method Alloc(total: nat) returns (f: nat, ghost reaped: Tiles)
      requires Valid() && MIN_BLOCK <= total && total % 8 == 0
      modifies this
      ensures Valid() && exact == old(exact) && box == []
      ensures Tiled(reaped, raw, end, exact) && Coalesced(reaped) && Used(reaped, end) == old(live)
      ensures f == 0 ==> live == old(live) && forall g :: g in FreeSet(reaped) ==> reaped[g].span < total
      ensures f != 0 ==>
                && f in FreeSet(reaped) && f !in old(live) && f in live && live == old(live)[f := live[f]]
                && (forall g :: g in FreeSet(reaped) && g < f ==> reaped[g].span < total)
                && total <= live[f]
                && live[f] == (if reaped[f].span - total >= 64 then total else reaped[f].span)
    {
      reaped := ReapFirst();
      f := FindFit(total);
      if f != 0 {
        assert f !in Used(tiles, end);
        var span := Take(f, total);
        Admit(f, span);
      }
    }

    /** Hands a block that has just been taken to the user. */
    method Admit(f: nat, span: nat)
      requires Good(tiles, links, raw, end, freeList, exact) && box == [] && mailbox == 0
      requires Used(tiles, end) == live[f := span] && f !in live && liveBytes == Sum(live)
      modifies this`live, this`liveBytes
      ensures Valid() && live == old(live)[f := span]
    {
      SumAdd(live, f, span);
      live := live[f := span];
      liveBytes := liveBytes + span;
    }

    /**
     * tlsf_arena_free_block: the owner inserts the block, anybody else mails it.  `zero` is the
     * last-freer test `prev_live == span`.
     */
    method FreeBlock(block: nat, owner: bool) returns (zero: bool)
      requires Valid() && block in live
      modifies this
      ensures Valid() && exact == old(exact) && live == old(live) - {block}
      ensures box == if owner then old(box) else [block] + old(box)
      ensures zero <==> live == map[]
    {
      assert block in Used(tiles, end);
      var span := tiles[block].span;
      LiveZero(tiles, raw, end, live, box, block, exact);
      if owner {
        StampBeside(block, box, mailbox);
      } else {
        Push(block);
      }
      zero := liveBytes == span;
      Discharge(block, span);
    }

    /** The block leaves the live set and its bytes the counter. */
    method Discharge(block: nat, span: nat)
      requires liveBytes == Sum(live) && block in live && live[block] == span
      modifies this`live, this`liveBytes
      ensures liveBytes == Sum(live) == old(liveBytes) - span && live == old(live) - {block}
    {
      SumRemove(live, block);
      liveBytes := liveBytes - span;
      live := live - {block};
    }

    /** The mailbox push. */
    method Push(block: nat)
      requires Good(tiles, links, raw, end, freeList, exact) && Mail(box, links, mailbox)
      requires block in Used(tiles, end) && block !in box
      modifies this`links, this`mailbox, this`box
      ensures Good(tiles, links, raw, end, freeList, exact) && Mail(box, links, mailbox)
      ensures box == [block] + old(box)
    {
      Facts(tiles, raw, end, block, exact);
      MailPush(box, links, mailbox, block);
      SortedFrame(FreeSet(tiles), links, end, freeList, block, links[block].(next := mailbox));
      links := links[block := links[block].(next := mailbox)];
      mailbox := block;
      box := [block] + box;
    }

    /** Unlinks the free block after `block` and makes it part of `block`. */
    method Absorb(block: nat)
      requires Good(tiles, links, raw, end, freeList, exact) && block in tiles && block != end && !tiles[block].free
      requires Next(tiles, block) in tiles && tiles[Next(tiles, block)].free
      modifies this`tiles, this`links, this`freeList
      ensures Good(tiles, links, raw, end, freeList, exact) && block in tiles && !tiles[block].free
      ensures Used(tiles, end) ==
              Used(old(tiles), end)[block := old(tiles)[block].span + old(tiles)[Next(old(tiles), block)].span]
      ensures tiles[block].prevFree == old(tiles)[block].prevFree
    {
      ghost var u := AbsorbPrepared(tiles, links, raw, end, freeList, block, exact);
      var next := block + tiles[block].span;
      var total := tiles[block].span + tiles[next].span;
      var after := next + tiles[next].span;
      UnlinkFree(next);
      tiles := tiles[after := tiles[after].(prevPhys := block,
                                           prevFree := if after == end then tiles[after].prevFree else false)];
      tiles := (tiles - {next})[block := tiles[block].(span := total)];
    }

    /** Cuts a used block back to `need` bytes and frees the rest. */
    method Shorten(block: nat, need: nat)
      requires Good(tiles, links, raw, end, freeList, exact) && block in tiles && block != end && !tiles[block].free
      requires MIN_BLOCK <= need && need % 8 == 0 && need + MIN_BLOCK <= tiles[block].span
      modifies this`tiles, this`links, this`freeList
      ensures Good(tiles, links, raw, end, freeList, exact) && block in tiles && !tiles[block].free
      ensures Used(tiles, end) == Used(old(tiles), end)[block := need]
      ensures tiles[block].prevFree == old(tiles)[block].prevFree
    {
      ghost var u := ShortenPrepared(tiles, links, raw, end, freeList, block, need, exact);
      var r := block + need;
      var remaining := tiles[block].span - need;
      tiles := tiles[block := tiles[block].(span := need)];
      tiles := tiles[r := Tile(remaining, true, false, block)];
      links := links[r := Link(0, 0)];
      InsertFree(r, u);
      assert SameTile(u, tiles, block);
    }

    /**
     * The grow-in-place branch of mp_realloc for the owner of the arena.  `reaped` is the headers
     * after the mailbox was emptied.  The code stores the new size without the PREV_FREE bit; nothing
     * in between reads that bit, so the model clears it last.  Afterwards the arena is in order but
     * for that bit, and the validator passes exactly when there was no bit to lose.
     */
    method Grow(block: nat, need: nat) returns (ok: bool, ghost reaped: Tiles)
      requires Valid() && block in live && MIN_BLOCK <= need && need % 8 == 0
      modifies this
      ensures Valid() && box == []
      ensures Tiled(reaped, raw, end, old(exact)) && Coalesced(reaped) && Used(reaped, end) == old(live)
      ensures block in live && live == old(live)[block := live[block]]
      ensures liveBytes + old(live)[block] == old(liveBytes) + live[block]
      ensures block in reaped && reaped[block].span == old(live)[block]
      ensures var cur := old(live)[block];
              ok <==>
                || need <= cur
                || (block + cur in reaped && reaped[block + cur].free && cur + reaped[block + cur].span >= need)
      ensures !ok || need <= old(live)[block] ==> live[block] == old(live)[block]
      ensures var cur := old(live)[block];
              ok && cur < need ==>
                && block + cur in reaped && need <= live[block] < need + 64
                && live[block] ==
                   if cur + reaped[block + cur].span >= need + 64 then need else cur + reaped[block + cur].span
      ensures exact == (old(exact) && (live[block] == old(live)[block] || !reaped[block].prevFree))
      ensures Validates(tiles, links, raw, end, freeList) <==> Tiled(tiles, raw, end, true)
      ensures old(exact) ==> (Validates(tiles, links, raw, end, freeList) <==> exact)
    {
      ok, reaped := GrowBlock(block, need);
      ValidatesIffExact(tiles, links, raw, end, freeList, exact);
    }

    method GrowBlock(block: nat, need: nat) returns (ok: bool, ghost reaped: Tiles)
      requires Valid() && block in live && MIN_BLOCK <= need && need % 8 == 0
      modifies this
      ensures Valid() && box == []
      ensures Tiled(reaped, raw, end, old(exact)) && Coalesced(reaped) && Used(reaped, end) == old(live)
      ensures block in live && live == old(live)[block := live[block]]
      ensures liveBytes + old(live)[block] == old(liveBytes) + live[block]
      ensures ok <==> live[block] >= need
      ensures block in reaped && live[block] == GrownTo(reaped, block, need) && reaped[block].span == old(live)[block]
      ensures exact == (old(exact) && (live[block] == old(live)[block] || !reaped[block].prevFree))
      ensures old(exact) ==> (Tiled(tiles, raw, end, true) <==> exact)
    {
      reaped := ReapFirst();
      assert block in Used(tiles, end);
      var cur := tiles[block].span;
      var span := TryExtend(block, need);
      Recount(block, span, cur);
      if span != cur {
        LoseFlag(block);
      }
      ok := need <= span;
    }

    /** The byte counter follows a block from `cur` to `span`. */
    method Recount(block: nat, span: nat, cur: nat)
      requires liveBytes == Sum(live) && block in live && live[block] == cur <= span
      modifies this`live, this`liveBytes
      ensures liveBytes == Sum(live) == old(liveBytes) + span - cur && live == old(live)[block := span]
    {
      SumUpdate(live, block, span);
      liveBytes := liveBytes + (span - cur);
      live := live[block := span];
    }

    /** The PREV_FREE bit of a used block is stored as clear, whatever it was. */
    method LoseFlag(block: nat)
      requires Good(tiles, links, raw, end, freeList, exact) && block in tiles && block != end
      modifies this`tiles, this`exact
      ensures Good(tiles, links, raw, end, freeList, exact) && Used(tiles, end) == Used(old(tiles), end)
      ensures exact == (old(exact) && !old(tiles)[block].prevFree)
      ensures old(exact) ==> (Tiled(tiles, raw, end, true) <==> exact)
    {
      DropFlagGood(tiles, links, raw, end, freeList, block, exact);
      exact := exact && !tiles[block].prevFree;
      tiles := tiles[block := tiles[block].(prevFree := false)];
    }

    /** Extends `block` when it is too small and the block after it is free and large enough. */
    method TryExtend(block: nat, need: nat) returns (span: nat)
      requires Good(tiles, links, raw, end, freeList, exact) && block in Used(tiles, end)
      requires MIN_BLOCK <= need && need % 8 == 0
      modifies this`tiles, this`links, this`freeList
      ensures Good(tiles, links, raw, end, freeList, exact) && block in tiles && block != end
      ensures Used(tiles, end) == Used(old(tiles), end)[block := span]
      ensures tiles[block].prevFree == old(tiles)[block].prevFree && tiles[block].span == span >= old(tiles)[block].span
      ensures block in old(tiles) && span == GrownTo(old(tiles), block, need)
      ensures var cur, next := old(tiles)[block].span, Next(old(tiles), block);
              if need <= cur || next !in old(tiles) || !old(tiles)[next].free || cur + old(tiles)[next].span < need
              then span == cur
              else span == if cur + old(tiles)[next].span >= need + 64 then need else cur + old(tiles)[next].span
    {
      Facts(tiles, raw, end, block, exact);
      var cur := tiles[block].span;
      span := cur;
      if need > cur {
        var next := block + cur;
        if next != end && tiles[next].free && cur + tiles[next].span >= need {
          span := Extend(block, need);
        }
      }
    }

    /** Absorbs the free block after `block` and gives back what is not needed. */
    method Extend(block: nat, need: nat) returns (span: nat)
      requires Good(tiles, links, raw, end, freeList, exact) && block in tiles && block != end && !tiles[block].free
      requires Next(tiles, block) in tiles && tiles[Next(tiles, block)].free
      requires MIN_BLOCK <= need && need % 8 == 0
      requires tiles[block].span < need <= tiles[block].span + tiles[Next(tiles, block)].span
      modifies this`tiles, this`links, this`freeList
      ensures Good(tiles, links, raw, end, freeList, exact) && block in tiles && !tiles[block].free
      ensures Used(tiles, end) == Used(old(tiles), end)[block := span]
      ensures tiles[block].prevFree == old(tiles)[block].prevFree && tiles[block].span == span
      ensures var total := old(tiles)[block].span + old(tiles)[Next(old(tiles), block)].span;
              span == if total - need >= MIN_BLOCK + HEADER then need else total
    {
      span := tiles[block].span + tiles[block + tiles[block].span].span;
      Absorb(block);
      assert Used(tiles, end)[block] == span;
      if span - need >= MIN_BLOCK + HEADER {
        Shorten(block, need);
        span := need;
        assert Used(tiles, end)[block] == need;
      }
    }

    /** tlsf_arena_unlink_free. */
    method UnlinkFree(f: nat)
      requires f in links
      requires (links[f].prev != 0 ==> links[f].prev in links) && (links[f].next != 0 ==> links[f].next in links)
      modifies this`links, this`freeList
      ensures links == Unlinked(old(links), f) && freeList == UnlinkedHead(old(links), old(freeList), f)
    {
      var p, n := links[f].prev, links[f].next;
      if p != 0 {
        links := links[p := links[p].(next := n)];
      } else {
        freeList := n;
      }
      if n != 0 {
        links := links[n := links[n].(prev := p)];
      }
      links := links[f := Link(0, 0)];
    }

    /** The search for the free blocks around an address. */
    method FindAround(block: nat, ghost F: set<nat>) returns (prev: nat, curr: nat)
      requires Sorted(F, links, end, freeList) && block !in F && 0 < block < end
      ensures Around(F, end, block, prev, curr)
    {
      prev, curr := 0, freeList;
      while curr != 0 && curr < block
        invariant IsNext(F, end, prev, curr)
        invariant prev == 0 || (prev in F && prev < block)
        decreases if curr == 0 then 0 else end - curr
      {
        assert LinkedAt(F, links, end, curr);
        prev, curr := curr, links[curr].next;
      }
    }

    /** Forward merge: the free block right after `block` is unlinked and absorbed. */
    method MergeForward(block: nat, curr: nat, ghost F: set<nat>, ghost prev: nat)
      returns (curr': nat, ghost F': set<nat>)
      requires Sorted(F, links, end, freeList) && Around(F, end, block, prev, curr)
      requires block in tiles && (curr != 0 ==> curr in tiles)
      modifies this`tiles, this`links, this`freeList
      ensures F' == (if Forward(old(tiles), block, curr) then F - {curr} else F)
      ensures Sorted(F', links, end, freeList) && Around(F', end, block, prev, curr')
      ensures Untouched(F, old(links), links)
      ensures tiles == MergeUp(old(tiles), block, curr)
    {
      curr', F' := curr, F;
      if curr != 0 && block + tiles[block].span == curr {
        DropAbove(F, links, end, freeList, block, prev, curr);
        UnlinkedUntouched(F, links, end, freeList, curr);
        Neighbours(F, links, end, freeList, curr);
        F' := F - {curr};
        var after := links[curr].next;
        var merged := tiles[block].span + tiles[curr].span;
        UnlinkFree(curr);
        tiles := (tiles - {curr})[block := Tile(merged, true, false, tiles[block].prevPhys)];
        curr' := after;
      }
    }

    /** Backward merge: the free block right before `block` is unlinked and absorbs it. */
    method MergeBackward(block: nat, prev: nat, curr: nat, ghost F: set<nat>)
      returns (block': nat, prev': nat, ghost F': set<nat>)
      requires Sorted(F, links, end, freeList) && Around(F, end, block, prev, curr)
      requires block in tiles && (prev != 0 ==> prev in tiles)
      modifies this`tiles, this`links, this`freeList
      ensures F' == (if Backward(old(tiles), block, prev) then F - {prev} else F)
      ensures block' == (if Backward(old(tiles), block, prev) then prev else block)
      ensures Sorted(F', links, end, freeList) && Around(F', end, block', prev', curr)
      ensures Untouched(F, old(links), links)
      ensures tiles == MergeDown(old(tiles), block, prev)
    {
      block', prev', F' := block, prev, F;
      if prev != 0 && prev + tiles[prev].span == block {
        DropBelow(F, links, end, freeList, block, prev, curr);
        UnlinkedUntouched(F, links, end, freeList, prev);
        Neighbours(F, links, end, freeList, prev);
        F' := F - {prev};
        var before := links[prev].prev;
        var merged := tiles[prev].span + tiles[block].span;
        UnlinkFree(prev);
        tiles := (tiles - {block})[prev := Tile(merged, true, false, tiles[prev].prevPhys)];
        block', prev' := prev, before;
      }
    }

    /** Links `block` between the free blocks around it. */
    method LinkBetween(block: nat, prev: nat, curr: nat, ghost F: set<nat>)
      requires Sorted(F, links, end, freeList) && Around(F, end, block, prev, curr) && block in links
      modifies this`links, this`freeList
      ensures Sorted(F + {block}, links, end, freeList) && Untouched(F + {block}, old(links), links)
    {
      LinkAround(F, links, end, freeList, block, prev, curr);
      LinkedUntouched(F, links, end, block, prev, curr);
      assert prev != 0 ==> LinkedAt(F, links, end, prev);
      assert curr != 0 ==> LinkedAt(F, links, end, curr);
      ghost var target := Linked(links, block, prev, curr);
      links := links[block := Link(curr, prev)];
      if prev != 0 {
        links := links[prev := links[prev].(next := block)];
      } else {
        freeList := block;
      }
      if curr != 0 {
        links := links[curr := links[curr].(prev := block)];
      }
      assert links == target;
    }

    /** Both merges and the final splice; the result is the start of the merged block. */
    method SpliceIn(block: nat, p: nat, n: nat, ghost F: set<nat>) returns (b: nat)
      requires Sorted(F, links, end, freeList) && Around(F, end, block, p, n) && block in links
      requires block in tiles && (n != 0 ==> n in tiles)
      requires block in MergeUp(tiles, block, n) && (p != 0 ==> p in MergeUp(tiles, block, n))
      modifies this`tiles, this`links, this`freeList
      ensures b == Start(MergeUp(old(tiles), block, n), block, p)
      ensures tiles == MergeDown(MergeUp(old(tiles), block, n), block, p)
      ensures Untouched(F + {block}, old(links), links)
      ensures Sorted(ListAfter(F, old(tiles), block, p, n), links, end, freeList)
    {
      ghost var ks0 := links;
      ghost var F1, F2;
      var curr, prev;
      assert p != 0 ==> LinkedAt(F, links, end, p);
      ghost var left := F - (if Forward(tiles, block, n) then {n} else {})
                          - (if Backward(MergeUp(tiles, block, n), block, p) then {p} else {});
      curr, F1 := MergeForward(block, n, F, p);
      ghost var ks1 := links;
      b, prev, F2 := MergeBackward(block, p, curr, F1);
      ghost var ks2 := links;
      assert F2 == left;
      LinkBetween(b, prev, curr, F2);
      UntouchedTwice(F, F1, F + {block}, ks0, ks1, ks2);
      UntouchedTwice(F + {block}, F2 + {b}, F + {block}, ks0, ks2, links);
    }

    /**
     * tlsf_arena_insert_free: `block` is stamped FREE and not yet on the list; `t` is what the
     * headers would be with the block still in use.
     */
    method InsertFree(block: nat, ghost t: Tiles)
      requires Waiting(t, tiles, links, raw, end, block, exact) && Sorted(FreeSet(t), links, end, freeList)
      modifies this`tiles, this`links, this`freeList
      ensures Good(tiles, links, raw, end, freeList, exact)
      ensures Used(tiles, end) == Used(t, end) - {block} && KeptBelow(t, tiles, block)
      ensures Untouched(FreeSet(t) + {block}, old(links), links)
    {
      assert block !in FreeSet(t) && 0 < block < end by { Facts(t, raw, end, block, exact); }
      var prev, curr := FindAround(block, FreeSet(t));
      InsertAt(block, prev, curr, t);
    }

    /** Merging, splicing and telling, once the place on the list is known. */
    method InsertAt(block: nat, prev: nat, curr: nat, ghost t: Tiles)
      requires Waiting(t, tiles, links, raw, end, block, exact) && Sorted(FreeSet(t), links, end, freeList)
      requires Around(FreeSet(t), end, block, prev, curr)
      modifies this`tiles, this`links, this`freeList
      ensures Good(tiles, links, raw, end, freeList, exact)
      ensures Used(tiles, end) == Used(t, end) - {block} && KeptBelow(t, tiles, block)
      ensures Untouched(FreeSet(t) + {block}, old(links), links)
    {
      ghost var m := tiles;
      InsertPossible(t, tiles, links, raw, end, block, prev, curr, exact);
      var b := SpliceIn(block, prev, curr, FreeSet(t));
      InsertFinished(t, m, links, raw, end, freeList, block, prev, curr, exact);
      TellAfter(b);
    }

    /** The block behind b learns that b is free. */
    method TellAfter(b: nat)
      requires b in tiles && Next(tiles, b) in tiles
      modifies this`tiles
      ensures tiles == TellNext(old(tiles), end, b)
    {
      var after := b + tiles[b].span;
      tiles := tiles[after := tiles[after].(prevPhys := b,
                                           prevFree := if after == end then tiles[after].prevFree else true)];
    }
  }

  /** The span of a block after growth: unchanged unless it is too small and the next block is free and large enough. */
  ghost function GrownTo(t: Tiles, block: nat, need: nat): nat
    requires block in t
  {
    var cur, next := t[block].span, Next(t, block);
    if need <= cur || next !in t || !t[next].free || cur + t[next].span < need then cur
    else if cur + t[next].span - need >= MIN_BLOCK + HEADER then need
    else cur + t[next].span
  }

  // -------------------------------------------------- an arena that loses a flag

  lemma NoneUsed(t: Tiles, raw: nat, end: nat)
    requires Tiled(t, raw, end) && Coalesced(t) && Used(t, end) == map[]
    ensures FreeSet(t) == {raw} && raw in t && t[raw].span == end - raw
  {
    forall x | x in t && x != end ensures t[x].free {
      assert x !in Used(t, end);
    }
    AllFreeIsOne(t, raw, end);
  }

  /** With one used block at the start, everything behind it is one free block. */
  lemma UsedFirst(t: Tiles, raw: nat, end: nat, n: nat)
    requires Tiled(t, raw, end) && Coalesced(t) && Used(t, end) == map[raw := n] && raw + n < end
    ensures FreeSet(t) == {raw + n} && raw + n in t && t[raw + n].span == end - raw - n
  {
    Facts(t, raw, end, raw);
    assert raw in Used(t, end) && raw + n in t && raw + n !in Used(t, end);
    GapEnds(t, raw, end, raw + n);
    forall x | x in FreeSet(t) ensures x == raw + n {
      Facts(t, raw, end, x);
      assert raw !in FreeSet(t);
      Outside(t, raw, end, raw, x);
      Outside(t, raw, end, raw + n, x);
    }
  }

  /** With one used block inside, the block before it is free and the block behind it reaches to the end. */
  lemma UsedInside(t: Tiles, raw: nat, end: nat, b: nat, n: nat)
    requires Tiled(t, raw, end) && Coalesced(t) && Used(t, end) == map[b := n] && raw < b && b + n < end
    ensures b in t && t[b].prevFree && t[b].span == n && b + n in t && t[b + n].free && t[b + n].span == end - b - n
  {
    assert b in Used(t, end) && raw !in Used(t, end);
    Facts(t, raw, end, b);
    GapEnds(t, raw, end, raw);
    Outside(t, raw, end, raw, b);
    Facts(t, raw, end, raw);
    assert b + n !in Used(t, end);
    GapEnds(t, raw, end, b + n);
  }

  /**
   * In any arena with room for it: two blocks of n bytes are allocated, the first is freed, the
   * second grows to `need` bytes, and the validator no longer passes.
   */
  method GrowthLosesFlag(start: nat, size: nat, n: nat, need: nat) returns (a: Arena)
    requires start > 0 && size % 8 == 0 && Roomy(size, n, need)
    ensures a.Valid() && a.raw == start && a.live == map[start + n := need]
    ensures !Validates(a.tiles, a.links, a.raw, a.end, a.freeList)
  {
    a := HoleAndBlock(start, size, n, need);
    var ok; ghost var t;
    ok, t := a.Grow(start + n, need);
    GrowsInside(t, a.raw, a.end, start + n, n, need);
  }

  predicate Roomy(size: nat, n: nat, need: nat) {
    MIN_BLOCK <= n < need && n % 8 == 0 && need % 8 == 0 && n + need + MIN_BLOCK + 2 * HEADER <= size
  }

  /** The one used block has the flag and room to grow. */
  lemma GrowsInside(t: Tiles, raw: nat, end: nat, b: nat, n: nat, need: nat)
    requires Tiled(t, raw, end) && Coalesced(t) && Used(t, end) == map[b := n] && raw < b
    requires n < need && b + need + MIN_BLOCK + HEADER <= end
    ensures b in t && t[b].prevFree && GrownTo(t, b, need) == need
  {
    UsedInside(t, raw, end, b, n);
  }

  method HoleAndBlock(start: nat, size: nat, n: nat, need: nat) returns (a: Arena)
    requires start > 0 && size % 8 == 0 && Roomy(size, n, need)
    ensures fresh(a) && a.Valid() && a.exact && a.raw == start && a.end == start + size - HEADER
    ensures a.live == map[start + n := n]
  {
    a := TwoBlocks(start, size, n, need);
    var zero := a.FreeBlock(start, true);
    assert a.live == map[start + n := n];
  }

  method TwoBlocks(start: nat, size: nat, n: nat, need: nat) returns (a: Arena)
    requires start > 0 && size % 8 == 0 && Roomy(size, n, need)
    ensures fresh(a) && a.Valid() && a.exact && a.raw == start && a.end == start + size - HEADER && a.box == []
    ensures a.live == map[start := n, start + n := n]
  {
    a := OneBlock(start, size, n, need);
    var g; ghost var t;
    g, t := a.Alloc(n);
    UsedFirst(t, a.raw, a.end, n);
  }

  method OneBlock(start: nat, size: nat, n: nat, need: nat) returns (a: Arena)
    requires start > 0 && size % 8 == 0 && Roomy(size, n, need)
    ensures fresh(a) && a.Valid() && a.exact && a.raw == start && a.end == start + size - HEADER && a.box == []
    ensures a.live == map[start := n]
  {
    a := new Arena(start, size);
    var f; ghost var t;
    f, t := a.Alloc(n);
    NoneUsed(t, a.raw, a.end);
  }

  /** With nothing live and the mailbox empty the free list is one block spanning the region. */
  lemma EmptyArenaIsOneBlock(a: Arena)
    requires a.Valid() && a.live == map[] && a.box == []
    ensures a.tiles.Keys == {a.raw, a.end} && a.tiles[a.raw].free && a.tiles[a.raw].span == a.end - a.raw
    ensures a.freeList == a.raw && a.links[a.raw] == Link(0, 0) && a.liveBytes == 0
  {
    forall x | x in a.tiles && x != a.end ensures a.tiles[x].free {
      assert x in Used(a.tiles, a.end) <==> !a.tiles[x].free;
    }
    AllFreeIsOne(a.tiles, a.raw, a.end, a.exact);
    assert FreeSet(a.tiles) == {a.raw};
    Neighbours(FreeSet(a.tiles), a.links, a.end, a.freeList, a.raw);
  }

  /** The live blocks are disjoint stretches of the region. */
  lemma LiveBlocksDisjoint(a: Arena, b: nat, c: nat)
    requires a.Valid() && b in a.live && c in a.live && b < c
    ensures a.raw <= b && b + a.live[b] <= c && c + a.live[c] <= a.end
  {
    assert b in Used(a.tiles, a.end) && c in Used(a.tiles, a.end);
    Facts(a.tiles, a.raw, a.end, b, a.exact);
    Facts(a.tiles, a.raw, a.end, c, a.exact);
    Outside(a.tiles, a.raw, a.end, b, c, a.exact);
  }

  /** Clearing the FREE bit of a block leaves everything else in order. */
  lemma TakeTiles(t: Tiles, raw: nat, end: nat, f: nat, exact: bool)
    requires Tiled(t, raw, end, exact) && Coalesced(t) && !t[end].prevFree && f in t && t[f].free
    ensures Next(t, f) in t && t[f].span > 0 && f != end && !t[f].prevFree && t[Next(t, f)].prevPhys == f
    ensures !t[Next(t, f)].free
    ensures var u := SetFree(t, f, false, end);
            Tiled(u, raw, end, exact) && Coalesced(u) && !u[end].prevFree && u.Keys == t.Keys
  {
    Facts(t, raw, end, f, exact);
    SetFreeTiled(t, raw, end, f, false, end, exact);
    if t[f].prevFree { FlagHonest(t, raw, end, f, exact); }
    if f != raw { assert Lonely(t, t[f].prevPhys); }
    assert Lonely(t, f);
    var u := SetFree(t, f, false, end);
    forall x | x in u ensures Lonely(u, x) {
      assert Lonely(t, x);
    }
  }

  lemma TakeSets(t: Tiles, end: nat, f: nat)
    requires f in t && t[f].free && f != end && Next(t, f) in t && t[f].span > 0
    ensures Used(SetFree(t, f, false, end), end) == Used(t, end)[f := t[f].span]
    ensures FreeSet(SetFree(t, f, false, end)) == FreeSet(t) - {f}
  {
  }

  lemma CutLonely(v: Tiles, raw: nat, end: nat, f: nat, need: nat, x: nat, exact: bool)
    requires Tiled(v, raw, end, exact) && Coalesced(v) && f in v && f != end && !v[f].free && Next(v, f) in v
    requires MIN_BLOCK <= need && need + MIN_BLOCK <= v[f].span && x in Cut(v, f, need)
    ensures Lonely(Cut(v, f, need), x)
  {
    Facts(v, raw, end, f, exact);
    if x in v {
      assert Lonely(v, x);
      Facts(v, raw, end, x, exact);
      Outside(v, raw, end, f, Next(v, x), exact);
    }
  }

  /** Cutting a used block in two keeps the region tiled and coalesced. */
  lemma CutUsed(v: Tiles, raw: nat, end: nat, f: nat, need: nat, exact: bool)
    requires Tiled(v, raw, end, exact) && Coalesced(v) && f in v && f != end && !v[f].free
    requires MIN_BLOCK <= need && need % 8 == 0 && need + MIN_BLOCK <= v[f].span
    ensures Next(v, f) in v && f + need !in v && f + need != end
    ensures Tiled(Cut(v, f, need), raw, end, exact) && Coalesced(Cut(v, f, need))
  {
    CutTiled(v, raw, end, f, need, exact);
    Facts(v, raw, end, f, exact);
    forall x | x in Cut(v, f, need) ensures Lonely(Cut(v, f, need), x) {
      CutLonely(v, raw, end, f, need, x, exact);
    }
  }

  lemma CutSets(v: Tiles, end: nat, f: nat, need: nat)
    requires f in v && f != end && !v[f].free && Next(v, f) in v && Next(v, f) != f && f + need != Next(v, f)
    requires 0 < need <= v[f].span && f + need !in v && f + need != end
    ensures Used(Cut(v, f, need), end) == Used(v, end)[f := need][f + need := v[f].span - need]
    ensures FreeSet(Cut(v, f, need)) == FreeSet(v)
    ensures Cut(v, f, need).Keys == v.Keys + {f + need}
    ensures end in v ==> Cut(v, f, need)[end].prevFree == v[end].prevFree
  {
    var u := Cut(v, f, need);
    forall x | x in u ensures CutWords(v, u, f, need, x) {}
    CutMaps(v, u, end, f, need);
    assert forall x :: x in u ==> CutWords(v, u, f, need, x);
  }

  ghost predicate CutWords(v: Tiles, u: Tiles, f: nat, need: nat, x: nat)
    requires f in v && need <= v[f].span && x in u
  {
    if x == f + need then !u[x].free && u[x].span == v[f].span - need
    else x in v && u[x].free == v[x].free && u[x].span == if x == f then need else v[x].span
  }

  lemma CutMaps(v: Tiles, u: Tiles, end: nat, f: nat, need: nat)
    requires f in v && f != end && !v[f].free && 0 < need <= v[f].span && f + need !in v && f + need != end
    requires u.Keys == v.Keys + {f + need} && forall x :: x in u ==> CutWords(v, u, f, need, x)
    ensures Used(u, end) == Used(v, end)[f := need][f + need := v[f].span - need]
    ensures FreeSet(u) == FreeSet(v)
  {
    forall x ensures x in FreeSet(u) <==> x in FreeSet(v) {
      assert x in u ==> CutWords(v, u, f, need, x);
    }
    var used := Used(v, end)[f := need][f + need := v[f].span - need];
    forall x ensures (x in Used(u, end) <==> x in used) && (x in used ==> Used(u, end)[x] == used[x]) {
      assert x in u ==> CutWords(v, u, f, need, x);
    }
  }

  /** The headers the code has written when it calls tlsf_arena_insert_free for the remainder. */
  function SplitStamp(t: Tiles, f: nat, need: nat): Tiles
    requires f in t && need <= t[f].span
  {
    t[f := t[f].(span := need, free := false, prevFree := false)][f + need := Tile(t[f].span - need, true, false, f)]
  }

  lemma SplitStamped(t: Tiles, end: nat, f: nat, need: nat)
    requires f in t && f != end && need <= t[f].span && 0 < need && need < t[f].span && f + need !in t
    requires Next(t, f) in t && !t[f].prevFree && t[Next(t, f)].prevPhys == f
    ensures Stamped(Cut(SetFree(t, f, false, end), f, need), SplitStamp(t, f, need), end, f + need)
  {
    var u, m := Cut(SetFree(t, f, false, end), f, need), SplitStamp(t, f, need);
    forall x | x in u && x != f + need && x != Next(u, f + need) ensures SameTile(u, m, x) {
    }
  }

  lemma SplitLinks(F: set<nat>, U: set<nat>, ks: Links, end: nat, head: nat, f: nat, r: nat)
    requires Sorted(F, ks, end, head) && f in F && r !in F && r !in U && F !! U && U <= ks.Keys
    ensures f in ks
    ensures Sorted(F - {f}, Unlinked(ks, f)[r := Link(0, 0)], end, UnlinkedHead(ks, head, f))
    ensures Kept(U, ks, Unlinked(ks, f)[r := Link(0, 0)])
    ensures Unlinked(ks, f)[r := Link(0, 0)].Keys == ks.Keys + {r}
  {
    UnlinkSorted(F, ks, end, head, f);
    UnlinkedUntouched(F, ks, end, head, f);
    UntouchedKept(F, U, ks, Unlinked(ks, f));
    SortedFrame(F - {f}, Unlinked(ks, f), end, UnlinkedHead(ks, head, f), r, Link(0, 0));
    forall x | x in U ensures SameWord(ks, Unlinked(ks, f)[r := Link(0, 0)], x) {
      assert SameWord(ks, Unlinked(ks, f), x);
    }
  }

  /** The headers as they would be with both halves in use. */
  ghost function Halves(t: Tiles, end: nat, f: nat, need: nat): Tiles
    requires f in t && Next(t, f) in t && 0 < need <= t[f].span
  {
    Cut(SetFree(t, f, false, end), f, need)
  }

  lemma SplitWaiting(t: Tiles, ks: Links, raw: nat, end: nat, f: nat, need: nat, exact: bool)
    requires Tiled(t, raw, end, exact) && Coalesced(t) && !t[end].prevFree && f in t && t[f].free
    requires MIN_BLOCK <= need && need % 8 == 0 && need + MIN_BLOCK + HEADER <= t[f].span
    requires t.Keys + {f + need} <= ks.Keys
    ensures Next(t, f) in t && f != end && f + need !in t && f + need != end && f + need != Next(t, f)
    ensures Waiting(Halves(t, end, f, need), SplitStamp(t, f, need), ks, raw, end, f + need, exact)
  {
    TakeTiles(t, raw, end, f, exact);
    var v := SetFree(t, f, false, end);
    CutUsed(v, raw, end, f, need, exact);
    SplitStamped(t, end, f, need);
  }

  lemma SplitSets(t: Tiles, end: nat, f: nat, need: nat)
    requires f in t && t[f].free && f != end && Next(t, f) in t && 0 < need < t[f].span
    requires f + need !in t && f + need != end
    ensures FreeSet(Halves(t, end, f, need)) == FreeSet(t) - {f}
    ensures Used(Halves(t, end, f, need), end) == Used(t, end)[f := need][f + need := t[f].span - need]
  {
    TakeSets(t, end, f);
    CutSets(SetFree(t, f, false, end), end, f, need);
  }

  /** Everything TakePart needs before it inserts the remainder; u is the headers with both halves in use. */
  lemma SplitPrepared(t: Tiles, ks: Links, raw: nat, end: nat, head: nat, f: nat, need: nat, exact: bool)
    returns (u: Tiles)
    requires Good(t, ks, raw, end, head, exact) && f in FreeSet(t)
    requires MIN_BLOCK <= need && need % 8 == 0 && need + MIN_BLOCK + HEADER <= t[f].span
    ensures f in ks && Used(u, end) - {f + need} == Used(t, end)[f := need]
    ensures var ks' := Unlinked(ks, f)[f + need := Link(0, 0)];
            && Waiting(u, SplitStamp(t, f, need), ks', raw, end, f + need, exact)
            && Sorted(FreeSet(u), ks', end, UnlinkedHead(ks, head, f))
            && Kept(Used(t, end).Keys, ks, ks') && FreeSet(u) + {f + need} !! Used(t, end).Keys
  {
    Facts(t, raw, end, f, exact);
    if f + need in t { Outside(t, raw, end, f, f + need, exact); }
    SplitLinks(FreeSet(t), Used(t, end).Keys, ks, end, head, f, f + need);
    SplitWaiting(t, Unlinked(ks, f)[f + need := Link(0, 0)], raw, end, f, need, exact);
    SplitSets(t, end, f, need);
    u := Halves(t, end, f, need);
  }

  lemma JoinUsed(v: Tiles, raw: nat, end: nat, b: nat, exact: bool)
    requires Tiled(v, raw, end, exact) && Coalesced(v) && b in v && b != end && !v[b].free
    requires Next(v, b) in v && Next(v, b) != end && !v[Next(v, b)].free
    ensures Next(v, Next(v, b)) in v && Tiled(Join(v, b), raw, end, exact) && Coalesced(Join(v, b))
  {
    JoinTiled(v, raw, end, b, exact);
    Facts(v, raw, end, b, exact);
    Facts(v, raw, end, Next(v, b), exact);
    var u := Join(v, b);
    forall x | x in u ensures Lonely(u, x) {
      assert Lonely(v, x);
    }
  }

  /** The code's edits that make the free block after b part of b. */
  function AbsorbTiles(t: Tiles, end: nat, b: nat): Tiles
    requires b in t && Next(t, b) in t && Next(t, Next(t, b)) in t
  {
    var c := Next(t, b);
    var after := Next(t, c);
    var t1 := t[after := t[after].(prevPhys := b, prevFree := if after == end then t[after].prevFree else false)];
    (t1 - {c})[b := t[b].(span := t[b].span + t[c].span)]
  }

  lemma AbsorbIsJoin(t: Tiles, raw: nat, end: nat, b: nat, exact: bool)
    requires Tiled(t, raw, end, exact) && Coalesced(t) && !t[end].prevFree
    requires b in t && b != end && !t[b].free && Next(t, b) in t && t[Next(t, b)].free
    ensures Next(t, Next(t, b)) in t && Next(t, Next(t, b)) != b && Next(t, b) != b && Next(t, b) != end
    ensures var u := AbsorbTiles(t, end, b);
            && Tiled(u, raw, end, exact) && Coalesced(u) && !u[end].prevFree && u.Keys <= t.Keys
            && b in u && !u[b].free && u[b].prevFree == t[b].prevFree
  {
    var c := Next(t, b);
    TakeTiles(t, raw, end, c, exact);
    Facts(t, raw, end, b, exact);
    var v := SetFree(t, c, false, end);
    JoinUsed(v, raw, end, b, exact);
    assert AbsorbTiles(t, end, b) == Join(v, b);
  }

  lemma AbsorbSets(t: Tiles, end: nat, b: nat)
    requires b in t && b != end && !t[b].free && t[b].span > 0
    requires Next(t, b) in t && Next(t, b) != end && t[Next(t, b)].free && t[Next(t, b)].span > 0
    requires Next(t, Next(t, b)) in t
    ensures Used(AbsorbTiles(t, end, b), end) == Used(t, end)[b := t[b].span + t[Next(t, b)].span]
    ensures FreeSet(AbsorbTiles(t, end, b)) == FreeSet(t) - {Next(t, b)}
  {
    var u, c := AbsorbTiles(t, end, b), Next(t, b);
    assert forall x :: x in u <==> x in t && x != c;
    assert forall x ::
          x in u ==> u[x].free == t[x].free && u[x].span == (if x == b then t[b].span + t[c].span else t[x].span);
  }

  /** A used block can take over the free block after it. */
  lemma AbsorbPrepared(t: Tiles, ks: Links, raw: nat, end: nat, head: nat, b: nat, exact: bool) returns (u: Tiles)
    requires Good(t, ks, raw, end, head, exact) && b in t && b != end && !t[b].free
    requires Next(t, b) in t && t[Next(t, b)].free
    ensures var c := Next(t, b);
            && c in ks && (ks[c].prev != 0 ==> ks[c].prev in ks) && (ks[c].next != 0 ==> ks[c].next in ks)
            && Next(t, c) in t && Next(t, c) != b && Next(t, c) != c && b != c
            && u == AbsorbTiles(t, end, b)
            && Good(u, Unlinked(ks, c), raw, end, UnlinkedHead(ks, head, c), exact)
            && Used(u, end) == Used(t, end)[b := t[b].span + t[c].span]
            && b in u && !u[b].free && u[b].prevFree == t[b].prevFree
  {
    var c := Next(t, b);
    Facts(t, raw, end, b, exact);
    AbsorbIsJoin(t, raw, end, b, exact);
    Facts(t, raw, end, c, exact);
    AbsorbSets(t, end, b);
    UnlinkSorted(FreeSet(t), ks, end, head, c);
    Neighbours(FreeSet(t), ks, end, head, c);
    u := AbsorbTiles(t, end, b);
  }

  lemma ShortenPrepared(t: Tiles, ks: Links, raw: nat, end: nat, head: nat, b: nat, need: nat, exact: bool)
    returns (u: Tiles)
    requires Good(t, ks, raw, end, head, exact) && b in t && b != end && !t[b].free
    requires MIN_BLOCK <= need && need % 8 == 0 && need + MIN_BLOCK <= t[b].span
    ensures b + need !in t && b in u && !u[b].free && u[b].prevFree == t[b].prevFree
    ensures var m := t[b := t[b].(span := need)][b + need := Tile(t[b].span - need, true, false, b)];
            var ks' := ks[b + need := Link(0, 0)];
            Waiting(u, m, ks', raw, end, b + need, exact) && Sorted(FreeSet(u), ks', end, head)
    ensures Used(u, end) - {b + need} == Used(t, end)[b := need]
  {
    ShortenEffect(t, ks[b + need := Link(0, 0)], raw, end, b, need, exact);
    SortedFrame(FreeSet(t), ks, end, head, b + need, Link(0, 0));
    u := Cut(t, b, need);
  }

  lemma ShortenEffect(t: Tiles, ks: Links, raw: nat, end: nat, b: nat, need: nat, exact: bool)
    requires Tiled(t, raw, end, exact) && Coalesced(t) && !t[end].prevFree && b in t && b != end && !t[b].free
    requires MIN_BLOCK <= need && need % 8 == 0 && need + MIN_BLOCK <= t[b].span
    requires t.Keys + {b + need} <= ks.Keys
    ensures b + need !in t && Next(t, b) in t
    ensures var m := t[b := t[b].(span := need)][b + need := Tile(t[b].span - need, true, false, b)];
            Waiting(Cut(t, b, need), m, ks, raw, end, b + need, exact)
    ensures FreeSet(Cut(t, b, need)) == FreeSet(t)
    ensures Used(Cut(t, b, need), end) - {b + need} == Used(t, end)[b := need]
  {
    Facts(t, raw, end, b, exact);
    CutUsed(t, raw, end, b, need, exact);
    CutSets(t, end, b, need);
    var u, m := Cut(t, b, need), t[b := t[b].(span := need)][b + need := Tile(t[b].span - need, true, false, b)];
    forall x | x in u && x != b + need && x != Next(u, b + need) ensures SameTile(u, m, x) {
    }
  }

  /** Clearing one PREV_FREE bit leaves everything but exactness in order. */
  lemma DropFlagGood(t: Tiles, ks: Links, raw: nat, end: nat, head: nat, b: nat, exact: bool)
    requires Good(t, ks, raw, end, head, exact) && b in t && b != end
    ensures var u := DropFlag(t, b);
            && Good(u, ks, raw, end, head, exact && !t[b].prevFree) && Used(u, end) == Used(t, end)
            && (exact ==> (Tiled(u, raw, end, true) <==> !t[b].prevFree))
  {
    var u := DropFlag(t, b);
    DropFlagTiled(t, raw, end, b, exact);
    assert FreeSet(u) == FreeSet(t);
    forall x | x in u ensures Lonely(u, x) {
      assert Lonely(t, x);
    }
  }

  lemma InitialGood(raw: nat, end: nat, t: Tiles, ks: Links, exact: bool)
    requires 0 < raw && raw + MIN_BLOCK <= end && (end - raw) % 8 == 0
    requires t == map[raw := Tile(end - raw, true, false, 0), end := Tile(0, false, false, raw)]
    requires ks == map[raw := Link(0, 0), end := Link(0, 0)]
    ensures Good(t, ks, raw, end, raw, exact) && Used(t, end) == map[]
  {
    assert Fits(t, raw, end, raw, exact) && Follows(t, end);
    assert FreeSet(t) == {raw};
    assert LinkedAt(FreeSet(t), ks, end, raw);
  }
}
