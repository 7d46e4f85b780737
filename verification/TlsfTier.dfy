/**
 * The shared TLSF tier of a memory pool: the chain of arenas, the headers of the live
 * blocks and the byte counter.
 */
module TlsfTier {
  import opened Sums
  import opened Tiling
  import opened Folding
  import opened TlsfIndex
  import opened TlsfBlocks
  import opened TlsfPool

  const STAMP := 152  // sizeof(mp_block_header_t)

  /** The fields of mp_block_header_t that the tier uses; the map is keyed by raw_base. */
  datatype Header = Header(requested: nat, usable: nat, subpool: Pool)

  type Headers = map<nat, Header>

  ghost function UsableOf(h: Headers): map<nat, nat> {
    map a | a in h :: h[a].usable
  }

  /** total_needed */
  function TotalFor(req: nat, canary: bool): (total: nat)
    ensures total % 8 == 0 && total >= HEADER + STAMP + req + (if canary then 1 else 0)
    ensures total < HEADER + STAMP + req + (if canary then 1 else 0) + 8
  {
    Aligned(HEADER + STAMP + req + (if canary then 1 else 0))
  }

  /** The usable bytes are those asked for and the canary, rounded up to eight. */
  ghost predicate Roomy(h: Header, req: nat, canary: bool) {
    && h.requested == req && h.usable % 8 == 0
    && var n := if canary then req + 1 else req; n <= h.usable < n + 8
  }

  // ------------------------------------------------------------ who has which block

  /**
   * Block a of this arena is live or parked in a thread's cache, not both, and nowhere else.  A live
   * block has its usable bytes and no more than a rest that cannot stand alone.
   */
  ghost predicate OwnedAt(used: map<nat, nat>, p: Pool, h: Headers, parked: map<nat, Pool>, a: nat) {
    && (a in used <==> (a in h && h[a].subpool == p) || (a in parked && parked[a] == p))
    && (a in h && h[a].subpool == p && a in used ==>
          h[a].usable + HEADER + STAMP <= used[a] < h[a].usable + HEADER + STAMP + MIN_BLOCK + HEADER)
  }

  ghost predicate Owned(used: map<nat, nat>, p: Pool, h: Headers, parked: map<nat, Pool>) {
    forall a {:trigger OwnedAt(used, p, h, parked, a)} :: OwnedAt(used, p, h, parked, a)
  }

  /** Two regions, sentinels included, do not meet. */
  ghost predicate Disjoint(raw: nat, end: nat, raw': nat, end': nat) {
    end + HEADER <= raw' || end' + HEADER <= raw
  }

  /** No arena of the chain meets the region [raw, end + HEADER). */
  ghost predicate Unclaimed(arenas: seq<Pool>, raw: nat, end: nat) {
    forall p {:trigger p in arenas} :: p in arenas ==> Disjoint(p.raw, p.end, raw, end)
  }

  ghost predicate Apart(p: Pool, q: Pool) {
    Disjoint(p.raw, p.end, q.raw, q.end)
  }

  ghost predicate Chained(arenas: seq<Pool>) {
    forall p, q {:trigger Apart(p, q)} :: p in arenas && q in arenas && p != q ==> Apart(p, q)
  }

  ghost predicate Homed(arenas: seq<Pool>, h: Headers, parked: map<nat, Pool>) {
    && (forall a {:trigger a in h} :: a in h ==> h[a].subpool in arenas && a !in parked)
    && (forall a {:trigger a in parked} :: a in parked ==> parked[a] in arenas)
  }

  /** The counter: the usable bytes of the live blocks, and all that was ever parked. */
  ghost predicate Counted(h: Headers, drift: nat, bytes: nat) {
    bytes == Sum(UsableOf(h)) + drift
  }

  lemma StampCounted(h: Headers, drift: nat, bytes: nat, f: nat, header: Header)
    requires Counted(h, drift, bytes) && f !in h
    ensures Counted(h[f := header], drift, bytes + header.usable)
  {
    SumAdd(UsableOf(h), f, header.usable);
    assert UsableOf(h[f := header]) == UsableOf(h)[f := header.usable];
  }

  lemma DropCounted(h: Headers, drift: nat, bytes: nat, b: nat)
    requires Counted(h, drift, bytes) && b in h
    ensures h[b].usable <= bytes && Counted(h - {b}, drift, bytes - h[b].usable)
    ensures Counted(h - {b}, drift + h[b].usable, bytes)
  {
    SumRemove(UsableOf(h), b);
    assert UsableOf(h - {b}) == UsableOf(h) - {b};
  }

  lemma ChangeCounted(h: Headers, drift: nat, bytes: nat, b: nat, header: Header)
    requires Counted(h, drift, bytes) && b in h
    ensures h[b].usable <= bytes && Counted(h[b := header], drift, bytes - h[b].usable + header.usable)
  {
    DropCounted(h, drift, bytes, b);
    SumUpdate(UsableOf(h), b, header.usable);
    assert UsableOf(h[b := header]) == UsableOf(h)[b := header.usable];
  }

  class Tier {
    const canary: bool        // MP_FLAG_DEBUG_CANARY
    const fixed: bool         // MP_FLAG_STATIC_BUFFER
    var arenas: seq<Pool>     // the tlsf_root chain
    var headers: Headers      // of the live blocks
    var allocatedBytes: nat   // tlsf_allocated_bytes

    ghost var parked: map<nat, Pool>  // blocks in the threads' caches
    ghost var drift: nat              // usable bytes of all blocks ever parked

    /** What arena p has handed out is owned; `used` is what it has handed out. */
    ghost predicate Holds(p: Pool, used: map<nat, nat>)
      reads this
    {
      Owned(used, p, headers, parked)
    }

    ghost predicate Settled()
      reads this
    {
      Chained(arenas) && Homed(arenas, headers, parked) && Counted(headers, drift, allocatedBytes)
    }

    ghost predicate Valid()
      reads this, arenas
    {
      && Settled()
      && (forall p {:trigger p in arenas} :: p in arenas ==> p.Sealed() && Holds(p, p.used))
    }

    method FindIn(p: Pool, total: nat) returns (f: nat)
      requires p.Sealed() && total < LIMIT
      ensures f != 0 <==> HasFit(p.tiles, total)
      ensures f != 0 ==> GoodFit(p.tiles, f, total)
    {
      assert Seal(0);
      f := p.Find(total);
    }

    /** Walks the chain for the first arena with a suitable block. */
    method Search(total: nat) returns (i: nat, f: nat)
      requires Valid() && total < LIMIT
      ensures f == 0 <==> NoneFits(total)
      ensures f != 0 ==>
                && i < |arenas| && GoodFit(arenas[i].tiles, f, total)
                && forall j :: 0 <= j < i ==> !HasFit(arenas[j].tiles, total)
    {
      i, f := 0, 0;
      while i < |arenas|
        invariant i <= |arenas| && f == 0
        invariant forall j :: 0 <= j < i ==> !HasFit(arenas[j].tiles, total)
      {
        assert arenas[i] in arenas;
        f := FindIn(arenas[i], total);
        if f != 0 { return; }
        i := i + 1;
      }
      forall p | p in arenas ensures !HasFit(p.tiles, total) {
        var j :| 0 <= j < |arenas| && arenas[j] == p;
      }
    }

    /** Valid(), but for `used` in place of what arena p has handed out. */
    ghost predicate Almost(p: Pool, used: map<nat, nat>)
      reads this, arenas, p
    {
      && Settled() && p in arenas && p.Sealed() && Holds(p, used)
      && (forall q {:trigger q in arenas} :: q in arenas && q != p ==> q.Sealed() && Holds(q, q.used))
    }

    /** Arenas do not share addresses. */
    lemma OneArena(p: Pool, q: Pool, a: nat)
      requires p in arenas && q in arenas && p.Sealed() && q.Sealed() && a in p.tiles && a in q.tiles
      requires Chained(arenas)
      ensures p == q
    {
      assert Seal(0);
      Facts(p.tiles, p.raw, p.end, a, p.strict);
      Facts(q.tiles, q.raw, q.end, a, q.strict);
      assert p != q ==> Apart(p, q);
    }

    /** A free block is in nobody's hands. */
    lemma FreeUnowned(p: Pool, f: nat)
      requires Valid() && p in arenas && f in p.tiles && p.tiles[f].free
      ensures f !in headers && f !in parked
    {
      if f in headers || f in parked {
        var q := if f in headers then headers[f].subpool else parked[f];
        assert Seal(0) && q in arenas && OwnedAt(q.used, q, headers, parked, f);
        OneArena(p, q, f);
      }
    }

    /** Records that block a of arena p changed hands. */
    method Settle(ghost p: Pool, a: nat, ghost used: map<nat, nat>, headers': Headers, bytes': nat,
        ghost parked': map<nat, Pool>, ghost drift': nat)
      requires Almost(p, used) && used - {a} == p.used - {a}
      requires headers' - {a} == headers - {a} && parked' - {a} == parked - {a} && !(a in headers' && a in parked')
      requires Concerns(p, headers, parked, a) && Concerns(p, headers', parked', a)
      requires OwnedAt(p.used, p, headers', parked', a) && Counted(headers', drift', bytes')
      modifies this`headers, this`allocatedBytes, this`parked, this`drift
      ensures Valid() && headers == headers' && allocatedBytes == bytes' && parked == parked' && drift == drift'
    {
      forall q | q in arenas ensures Owned(q.used, q, headers', parked') {
        ghost var before := if q == p then used else q.used;
        OwnedChange(before, q.used, q, headers, headers', parked, parked', a, p);
      }
      HomedChange(arenas, headers, headers', parked, parked', a, p);
      headers, allocatedBytes, parked, drift := headers', bytes', parked', drift';
    }

    /** sys_mem_alloc gave a fresh region, which becomes the first arena of the chain. */
    method AddArena(start: nat, size: nat) returns (p: Pool)
      requires Valid() && start > 0 && MIN_BLOCK + HEADER <= Aligned(size) < LIMIT
      requires Unclaimed(arenas, start, start + Aligned(size) - HEADER)
      modifies this`arenas
      ensures Valid() && fresh(p) && arenas == [p] + old(arenas) && p.strict
      ensures p.raw == start && p.end == start + Aligned(size) - HEADER && p.used == map[]
      ensures forall n: nat {:trigger HasFit(p.tiles, n)} :: HasFit(p.tiles, n) <==> Covers(Aligned(size) - HEADER, n)
    {
      p := new Pool(start, size);
      forall n: nat ensures HasFit(p.tiles, n) <==> Covers(Aligned(size) - HEADER, n) {
        FreshFits(p.tiles, p.raw, p.end, p.strict, n);
      }
      ghost var was := arenas;
      forall a ensures OwnedAt(map[], p, headers, parked, a) {
        if a in headers { assert headers[a].subpool in was; }
        if a in parked { assert parked[a] in was; }
      }
      ChainedAdd(was, p);
      arenas := [p] + arenas;
    }

    ghost predicate NoneFits(total: nat)
      reads this, arenas
    {
      forall p {:trigger p in arenas} :: p in arenas ==> !HasFit(p.tiles, total)
    }

    /** No thread has put a cached block back into any arena. */
    ghost predicate Strict()
      reads this, arenas
    {
      forall p {:trigger p in arenas} :: p in arenas ==> p.strict
    }

    /** Carves a suitable block out of p and stamps its header. */
    method Serve(p: Pool, f: nat, req: nat, total: nat)
      requires Valid() && p in arenas && total % 8 == 0 && total >= HEADER + STAMP && GoodFit(p.tiles, f, total)
      modifies this`headers, this`allocatedBytes, this`parked, this`drift, p
      ensures Valid() && p.strict == old(p.strict) && parked == old(parked) && drift == old(drift)
      ensures f !in old(headers) && f !in parked && headers == old(headers)[f := Header(req, total - HEADER - STAMP, p)]
      ensures allocatedBytes == old(allocatedBytes) + total - HEADER - STAMP
      ensures Carved(p, f, total)
    {
      ghost var used := p.used;
      FreeUnowned(p, f);
      assert Seal(0);
      p.Carve(f, total);
      Elsewhere(used, f, p.used[f]);
      Elsewhere(headers, f, Header(req, total - HEADER - STAMP, p));
      var header := Header(req, total - HEADER - STAMP, p);
      StampCounted(headers, drift, allocatedBytes, f, header);
      Settle(p, f, used, headers[f := header], allocatedBytes + header.usable, parked, drift);
    }

    /** Block f is new, carries a header for req, and its usable bytes are counted. */
    ghost predicate Served(h: Headers, bytes: nat, f: nat, req: nat, usable: nat)
      reads this
    {
      && f !in h && f !in parked && f in headers && headers[f].subpool in arenas
      && headers == h[f := Header(req, usable, headers[f].subpool)]
      && allocatedBytes == bytes + usable
    }

    /**
     * What tlsf_alloc relies on: the total has a bucket, and so has the block of a new arena;
     * what sys_mem_alloc may answer, `first` for the initial arena and `grow` for a new one
     * (0 is failure), is memory nobody has.
     */
    ghost predicate Offered(total: nat, first: nat, grow: nat)
      reads this
    {
      && total < LIMIT && (fixed || Expansion(total) < LIMIT)
      && (!fixed && grow > 0 ==>
            && Unclaimed(arenas, grow, grow + Expansion(total) - HEADER)
            && (first > 0 ==> Disjoint(first, first + FIRST - HEADER, grow, grow + Expansion(total) - HEADER)))
    }

    /** The counter is the usable bytes of the live blocks. */
    ghost predicate Exact()
      reads this
    {
      allocatedBytes == Sum(UsableOf(headers))
    }

    lemma ExactMeans()
      requires Valid()
      ensures Exact() <==> drift == 0
    {
    }

    /** The initial arena, made on first use. */
    method EnsureRoot(first: nat) returns (ok: bool)
      requires Valid()
      modifies this`arenas
      ensures Valid() && (ok <==> old(arenas) != [] || first != 0)
      ensures forall p {:trigger p in arenas} :: p in arenas ==> p in old(arenas) || fresh(p)
      ensures old(arenas) != [] || !ok ==> arenas == old(arenas)
      ensures old(arenas) == [] && ok ==>
                && |arenas| == 1 && fresh(arenas[0]) && arenas[0].strict && arenas[0].used == map[]
                && arenas[0].raw == first && arenas[0].end == first + FIRST - HEADER
                && forall n: nat {:trigger HasFit(arenas[0].tiles, n)} ::
                      HasFit(arenas[0].tiles, n) <==> Covers(FIRST - HEADER, n)
    {
      ok := true;
      if arenas == [] {
        if first == 0 { return false; }
        var p := AddArena(first, FIRST);
      }
    }

    /** A new arena is made for a request no arena can serve; its block always fits. */
    method ServeFromNew(req: nat, total: nat, grow: nat) returns (f: nat)
      requires Valid() && total % 8 == 0 && total >= HEADER + STAMP && Expansion(total) < LIMIT && grow > 0
      requires Unclaimed(arenas, grow, grow + Expansion(total) - HEADER)
      modifies this
      ensures Valid() && parked == old(parked) && drift == old(drift)
      ensures f != 0 && Served(old(headers), old(allocatedBytes), f, req, total - HEADER - STAMP)
      ensures old(Strict()) ==> Strict()
      ensures forall p {:trigger p in arenas} :: p in arenas ==> p in old(arenas) || fresh(p)
      ensures |arenas| == |old(arenas)| + 1 && Extended(old(arenas), arenas)
      ensures arenas[0].raw == grow
      ensures arenas[0].end + 32 - arenas[0].raw == if total * 2 > 4194304 then total * 2 else 4194304
      ensures fresh(arenas[0]) && headers[f].subpool == arenas[0] && arenas[0].used == map[f := total]
    {
      NewFits(total);
      f := ServeFromSized(req, total, grow, Expansion(total));
      ExtendedOne(old(arenas), arenas[0]);
    }

    /** A new arena whose block covers the request. */
    method ServeFromSized(req: nat, total: nat, grow: nat, size: nat) returns (f: nat)
      requires Valid() && total % 8 == 0 && HEADER + STAMP <= total < LIMIT && grow > 0
      requires MIN_BLOCK + HEADER <= size == Aligned(size) < LIMIT && Covers(size - HEADER, total)
      requires Unclaimed(arenas, grow, grow + size - HEADER)
      modifies this
      ensures Valid() && parked == old(parked) && drift == old(drift)
      ensures f != 0 && Served(old(headers), old(allocatedBytes), f, req, total - HEADER - STAMP)
      ensures old(Strict()) ==> Strict()
      ensures forall p {:trigger p in arenas} :: p in arenas ==> p in old(arenas) || fresh(p)
      ensures |arenas| == |old(arenas)| + 1 && arenas == [arenas[0]] + old(arenas)
      ensures arenas[0].raw == grow && arenas[0].end + HEADER - grow == size
      ensures fresh(arenas[0]) && headers[f].subpool == arenas[0]
      ensures OnlyBlock(arenas[0], f, total)
    {
      var p := AddArena(grow, size);
      assert p in arenas;
      f := FindIn(p, total);
      FreshBlocks(p);
      Serve(p, f, req, total);
    }

    /** The free block of an arena with nothing in use spans it. */
    lemma FreshBlocks(p: Pool)
      requires p.Sealed() && p.strict && p.used == map[]
      ensures Empty(p)
    {
      assert Seal(0);
      EmptyIsOneBlock(p.tiles, p.raw, p.end);
    }

    /** The part of tlsf_alloc after the initial arena exists. */
    method ServeFromChain(req: nat, total: nat, grow: nat) returns (f: nat)
      requires Valid() && total % 8 == 0 && total >= HEADER + STAMP && Offered(total, 0, grow)
      modifies this, arenas
      ensures Valid() && parked == old(parked) && drift == old(drift) && (old(Strict()) ==> Strict())
      ensures f == 0 <==> old(NoneFits(total)) && (fixed || grow == 0)
      ensures f == 0 ==> arenas == old(arenas) && NoneFits(total)
      ensures forall p {:trigger p in arenas} :: p in arenas ==> p in old(arenas) || fresh(p)
      ensures Extended(old(arenas), arenas) && (fixed || grow == 0 ==> arenas == old(arenas))
      ensures Grew(old(arenas), arenas, grow, total)
      ensures arenas != old(arenas) <==> f != 0 && old(NoneFits(total))
      ensures f != 0 ==> Origin(this, f, total)
      ensures if f == 0 then headers == old(headers) && allocatedBytes == old(allocatedBytes)
              else Served(old(headers), old(allocatedBytes), f, req, total - HEADER - STAMP)
    {
      var i: nat;
      ExtendedSelf(arenas);
      i, f := Search(total);
      if f != 0 {
        Serve(arenas[i], f, req, total);
      } else if !fixed && grow != 0 {
        f := ServeFromNew(req, total, grow);
      }
    }

    /**
     * tlsf_alloc.  `first` and `grow` are what sys_mem_alloc answers if asked for the initial
     * arena and for an expansion, 0 being failure.  The block returned is the header address;
     * the payload starts HEADER + STAMP bytes later.
     */
    method Alloc(req: nat, first: nat, grow: nat) returns (f: nat)
      requires Valid() && Offered(TotalFor(req, canary), first, grow)
      modifies this, arenas
      ensures Valid() && parked == old(parked) && drift == old(drift) && (old(Strict()) ==> Strict())
      ensures f == 0 <==> old(OutOfRoom(TotalFor(req, canary), first, grow))
      ensures f == 0 ==> NoneFits(TotalFor(req, canary)) && (if arenas == [] then first == 0 else fixed || grow == 0)
      ensures forall p {:trigger p in arenas} :: p in arenas ==> p in old(arenas) || fresh(p)
      ensures Extended(old(arenas), arenas) && (f == 0 || fixed || grow == 0 ==> Rooted(old(arenas), arenas, first))
      ensures Added(old(arenas), arenas, first, grow, TotalFor(req, canary))
      ensures |arenas| > Least(old(arenas), first) <==>
                && f != 0
                && if old(arenas) == [] then !Covers(4194304 - 32, TotalFor(req, canary))
                   else old(NoneFits(TotalFor(req, canary)))
      ensures f != 0 ==> Origin(this, f, TotalFor(req, canary))
      ensures if f == 0 then headers == old(headers) && allocatedBytes == old(allocatedBytes)
              else Served(old(headers), old(allocatedBytes), f, req, TotalFor(req, canary) - HEADER - STAMP)
      ensures f != 0 ==> f in headers && Roomy(headers[f], req, canary)
      ensures Exact() <==> old(Exact())
    {
      f := AllocTotal(req, TotalFor(req, canary), first, grow);
    }

    /** sys_mem_alloc refuses the initial arena, or nothing fits and there is no new arena. */
    ghost predicate OutOfRoom(total: nat, first: nat, grow: nat)
      reads this, arenas
    {
      || (arenas == [] && first == 0)
      || ((fixed || grow == 0) && if arenas == [] then !Covers(4194304 - 32, total) else NoneFits(total))
    }

    method AllocTotal(req: nat, total: nat, first: nat, grow: nat) returns (f: nat)
      requires Valid() && total % 8 == 0 && total >= HEADER + STAMP && Offered(total, first, grow)
      modifies this, arenas
      ensures Valid() && parked == old(parked) && drift == old(drift) && (old(Strict()) ==> Strict())
      ensures f == 0 <==> old(OutOfRoom(total, first, grow))
      ensures f == 0 ==> NoneFits(total) && (if arenas == [] then first == 0 else fixed || grow == 0)
      ensures forall p {:trigger p in arenas} :: p in arenas ==> p in old(arenas) || fresh(p)
      ensures Extended(old(arenas), arenas) && (f == 0 || fixed || grow == 0 ==> Rooted(old(arenas), arenas, first))
      ensures Added(old(arenas), arenas, first, grow, total)
      ensures |arenas| > Least(old(arenas), first) <==>
                f != 0 && if old(arenas) == [] then !Covers(4194304 - 32, total) else old(NoneFits(total))
      ensures f != 0 ==> Origin(this, f, total)
      ensures if f == 0 then headers == old(headers) && allocatedBytes == old(allocatedBytes)
              else Served(old(headers), old(allocatedBytes), f, req, total - HEADER - STAMP)
      ensures Exact() <==> old(Exact())
    {
      ExactMeans();
      f := AllocRooted(req, total, first, grow);
      ExactMeans();
    }

    method AllocRooted(req: nat, total: nat, first: nat, grow: nat) returns (f: nat)
      requires Valid() && total % 8 == 0 && total >= HEADER + STAMP && Offered(total, first, grow)
      modifies this, arenas
      ensures Valid() && parked == old(parked) && drift == old(drift) && (old(Strict()) ==> Strict())
      ensures f == 0 <==> old(OutOfRoom(total, first, grow))
      ensures f == 0 ==> NoneFits(total) && (if arenas == [] then first == 0 else fixed || grow == 0)
      ensures forall p {:trigger p in arenas} :: p in arenas ==> p in old(arenas) || fresh(p)
      ensures Extended(old(arenas), arenas) && (f == 0 || fixed || grow == 0 ==> Rooted(old(arenas), arenas, first))
      ensures Added(old(arenas), arenas, first, grow, total)
      ensures |arenas| > Least(old(arenas), first) <==>
                f != 0 && if old(arenas) == [] then !Covers(4194304 - 32, total) else old(NoneFits(total))
      ensures f != 0 ==> Origin(this, f, total)
      ensures if f == 0 then headers == old(headers) && allocatedBytes == old(allocatedBytes)
              else Served(old(headers), old(allocatedBytes), f, req, total - HEADER - STAMP)
    {
      ghost var was := arenas;
      ExtendedSelf(arenas);
      if arenas == [] {
        if first == 0 {
          AddedLater(was, was, arenas, first, grow, total);
          return 0;
        }
        f := AllocFirst(req, total, first, grow);
      } else {
        f := ServeFromChain(req, total, grow);
        AddedLater(was, was, arenas, first, grow, total);
      }
    }

    /** The initial arena is made, and the chain searched. */
    method AllocFirst(req: nat, total: nat, first: nat, grow: nat) returns (f: nat)
      requires Valid() && total % 8 == 0 && total >= HEADER + STAMP && Offered(total, first, grow)
      requires arenas == [] && first != 0
      modifies this
      ensures Valid() && parked == old(parked) && drift == old(drift) && Strict()
      ensures f == 0 ==> NoneFits(total) && (fixed || grow == 0)
      ensures forall p {:trigger p in arenas} :: p in arenas ==> fresh(p)
      ensures f != 0 ==> f in headers && headers[f].subpool in arenas && OnlyBlock(headers[f].subpool, f, total)
      ensures if f == 0 then headers == old(headers) && allocatedBytes == old(allocatedBytes)
              else Served(old(headers), old(allocatedBytes), f, req, total - HEADER - STAMP)
      ensures f == 0 <==> (fixed || grow == 0) && !Covers(4194304 - 32, total)
      ensures Added([], arenas, first, grow, total) && (f == 0 || fixed || grow == 0 ==> Rooted([], arenas, first))
      ensures arenas != [] && (|arenas| > 1 <==> f != 0 && !Covers(4194304 - 32, total))
    {
      var ok := EnsureRootFor(total, first, grow);
      ghost var mid := arenas;
      f := ServeRoot(req, total, grow);
      AddedLater([], mid, arenas, first, grow, total);
    }

    /** The search when there is one arena, with nothing in use. */
    method ServeRoot(req: nat, total: nat, grow: nat) returns (f: nat)
      requires Valid() && total % 8 == 0 && total >= HEADER + STAMP && Offered(total, 0, grow)
      requires |arenas| == 1 && Empty(arenas[0]) && Strict()
      modifies this, arenas
      ensures Valid() && parked == old(parked) && drift == old(drift) && Strict()
      ensures f == 0 <==> old(NoneFits(total)) && (fixed || grow == 0)
      ensures f == 0 ==> NoneFits(total)
      ensures forall p {:trigger p in arenas} :: p in arenas ==> p in old(arenas) || fresh(p)
      ensures Grew(old(arenas), arenas, grow, total) && (fixed || grow == 0 ==> arenas == old(arenas))
      ensures arenas != old(arenas) <==> f != 0 && old(NoneFits(total))
      ensures f != 0 ==> f in headers && headers[f].subpool in arenas && OnlyBlock(headers[f].subpool, f, total)
      ensures if f == 0 then headers == old(headers) && allocatedBytes == old(allocatedBytes)
              else Served(old(headers), old(allocatedBytes), f, req, total - HEADER - STAMP)
    {
      ghost var root := arenas[0];
      f := ServeFromChain(req, total, grow);
      if f != 0 && headers[f].subpool in old(arenas) {
        assert headers[f].subpool == root && Carved(root, f, total);
      }
    }

    method EnsureRootFor(total: nat, first: nat, grow: nat) returns (ok: bool)
      requires Valid() && Offered(total, first, grow)
      modifies this`arenas
      ensures Valid() && (old(Strict()) ==> Strict()) && Offered(total, 0, grow)
      ensures ok <==> old(arenas) != [] || first != 0
      ensures if old(arenas) == [] && ok then |arenas| == 1 && fresh(arenas[0]) else arenas == old(arenas)
      ensures Rooted(old(arenas), arenas, first)
      ensures old(arenas) == [] && ok ==> Empty(arenas[0]) && (NoneFits(total) <==> !Covers(4194304 - 32, total))
      ensures forall p {:trigger p in arenas} :: p in arenas ==> p in old(arenas) || fresh(p)
      ensures if ok then old(OutOfRoom(total, first, grow)) <==> NoneFits(total) && (fixed || grow == 0)
              else old(OutOfRoom(total, first, grow)) && NoneFits(total)
      ensures !ok ==> arenas == [] && first == 0
      ensures ok ==> arenas != []
    {
      ok := EnsureRoot(first);
      RootFits(total);
      if old(arenas) == [] && ok {
        assert arenas[0] in arenas;
        FreshBlocks(arenas[0]);
      }
    }

    lemma RootFits(total: nat)
      ensures |arenas| == 1 ==> (NoneFits(total) <==> !HasFit(arenas[0].tiles, total))
    {
      if |arenas| == 1 { assert arenas[0] in arenas; }
    }

    constructor (canary: bool, fixed: bool)
      ensures Valid() && this.canary == canary && this.fixed == fixed && arenas == [] && headers == map[]
      ensures parked == map[] && allocatedBytes == drift == 0
    {
      this.canary, this.fixed := canary, fixed;
      arenas, headers, parked, allocatedBytes, drift := [], map[], map[], 0, 0;
    }

    /** A live or parked block is handed out by its arena, which alone is concerned with it. */
    lemma OwnerHas(b: nat)
      requires Valid() && (b in headers || b in parked)
      ensures var p := if b in headers then headers[b].subpool else parked[b];
              && b > 0 && p in arenas && Concerns(p, headers, parked, b) && b in p.used && p.Sealed()
              && Holds(p, p.used)
              && (b in headers ==> headers[b].usable + HEADER + STAMP <= p.used[b])
              && (b in headers ==> p.used[b] < headers[b].usable + HEADER + STAMP + MIN_BLOCK + HEADER)
    {
      var p := if b in headers then headers[b].subpool else parked[b];
      assert OwnedAt(p.used, p, headers, parked, b);
      UsedPositive(p, b);
    }

    lemma LiveOnly(b: nat)
      requires Valid() && b in headers
      ensures b !in parked
    {
    }

    /** No two blocks in use overlap, whichever arenas they are in. */
    lemma BlocksDisjoint(a: nat, b: nat)
      requires Valid() && a != b && (a in headers || a in parked) && (b in headers || b in parked)
      ensures var p := if a in headers then headers[a].subpool else parked[a];
              var q := if b in headers then headers[b].subpool else parked[b];
              a in p.used && b in q.used && (a + p.used[a] <= b || b + q.used[b] <= a)
    {
      OwnerHas(a);
      OwnerHas(b);
      var p := if a in headers then headers[a].subpool else parked[a];
      var q := if b in headers then headers[b].subpool else parked[b];
      assert p != q ==> Apart(p, q);
      UsedInside(p, a, if p == q then b else a);
      UsedInside(q, b, b);
    }

    method FreeIn(p: Pool, b: nat)
      requires p.Sealed() && b in p.used
      modifies p
      ensures p.Sealed() && p.strict == old(p.strict) && p.used == old(p.used) - {b}
    {
      assert Seal(0);
      p.FreeBlock(b);
    }

    method CanExpandIn(p: Pool, b: nat, total: nat) returns (ok: bool)
      requires p.Sealed() && b in p.used
      ensures ok <==> CanGrow(p.tiles, b, total)
    {
      assert Seal(0);
      ok := p.CanExpand(b, total);
    }

    method SwallowIn(p: Pool, b: nat, total: nat) returns (span: nat)
      requires p.Sealed() && b in p.used && MIN_BLOCK <= total && total % 8 == 0 && CanGrow(p.tiles, b, total)
      modifies p
      ensures p.Sealed() && p.strict == old(p.strict) && span >= total
      ensures span == GrownSpan(old(p.tiles), b, total) && p.used == old(p.used)[b := span]
    {
      assert Seal(0);
      span := p.Swallow(b, total);
    }

    method SpanOf(p: Pool, b: nat) returns (span: nat)
      requires p.Sealed() && b in p.used
      ensures span == p.used[b]
    {
      assert Seal(0);
      span := p.tiles[b].span;
    }

    /** tlsf_free */
    method Free(b: nat)
      requires Valid() && b in headers
      modifies this`headers, this`allocatedBytes, this`parked, this`drift, headers[b].subpool
      ensures Valid() && parked == old(parked) && drift == old(drift) && (old(Strict()) ==> Strict())
      ensures headers == old(headers) - {b} && allocatedBytes == old(allocatedBytes) - old(headers[b].usable)
      ensures Exact() <==> old(Exact())
    {
      var p := headers[b].subpool;
      ghost var used := p.used;
      ExactMeans();
      OwnerHas(b);
      DropCounted(headers, drift, allocatedBytes, b);
      FreeIn(p, b);
      Elsewhere(used, b, 0);
      Elsewhere(headers, b, headers[b]);
      Settle(p, b, used, headers - {b}, allocatedBytes - headers[b].usable, parked, drift);
      ExactMeans();
    }

    /** tlsf_try_inplace_expand */
    method Expand(b: nat, newSize: nat) returns (ok: bool)
      requires Valid() && b in headers
      modifies this`headers, this`allocatedBytes, this`parked, this`drift, headers[b].subpool
      ensures Valid() && parked == old(parked) && drift == old(drift) && (old(Strict()) ==> Strict())
      ensures var t, total := old(headers[b].subpool.tiles), TotalFor(newSize, canary);
              ok <==>
                && b in t && b + t[b].span in t && t[b + t[b].span].free
                && t[b].span + t[b + t[b].span].span >= total
      ensures !ok ==> headers == old(headers) && allocatedBytes == old(allocatedBytes)
      ensures var t, total := old(headers[b].subpool.tiles), TotalFor(newSize, canary);
              ok ==>
                && b in t && b + t[b].span in t
                && var both := t[b].span + t[b + t[b].span].span;
                Grown(old(headers), old(allocatedBytes), b, newSize, if both >= total + 64 then total else both)
      ensures Exact() <==> old(Exact())
    {
      ExactMeans();
      ok := ExpandTo(b, newSize, TotalFor(newSize, canary));
      ExactMeans();
    }

    /** The header of b says newSize, everything the block has is usable, and the counter follows. */
    ghost predicate Grown(h: Headers, bytes: nat, b: nat, newSize: nat, span: nat)
      reads this
    {
      && b in h && b in headers && span >= 184
      && headers == h[b := Header(newSize, span - 184, h[b].subpool)]
      && allocatedBytes == bytes - h[b].usable + headers[b].usable
    }

    method ExpandTo(b: nat, newSize: nat, total: nat) returns (ok: bool)
      requires Valid() && b in headers && total % 8 == 0 && total >= HEADER + STAMP
      modifies this`headers, this`allocatedBytes, this`parked, this`drift, headers[b].subpool
      ensures Valid() && parked == old(parked) && drift == old(drift) && (old(Strict()) ==> Strict())
      ensures ok <==> CanGrow(old(headers[b].subpool.tiles), b, total)
      ensures !ok ==> headers == old(headers) && allocatedBytes == old(allocatedBytes)
      ensures ok ==>
                Grown(old(headers), old(allocatedBytes), b, newSize, GrownSpan(old(headers[b].subpool.tiles), b, total))
    {
      OwnerHas(b);
      ok := CanExpandIn(headers[b].subpool, b, total);
      if ok {
        GrowTo(headers[b].subpool, b, newSize, total);
      }
    }

    method GrowTo(p: Pool, b: nat, newSize: nat, total: nat)
      requires Valid() && b in headers && p == headers[b].subpool && total % 8 == 0 && total >= HEADER + STAMP
      requires CanGrow(p.tiles, b, total)
      modifies this`headers, this`allocatedBytes, this`parked, this`drift, p
      ensures Valid() && parked == old(parked) && drift == old(drift) && p.strict == old(p.strict)
      ensures Grown(old(headers), old(allocatedBytes), b, newSize, GrownSpan(old(p.tiles), b, total))
    {
      ghost var used := p.used;
      OwnerHas(b);
      var span := SwallowOnly(p, b, total);
      Regrow(p, b, newSize, span, used);
    }

    /** The arena of b changes; the headers are still those of before. */
    method SwallowOnly(p: Pool, b: nat, total: nat) returns (span: nat)
      requires Valid() && p in arenas && b in p.used && total % 8 == 0 && total >= HEADER + STAMP
      requires CanGrow(p.tiles, b, total)
      modifies p
      ensures Almost(p, old(p.used)) && p.strict == old(p.strict) && span >= total
      ensures span == GrownSpan(old(p.tiles), b, total) && p.used == old(p.used)[b := span]
    {
      span := SwallowIn(p, b, total);
    }

    /** The header and the counter after the block grew to `span`. */
    method Regrow(p: Pool, b: nat, newSize: nat, span: nat, ghost used: map<nat, nat>)
      requires Almost(p, used) && b in headers && Concerns(p, headers, parked, b) && b in used
      requires p.used == used[b := span] && span >= HEADER + STAMP
      modifies this`headers, this`allocatedBytes, this`parked, this`drift
      ensures Valid() && parked == old(parked) && drift == old(drift)
      ensures Grown(old(headers), old(allocatedBytes), b, newSize, span)
    {
      var header := Header(newSize, span - HEADER - STAMP, p);
      ChangeCounted(headers, drift, allocatedBytes, b, header);
      Elsewhere(used, b, p.used[b]);
      Elsewhere(headers, b, header);
      assert b !in parked;
      Settle(p, b, used, headers[b := header], allocatedBytes - headers[b].usable + header.usable, parked, drift);
    }

    /** A freed block goes into a thread's cache; the byte counter is not told. */
    method Park(b: nat)
      requires Valid() && b in headers
      modifies this`headers, this`allocatedBytes, this`parked, this`drift
      ensures Valid() && headers == old(headers) - {b} && parked == old(parked)[b := old(headers[b].subpool)]
      ensures allocatedBytes == old(allocatedBytes) && drift == old(drift) + old(headers[b].usable)
      ensures Exact() <==> old(Exact()) && old(headers[b].usable) == 0
    {
      ExactMeans();
      ghost var p := headers[b].subpool;
      OwnerHas(b);
      DropCounted(headers, drift, allocatedBytes, b);
      Elsewhere(headers, b, headers[b]);
      Elsewhere(parked, b, p);
      Settle(p, b, p.used, headers - {b}, allocatedBytes, parked[b := p], drift + headers[b].usable);
      ExactMeans();
    }

    /** A parked block whose span is exactly `total` is handed out again. */
    method Unpark(p: Pool, b: nat, req: nat, total: nat)
      requires Valid() && b in parked && p == parked[b] && b in p.used && p.used[b] == total && total >= HEADER + STAMP
      modifies this`headers, this`allocatedBytes, this`parked, this`drift
      ensures Valid() && headers == old(headers)[b := Header(req, total - HEADER - STAMP, p)]
      ensures parked == old(parked) - {b}
      ensures b !in old(headers) && allocatedBytes == old(allocatedBytes) + total - HEADER - STAMP
      ensures drift == old(drift)
      ensures Exact() <==> old(Exact())
    {
      ExactMeans();
      OwnerHas(b);
      var header := Header(req, total - HEADER - STAMP, p);
      StampCounted(headers, drift, allocatedBytes, b, header);
      Elsewhere(headers, b, header);
      Elsewhere(parked, b, p);
      Settle(p, b, p.used, headers[b := header], allocatedBytes + header.usable, parked - {b}, drift);
      ExactMeans();
    }

    /** A parked block goes back to the free lists of its arena, uncoalesced. */
    method PutBack(p: Pool, b: nat)
      requires Valid() && b in parked && p == parked[b]
      modifies this`headers, this`allocatedBytes, this`parked, this`drift, p
      ensures Valid() && headers == old(headers) && parked == old(parked) - {b}
      ensures allocatedBytes == old(allocatedBytes) && drift == old(drift) && (Exact() <==> old(Exact()))
      ensures WentBack(p, b)
    {
      ghost var used := p.used;
      OwnerHas(b);
      assert Seal(0);
      p.PutBack(b);
      Elsewhere(used, b, 0);
      Elsewhere(parked, b, p);
      Settle(p, b, used, headers, allocatedBytes, parked - {b}, drift);
    }

    /** The same, and what it means for a request. */
    method PutBackFor(p: Pool, b: nat, ghost total: nat)
      requires Valid() && b in parked && p == parked[b]
      modifies this`headers, this`allocatedBytes, this`parked, this`drift, p
      ensures Valid() && headers == old(headers) && parked == old(parked) - {b}
      ensures allocatedBytes == old(allocatedBytes) && drift == old(drift) && (Exact() <==> old(Exact()))
      ensures WentBack(p, b)
      ensures NoneFits(total) <==> old(NoneFits(total)) && !Covers(old(p.used)[b], total)
    {
      OwnerHas(b);
      ghost var tiles := p.tiles;
      PutBack(p, b);
      PutBackFits(tiles, b, total);
    }
  }

  /** The newest arena is as large as twice the total wanted or 4 MB, whichever is more. */
  ghost predicate Sized(arenas: seq<Pool>, grow: nat, total: nat) {
    && arenas != [] && arenas[0].raw == grow
    && arenas[0].end + 32 - arenas[0].raw == if total * 2 > 4194304 then total * 2 else 4194304
  }

  /** At most one arena was added, in front. */
  ghost predicate Grew(was: seq<Pool>, arenas: seq<Pool>, grow: nat, total: nat) {
    || arenas == was
    || (|arenas| == |was| + 1 && Extended(was, arenas) && Sized(arenas, grow, total))
  }

  /** Nothing is in use, and the free block spans the arena. */
  ghost predicate Empty(p: Pool)
    reads p
  {
    && p.used == map[]
    && forall f {:trigger f in p.tiles} :: f in p.tiles && p.tiles[f].free ==> p.tiles[f].span == p.end - p.raw
  }

  /** f is the only block of p. */
  ghost predicate OnlyBlock(p: Pool, f: nat, total: nat)
    reads p
  {
    p.used == map[f := if p.end - p.raw >= total + 64 then total else p.end - p.raw]
  }

  /**
   * Block f was cut from a free block of one arena and the other arenas are as they were; in an
   * arena made for it, it is the only block.
   */
  twostate predicate Origin(tier: Tier, f: nat, total: nat)
    reads tier, tier.arenas
  {
    && f in tier.headers && tier.headers[f].subpool in tier.arenas
    && var p := tier.headers[f].subpool;
    && (p in old(tier.arenas) ==> Carved(p, f, total))
    && (p !in old(tier.arenas) ==> OnlyBlock(p, f, total))
    && forall q {:trigger q in tier.arenas} :: q in tier.arenas && q in old(tier.arenas) && q != p ==> unchanged(q)
  }

  /** The arenas of before are still there, behind the new ones. */
  ghost predicate Extended(was: seq<Pool>, arenas: seq<Pool>) {
    && |was| <= |arenas|
    && forall i {:trigger was[i]} :: 0 <= i < |was| ==> was[i] == arenas[|arenas| - |was| + i]
  }

  /** The arenas are those there were, or the initial one. */
  ghost predicate Rooted(was: seq<Pool>, arenas: seq<Pool>, first: nat) {
    if was != [] || first == 0 then arenas == was
    else |arenas| == 1 && Initial(arenas[0], first)
  }

  /** How many arenas there are without growth. */
  ghost function Least(was: seq<Pool>, first: nat): nat {
    if was == [] && first != 0 then 1 else |was|
  }

  /** The initial arena is made if there is none, then at most one more. */
  ghost predicate Added(was: seq<Pool>, arenas: seq<Pool>, first: nat, grow: nat, total: nat) {
    && Least(was, first) <= |arenas| <= Least(was, first) + 1 && Extended(was, arenas)
    && (was == [] && first != 0 ==> Initial(arenas[|arenas| - 1], first))
    && (|arenas| > Least(was, first) ==> Sized(arenas, grow, total))
  }

  ghost predicate Initial(p: Pool, first: nat) {
    p.raw == first && p.end + 32 - first == 4194304
  }

  lemma AddedLater(was: seq<Pool>, mid: seq<Pool>, now: seq<Pool>, first: nat, grow: nat, total: nat)
    requires Rooted(was, mid, first) && Grew(mid, now, grow, total)
    ensures |mid| == Least(was, first) && Added(was, now, first, grow, total) && (|now| > |mid| <==> now != mid)
  {
    if mid != [] { assert mid[|mid| - 1] == now[|now| - 1]; }
  }

  lemma ExtendedFurther(was: seq<Pool>, mid: seq<Pool>, now: seq<Pool>)
    requires (mid == was || was == []) && Extended(mid, now)
    ensures Extended(was, now)
  {
  }

  lemma ExtendedOne(was: seq<Pool>, p: Pool)
    ensures Extended(was, [p] + was)
  {
  }

  lemma ExtendedSelf(arenas: seq<Pool>)
    ensures Extended(arenas, arenas)
  {
  }

  /** A block in use stays inside its arena and clear of the other blocks there. */
  lemma UsedInside(p: Pool, a: nat, b: nat)
    requires p.Sealed() && a in p.used && b in p.used
    ensures p.raw <= a && a + p.used[a] <= p.end && (a + p.used[a] <= b || b + p.used[b] <= a || a == b)
  {
    assert Seal(0);
    Facts(p.tiles, p.raw, p.end, a, p.strict);
    Outside(p.tiles, p.raw, p.end, a, b, p.strict);
    Outside(p.tiles, p.raw, p.end, b, a, p.strict);
  }

  lemma UsedPositive(p: Pool, b: nat)
    requires p.Sealed() && b in p.used
    ensures b > 0
  {
    assert Seal(0);
    Facts(p.tiles, p.raw, p.end, b, p.strict);
  }

  lemma NewFits(total: nat)
    requires HEADER + STAMP <= total && Expansion(total) < LIMIT && total % 8 == 0
    ensures Aligned(Expansion(total)) == Expansion(total) && Covers(Expansion(total) - HEADER, total)
  {
    NewCovers(total);
  }

  lemma NewCovers(total: nat)
    requires HEADER + STAMP <= total && Expansion(total) < LIMIT
    ensures Covers(Expansion(total) - HEADER, total)
  {
    ExpansionFits(total);
    CoversIff(Expansion(total) - HEADER, total);
  }

  lemma ChainedAdd(arenas: seq<Pool>, p: Pool)
    requires Chained(arenas) && Unclaimed(arenas, p.raw, p.end)
    ensures Chained([p] + arenas)
  {
  }

  /** Whoever has block a has it from arena p. */
  ghost predicate Concerns(p: Pool, h: Headers, parked: map<nat, Pool>, a: nat) {
    (a in h ==> h[a].subpool == p) && (a in parked ==> parked[a] == p)
  }

  ghost predicate SameAt<T>(m: map<nat, T>, m': map<nat, T>, a: nat) {
    (a in m <==> a in m') && (a in m ==> m[a] == m'[a])
  }

  lemma Elsewhere<T>(m: map<nat, T>, a: nat, x: T)
    ensures m[a := x] - {a} == m - {a} && m - {a} - {a} == m - {a}
  {
  }

  lemma SameElsewhere<T>(m: map<nat, T>, m': map<nat, T>, a: nat, b: nat)
    requires m - {a} == m' - {a} && b != a
    ensures SameAt(m, m', b)
  {
    assert (b in m - {a} <==> b in m' - {a}) && (b in m <==> b in m - {a}) && (b in m' <==> b in m' - {a});
    assert b in m ==> m[b] == (m - {a})[b];
    assert b in m' ==> m'[b] == (m' - {a})[b];
  }

  /** Ownership after one block of p changed hands. */
  lemma OwnedChange(used: map<nat, nat>, used': map<nat, nat>, q: Pool, h: Headers, h': Headers, parked: map<nat,
      Pool>, parked': map<nat, Pool>, a: nat, p: Pool)
    requires Owned(used, q, h, parked) && h' - {a} == h - {a} && parked' - {a} == parked - {a}
    requires Concerns(p, h, parked, a) && Concerns(p, h', parked', a)
    requires if q == p then used - {a} == used' - {a} && OwnedAt(used', p, h', parked', a) else used' == used
    ensures Owned(used', q, h', parked')
  {
    forall b ensures OwnedAt(used', q, h', parked', b) {
      assert OwnedAt(used, q, h, parked, b);
      if b != a {
        SameElsewhere(h, h', a, b);
        SameElsewhere(parked, parked', a, b);
        if q == p { SameElsewhere(used, used', a, b); }
      }
    }
  }

  lemma HomedChange(arenas: seq<Pool>, h: Headers, h': Headers, parked: map<nat, Pool>, parked': map<nat, Pool>,
      a: nat, p: Pool)
    requires Homed(arenas, h, parked) && h' - {a} == h - {a} && parked' - {a} == parked - {a} && p in arenas
    requires Concerns(p, h', parked', a) && !(a in h' && a in parked')
    ensures Homed(arenas, h', parked')
  {
    forall b | b in h' || b in parked'
      ensures (b in h' ==> h'[b].subpool in arenas && b !in parked') && (b in parked' ==> parked'[b] in arenas)
    {
      if b != a {
        SameElsewhere(h, h', a, b);
        SameElsewhere(parked, parked', a, b);
      }
    }
  }
}
