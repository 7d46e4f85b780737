/**
 * A thread's cache of freed TLSF blocks: eight stacks of at most eight entries,
 * embedded in the thread's own storage.
 */
module TlsfCache {
  import opened Tiling
  import opened Folding
  import opened TlsfIndex
  import opened TlsfBlocks
  import opened TlsfPool
  import opened TlsfTier

  const SIZES := 8    // TLSF_CACHE_SIZES
  const SLOTS := 8    // TLSF_CACHE_MAX_SLOTS
  const MIN_FL := 6   // TLSF_CACHE_MIN_FL

  /** A pointer to entry k is k + 1; 0 is NULL. */
  datatype Entry = Entry(block: nat, tpool: Pool?, next: nat)

  /** Entry k belongs to size class k / 8 and is on its list. */
  predicate InUse(counts: seq<nat>, k: nat)
    requires |counts| == SIZES
  {
    k < SIZES * SLOTS && k % SLOTS < counts[k / SLOTS]
  }

  /** The list of class i is its first counts[i] entries, last one first. */
  ghost predicate StackOk(slots: seq<nat>, counts: seq<nat>, i: nat)
    requires |slots| == |counts| == SIZES && i < SIZES
  {
    counts[i] <= SLOTS && slots[i] == if counts[i] == 0 then 0 else i * SLOTS + counts[i]
  }

  ghost predicate EntryOk(counts: seq<nat>, entries: seq<Entry>, places: map<nat, nat>, parked: map<nat, Pool>, k: nat)
    requires |counts| == SIZES && |entries| == SIZES * SLOTS
  {
    InUse(counts, k) ==>
      && entries[k].next == (if k % SLOTS == 0 then 0 else k)
      && entries[k].block in places && places[entries[k].block] == k
      && entries[k].block in parked && parked[entries[k].block] == entries[k].tpool
  }

  ghost predicate PlaceOk(counts: seq<nat>, entries: seq<Entry>, places: map<nat, nat>, b: nat)
    requires |counts| == SIZES && |entries| == SIZES * SLOTS && b in places
  {
    InUse(counts, places[b]) && entries[places[b]].block == b
  }

  /** Every entry on a list holds its own parked block; `places` says which. */
  ghost predicate Stacked(slots: seq<nat>, counts: seq<nat>, entries: seq<Entry>, places: map<nat, nat>,
      parked: map<nat, Pool>) {
    && |slots| == |counts| == SIZES && |entries| == SIZES * SLOTS
    && (forall i: nat {:trigger StackOk(slots, counts, i)} :: i < SIZES ==> StackOk(slots, counts, i))
    && (forall k: nat {:trigger EntryOk(counts, entries, places, parked, k)} ::
          EntryOk(counts, entries, places, parked, k))
    && (forall b {:trigger PlaceOk(counts, entries, places, b)} :: b in places ==> PlaceOk(counts, entries, places, b))
  }

  /** Class k caches blocks of at least FLOORS[k] and less than FLOORS[k + 1] bytes. */
  const FLOORS: seq<nat> := [64, 128, 256, 512, 1024, 2048, 4096, 8192, 16384]

  ghost predicate InClass(k: nat, size: nat) {
    k < 8 && FLOORS[k] <= size < FLOORS[k + 1]
  }

  lemma ClassTable(size: nat)
    ensures forall k: nat {:trigger InClass(k, size)} ::
              InClass(k, size) <==> k < 8 && MappingInsert(size).fl == k + MIN_FL
  {
    Powers();
    FirstIndex(size, 6);
    FirstIndex(size, 7);
    FirstIndex(size, 8);
    FirstIndex(size, 9);
    FirstIndex(size, 10);
    FirstIndex(size, 11);
    FirstIndex(size, 12);
    FirstIndex(size, 13);
  }

  lemma SomeClass(size: nat) returns (k: nat)
    requires 64 <= size < 16384
    ensures InClass(k, size)
  {
    k := if size < 128 then 0 else if size < 256 then 1 else if size < 512 then 2 else if size < 1024 then 3
         else if size < 2048 then 4 else if size < 4096 then 5 else if size < 8192 then 6 else 7;
  }

  // ---------------------------------------------------------------- no aliased entries

  /** The n-th entry pointer on a list. */
  ghost function Walk(entries: seq<Entry>, at: nat, n: nat): nat
    decreases n
  {
    if n == 0 || at == 0 || at > |entries| then at else Walk(entries, entries[at - 1].next, n - 1)
  }

  /** The list of class i visits entries 8i + count - 1 down to 8i and then ends. */
  lemma {:induction false} WalkExact(slots: seq<nat>, counts: seq<nat>, entries: seq<Entry>, places: map<nat, nat>,
      parked: map<nat, Pool>, i: nat, j: nat, n: nat)
    requires Stacked(slots, counts, entries, places, parked) && i < SIZES && j <= counts[i] && n <= j
    ensures Walk(entries, if j == 0 then 0 else i * SLOTS + j, n) == if n == j then 0 else i * SLOTS + j - n
    decreases n
  {
    assert StackOk(slots, counts, i);
    if n > 0 {
      var k := i * SLOTS + j - 1;
      assert k / SLOTS == i && k % SLOTS == j - 1;
      assert InUse(counts, k) && EntryOk(counts, entries, places, parked, k);
      WalkExact(slots, counts, entries, places, parked, i, j - 1, n - 1);
    }
  }

  /** Entries met on the lists are met once, and hold different blocks. */
  lemma EntriesNotAliased(slots: seq<nat>, counts: seq<nat>, entries: seq<Entry>, places: map<nat, nat>,
      parked: map<nat, Pool>, i: nat, m: nat, j: nat, n: nat)
    requires Stacked(slots, counts, entries, places, parked) && i < SIZES && j < SIZES && m < counts[i]
    requires n < counts[j] && (i, m) != (j, n)
    ensures var x, y := Walk(entries, slots[i], m), Walk(entries, slots[j], n);
            0 < x <= |entries| && 0 < y <= |entries| && x != y && entries[x - 1].block != entries[y - 1].block
  {
    assert StackOk(slots, counts, i) && StackOk(slots, counts, j);
    WalkExact(slots, counts, entries, places, parked, i, counts[i], m);
    WalkExact(slots, counts, entries, places, parked, j, counts[j], n);
    var x, y := i * SLOTS + counts[i] - m - 1, j * SLOTS + counts[j] - n - 1;
    assert x / SLOTS == i && x % SLOTS == counts[i] - m - 1 && y / SLOTS == j && y % SLOTS == counts[j] - n - 1;
    assert EntryOk(counts, entries, places, parked, x) && EntryOk(counts, entries, places, parked, y);
  }

  // ------------------------------------------------------------------- push and pop

  lemma PushStacked(slots: seq<nat>, counts: seq<nat>, entries: seq<Entry>, places: map<nat, nat>, parked: map<nat,
      Pool>, i: nat, k: nat, e: Entry)
    requires Stacked(slots, counts, entries, places, parked) && i < SIZES && counts[i] < SLOTS
    requires k == i * SLOTS + counts[i]
    requires e.tpool != null && e.next == slots[i] && e.block !in parked
    ensures Stacked(slots[i := k + 1], counts[i := counts[i] + 1], entries[k := e], places[e.block := k],
              parked[e.block := e.tpool])
  {
    var slots', counts', entries', places', parked' :=
      slots[i := k + 1], counts[i := counts[i] + 1], entries[k := e], places[e.block := k], parked[e.block := e.tpool];
    assert StackOk(slots, counts, i) && k / SLOTS == i && k % SLOTS == counts[i];
    forall h: nat | h < SIZES ensures StackOk(slots', counts', h) {
      assert StackOk(slots, counts, h);
    }
    forall x: nat ensures EntryOk(counts', entries', places', parked', x) {
      PushEntry(counts, entries, places, parked, i, k, e, x);
    }
    forall b | b in places' ensures PlaceOk(counts', entries', places', b) {
      if b != e.block { assert PlaceOk(counts, entries, places, b); }
    }
  }

  lemma PushEntry(counts: seq<nat>, entries: seq<Entry>, places: map<nat, nat>, parked: map<nat, Pool>, i: nat, k: nat,
      e: Entry, x: nat)
    requires |counts| == SIZES && |entries| == SIZES * SLOTS && EntryOk(counts, entries, places, parked, x)
    requires i < SIZES && counts[i] < SLOTS && k == i * SLOTS + counts[i] && e.tpool != null && e.block !in parked
    requires e.next == if counts[i] == 0 then 0 else k
    ensures EntryOk(counts[i := counts[i] + 1], entries[k := e], places[e.block := k], parked[e.block := e.tpool], x)
  {
    assert k / SLOTS == i && k % SLOTS == counts[i];
    if InUse(counts[i := counts[i] + 1], x) && x != k { assert InUse(counts, x); }
  }

  lemma PopStacked(slots: seq<nat>, counts: seq<nat>, entries: seq<Entry>, places: map<nat, nat>, parked: map<nat,
      Pool>, i: nat, k: nat)
    requires Stacked(slots, counts, entries, places, parked) && i < SIZES && 0 < counts[i]
    requires k == i * SLOTS + counts[i] - 1
    ensures slots[i] == k + 1 && k < |entries| && entries[k].block in parked
    ensures entries[k].tpool == parked[entries[k].block]
    ensures entries[k].block in places
    ensures Stacked(slots[i := entries[k].next], counts[i := counts[i] - 1], entries, places - {entries[k].block},
              parked - {entries[k].block})
  {
    assert StackOk(slots, counts, i) && k / SLOTS == i && k % SLOTS == counts[i] - 1;
    assert EntryOk(counts, entries, places, parked, k);
    var e := entries[k];
    var slots', counts', places', parked' :=
      slots[i := e.next], counts[i := counts[i] - 1], places - {e.block}, parked - {e.block};
    forall h: nat | h < SIZES ensures StackOk(slots', counts', h) {
      assert StackOk(slots, counts, h);
    }
    forall x: nat ensures EntryOk(counts', entries, places', parked', x) {
      assert EntryOk(counts, entries, places, parked, x);
    }
    forall b | b in places' ensures PlaceOk(counts', entries, places', b) {
      assert PlaceOk(counts, entries, places, b);
    }
  }

  /** Parked blocks of other threads come and go without touching this cache. */
  lemma StackedFrame(slots: seq<nat>, counts: seq<nat>, entries: seq<Entry>, places: map<nat, nat>, parked: map<nat,
      Pool>, parked': map<nat, Pool>)
    requires Stacked(slots, counts, entries, places, parked)
    requires forall b :: b in places ==> (b in parked ==> b in parked' && parked'[b] == parked[b])
    ensures Stacked(slots, counts, entries, places, parked')
  {
    forall k: nat ensures EntryOk(counts, entries, places, parked', k) {
      assert EntryOk(counts, entries, places, parked, k);
    }
  }

  /** What the other threads have parked. */
  ghost function Others(parked: map<nat, Pool>, places: map<nat, nat>): map<nat, Pool> {
    parked - places.Keys
  }

  lemma OthersPop(parked: map<nat, Pool>, places: map<nat, nat>, b: nat)
    requires b in places
    ensures Others(parked - {b}, places - {b}) == Others(parked, places) && (places - {b}).Keys <= places.Keys
  {
  }

  /** Whatever one thread's operation does, the caches of the other threads stay intact. */
  lemma OtherCachesKept(slots: seq<nat>, counts: seq<nat>, entries: seq<Entry>, places: map<nat, nat>, parked: map<nat,
      Pool>, parked': map<nat, Pool>, mine: map<nat, nat>, mine': map<nat, nat>)
    requires Stacked(slots, counts, entries, places, parked) && places.Keys !! mine.Keys
    requires Others(parked, mine) == Others(parked', mine')
    ensures Stacked(slots, counts, entries, places, parked') && places.Keys !! mine'.Keys
  {
    PlacesParked(slots, counts, entries, places, parked);
    forall b | b in places ensures b in parked && b in parked' && parked'[b] == parked[b] && b !in mine' {
      assert b in Others(parked, mine) && b in Others(parked', mine');
      assert Others(parked, mine)[b] == parked[b] && Others(parked', mine')[b] == parked'[b];
    }
    StackedFrame(slots, counts, entries, places, parked, parked');
  }

  lemma OthersPush(parked: map<nat, Pool>, places: map<nat, nat>, b: nat, p: Pool, k: nat)
    requires b !in parked
    ensures Others(parked[b := p], places[b := k]) == Others(parked, places)
  {
  }

  class BlockCache {
    var slots: seq<nat>      // tlsf_slots
    var counts: seq<nat>     // tlsf_counts
    var entries: seq<Entry>  // tlsf_entries

    ghost var places: map<nat, nat>  // the cached blocks, and where each one is

    ghost predicate Valid(tier: Tier)
      reads this, tier
    {
      Stacked(slots, counts, entries, places, tier.parked)
    }

    constructor (tier: Tier)
      ensures Valid(tier) && places == map[] && counts == seq(SIZES, _ => 0)
    {
      slots := seq(SIZES, _ => 0);
      counts := seq(SIZES, _ => 0);
      entries := seq(SIZES * SLOTS, _ => Entry(0, null, 0));
      places := map[];
    }

    /** Takes the top entry of class i off its list; its block is this thread's no longer. */
    method Pop(tier: Tier, i: nat) returns (p: Pool, b: nat)
      requires Valid(tier) && i < SIZES && counts[i] > 0
      modifies this
      ensures b == old(Top(i)) && b in old(places) && b in tier.parked && p == tier.parked[b]
      ensures places == old(places) - {b}
      ensures Others(tier.parked - {b}, places) == old(Others(tier.parked, places))
      ensures |old(counts)| == SIZES && |counts| == SIZES && counts == old(counts)[i := old(counts)[i] - 1]
      ensures Stacked(slots, counts, entries, places, tier.parked - {b})
    {
      PopStacked(slots, counts, entries, places, tier.parked, i, i * SLOTS + counts[i] - 1);
      var entry := entries[slots[i] - 1];
      slots := slots[i := entry.next];
      counts := counts[i := counts[i] - 1];
      p, b := entry.tpool, entry.block;
      OthersPop(tier.parked, places, b);
      places := places - {b};
    }

    /** The block on top of the list of class i. */
    ghost function Top(i: nat): nat
      reads this
    {
      if i < |slots| && 0 < slots[i] <= |entries| then entries[slots[i] - 1].block else 0
    }

    ghost function TopSpan(tier: Tier, i: nat): nat
      reads this, tier, tier.parked.Values
    {
      var b := Top(i);
      if b in tier.parked && b in tier.parked[b].used then tier.parked[b].used[b] else 0
    }

    /** The block cached in class i, if any, is not of the size wanted, and would not serve it as a free block. */
    ghost predicate Useless(tier: Tier, i: int, total: nat)
      reads this, tier, tier.parked.Values
    {
      0 <= i < SIZES && |counts| == SIZES && counts[i] > 0 ==>
        TopSpan(tier, i) != total && !Covers(TopSpan(tier, i), total)
    }

    /** The class of a block size, if it has one. */
    method ClassOf(size: nat) returns (i: int)
      ensures 0 <= i < SIZES ==> InClass(i, size) && 64 <= size < 16384
      ensures forall k: nat {:trigger InClass(k, size)} :: InClass(k, size) ==> i == k
    {
      ClassTable(size);
      i := MappingInsert(size).fl - MIN_FL;
    }

    /** The TLSF branch of mp_free for a block of the shared tier. */
    method Free(tier: Tier, b: nat)
      requires tier.Valid() && Valid(tier) && b in tier.headers
      modifies this, tier, tier.headers[b].subpool
      ensures tier.Valid() && Valid(tier) && tier.headers == old(tier.headers) - {b}
      ensures Others(tier.parked, places) == old(Others(tier.parked, places)) && tier.arenas == old(tier.arenas)
      ensures |old(counts)| == SIZES && b !in old(places)
      ensures if b in places
              then
                && tier.allocatedBytes == old(tier.allocatedBytes)
                && unchanged(old(tier.headers)[b].subpool)
                && tier.parked == old(tier.parked)[b := old(tier.headers)[b].subpool]
              else
                && places == old(places)
                && tier.allocatedBytes == old(tier.allocatedBytes) - old(tier.headers[b].usable)
      ensures tier.Exact() <==> old(tier.Exact()) && !(b in places && old(tier.headers[b].usable) > 0)
      ensures old(tier.Strict()) ==> tier.Strict()
      ensures forall k: nat {:trigger InClass(k, old(tier.headers[b].usable) + 184)} ::
                InClass(k, old(tier.headers[b].usable) + 184) ==>
                  && k < |old(counts)| && (b in places <==> old(counts)[k] < 8)
                  && (b in places ==> places == old(places)[b := k * 8 + old(counts)[k]])
      ensures b in places ==> 64 <= old(tier.headers[b].usable) + 184 < 16384
    {
      var i := ClassOf(tier.headers[b].usable + HEADER + STAMP);
      FreeAs(tier, b, i);
    }

    /** A block of class i is freed. */
    method FreeAs(tier: Tier, b: nat, i: int)
      requires tier.Valid() && Valid(tier) && b in tier.headers
      modifies this, tier, tier.headers[b].subpool
      ensures tier.Valid() && Valid(tier) && tier.headers == old(tier.headers) - {b}
      ensures Others(tier.parked, places) == old(Others(tier.parked, places)) && tier.arenas == old(tier.arenas)
      ensures |old(counts)| == SIZES
      ensures b !in old(places) && (b in places <==> 0 <= i < SIZES && old(counts)[i] < SLOTS)
      ensures if b in places
              then
                && 0 <= i < SIZES && places == old(places)[b := i * SLOTS + old(counts)[i]]
                && tier.allocatedBytes == old(tier.allocatedBytes)
                && unchanged(old(tier.headers)[b].subpool)
                && tier.parked == old(tier.parked)[b := old(tier.headers)[b].subpool]
              else
                && places == old(places)
                && tier.allocatedBytes == old(tier.allocatedBytes) - old(tier.headers[b].usable)
      ensures tier.Exact() <==> old(tier.Exact()) && !(b in places && old(tier.headers[b].usable) > 0)
      ensures old(tier.Strict()) ==> tier.Strict()
    {
      if 0 <= i < SIZES && counts[i] < SLOTS {
        Push(tier, i, b);
      } else {
        NotCached(tier, b);
        tier.Free(b);
      }
    }

    /** A live block is in no cache. */
    lemma NotCached(tier: Tier, b: nat)
      requires tier.Valid() && Valid(tier) && b in tier.headers
      ensures b !in places && |counts| == SIZES
    {
      PlacesParked(slots, counts, entries, places, tier.parked);
      tier.LiveOnly(b);
    }

    method Push(tier: Tier, i: nat, b: nat)
      requires tier.Valid() && Valid(tier) && b in tier.headers && i < SIZES && counts[i] < SLOTS
      modifies this, tier
      ensures tier.Valid() && Valid(tier) && tier.headers == old(tier.headers) - {b}
      ensures |old(counts)| == SIZES && b !in old(places) && places == old(places)[b := i * SLOTS + old(counts)[i]]
      ensures Others(tier.parked, places) == old(Others(tier.parked, places))
      ensures tier.arenas == old(tier.arenas) && tier.allocatedBytes == old(tier.allocatedBytes)
      ensures tier.parked == old(tier.parked)[b := old(tier.headers)[b].subpool]
      ensures tier.Exact() <==> old(tier.Exact()) && old(tier.headers[b].usable) == 0
    {
      tier.LiveOnly(b);
      ghost var parked := tier.parked;
      var p := tier.headers[b].subpool;
      tier.Park(b);
      label L:
      Remember(i, b, p, parked);
      assert unchanged@L(tier);
      assert forall q {:trigger q in tier.arenas} :: q in tier.arenas ==> unchanged@L(q);
    }

    /** The next unused entry of class i becomes the head of its list. */
    method Remember(i: nat, b: nat, p: Pool, ghost parked: map<nat, Pool>)
      requires Stacked(slots, counts, entries, places, parked) && i < SIZES && counts[i] < SLOTS && b !in parked
      modifies this`slots, this`counts, this`entries, this`places
      ensures Stacked(slots, counts, entries, places, parked[b := p]) && b !in old(places)
      ensures |old(counts)| == SIZES && places == old(places)[b := i * SLOTS + old(counts)[i]]
      ensures Others(parked[b := p], places) == Others(parked, old(places))
    {
      PlacesParked(slots, counts, entries, places, parked);
      var k := i * SLOTS + counts[i];
      var entry := Entry(b, p, slots[i]);
      PushStacked(slots, counts, entries, places, parked, i, k, entry);
      OthersPush(parked, places, b, p, k);
      entries := entries[k := entry];
      slots := slots[i := k + 1];
      counts := counts[i := counts[i] + 1];
      places := places[b := k];
    }

    /**
     * The TLSF branch of mp_alloc for the shared tier: an exact-size cached block is reused, a
     * block of another size goes back to its arena, and everything else is tlsf_alloc.
     */
    method Alloc(tier: Tier, req: nat, first: nat, grow: nat) returns (f: nat)
      requires tier.Valid() && Valid(tier) && tier.Offered(TotalFor(req, tier.canary), first, grow)
      modifies this, tier, tier.arenas
      ensures tier.Valid() && Valid(tier) && (tier.Exact() <==> old(tier.Exact()))
      ensures forall p {:trigger p in tier.arenas} :: p in tier.arenas ==> p in old(tier.arenas) || fresh(p)
      ensures Extended(old(tier.arenas), tier.arenas)
      ensures Added(old(tier.arenas), tier.arenas, first, grow, TotalFor(req, tier.canary))
      ensures places.Keys <= old(places).Keys && Others(tier.parked, places) == old(Others(tier.parked, places))
      ensures f == 0 <==>
                && (forall k: nat {:trigger InClass(k, TotalFor(req, tier.canary))} ::
                      InClass(k, TotalFor(req, tier.canary)) ==> old(Useless(tier, k, TotalFor(req, tier.canary))))
                && old(tier.OutOfRoom(TotalFor(req, tier.canary), first, grow))
      ensures f == 0 ==> Refused(tier, old(tier.arenas), first, old(tier.headers), old(tier.allocatedBytes))
      ensures f != 0 ==>
                tier.Served(old(tier.headers), old(tier.allocatedBytes), f, req,
                            TotalFor(req, tier.canary) - HEADER - STAMP)
      ensures f != 0 ==> f in tier.headers && Roomy(tier.headers[f], req, tier.canary)
    {
      var total := TotalFor(req, tier.canary);
      var i := ClassOf(total);
      f := AllocTotal(tier, req, total, i, first, grow);
    }

    /** Nothing changed hands, and the arenas are those there were or the initial one. */
    ghost predicate Refused(tier: Tier, arenas: seq<Pool>, first: nat, headers: Headers, bytes: nat)
      reads tier, tier.arenas
    {
      tier.headers == headers && tier.allocatedBytes == bytes && Rooted(arenas, tier.arenas, first)
    }

    method AllocTotal(tier: Tier, req: nat, total: nat, i: int, first: nat, grow: nat) returns (f: nat)
      requires tier.Valid() && Valid(tier) && total % 8 == 0 && total >= HEADER + STAMP
      requires tier.Offered(total, first, grow)
      modifies this, tier, tier.arenas
      ensures tier.Valid() && Valid(tier) && (tier.Exact() <==> old(tier.Exact()))
      ensures forall p {:trigger p in tier.arenas} :: p in tier.arenas ==> p in old(tier.arenas) || fresh(p)
      ensures Extended(old(tier.arenas), tier.arenas)
      ensures Added(old(tier.arenas), tier.arenas, first, grow, total)
      ensures places.Keys <= old(places).Keys && Others(tier.parked, places) == old(Others(tier.parked, places))
      ensures f == 0 <==> old(Useless(tier, i, total)) && old(tier.OutOfRoom(total, first, grow))
      ensures f == 0 ==> Refused(tier, old(tier.arenas), first, old(tier.headers), old(tier.allocatedBytes))
      ensures f != 0 ==> tier.Served(old(tier.headers), old(tier.allocatedBytes), f, req, total - HEADER - STAMP)
    {
      ExtendedSelf(tier.arenas);
      f := FromCache(tier, req, total, i, first, grow);
      if f == 0 {
        f := AllocShared(tier, req, total, first, grow);
      } else {
        AddedLater(tier.arenas, tier.arenas, tier.arenas, first, grow, total);
      }
    }

    method AllocShared(tier: Tier, req: nat, total: nat, first: nat, grow: nat) returns (f: nat)
      requires tier.Valid() && total % 8 == 0 && total >= HEADER + STAMP && tier.Offered(total, first, grow)
      modifies tier, tier.arenas
      ensures tier.Valid() && tier.parked == old(tier.parked) && (tier.Exact() <==> old(tier.Exact()))
      ensures forall p {:trigger p in tier.arenas} :: p in tier.arenas ==> p in old(tier.arenas) || fresh(p)
      ensures Extended(old(tier.arenas), tier.arenas)
      ensures Added(old(tier.arenas), tier.arenas, first, grow, total)
      ensures f == 0 <==> old(tier.OutOfRoom(total, first, grow))
      ensures f == 0 ==> Refused(tier, old(tier.arenas), first, old(tier.headers), old(tier.allocatedBytes))
      ensures f != 0 ==> tier.Served(old(tier.headers), old(tier.allocatedBytes), f, req, total - HEADER - STAMP)
    {
      f := tier.AllocTotal(req, total, first, grow);
    }

    /** The block this thread has cached in class i, if it has one and it fits. */
    method FromCache(tier: Tier, req: nat, total: nat, i: int, ghost first: nat, ghost grow: nat) returns (f: nat)
      requires tier.Valid() && Valid(tier) && total >= HEADER + STAMP
      modifies this, tier, tier.arenas
      ensures tier.Valid() && Valid(tier) && tier.arenas == old(tier.arenas) && (tier.Exact() <==> old(tier.Exact()))
      ensures places.Keys <= old(places).Keys && Others(tier.parked, places) == old(Others(tier.parked, places))
      ensures if f == 0 then tier.headers == old(tier.headers) && tier.allocatedBytes == old(tier.allocatedBytes)
              else tier.Served(old(tier.headers), old(tier.allocatedBytes), f, req, total - HEADER - STAMP)
      ensures f != 0 ==> !old(Useless(tier, i, total)) && tier.arenas != []
      ensures f == 0 ==>
                (tier.OutOfRoom(total, first, grow) <==>
                   old(Useless(tier, i, total)) && old(tier.OutOfRoom(total, first, grow)))
    {
      f := 0;
      if 0 <= i < SIZES && counts[i] > 0 {
        ghost var top;
        f, top := TryCached(tier, i, req, total);
      }
    }

    /** `top` is the cached block tried; it is reused exactly when its span is the total wanted. */
    method TryCached(tier: Tier, i: nat, req: nat, total: nat) returns (f: nat, ghost top: nat)
      requires tier.Valid() && Valid(tier) && i < SIZES && counts[i] > 0 && total >= HEADER + STAMP
      modifies this, tier, tier.arenas
      ensures tier.Valid() && Valid(tier) && tier.arenas == old(tier.arenas) && (tier.Exact() <==> old(tier.Exact()))
      ensures places.Keys <= old(places).Keys && Others(tier.parked, places) == old(Others(tier.parked, places))
      ensures if f == 0 then tier.headers == old(tier.headers) && tier.allocatedBytes == old(tier.allocatedBytes)
              else f == top && tier.Served(old(tier.headers), old(tier.allocatedBytes), f, req, total - HEADER - STAMP)
      ensures top == old(Top(i)) && top in old(places) && places == old(places) - {top}
      ensures top in old(tier.parked) && old(tier.parked)[top] in tier.arenas && top in old(tier.parked[top].used)
      ensures f != 0 <==> old(tier.parked[top].used[top]) == total
      ensures f == 0 ==> WentBack(old(tier.parked)[top], top)
      ensures f == 0 ==>
                (tier.NoneFits(total) <==>
                   old(tier.NoneFits(total)) && !Covers(old(tier.parked[top].used[top]), total))
      ensures forall q {:trigger q in tier.arenas} ::
                q in tier.arenas && (f != 0 || q != old(tier.parked)[top]) ==> unchanged(q)
    {
      var p, b := Pop(tier, i);
      top := b;
      tier.OwnerHas(b);
      var span := tier.SpanOf(p, b);
      if span != total {
        tier.PutBackFor(p, b, total);
        f := 0;
      } else {
        tier.Unpark(p, b, req, total);
        f := b;
      }
    }

    /** One round of the flush. */
    method PutBackTop(tier: Tier, i: nat) returns (ghost b: nat)
      requires tier.Valid() && Valid(tier) && i < SIZES && slots[i] != 0
      modifies this, tier, tier.arenas
      ensures tier.Valid() && Valid(tier) && tier.arenas == old(tier.arenas)
      ensures tier.headers == old(tier.headers) && tier.allocatedBytes == old(tier.allocatedBytes)
      ensures b in old(places) && places == old(places) - {b} && tier.parked == old(tier.parked) - {b}
      ensures Others(tier.parked, places) == old(Others(tier.parked, places))
      ensures b in old(tier.parked) && old(tier.parked)[b] in tier.arenas && WentBack(old(tier.parked)[b], b)
      ensures forall q {:trigger q in tier.arenas} :: q in tier.arenas && q != old(tier.parked)[b] ==> unchanged(q)
      ensures |old(counts)| == |counts| == SIZES && old(counts)[i] > 0 && counts == old(counts)[i := old(counts)[i] - 1]
    {
      assert StackOk(slots, counts, i);
      var p, top := Pop(tier, i);
      b := top;
      tier.OwnerHas(top);
      tier.PutBack(p, top);
    }

    /** The blocks of arena q that this thread has cached. */
    ghost function CachedIn(tier: Tier, q: Pool): set<nat>
      reads this, tier
    {
      set b | b in places && b in tier.parked && tier.parked[b] == q
    }

    /** The blocks no longer cached are free in their arenas, and nothing else changed there. */
    twostate predicate ArenasKept(tier: Tier)
      reads this, tier, tier.arenas
    {
      forall q {:trigger q in tier.arenas} :: q in old(tier.arenas) && q in tier.arenas ==> ArenaKept(tier, q)
    }

    twostate predicate ArenaKept(tier: Tier, q: Pool)
      reads this, tier, q
    {
      && CachedIn(tier, q) <= old(CachedIn(tier, q))
      && q.tiles == Freed(old(q.tiles), old(CachedIn(tier, q)) - CachedIn(tier, q))
      && (q.strict ==> old(q.strict)) && (CachedIn(tier, q) == old(CachedIn(tier, q)) ==> q.strict == old(q.strict))
    }

    /** The same, seen from the arenas. */
    method PutBackKept(tier: Tier, i: nat)
      requires tier.Valid() && Valid(tier) && i < SIZES && slots[i] != 0
      modifies this, tier, tier.arenas
      ensures tier.Valid() && Valid(tier) && tier.arenas == old(tier.arenas) && ArenasKept(tier)
      ensures tier.headers == old(tier.headers) && tier.allocatedBytes == old(tier.allocatedBytes)
      ensures Others(tier.parked, places) == old(Others(tier.parked, places))
      ensures |old(counts)| == |counts| == SIZES && old(counts)[i] > 0 && counts == old(counts)[i := old(counts)[i] - 1]
    {
      ghost var b := PutBackTop(tier, i);
      ghost var p := old(tier.parked)[b];
      forall q | q in tier.arenas ensures ArenaKept(tier, q) {
        assert CachedIn(tier, q) == old(CachedIn(tier, q)) - (if q == p then {b} else {});
        FreedNone(old(q.tiles));
        if q == p { FreedOne(old(q.tiles), b, old(CachedIn(tier, q)) - CachedIn(tier, q)); }
      }
    }

    /** The inner loop of the flush: class i is emptied. */
    method FlushClass(tier: Tier, i: nat)
      requires tier.Valid() && Valid(tier) && i < SIZES
      modifies this, tier, tier.arenas
      ensures tier.Valid() && Valid(tier) && tier.arenas == old(tier.arenas) && ArenasKept(tier)
      ensures tier.headers == old(tier.headers) && tier.allocatedBytes == old(tier.allocatedBytes)
      ensures Others(tier.parked, places) == old(Others(tier.parked, places))
      ensures |old(counts)| == |counts| == SIZES && counts == old(counts)[i := 0]
    {
      while slots[i] != 0
        invariant tier.Valid() && Valid(tier) && tier.arenas == old(tier.arenas)
        invariant tier.headers == old(tier.headers) && tier.allocatedBytes == old(tier.allocatedBytes)
        invariant Others(tier.parked, places) == old(Others(tier.parked, places))
        invariant |old(counts)| == |counts| == SIZES && counts == old(counts)[i := counts[i]]
        invariant ArenasKept(tier)
        decreases counts[i]
      {
        label L:
        PutBackKept(tier, i);
        forall q | q in tier.arenas ensures ArenaKept(tier, q) {
          FreedTwice(old(q.tiles), old(CachedIn(tier, q)), old@L(CachedIn(tier, q)), CachedIn(tier, q));
        }
      }
      assert StackOk(slots, counts, i);
    }

    /** The flush of mp_realloc and of a thread that leaves the pool: every cached block goes back. */
    method Flush(tier: Tier)
      requires tier.Valid() && Valid(tier)
      modifies this, tier, tier.arenas
      ensures tier.Valid() && Valid(tier) && tier.headers == old(tier.headers)
      ensures tier.allocatedBytes == old(tier.allocatedBytes)
      ensures places == map[] && tier.parked == old(Others(tier.parked, places))
      ensures tier.arenas == old(tier.arenas) && ArenasKept(tier)
    {
      var i := 0;
      while i < SIZES
        invariant 0 <= i <= SIZES && tier.Valid() && Valid(tier) && tier.arenas == old(tier.arenas)
        invariant tier.headers == old(tier.headers) && tier.allocatedBytes == old(tier.allocatedBytes)
        invariant Others(tier.parked, places) == old(Others(tier.parked, places))
        invariant forall h :: 0 <= h < i ==> counts[h] == 0
        invariant ArenasKept(tier)
      {
        label L:
        FlushClass(tier, i);
        forall q | q in tier.arenas ensures ArenaKept(tier, q) {
          FreedTwice(old(q.tiles), old(CachedIn(tier, q)), old@L(CachedIn(tier, q)), CachedIn(tier, q));
        }
        i := i + 1;
      }
      EmptyStacks(slots, counts, entries, places, tier.parked);
    }
  }

  /** One allocation of 1000 bytes and one free through the cache: nothing is live, and the counter says 1000. */
  method CounterDrifts() returns (tier: Tier, cache: BlockCache)
    ensures tier.Valid() && cache.Valid(tier) && tier.headers == map[] && tier.allocatedBytes == 1000 && !tier.Exact()
  {
    tier := new Tier(false, false);
    cache := new BlockCache(tier);
    assert TotalFor(1000, false) == 1184;
    MediumFits();
    tier.ExactMeans();
    var f := tier.Alloc(1000, ARENA_ADDRESS, 0);
    assert tier.headers == map[f := tier.headers[f]];
    cache.Free(tier, f);
  }

  const ARENA_ADDRESS := 65536

  /** The tier has one arena, nothing cached, and only blocks of u usable bytes. */
  ghost predicate OneArena(tier: Tier, p: Pool, u: nat)
    reads tier, tier.arenas, p
  {
    && tier.Valid() && !tier.canary && tier.arenas == [p] && p.strict && tier.parked == map[]
    && p.raw == ARENA_ADDRESS && p.end == ARENA_ADDRESS + FIRST - HEADER
    && forall a {:trigger a in tier.headers} :: a in tier.headers ==> tier.headers[a].usable == u
  }

  lemma OneArenaUsed(tier: Tier, p: Pool, u: nat)
    requires OneArena(tier, p, u)
    ensures Sound(p.tiles, p.raw, p.end, true) && p.used == Used(p.tiles, p.end) && p.used.Keys == tier.headers.Keys
    ensures forall a :: a in p.used ==> p.used[a] < u + HEADER + STAMP + MIN_BLOCK + HEADER
  {
    assert p in tier.arenas && Seal(0);
    forall a ensures a in p.used <==> a in tier.headers {
      assert OwnedAt(p.used, p, tier.headers, tier.parked, a);
    }
    forall a | a in p.used ensures p.used[a] < u + HEADER + STAMP + MIN_BLOCK + HEADER {
      tier.OwnerHas(a);
    }
  }

  /** Three of these blocks, rounded up, fit the initial arena. */
  ghost predicate Modest(req: nat, u: nat, total: nat) {
    && TotalFor(req, false) == total == u + HEADER + STAMP && total % 8 == 0
    && total + MIN_BLOCK + HEADER + 2 * RoundedUp(total) <= FIRST - HEADER && Expansion(total) < LIMIT
    && Covers(FIRST - HEADER, total) && 64 <= total < 16384
  }

  /** With one block live, a second one fits. */
  lemma SecondFits(tier: Tier, p: Pool, req: nat, u: nat, total: nat, f: nat)
    requires OneArena(tier, p, u) && Modest(req, u, total) && tier.headers.Keys == {f}
    ensures !tier.NoneFits(total)
  {
    OneArenaUsed(tier, p, u);
    assert p.used == map[f := p.used[f]];
    RoomAround(p.tiles, p.raw, p.end, f, p.used[f], total);
    assert p in tier.arenas;
  }

  method OneLive(req: nat, u: nat, total: nat) returns (tier: Tier, p: Pool, f: nat)
    requires Modest(req, u, total)
    ensures fresh(tier) && fresh(p) && OneArena(tier, p, u) && tier.headers.Keys == {f}
  {
    tier := new Tier(false, false);
    f := tier.AllocTotal(req, total, ARENA_ADDRESS, 0);
    p := tier.arenas[0];
    assert p in tier.arenas && tier.arenas == [p];
  }

  method TwoLive(req: nat, u: nat, total: nat) returns (tier: Tier, p: Pool, f: nat, g: nat)
    requires Modest(req, u, total)
    ensures fresh(tier) && fresh(p) && OneArena(tier, p, u) && tier.headers.Keys == {f, g} && f != g
  {
    tier, p, f := OneLive(req, u, total);
    g := AllocSecond(tier, p, req, u, total, f);
  }

  method AllocSecond(tier: Tier, p: Pool, req: nat, u: nat, total: nat, f: nat) returns (g: nat)
    requires OneArena(tier, p, u) && Modest(req, u, total) && tier.headers.Keys == {f}
    modifies tier, p
    ensures OneArena(tier, p, u) && tier.headers.Keys == {f, g} && f != g
  {
    SecondFits(tier, p, req, u, total, f);
    assert p in tier.arenas;
    g := tier.AllocTotal(req, total, ARENA_ADDRESS, 0);
    assert p in tier.arenas;
  }

  /**
   * Two equal blocks that fit the initial arena; the first in memory is freed through the cache and the
   * cache is flushed.  The block behind it is not told: PREV_FREE is missing.
   */
  method PutBackLosesFlag(req: nat, u: nat, total: nat) returns (tier: Tier, cache: BlockCache)
    requires Modest(req, u, total)
    ensures tier.Valid() && cache.Valid(tier) && cache.places == map[] && tier.parked == map[] && |tier.arenas| == 1
    ensures var p := tier.arenas[0]; !Sound(p.tiles, p.raw, p.end, true)
  {
    var p, f; ghost var t;
    tier, cache, p, f, t := OneCached(req, u, total);
    assert p in tier.arenas;
    ghost var cached := cache.CachedIn(tier, p);
    label L:
    cache.Flush(tier);
    assert p in tier.arenas && cache.CachedIn(tier, p) == {};
    assert cache.ArenaKept@L(tier, p);
    FreedOne(t, f, cached - cache.CachedIn(tier, p));
    PutBackStrictIff(t, p.raw, p.end, f);
  }

  /** For instance with requests of 1000 bytes. */
  lemma ThousandModest()
    ensures Modest(1000, 1000, 1184)
  {
    MediumFits();
    RoundedUpBounds(1184);
  }

  /** The first of the two blocks is in the cache. */
  method OneCached(req: nat, u: nat, total: nat)
    returns (tier: Tier, cache: BlockCache, p: Pool, f: nat, ghost t: Tiles)
    requires Modest(req, u, total)
    ensures fresh(tier) && fresh(cache) && fresh(p) && tier.Valid() && cache.Valid(tier) && tier.arenas == [p]
    ensures Sound(t, p.raw, p.end, true) && p.tiles == t && f in t && f != p.end && !t[f].free && Next(t, f) != p.end
    ensures cache.CachedIn(tier, p) == {f} && Others(tier.parked, cache.places) == map[]
  {
    var g;
    tier, p, f, g := TwoLive(req, u, total);
    if g < f { f, g := g, f; }
    OneArenaUsed(tier, p, u);
    t := p.tiles;
    NotLast(t, p.raw, p.end, f, g);
    cache := FreeCached(tier, p, f, u);
  }

  /** A block is freed through a new cache. */
  method FreeCached(tier: Tier, p: Pool, f: nat, u: nat) returns (cache: BlockCache)
    requires OneArena(tier, p, u) && f in tier.headers
    requires 64 <= u + HEADER + STAMP < 16384
    modifies tier, p
    ensures fresh(cache) && tier.Valid() && cache.Valid(tier) && tier.arenas == [p] && p.tiles == old(p.tiles)
    ensures cache.CachedIn(tier, p) == {f} && Others(tier.parked, cache.places) == map[]
  {
    assert p in tier.arenas && tier.headers[f].subpool == p;
    ghost var k := SomeClass(u + HEADER + STAMP);
    cache := new BlockCache(tier);
    cache.Free(tier, f);
  }

  lemma NotLast(t: Tiles, raw: nat, end: nat, f: nat, g: nat)
    requires Sound(t, raw, end, true) && f in Used(t, end) && g in Used(t, end) && f < g
    ensures Next(t, f) != end
  {
    Facts(t, raw, end, g);
    Outside(t, raw, end, f, g);
  }

  lemma MediumFits()
    ensures Covers(FIRST - HEADER, 1184) && InClass(4, 1184)
  {
    RoundedUpBounds(1184);
    CoversIff(FIRST - HEADER, 1184);
  }

  /** The headers after the blocks bs were stamped FREE. */
  ghost function Freed(t: Tiles, bs: set<nat>): Tiles {
    map a | a in t :: if a in bs then t[a].(free := true) else t[a]
  }

  lemma FreedNone(t: Tiles)
    ensures Freed(t, {}) == t
  {
  }

  lemma FreedOne(t: Tiles, b: nat, bs: set<nat>)
    requires b in t && bs == {b}
    ensures Freed(t, bs) == PutBackEdits(t, b)
  {
  }

  lemma FreedTwice(t: Tiles, a: set<nat>, b: set<nat>, c: set<nat>)
    ensures c <= b <= a ==> Freed(Freed(t, a - b), b - c) == Freed(t, a - c)
  {
  }

  lemma PlacesParked(slots: seq<nat>, counts: seq<nat>, entries: seq<Entry>, places: map<nat, nat>, parked: map<nat,
      Pool>)
    requires Stacked(slots, counts, entries, places, parked)
    ensures places.Keys <= parked.Keys
  {
    forall b | b in places ensures b in parked {
      assert PlaceOk(counts, entries, places, b) && EntryOk(counts, entries, places, parked, places[b]);
    }
  }

  lemma EmptyStacks(slots: seq<nat>, counts: seq<nat>, entries: seq<Entry>, places: map<nat, nat>, parked: map<nat,
      Pool>)
    requires Stacked(slots, counts, entries, places, parked) && forall i :: 0 <= i < SIZES ==> counts[i] == 0
    ensures places == map[] && Others(parked, places) == parked
  {
    PlacesInUse(slots, counts, entries, places, parked);
  }

  lemma PlacesInUse(slots: seq<nat>, counts: seq<nat>, entries: seq<Entry>, places: map<nat, nat>, parked: map<nat,
      Pool>)
    requires Stacked(slots, counts, entries, places, parked)
    ensures forall b {:trigger b in places} :: b in places ==> InUse(counts, places[b])
  {
    forall b | b in places ensures InUse(counts, places[b]) {
      assert PlaceOk(counts, entries, places, b);
    }
  }
}
