/**
 * The book-keeping of live blocks on one pool: the COUNTED flag, active_allocations and the
 * doubly linked list of active headers.  FAST_PATH pools keep no list, and only they have
 * blocks that are not counted.
 */
module ActiveList {
  import opened SortedList
  import opened LinkedStacks

  datatype Only = Active  // there is one list

  function HeadOf(head: nat): map<Only, nat> {
    var none: map<Only, nat> := map[];
    none[Active := head]
  }

  // -------------------------------------------------------------- moving a header

  /** The link words after header h moved to g, as the aligned paths relink it. */
  function Moved(ks: Links, h: nat, g: nat): Links
    requires h in ks
  {
    var ks1 := ks[g := ks[h]];
    var ks2 := if ks[h].prev != 0 && ks[h].prev in ks1 then ks1[ks[h].prev := ks1[ks[h].prev].(next := g)] else ks1;
    if ks[h].next != 0 && ks[h].next in ks2 then ks2[ks[h].next := ks2[ks[h].next].(prev := g)] else ks2
  }

  function MovedHeads<K(==)>(ks: Links, heads: map<K, nat>, h: nat, g: nat, b: K): map<K, nat>
    requires h in ks
  {
    if ks[h].prev == 0 then heads[b := g] else heads
  }

  lemma MovedAt<K>(keys: map<nat, K>, ks: Links, heads: map<K, nat>, stamp: map<nat, nat>, clock: nat, h: nat, g: nat,
      f: nat)
    requires Threaded(keys, ks, heads, stamp, clock) && h in keys && h in ks && h in stamp && g !in keys && g != 0
    requires f == g || (f in keys && f != h)
    ensures Hooked((keys - {h})[g := keys[h]], Moved(ks, h, g), MovedHeads(ks, heads, h, g, keys[h]),
              stamp[g := stamp[h]], clock, f)
  {
    assert Hooked(keys, ks, heads, stamp, clock, h);
    var n, p := ks[h].next, ks[h].prev;
    if n != 0 { assert Hooked(keys, ks, heads, stamp, clock, n); }
    if p != 0 { assert Hooked(keys, ks, heads, stamp, clock, p); }
    if f != g { assert Hooked(keys, ks, heads, stamp, clock, f); }
  }

  lemma MovedHead<K>(keys: map<nat, K>, ks: Links, heads: map<K, nat>, stamp: map<nat, nat>, clock: nat, h: nat,
      g: nat, c: K)
    requires Threaded(keys, ks, heads, stamp, clock) && h in keys && h in ks && g !in keys && g != 0 && c in heads
    ensures keys[h] in heads
    ensures Headed((keys - {h})[g := keys[h]], Moved(ks, h, g), MovedHeads(ks, heads, h, g, keys[h]), c)
  {
    assert Hooked(keys, ks, heads, stamp, clock, h) && Headed(keys, ks, heads, c) && Headed(keys, ks, heads, keys[h]);
    var n := ks[h].next;
    if n != 0 { assert Hooked(keys, ks, heads, stamp, clock, n); }
  }

  /** Moving a header keeps its place on the list and everybody else's. */
  lemma MovedThreaded<K>(keys: map<nat, K>, ks: Links, heads: map<K, nat>, stamp: map<nat, nat>, clock: nat, h: nat,
      g: nat)
    requires Threaded(keys, ks, heads, stamp, clock) && h in keys && g !in keys && g != 0
    ensures h in ks && h in stamp && keys[h] in heads
    ensures Threaded((keys - {h})[g := keys[h]], Moved(ks, h, g), MovedHeads(ks, heads, h, g, keys[h]),
              stamp[g := stamp[h]], clock)
  {
    assert Hooked(keys, ks, heads, stamp, clock, h);
    var keys', ks', heads', stamp' :=
      (keys - {h})[g := keys[h]], Moved(ks, h, g), MovedHeads(ks, heads, h, g, keys[h]), stamp[g := stamp[h]];
    forall f | f in keys' ensures Hooked(keys', ks', heads', stamp', clock, f) {
      MovedAt(keys, ks, heads, stamp, clock, h, g, f);
    }
    forall c | c in heads' ensures Headed(keys', ks', heads', c) {
      MovedHead(keys, ks, heads, stamp, clock, h, g, c);
    }
  }

  // ---------------------------------------------------------------------- the book

  /** The live headers with the COUNTED flag. */
  ghost function CountedOf(flags: map<nat, bool>): set<nat> {
    set h | h in flags && flags[h]
  }

  lemma CountedSet(flags: map<nat, bool>, h: nat, counted: bool)
    requires h !in flags
    ensures |CountedOf(flags[h := counted])| == |CountedOf(flags)| + (if counted then 1 else 0)
  {
    assert CountedOf(flags[h := counted]) == CountedOf(flags) + (if counted then {h} else {});
  }

  lemma CountedDrop(flags: map<nat, bool>, h: nat)
    requires h in flags
    ensures |CountedOf(flags)| == |CountedOf(flags - {h})| + (if flags[h] then 1 else 0)
  {
    assert CountedOf(flags) == CountedOf(flags - {h}) + (if flags[h] then {h} else {});
  }

  ghost predicate Earlier(hs: seq<nat>, i: nat, h: nat) {
    exists j {:trigger hs[j]} :: 0 <= j < i && j < |hs| && hs[j] == h
  }

  /** The first i headers of hs joined, all of them counted. */
  ghost function FirstCounted(flags: map<nat, bool>, hs: seq<nat>, i: nat): map<nat, bool> {
    map h | h in flags.Keys + (set x | x in hs) && (h in flags || Earlier(hs, i, h)) ::
          if Earlier(hs, i, h) then true else flags[h]
  }

  ghost predicate New(flags: map<nat, bool>, hs: seq<nat>, i: nat)
    requires i < |hs|
  {
    hs[i] != 0 && hs[i] !in flags && !Earlier(hs, i, hs[i])
  }

  /** Different headers, none of them live. */
  ghost predicate Newcomers(flags: map<nat, bool>, hs: seq<nat>) {
    forall i: nat {:trigger New(flags, hs, i)} :: i < |hs| ==> New(flags, hs, i)
  }

  lemma NoneYet(flags: map<nat, bool>, hs: seq<nat>)
    ensures FirstCounted(flags, hs, 0) == flags
  {
  }

  lemma OneMore(flags: map<nat, bool>, hs: seq<nat>, i: nat)
    requires i < |hs| && Newcomers(flags, hs)
    ensures hs[i] != 0 && hs[i] !in FirstCounted(flags, hs, i)
    ensures FirstCounted(flags, hs, i)[hs[i] := true] == FirstCounted(flags, hs, i + 1)
  {
    assert New(flags, hs, i);
    forall h ensures Earlier(hs, i + 1, h) <==> Earlier(hs, i, h) || h == hs[i] {}
  }

  /** The headers two link words point at. */
  ghost function Named(k: Link): set<nat> {
    (if k.prev == 0 then {} else {k.prev}) + (if k.next == 0 then {} else {k.next})
  }

  function WordsAt(ks: Links, x: nat): Link {
    if x in ks then ks[x] else Link(0, 0)
  }

  /** With nothing listed, any link words will do. */
  lemma NoLists(ks: Links, head: nat, stamp: map<nat, nat>, clock: nat)
    requires 0 !in ks && head == 0
    ensures Threaded(map[], ks, HeadOf(head), stamp, clock)
  {
  }

  class Book {
    const fastPath: bool         // MP_FLAG_FAST_PATH
    const threadSafe: bool       // MP_FLAG_THREAD_SAFE
    var flags: map<nat, bool>    // the live headers and their COUNTED flags
    var links: Links             // prev and next of headers
    var head: nat                // active_head
    var activeAllocations: nat

    ghost var listed: map<nat, Only>
    ghost var stamp: map<nat, nat>
    ghost var clock: nat

    ghost predicate Valid()
      reads this
    {
      && Threaded(listed, links, HeadOf(head), stamp, clock)
      && listed.Keys == (if fastPath then {} else flags.Keys)
      && (!fastPath ==> forall h {:trigger flags[h]} :: h in flags ==> flags[h])
      && activeAllocations == |CountedOf(flags)| && 0 !in flags
    }

    constructor (fastPath: bool, threadSafe: bool)
      ensures Valid() && this.fastPath == fastPath && this.threadSafe == threadSafe && flags == map[]
      ensures activeAllocations == 0
    {
      this.fastPath, this.threadSafe := fastPath, threadSafe;
      flags, links, head, activeAllocations := map[], map[], 0, 0;
      listed, stamp, clock := map[], map[], 0;
      new;
      assert CountedOf(flags) == {};
    }

    /** active_list_add */
    method Add(h: nat)
      requires Threaded(listed, links, HeadOf(head), stamp, clock) && h !in listed && h != 0
      modifies this`links, this`head, this`listed, this`stamp, this`clock
      ensures Threaded(listed, links, HeadOf(head), stamp, clock) && listed == old(listed)[h := Active]
    {
      PushThreaded(listed, links, HeadOf(head), stamp, clock, h, Active);
      assert Headed(listed, links, HeadOf(head), Active);
      links := links[h := Link(head, 0)];
      if head != 0 { links := links[head := links[head].(prev := h)]; }
      assert HeadOf(head)[Active := h] == HeadOf(h);
      head := h;
      listed, stamp, clock := listed[h := Active], stamp[h := clock], clock + 1;
    }

    /** active_list_remove */
    method Remove(h: nat)
      requires Threaded(listed, links, HeadOf(head), stamp, clock) && h in listed
      modifies this`links, this`head, this`listed
      ensures Threaded(listed, links, HeadOf(head), stamp, clock) && listed == old(listed) - {h}
    {
      ghost var heads, ks := HeadOf(head), links;
      UnhookThreaded(listed, links, heads, stamp, clock, h);
      assert Hooked(listed, links, heads, stamp, clock, h);
      var n, p := links[h].next, links[h].prev;
      if p != 0 {
        links := links[p := links[p].(next := n)];
      } else {
        head := n;
      }
      if n != 0 { links := links[n := links[n].(prev := p)]; }
      assert links == Unhooked(ks, h) && HeadOf(head) == UnhookedHeads(ks, heads, h, Active);
      listed := listed - {h};
      Forget(listed, links, HeadOf(head), stamp, clock, h);
      links := links[h := Link(0, 0)];
    }

    /** The end of a successful mp_alloc: the block is counted and listed. */
    method Alloc(h: nat)
      requires Valid() && h !in flags && h != 0
      modifies this
      ensures Valid() && flags == old(flags)[h := true] && activeAllocations == old(activeAllocations) + 1
    {
      CountedSet(flags, h, true);
      if !fastPath { Add(h); }
      flags := flags[h := true];
      activeAllocations := activeAllocations + 1;
    }

    /** mp_alloc_fast: a cache hit on a FAST_PATH pool is not counted; everything else is mp_alloc. */
    method AllocFast(h: nat, hit: bool)
      requires Valid() && h !in flags && h != 0
      modifies this
      ensures Valid() && flags == old(flags)[h := !(fastPath && hit)]
    {
      if fastPath && hit {
        CountedSet(flags, h, false);
        flags := flags[h := false];
      } else {
        Alloc(h);
      }
    }

    /**
     * mp_free: the counter moves exactly for counted blocks.  On thread-safe pools the list is
     * edited without looking at the flag; that is right because every block there is counted.
     */
    method Free(h: nat, slab: bool)
      requires Valid() && h in flags
      modifies this
      ensures Valid() && flags == old(flags) - {h}
      ensures activeAllocations == old(activeAllocations) - (if old(flags)[h] then 1 else 0)
    {
      var counted := flags[h];
      CountedDrop(flags, h);
      if slab && threadSafe {
        if counted { activeAllocations := activeAllocations - 1; }
        if !fastPath { Remove(h); }
      } else if counted {
        if !fastPath { Remove(h); }
        activeAllocations := activeAllocations - 1;
      }
      flags := flags - {h};
    }

    /** mp_free_fast: an uncounted slab block goes straight to the cache if there is room. */
    method FreeFast(h: nat, slab: bool, room: bool)
      requires Valid() && h in flags
      modifies this
      ensures Valid() && flags == old(flags) - {h}
      ensures activeAllocations == old(activeAllocations) - (if old(flags)[h] then 1 else 0)
    {
      if fastPath && slab && !flags[h] && room {
        CountedDrop(flags, h);
        flags := flags - {h};
      } else {
        Free(h, slab);
      }
    }

    /**
     * The aligned paths move the header of a live block inside the block and relink its
     * neighbours.  FAST_PATH pools never set the two link words of a header: `stale` is what
     * they happen to hold there, and `touched` the headers whose words are overwritten.
     */
    method Relocate(h: nat, g: nat, stale: Link) returns (ghost touched: set<nat>)
      requires Valid() && h in flags && g !in flags && g != 0
      modifies this
      ensures Valid() && flags == (old(flags) - {h})[g := old(flags)[h]] && activeAllocations == old(activeAllocations)
      ensures fastPath ==> touched == Named(stale) && (touched == {} <==> stale == Link(0, 0))
      ensures fastPath && stale.prev != 0 ==> stale.prev in links && links[stale.prev].next == g
      ensures fastPath && stale.next != 0 ==> stale.next in links && links[stale.next].prev == g
      ensures fastPath ==>
                forall x :: x in old(links) && x != g && x !in touched ==> x in links && links[x] == old(links)[x]
      ensures !fastPath ==> touched <= old(flags).Keys
    {
      CountedDrop(flags, h);
      CountedSet(flags - {h}, g, flags[h]);
      if fastPath {
        touched := Relink(g, stale);
      } else {
        touched := MoveListed(h, g);
      }
      flags := (flags - {h})[g := flags[h]];
    }

    /** On a pool that keeps the list, the words of h are right and only its neighbours are touched. */
    method MoveListed(h: nat, g: nat) returns (ghost touched: set<nat>)
      requires Threaded(listed, links, HeadOf(head), stamp, clock) && h in listed && g !in listed && g != 0
      modifies this`links, this`head, this`listed, this`stamp
      ensures Threaded(listed, links, HeadOf(head), stamp, clock) && listed == (old(listed) - {h})[g := Active]
      ensures touched <= old(listed).Keys
    {
      ghost var heads, ks := HeadOf(head), links;
      MovedThreaded(listed, links, heads, stamp, clock, h, g);
      assert Hooked(listed, links, heads, stamp, clock, h);
      var n, p := links[h].next, links[h].prev;
      touched := Named(links[h]);
      links := links[g := links[h]];
      if p != 0 {
        links := links[p := links[p].(next := g)];
      } else if head == h {
        head := g;
      }
      if n != 0 { links := links[n := links[n].(prev := g)]; }
      assert links == Moved(ks, h, g) && HeadOf(head) == MovedHeads(ks, heads, h, g, Active);
      listed, stamp := (listed - {h})[g := Active], stamp[g := stamp[h]];
    }

    /** The same edits with words nobody has set. */
    method Relink(g: nat, stale: Link) returns (ghost touched: set<nat>)
      requires Threaded(map[], links, HeadOf(head), stamp, clock) && g != 0
      modifies this`links
      ensures Threaded(map[], links, HeadOf(head), stamp, clock) && touched == Named(stale)
      ensures stale.prev != 0 ==> stale.prev in links && links[stale.prev].next == g
      ensures stale.next != 0 ==> stale.next in links && links[stale.next].prev == g
      ensures forall x :: x in old(links) && x != g && x !in touched ==> x in links && links[x] == old(links)[x]
    {
      touched := Named(stale);
      assert Headed(map[], links, HeadOf(head), Active);
      links := links[g := stale];
      if stale.prev != 0 {
        links := links[stale.prev := WordsAt(links, stale.prev).(next := g)];
      }
      if stale.next != 0 {
        links := links[stale.next := WordsAt(links, stale.next).(prev := g)];
      }
      NoLists(links, head, stamp, clock);
    }

    /** The closing loop of mp_alloc_batch. */
    method AllocBatch(hs: seq<nat>)
      requires Valid() && Newcomers(flags, hs)
      modifies this
      ensures Valid() && activeAllocations == old(activeAllocations) + |hs|
      ensures flags == FirstCounted(old(flags), hs, |hs|)
    {
      var i: nat := 0;
      NoneYet(flags, hs);
      while i < |hs|
        invariant 0 <= i <= |hs| && Valid() && activeAllocations == old(activeAllocations) + i
        invariant flags == FirstCounted(old(flags), hs, i)
      {
        OneMore(old(flags), hs, i);
        Alloc(hs[i]);
        i := i + 1;
      }
    }

    /** On pools that keep it, the list holds exactly the counted headers, each once. */
    lemma ListIsBook(h: nat) returns (i: nat)
      requires Valid() && !fastPath && h in flags
      ensures flags[h] && Nth(links, head, i) == h
      ensures forall j: nat :: Nth(links, head, j) == h ==> i == j
    {
      var heads := HeadOf(head);
      i := OnList(listed, links, heads, stamp, clock, h);
      forall j: nat | Nth(links, head, j) == h ensures i == j {
        OnListOnce(listed, links, heads, stamp, clock, Active, Active, i, j);
      }
    }

    lemma OnlyLive(i: nat)
      requires Valid() && Nth(links, head, i) != 0
      ensures !fastPath && Nth(links, head, i) in flags
    {
      Walked(listed, links, HeadOf(head), stamp, clock, Active, i);
    }
  }

  /**
   * What goes wrong on FAST_PATH pools: a TLSF block whose link words hold the address of
   * another live header is moved, and the words of that header are overwritten.
   */
  method ForeignWrite() returns (book: Book)
    ensures book.Valid() && book.activeAllocations == 2 && 5000 in book.flags && 5000 in book.links
    ensures book.links[5000].prev == 1192
  {
    book := new Book(true, true);
    book.Alloc(1000);
    book.Alloc(5000);
    ghost var touched := book.Relocate(1000, 1192, Link(5000, 0));
  }

  /** The words of a node off the lists do not matter. */
  lemma Forget<K>(keys: map<nat, K>, ks: Links, heads: map<K, nat>, stamp: map<nat, nat>, clock: nat, h: nat)
    requires Threaded(keys, ks, heads, stamp, clock) && h !in keys && h != 0
    ensures Threaded(keys, ks[h := Link(0, 0)], heads, stamp, clock)
  {
    var ks' := ks[h := Link(0, 0)];
    forall f | f in keys ensures Hooked(keys, ks', heads, stamp, clock, f) {
      assert Hooked(keys, ks, heads, stamp, clock, f);
    }
    forall c | c in heads ensures Headed(keys, ks', heads, c) {
      assert Headed(keys, ks, heads, c);
    }
  }
}
