/**
 * One size class of the slab tier: its pages on the partial, full and empty lists, and the
 * slots moving between pages, thread caches, per-CPU lists, the remote-free queue and users.
 * Each operation runs alone.
 */
module SlabTier {
  import opened Folding
  import opened Sums
  import opened SortedList
  import opened LinkedStacks
  import opened Chains
  import opened SlabSlots

  const TLS_MAX := 256  // TLS_CACHE_MAX_SLOTS
  const BATCH := 16     // MP_PERCPU_MAX_BATCH
  const REFILL := 64    // slots drained into a thread cache at once

  datatype PageList = Partial | Full | Empty

  /** The subtraction on the byte counter, which resets one that is too small. */
  function Saturating(n: nat, k: nat): nat {
    if n >= k then n - k else 0
  }

  /** The list a page belongs on. */
  function Kind(free: nat, total: nat): PageList {
    if free == 0 then Full else if free == total then Empty else Partial
  }

  ghost predicate PageOk(counts: Heads, keys: map<nat, PageList>, total: nat, p: nat)
    requires p in keys
  {
    p > 0 && p % PAGE == 0 && Page(p) in counts && counts[Page(p)] <= total && keys[p] == Kind(counts[Page(p)], total)
  }

  /** Every page but `but` is on the list its free count calls for. */
  ghost predicate Paged(counts: Heads, keys: map<nat, PageList>, total: nat, but: nat) {
    && 0 !in keys
    && forall p {:trigger PageOk(counts, keys, total, p)} :: p in keys && p != but ==> PageOk(counts, keys, total, p)
  }

  ghost predicate HouseOk(keys: map<nat, PageList>, place: Places, header: nat, stride: nat, x: nat)
    requires x in place && stride > 0 && header <= PAGE
  {
    PageOf(x) in keys && x in PageSlots(PageOf(x), header, stride) && (OnPage(place[x]) ==> place[x].w.p == PageOf(x))
  }

  /** Every slot belongs to a page and goes back to no other; every page has a free list. */
  ghost predicate Housed(keys: map<nat, PageList>, lists: Lists, place: Places, header: nat, stride: nat)
    requires stride > 0 && header <= PAGE
  {
    && (forall x {:trigger HouseOk(keys, place, header, stride, x)} ::
          x in place ==> HouseOk(keys, place, header, stride, x))
    && (forall w {:trigger w in lists} :: w in lists && w.Page? ==> w.p in keys)
    && (forall p {:trigger p in keys} :: p in keys ==> Page(p) in lists)
    && (forall p {:trigger Whole(place, header, stride, p)} :: p in keys ==> Whole(place, header, stride, p))
    && Remote in lists
  }

  /** No slot of the page is missing. */
  ghost predicate Whole(place: Places, header: nat, stride: nat, p: nat)
    requires stride > 0 && header <= PAGE
  {
    forall x {:trigger x in place} :: x in PageSlots(p, header, stride) ==> x in place
  }

  ghost function EmptyPages(keys: map<nat, PageList>): set<nat> {
    set p | p in keys && keys[p] == Empty
  }

  lemma EmptyMove(keys: map<nat, PageList>, p: nat, to: PageList)
    ensures |EmptyPages(keys[p := to])| ==
            |EmptyPages(keys)| - (if p in keys && keys[p] == Empty then 1 else 0) + (if to == Empty then 1 else 0)
  {
    EmptyAt(keys, p);
    EmptyAt(keys[p := to], p);
    assert EmptyPages(keys[p := to]) - {p} == EmptyPages(keys) - {p};
  }

  lemma EmptyAt(keys: map<nat, PageList>, p: nat)
    ensures |EmptyPages(keys)| == |EmptyPages(keys) - {p}| + (if p in keys && keys[p] == Empty then 1 else 0)
  {
    var rest := EmptyPages(keys) - {p};
    if p in keys && keys[p] == Empty {
      assert EmptyPages(keys) == rest + {p};
    } else {
      assert EmptyPages(keys) == rest;
    }
  }

  /** What a page has room for: a slot of its own that is off the page. */
  lemma RoomFor(next: map<nat, nat>, heads: Heads, counts: Heads, lists: Lists, place: Places, keys: map<nat,
      PageList>, header: nat, stride: nat, x: nat)
    requires stride > 0 && header <= PAGE && Stocked(next, heads, counts, lists, place)
    requires Housed(keys, lists, place, header, stride)
    requires x in place && !OnPage(place[x]) && Page(PageOf(x)) in lists
    ensures Page(PageOf(x)) in counts && counts[Page(PageOf(x))] < SlotCount(header, stride)
  {
    var w := Page(PageOf(x));
    assert StackOk(next, heads, counts, lists, place, w) && HouseOk(keys, place, header, stride, x);
    assert Holds(lists, place, w, x);
    forall y | y in lists[w] ensures y in PageSlots(PageOf(x), header, stride) {
      assert Holds(lists, place, w, y) && HouseOk(keys, place, header, stride, y);
    }
    MissingOne(lists[w], PageSlots(PageOf(x), header, stride), x);
  }

  /** Moving one slot keeps every slot housed. */
  lemma HousedMove(keys: map<nat, PageList>, lists: Lists, lists': Lists, place: Places, header: nat, stride: nat,
      x: nat, p: Place)
    requires stride > 0 && header <= PAGE && Housed(keys, lists, place, header, stride) && lists'.Keys == lists.Keys
    requires x in place && (OnPage(p) ==> p.w.p == PageOf(x))
    ensures Housed(keys, lists', place[x := p], header, stride)
  {
    var place' := place[x := p];
    forall y | y in place' ensures HouseOk(keys, place', header, stride, y) {
      assert HouseOk(keys, place, header, stride, y);
    }
    forall q | q in keys ensures Whole(place', header, stride, q) {
      assert Whole(place, header, stride, q);
    }
  }

  /** Every slot that moved came off a page and is now at `to`; new slots are on a page or at `to`. */
  ghost predicate Drawn(place: Places, place': Places, to: Place) {
    && place.Keys <= place'.Keys
    && (forall y {:trigger place'[y]} :: y in place ==> place'[y] == place[y] || (OnPage(place[y]) && place'[y] == to))
    && (forall y {:trigger place'[y]} :: y in place' && y !in place ==> OnPage(place'[y]) || place'[y] == to)
  }

  class SlabClass {
    const slotSize: nat
    const header: nat            // sizeof(mp_slab_page_t)
    const stride: nat            // total_slot_size
    var next: map<nat, nat>      // the next word of every slot
    var heads: Heads             // free_list of pages, slots of thread caches, heads of the other lists
    var counts: Heads            // free_count of pages and the counts of the caches
    var pageLinks: Links         // next and prev of pages
    var pageHeads: map<PageList, nat>
    var emptyCount: nat          // empty_page_count
    var bytes: nat               // slab_allocated_bytes, which all classes share

    ghost var others: nat        // the part of it that is slots of other classes
    ghost var lists: Lists
    ghost var place: Places
    ghost var keys: map<nat, PageList>
    ghost var stamp: map<nat, nat>
    ghost var clock: nat

    function Total(): nat
      requires stride > 0 && header <= PAGE
    {
      SlotCount(header, stride)
    }

    ghost predicate Sized() {
      stride > 0 && header + stride <= PAGE && Total() > 0
    }

    ghost predicate Linked()
      reads this
    {
      && Threaded(keys, pageLinks, pageHeads, stamp, clock) && Partial in pageHeads && Full in pageHeads
      && Empty in pageHeads && emptyCount == |EmptyPages(keys)|
    }

    /** Everything but the byte counter, with page `but` possibly on the wrong list. */
    ghost predicate Core(but: nat)
      reads this
    {
      && Sized() && Stocked(next, heads, counts, lists, place) && Linked()
      && Paged(counts, keys, Total(), but) && Housed(keys, lists, place, header, stride)
    }

    /** Core(0), folded: most operations need it whole, and assert Seal(0) where they need the inside of it. */
    ghost predicate Folded()
      reads this
    {
      forall k: nat {:trigger Seal(k)} :: Seal(k) ==> Core(0)
    }

    ghost predicate Valid()
      reads this
    {
      Folded() && bytes == others + |Off(place)| * slotSize
    }

    /** Takes a page off its list, wherever it is. */
    method UnlinkPage(p: nat, from: PageList)
      requires Threaded(keys, pageLinks, pageHeads, stamp, clock) && p in keys && keys[p] == from
      modifies this`pageLinks, this`pageHeads, this`keys
      ensures Threaded(keys, pageLinks, pageHeads, stamp, clock) && keys == old(keys) - {p}
      ensures pageHeads.Keys == old(pageHeads).Keys
    {
      UnhookThreaded(keys, pageLinks, pageHeads, stamp, clock, p);
      assert Hooked(keys, pageLinks, pageHeads, stamp, clock, p);
      ghost var ks, hs := pageLinks, pageHeads;
      var n, q := pageLinks[p].next, pageLinks[p].prev;
      if q != 0 {
        pageLinks := pageLinks[q := pageLinks[q].(next := n)];
      } else {
        pageHeads := pageHeads[from := n];
      }
      if n != 0 {
        pageLinks := pageLinks[n := pageLinks[n].(prev := q)];
      }
      assert pageLinks == Unhooked(ks, p) && pageHeads == UnhookedHeads(ks, hs, p, from);
      keys := keys - {p};
    }

    /** Puts a page in front of a list. */
    method PushPage(p: nat, to: PageList)
      requires Threaded(keys, pageLinks, pageHeads, stamp, clock) && p !in keys && p != 0 && to in pageHeads
      modifies this`pageLinks, this`pageHeads, this`keys, this`stamp, this`clock
      ensures Threaded(keys, pageLinks, pageHeads, stamp, clock) && keys == old(keys)[p := to]
      ensures pageHeads.Keys == old(pageHeads).Keys
    {
      PushThreaded(keys, pageLinks, pageHeads, stamp, clock, p, to);
      assert Headed(keys, pageLinks, pageHeads, to);
      var h := pageHeads[to];
      pageLinks := pageLinks[p := Link(h, 0)];
      if h != 0 {
        pageLinks := pageLinks[h := pageLinks[h].(prev := p)];
      }
      pageHeads := pageHeads[to := p];
      keys, stamp, clock := keys[p := to], stamp[p := clock], clock + 1;
    }

    method MovePage(p: nat, from: PageList, to: PageList)
      requires Linked() && p in keys && p != 0 && keys[p] == from && from != Empty && to != Empty
      modifies this`pageLinks, this`pageHeads, this`keys, this`stamp, this`clock
      ensures Linked() && keys == old(keys)[p := to]
    {
      EmptyMove(keys, p, to);
      UnlinkPage(p, from);
      PushPage(p, to);
      assert keys == old(keys)[p := to];
    }

    /** The page that becomes entirely free, and the one that stops being so. */
    method MoveToEmpty(p: nat)
      requires Linked() && p in keys && p != 0 && keys[p] == Partial
      modifies this`pageLinks, this`pageHeads, this`keys, this`stamp, this`clock, this`emptyCount
      ensures Linked() && keys == old(keys)[p := Empty]
    {
      EmptyMove(keys, p, Empty);
      UnlinkPage(p, Partial);
      PushPage(p, Empty);
      emptyCount := emptyCount + 1;
      assert keys == old(keys)[p := Empty];
    }

    method MoveFromEmpty(p: nat)
      requires Linked() && p in keys && p != 0 && keys[p] == Empty
      modifies this`pageLinks, this`pageHeads, this`keys, this`stamp, this`clock, this`emptyCount
      ensures Linked() && keys == old(keys)[p := Partial]
    {
      EmptyMove(keys, p, Partial);
      UnlinkPage(p, Empty);
      emptyCount := emptyCount - 1;
      PushPage(p, Partial);
      assert keys == old(keys)[p := Partial];
    }

    // ---------------------------------------------------------- moving single slots

    /** Pops a list; the slot is in the caller's hands. */
    method PopFrom(w: Where) returns (x: nat)
      requires Sized() && Stocked(next, heads, counts, lists, place) && Housed(keys, lists, place, header, stride)
      requires w in lists
      modifies this`heads, this`counts, this`lists, this`place
      ensures Stocked(next, heads, counts, lists, place) && Housed(keys, lists, place, header, stride)
      ensures lists.Keys == old(lists).Keys
      ensures w in old(counts) && (x == 0 <==> old(counts)[w] == 0)
      ensures x == 0 ==> place == old(place) && counts == old(counts)
      ensures x != 0 ==>
                && x in old(place) && old(place)[x] == On(w) && place == old(place)[x := User]
                && counts == old(counts)[w := old(counts)[w] - 1]
    {
      EmptyStack(next, heads, counts, lists, place, w);
      x := heads[w];
      if x != 0 {
        PopStocked(next, heads, counts, lists, place, w, x);
        HousedMove(keys, lists, lists[w := lists[w][1..]], place, header, stride, x, User);
        heads := heads[w := next[x]];
        counts := counts[w := counts[w] - 1];
        lists, place := lists[w := lists[w][1..]], place[x := User];
      }
    }

    /** Pushes a slot in hand on a list. */
    method PushTo(w: Where, x: nat)
      requires Sized() && Stocked(next, heads, counts, lists, place) && Housed(keys, lists, place, header, stride)
      requires w in lists && x in place && place[x] == User && (w.Page? ==> w.p == PageOf(x))
      modifies this`next, this`heads, this`counts, this`lists, this`place
      ensures Stocked(next, heads, counts, lists, place) && Housed(keys, lists, place, header, stride)
      ensures lists.Keys == old(lists).Keys
      ensures place == old(place)[x := On(w)] && w in old(counts) && counts == old(counts)[w := old(counts)[w] + 1]
    {
      PushStocked(next, heads, counts, lists, place, w, x);
      HousedMove(keys, lists, lists[w := [x] + lists[w]], place, header, stride, x, On(w));
      next := next[x := heads[w]];
      heads := heads[w := x];
      counts := counts[w := counts[w] + 1];
      lists, place := lists[w := [x] + lists[w]], place[x := On(w)];
    }
  
    // ------------------------------------------------------------------------ pages

    /** slab_create_page on fresh, page-aligned memory, linked as the first partial page. */
    method CreatePage(p: nat)
      requires Core(0) && p > 0 && p % PAGE == 0 && p !in keys
      modifies this`next, this`heads, this`counts, this`lists, this`place, this`pageLinks, this`pageHeads, this`keys,
               this`stamp, this`clock
      ensures Core(p) && keys == old(keys)[p := Partial]
      ensures place == WithPage(old(place), p, PageSlots(p, header, stride))
      ensures Page(p) in counts && counts[Page(p)] == Total() && |Off(place)| == |Off(old(place))|
      ensures CachesKept(old(lists), old(counts), lists, counts)
      ensures header + counts[Page(p)] * stride <= 65536 < header + counts[Page(p)] * stride + stride
      ensures forall i: nat {:trigger SlotAt(p, header, stride, i)} :: i < counts[Page(p)] ==>
                && SlotAt(p, header, stride, i) == p + header + i * stride
                && SlotAt(p, header, stride, i) in place && place[SlotAt(p, header, stride, i)] == On(Page(p))
    {
      FreshSlots(keys, lists, place, header, stride, p);
      LinkPage(p);
      PageFilled(header, stride);
      SlotsOnPage(old(place), p, header, stride);
    }

    /** The page carved and linked. */
    method LinkPage(p: nat)
      requires Core(0) && p > 0 && p % PAGE == 0 && p !in keys
      modifies this`next, this`heads, this`counts, this`lists, this`place, this`pageLinks, this`pageHeads, this`keys,
               this`stamp, this`clock
      ensures Core(p) && keys == old(keys)[p := Partial]
      ensures place == WithPage(old(place), p, PageSlots(p, header, stride))
      ensures Page(p) in counts && counts[Page(p)] == Total() && |Off(place)| == |Off(old(place))|
      ensures CachesKept(old(lists), old(counts), lists, counts)
    {
      CarvePage(p);
      EmptyMove(keys, p, Partial);
      PushPage(p, Partial);
      PagedElsewhere(old(counts), counts, old(keys), keys, Total(), p);
    }

    /** The page's slots and its free list. */
    method CarvePage(p: nat)
      requires Core(0) && p > 0 && p % PAGE == 0 && p !in keys
      modifies this`next, this`heads, this`counts, this`lists, this`place
      ensures Stocked(next, heads, counts, lists, place) && Housed(keys[p := Partial], lists, place, header, stride)
      ensures place == WithPage(old(place), p, PageSlots(p, header, stride)) && |Off(place)| == |Off(old(place))|
      ensures counts == old(counts)[Page(p) := Total()] && old(lists).Keys <= lists.Keys
    {
      ghost var xs := PageSlots(p, header, stride);
      var total := Total();
      LinkSlots(p, total);
      PageChain(next, p, header, stride);
      FreshSlots(keys, lists, place, header, stride, p);
      HousedPage(keys, lists, place, header, stride, p);
      OffPage(place, p, xs);
      SlotsLinked(next, p, header, stride, xs);
      PageStocked(old(next), next, heads, counts, lists, place, p, xs);
      heads := heads[Page(p) := SlotAt(p, header, stride, 0)];
      counts := counts[Page(p) := total];
      lists, place := lists[Page(p) := xs], WithPage(place, p, xs);
    }

    /** Links every slot of the page to the next, the last to NULL. */
    method LinkSlots(p: nat, total: nat)
      requires Sized() && total == Total() && p % PAGE == 0
      modifies this`next
      ensures forall i: nat {:trigger LinkedTo(next, p, header, stride, total, i)} ::
               i < total ==> LinkedTo(next, p, header, stride, total, i)
      ensures AgreeOutside(old(next), next, PageSlots(p, header, stride))
    {
      ghost var xs := PageSlots(p, header, stride);
      var i: nat := 0;
      while i < total
        invariant i <= total
        invariant forall j: nat {:trigger LinkedTo(next, p, header, stride, total, j)} ::
                   j < i ==> LinkedTo(next, p, header, stride, total, j)
        invariant AgreeOutside(old(next), next, xs)
      {
        ghost var before := next;
        assert xs[i] == SlotAt(p, header, stride, i);
        next := next[SlotAt(p, header, stride, i) := if i + 1 < total then SlotAt(p, header, stride, i + 1) else 0];
        forall j: nat | j < i ensures LinkedTo(next, p, header, stride, total, j) {
          assert LinkedTo(before, p, header, stride, total, j);
          SlotOrder(p, header, stride, j, i);
        }
        assert LinkedTo(next, p, header, stride, total, i);
        i := i + 1;
      }
    }

    /** A page with a free slot, at the head of the partial list: that one, an empty one, or a new one. */
    method NextPage(spare: nat) returns (p: nat)
      requires Core(0) && (spare > 0 ==> spare % PAGE == 0 && spare !in keys)
      modifies this
      ensures others == old(others)
      ensures keys.Keys <= old(keys).Keys + New(spare) && Extends(old(place), place) && bytes == old(bytes)
      ensures CachesKept(old(lists), old(counts), lists, counts)
      ensures Partial in old(pageHeads) && Empty in old(pageHeads)
      ensures p == if old(pageHeads)[Partial] != 0 then old(pageHeads)[Partial]
                   else if old(pageHeads)[Empty] != 0 then old(pageHeads)[Empty]
                   else spare
      ensures p != 0 ==> spare != 0 || !NoFreeSlot(old(counts), old(keys))
      ensures p == 0 ==>
                && Core(0) && spare == 0 && place == old(place) && counts == old(counts) && keys == old(keys)
                && NoFreeSlot(counts, keys)
      ensures p != 0 ==>
                && Core(p) && p in keys && keys[p] == Partial && p % PAGE == 0 && Page(p) in counts
                && 0 < counts[Page(p)] <= Total()
    {
      p := pageHeads[Partial];
      assert Headed(keys, pageLinks, pageHeads, Partial) && Headed(keys, pageLinks, pageHeads, Empty);
      if p != 0 {
        assert PageOk(counts, keys, Total(), p);
        SameCaches(lists, counts);
        return;
      }
      p := pageHeads[Empty];
      if p != 0 {
        ReuseEmpty(p);
      } else if spare != 0 {
        CreatePage(spare);
        p := spare;
      } else {
        AllFull(counts, keys, Total(), pageLinks, pageHeads, stamp, clock);
        SameCaches(lists, counts);
      }
    }

    /** An empty page becomes the first partial page. */
    method ReuseEmpty(p: nat)
      requires Core(0) && p in keys && keys[p] == Empty
      modifies this`pageLinks, this`pageHeads, this`keys, this`stamp, this`clock, this`emptyCount
      ensures Core(p) && keys == old(keys)[p := Partial] && CachesKept(lists, counts, lists, counts)
      ensures p % PAGE == 0 && Page(p) in counts && 0 < counts[Page(p)] <= Total()
    {
      assert PageOk(counts, keys, Total(), p);
      MoveFromEmpty(p);
      PagedExcept(counts, old(keys), keys, Total(), p);
      HousedKeys(old(keys), keys, lists, place, header, stride);
      SameCaches(lists, counts);
    }

    /** The shared body of all slot producers: one slot off the first page that has one. */
    method TakeSlot(spare: nat) returns (x: nat, ghost base: Places)
      requires Core(0) && (spare > 0 ==> spare % PAGE == 0 && spare !in keys)
      modifies this
      ensures others == old(others)
      ensures Core(0) && keys.Keys <= old(keys).Keys + New(spare) && bytes == old(bytes) && Extends(old(place), base)
      ensures CachesKept(old(lists), old(counts), lists, counts)
      ensures x != 0 ==> spare != 0 || !NoFreeSlot(old(counts), old(keys))
      ensures x == 0 ==>
                && spare == 0 && place == old(place) && counts == old(counts) && keys == old(keys)
                && NoFreeSlot(counts, keys)
      ensures x != 0 ==> x in base && OnPage(base[x]) && place == base[x := User]
    {
      var p := NextPage(spare);
      base := place;
      if p == 0 { return 0, base; }
      ghost var ls, cs := lists, counts;
      x := TakeFrom(p);
      CachesTwice(old(lists), old(counts), ls, cs, lists, counts);
    }

    /** Pops the free list of a page at the head of the partial list, which may fill up. */
    method TakeFrom(p: nat) returns (x: nat)
      requires Core(p) && p in keys && keys[p] == Partial && p % PAGE == 0 && Page(p) in counts
      requires 0 < counts[Page(p)] <= Total()
      modifies this
      ensures others == old(others)
      ensures Core(0) && keys.Keys == old(keys).Keys && bytes == old(bytes)
      ensures CachesKept(old(lists), old(counts), lists, counts)
      ensures x != 0 && x in old(place) && OnPage(old(place)[x]) && place == old(place)[x := User]
    {
      ghost var cs, ks := counts, keys;
      x := PopFrom(Page(p));
      if counts[Page(p)] == 0 {
        MovePage(p, Partial, Full);
      }
      Settled(cs, counts, ks, keys, Total(), p);
      HousedKeys(ks, keys, lists, place, header, stride);
    }

    /** slab_free_nolock and the page transitions its callers apply. */
    method FreeToPage(x: nat)
      requires Core(0) && x in place && place[x] == User
      modifies this
      ensures others == old(others)
      ensures Core(0) && keys.Keys == old(keys).Keys && bytes == old(bytes)
      ensures place == old(place)[x := On(Page(PageOf(x)))] && CachesKept(old(lists), old(counts), lists, counts)
    {
      var p := PageOf(x);
      FreeReady(next, heads, counts, lists, place, keys, header, stride, x);
      ghost var cs, ks := counts, keys;
      var wasFull := counts[Page(p)] == 0;
      PushTo(Page(p), x);
      Rehang(p, wasFull, counts[Page(p)] == Total());
      Settled(cs, counts, ks, keys, Total(), p);
      HousedKeys(ks, keys, lists, place, header, stride);
    }

    /** The page transitions after a slot came back. */
    method Rehang(p: nat, wasFull: bool, willBeEmpty: bool)
      requires Linked() && p in keys && p != 0 && keys[p] == if wasFull then Full else Partial
      modifies this`pageLinks, this`pageHeads, this`keys, this`stamp, this`clock, this`emptyCount
      ensures Linked() && keys == old(keys)[p := if willBeEmpty then Empty else Partial]
    {
      if wasFull { MovePage(p, Full, Partial); }
      if willBeEmpty { MoveToEmpty(p); }
    }

    /** The counter has moved because of other classes. */
    method Learn(counter: nat, ghost rest: nat)
      requires Folded() && counter == rest + |Off(place)| * slotSize
      modifies this`bytes, this`others
      ensures Valid() && bytes == counter && others == rest
    {
      assert Seal(0);
      bytes, others := counter, rest;
    }

    // ------------------------------------------------------------------- operations

    constructor (slotSize: nat, header: nat, stride: nat, threads: set<nat>, cpus: set<nat>, counter: nat)
      requires stride > 0 && header + stride <= PAGE
      ensures Valid() && place == map[] && bytes == counter == others
      ensures forall t :: t in threads ==> Tls(t) in lists
      ensures forall c :: c in cpus ==> Cpu(c) in lists
    {
      this.slotSize, this.header, this.stride := slotSize, header, stride;
      next, bytes, others, emptyCount := map[], counter, counter, 0;
      var off := (set t | t in threads :: Tls(t)) + (set c | c in cpus :: Cpu(c)) + {Remote};
      var none := map w | w in off :: 0;
      heads, counts := none, none;
      pageLinks, pageHeads := map[], map[Partial := 0, Full := 0, Empty := 0];
      keys, stamp, clock, place := map[], map[], 0, map[];
      lists := map w | w in none :: [];
      new;
      EnoughRoom(header, stride);
      assert EmptyPages(keys) == {} && Off(place) == {};
    }

    /** The slots of a page are free or elsewhere; none is lost. The list it is on follows from that. */
    lemma PageBalance(p: nat)
      requires Valid() && p in keys
      ensures Sized() && Page(p) in counts && |Away(place, header, stride, p)| + counts[Page(p)] == Total()
      ensures Full in pageHeads && (keys[p] == Full <==> counts[Page(p)] == 0)
      ensures Empty in pageHeads && (keys[p] == Empty <==> Away(place, header, stride, p) == {})
      ensures header + Total() * stride <= 65536 < header + (Total() + 1) * stride
    {
      assert Seal(0);
      assert PageOk(counts, keys, Total(), p);
      Balance(next, heads, counts, lists, place, keys, header, stride, p);
    }

    lemma HasCount(w: Where)
      requires Folded() && w in lists
      ensures w in counts
    {
      assert Seal(0);
      assert StackOk(next, heads, counts, lists, place, w);
    }

    lemma HasRemote()
      requires Folded()
      ensures Remote in lists
    {
      assert Seal(0);
    }

    /** The free counts are 0 exactly if no slot is on a page. */
    lemma NoFreeIff()
      requires Folded()
      ensures NoFreeSlot(counts, keys) <==> NoneOnPage(place)
    {
      assert Seal(0);
      NoFreeMeans(next, heads, counts, lists, place, keys, header, stride);
    }

    /** slab_alloc_slot: the harvest if the class is flagged, then one slot off the pages. */
    method AllocSlot(pending: bool, spare: nat) returns (x: nat)
      requires Valid() && (spare > 0 ==> spare % PAGE == 0 && spare !in keys)
      modifies this
      ensures others == old(others)
      ensures Valid() && Drawn(Harvested(old(place), pending), place, User)
      ensures x == 0 <==> spare == 0 && NoneOnPage(Harvested(old(place), pending))
      ensures x == 0 ==> place == Harvested(old(place), pending)
      ensures x != 0 ==> x in place && place[x] == User && x !in Off(Harvested(old(place), pending))
      ensures x != 0 ==> Off(place) == Off(Harvested(old(place), pending)) + {x}
    {
      Harvest(pending);
      NoFreeIff();
      x := TakeCounted(spare);
    }

    /** The slots of the remote queue go home if the class is flagged. */
    method Harvest(pending: bool)
      requires Valid()
      modifies this
      ensures others == old(others)
      ensures Valid() && old(lists).Keys <= lists.Keys && keys.Keys == old(keys).Keys
      ensures place == Harvested(old(place), pending)
    {
      if pending {
        HasRemote();
        ReturnAll(Remote);
      }
    }

    /** One slot off the pages and on the byte counter. */
    method TakeCounted(spare: nat) returns (x: nat)
      requires Valid() && (spare > 0 ==> spare % PAGE == 0 && spare !in keys)
      modifies this
      ensures others == old(others)
      ensures Valid() && Drawn(old(place), place, User)
      ensures x == 0 <==> spare == 0 && NoFreeSlot(old(counts), old(keys))
      ensures x == 0 ==> place == old(place)
      ensures x != 0 ==> x in place && place[x] == User && x !in Off(old(place)) && Off(place) == Off(old(place)) + {x}
    {
      x := TakeFolded(spare);
      if x != 0 {
        bytes := bytes + slotSize;
        OneMore(|Off(old(place))|, slotSize);
      }
    }

    method TakeFolded(spare: nat) returns (x: nat)
      requires Folded() && (spare > 0 ==> spare % PAGE == 0 && spare !in keys)
      modifies this
      ensures others == old(others) && bytes == old(bytes) && keys.Keys <= old(keys).Keys + New(spare)
      ensures Folded() && Drawn(old(place), place, User) && CachesKept(old(lists), old(counts), lists, counts)
      ensures x == 0 <==> spare == 0 && NoFreeSlot(old(counts), old(keys))
      ensures x == 0 ==> place == old(place) && NoFreeSlot(counts, keys) && counts == old(counts) && keys == old(keys)
      ensures x != 0 ==> x in place && place[x] == User && x !in Off(old(place)) && Off(place) == Off(old(place)) + {x}
      ensures x != 0 ==> |Off(place)| == |Off(old(place))| + 1
    {
      assert Seal(0);
      ghost var base;
      x, base := TakeSlot(spare);
      if x != 0 { DrawOne(old(place), base, x, User); }
    }

    /** slab_free */
    method FreeSlot(x: nat)
      requires Valid() && x in place && place[x] == User
      modifies this
      ensures others == old(others)
      ensures Valid() && keys.Keys == old(keys).Keys && place == old(place)[x := On(Page(PageOf(x)))]
      ensures CachesKept(old(lists), old(counts), lists, counts)
      ensures old(bytes) >= slotSize && bytes == old(bytes) - slotSize
    {
      assert Seal(0) && x in Off(place);
      OneMore(|Off(place)| - 1, slotSize);
      OffMove(place, x, On(Page(PageOf(x))));
      // the reset of a counter that is too small never happens
      bytes := Saturating(bytes, slotSize);
      FreeToPage(x);
    }

    /** tls_cache_drain_slots: up to n slots from the pages into the cache of thread t. */
    method Drain(t: nat, n: nat, spares: seq<nat>) returns (got: nat)
      requires Valid() && Tls(t) in lists && Usable(spares, keys)
      modifies this
      ensures others == old(others)
      ensures Valid() && Tls(t) in lists && Drawn(old(place), place, On(Tls(t)))
      ensures keys.Keys <= old(keys).Keys + Elements(spares)
      ensures got <= n && Tls(t) in old(counts) && Tls(t) in counts && counts[Tls(t)] == old(counts)[Tls(t)] + got
      ensures got < n ==> |spares| <= got && NoFreeSlot(counts, keys)
      ensures n > 0 ==> (got == 0 <==> spares == [] && NoFreeSlot(old(counts), old(keys)))
      ensures got == 0 ==> place == old(place)
    {
      ghost var off := |Off(place)|;
      got := DrawMany(t, n, spares);
      CountIn(got, off);
    }

    /** Slots that left the pages since `off` of them were off go on the byte counter. */
    method CountIn(n: nat, ghost off: nat)
      requires Folded() && bytes == others + off * slotSize && |Off(place)| == off + n
      modifies this`bytes
      ensures Valid()
    {
      Distribute(off, n, slotSize);
      bytes := bytes + n * slotSize;
    }

    /** Slots from the pages into the cache, not yet counted. */
    method DrawMany(t: nat, n: nat, spares: seq<nat>) returns (got: nat)
      requires Folded() && Tls(t) in lists && Usable(spares, keys)
      modifies this
      ensures others == old(others) && bytes == old(bytes) && |Off(place)| == |Off(old(place))| + got
      ensures Folded() && Tls(t) in lists && Drawn(old(place), place, On(Tls(t)))
      ensures keys.Keys <= old(keys).Keys + Elements(spares)
      ensures got <= n && Tls(t) in old(counts) && Tls(t) in counts && counts[Tls(t)] == old(counts)[Tls(t)] + got
      ensures got < n ==> |spares| <= got && NoFreeSlot(counts, keys)
      ensures n > 0 ==> (got == 0 <==> spares == [] && NoFreeSlot(old(counts), old(keys)))
      ensures got == 0 ==> place == old(place)
    {
      got := 0;
      ghost var off := |Off(place)|;
      HasCount(Tls(t));
      while got < n
        invariant got <= n && Folded() && Tls(t) in lists && bytes == old(bytes) && others == old(others)
        invariant |Off(place)| == off + got
        invariant Drawn(old(place), place, On(Tls(t))) && Within(spares, old(keys).Keys, keys.Keys, got)
        invariant Tls(t) in counts && counts[Tls(t)] == old(counts)[Tls(t)] + got
        invariant got == 0 ==> place == old(place) && counts == old(counts) && keys == old(keys)
        invariant got > 0 ==> spares != [] || !NoFreeSlot(old(counts), old(keys))
      {
        var x := DrawNext(Tls(t), spares, got, old(keys), old(place));
        if x == 0 { break; }
        got := got + 1;
      }
    }

    method DrawNext(w: Where, spares: seq<nat>, got: nat, ghost ks: map<nat, PageList>, ghost start: Places)
      returns (x: nat)
      requires Folded() && w in lists && !w.Page? && Usable(spares, ks) && Within(spares, ks.Keys, keys.Keys, got)
      requires Drawn(start, place, On(w))
      modifies this
      ensures others == old(others)
      ensures Folded() && w in lists && bytes == old(bytes) && Drawn(start, place, On(w))
      ensures x == 0 ==>
                && |spares| <= got && NoFreeSlot(counts, keys) && place == old(place) && counts == old(counts)
                && keys == old(keys) && Within(spares, ks.Keys, keys.Keys, got)
      ensures x != 0 ==> got < |spares| || !NoFreeSlot(old(counts), old(keys))
      ensures x != 0 ==>
                && w in counts && w in old(counts) && counts[w] == old(counts)[w] + 1
                && |Off(place)| == |Off(old(place))| + 1
      ensures x != 0 ==> Within(spares, ks.Keys, keys.Keys, got + 1)
    {
      assert Seal(0);
      SpareReady(spares, ks, keys.Keys, got);
      x := Draw(w, SpareAt(spares, got), start);
    }

    /** One slot from the pages onto a cache. */
    method Draw(w: Where, spare: nat, ghost start: Places) returns (x: nat)
      requires Core(0) && w in lists && !w.Page? && (spare > 0 ==> spare % PAGE == 0 && spare !in keys)
      requires Drawn(start, place, On(w))
      modifies this
      ensures others == old(others)
      ensures Core(0) && w in lists && keys.Keys <= old(keys).Keys + New(spare) && bytes == old(bytes)
      ensures Drawn(start, place, On(w))
      ensures x == 0 ==> spare == 0 && NoFreeSlot(counts, keys) && place == old(place)
      ensures x == 0 ==> counts == old(counts) && keys == old(keys)
      ensures x != 0 ==> spare != 0 || !NoFreeSlot(old(counts), old(keys))
      ensures x != 0 ==>
                && w in counts && w in old(counts) && counts[w] == old(counts)[w] + 1
                && |Off(place)| == |Off(old(place))| + 1
    {
      ghost var base;
      assert StackOk(next, heads, counts, lists, place, w);
      x, base := TakeSlot(spare);
      if x != 0 {
        assert SameCount(old(counts), counts, w);
        DrawFinish(start, old(place), base, x, On(w));
        Stash(w, x);
      }
    }

    /** A slot in hand goes on a list off the pages. */
    method Stash(w: Where, x: nat)
      requires Core(0) && w in lists && !w.Page? && x in place && place[x] == User
      modifies this`next, this`heads, this`counts, this`lists, this`place
      ensures Core(0) && lists.Keys == old(lists).Keys && place == old(place)[x := On(w)]
      ensures w in old(counts) && counts == old(counts)[w := old(counts)[w] + 1]
    {
      PushTo(w, x);
      PagedCache(old(counts), counts, keys, Total(), w);
    }

    /** A list off the pages gives up its first slot. */
    method Unstash(w: Where) returns (x: nat)
      requires Core(0) && w in lists && !w.Page?
      modifies this`heads, this`counts, this`lists, this`place
      ensures Core(0) && lists.Keys == old(lists).Keys && w in old(counts) && (x == 0 <==> old(counts)[w] == 0)
      ensures x == 0 ==> place == old(place) && counts == old(counts)
      ensures x != 0 ==>
                && x in old(place) && old(place)[x] == On(w) && place == old(place)[x := User]
                && counts == old(counts)[w := old(counts)[w] - 1]
    {
      x := PopFrom(w);
      if x != 0 { PagedCache(old(counts), counts, keys, Total(), w); }
    }

    /** slab_alloc_batch: up to n slots into the caller's hands, in the order produced. */
    method AllocBatch(n: nat, spares: seq<nat>) returns (out: seq<nat>)
      requires Valid() && Usable(spares, keys)
      modifies this
      ensures others == old(others)
      ensures Valid() && Drawn(old(place), place, User) && CachesKept(old(lists), old(counts), lists, counts)
      ensures keys.Keys <= old(keys).Keys + Elements(spares)
      ensures |out| <= n && Gathered(old(place), place, out)
      ensures |out| < n ==> |spares| <= |out| && NoFreeSlot(counts, keys)
      ensures n > 0 ==> (out == [] <==> spares == [] && NoFreeSlot(old(counts), old(keys)))
      ensures out == [] ==> place == old(place)
    {
      ghost var off := |Off(place)|;
      out := Gather(n, spares);
      CountIn(|out|, off);
    }

    /** Slots off the pages, not yet counted. */
    method Gather(n: nat, spares: seq<nat>) returns (out: seq<nat>)
      requires Folded() && Usable(spares, keys)
      modifies this
      ensures others == old(others)
      ensures Folded() && bytes == old(bytes) && Drawn(old(place), place, User)
      ensures CachesKept(old(lists), old(counts), lists, counts)
      ensures |out| <= n && Gathered(old(place), place, out) && keys.Keys <= old(keys).Keys + Elements(spares)
      ensures |out| < n ==> |spares| <= |out| && NoFreeSlot(counts, keys)
      ensures n > 0 ==> (out == [] <==> spares == [] && NoFreeSlot(old(counts), old(keys)))
      ensures out == [] ==> place == old(place)
    {
      out := [];
      SameCaches(lists, counts);
      ghost var none := spares == [] && NoFreeSlot(counts, keys);
      while |out| < n
        invariant |out| <= n && Folded() && bytes == old(bytes) && others == old(others)
        invariant CachesKept(old(lists), old(counts), lists, counts)
        invariant Drawn(old(place), place, User) && Gathered(old(place), place, out)
        invariant Within(spares, old(keys).Keys, keys.Keys, |out|)
        invariant out == [] ==> place == old(place) && (none <==> spares == [] && NoFreeSlot(counts, keys))
        invariant out != [] ==> !none
      {
        var x := GatherOne(spares, old(keys), old(place), out, old(lists), old(counts), none);
        if x == 0 { break; }
        out := out + [x];
      }
    }

    method GatherOne(spares: seq<nat>, ghost ks: map<nat, PageList>, ghost start: Places, out: seq<nat>,
        ghost ls: Lists, ghost cs: Heads, ghost none: bool) returns (x: nat)
      requires Folded() && Usable(spares, ks) && Within(spares, ks.Keys, keys.Keys, |out|)
      requires out == [] ==> (none <==> spares == [] && NoFreeSlot(counts, keys))
      requires Drawn(start, place, User) && Gathered(start, place, out) && CachesKept(ls, cs, lists, counts)
      modifies this
      ensures others == old(others)
      ensures Folded() && bytes == old(bytes) && CachesKept(ls, cs, lists, counts) && Drawn(start, place, User)
      ensures x == 0 ==>
                && |spares| <= |out| && NoFreeSlot(counts, keys) && place == old(place)
                && Within(spares, ks.Keys, keys.Keys, |out|)
      ensures out == [] ==> (x == 0 <==> none)
      ensures x != 0 ==> Gathered(start, place, out + [x]) && Within(spares, ks.Keys, keys.Keys, |out| + 1)
    {
      SpareReady(spares, ks, keys.Keys, |out|);
      x := TakeFolded(SpareAt(spares, |out|));
      CachesTwice(ls, cs, old(lists), old(counts), lists, counts);
      if x != 0 {
        DrawTwice(start, old(place), place, User);
        GatherMore(start, old(place), place, out, x);
      }
    }

    /** percpu_refill: a batch of slots, the first produced on top. */
    method Refill(c: nat, spares: seq<nat>) returns (got: nat)
      requires Valid() && Cpu(c) in lists && Usable(spares, keys)
      modifies this
      ensures others == old(others)
      ensures Valid() && old(lists).Keys <= lists.Keys && Drawn(old(place), place, On(Cpu(c)))
      ensures keys.Keys <= old(keys).Keys + Elements(spares)
      ensures Cpu(c) in old(counts) && Cpu(c) in counts && counts[Cpu(c)] == old(counts)[Cpu(c)] + got
      ensures got <= 16 && (old(counts)[Cpu(c)] > 8 ==> got == 0)
      ensures old(counts)[Cpu(c)] <= 8 && got < 16 ==> |spares| <= got && NoFreeSlot(counts, keys)
      ensures old(counts)[Cpu(c)] <= 8 ==>
                (got == 0 <==> spares == [] && NoFreeSlot(old(counts), old(keys)))
      ensures got == 0 ==> place == old(place)
    {
      HasCount(Cpu(c));
      if counts[Cpu(c)] > BATCH / 2 { return 0; }
      var out := AllocBatch(BATCH, spares);
      assert SameCount(old(counts), counts, Cpu(c));
      ghost var mid := place;
      Prepend(Cpu(c), out);
      DrawnTo(old(place), mid, place, out, Cpu(c));
      got := |out|;
      if out == [] { PlacedNone(mid, place, Cpu(c)); }
    }

    /** Chains slots in hand and puts them on top of a list. */
    method Prepend(w: Where, out: seq<nat>)
      requires Valid() && w in lists && !w.Page? && w in counts && InHand(place, out)
      modifies this`next, this`heads, this`counts, this`lists, this`place
      ensures Valid() && lists.Keys == old(lists).Keys && w in counts
      ensures counts == old(counts)[w := old(counts)[w] + |out|]
      ensures Placed(old(place), place, out, w)
    {
      var i := |out|;
      while i > 0
        invariant 0 <= i <= |out| && Valid() && lists.Keys == old(lists).Keys
        invariant w in counts && counts == old(counts)[w := old(counts)[w] + |out| - i]
        invariant Placed(old(place), place, out[i..], w)
      {
        i := i - 1;
        StillInHand(old(place), place, out, i, w);
        StashOne(w, out[i]);
      }
      assert out[0..] == out;
    }

    method StashOne(w: Where, x: nat)
      requires Valid() && w in lists && !w.Page? && x in place && place[x] == User
      modifies this`next, this`heads, this`counts, this`lists, this`place
      ensures Valid() && lists.Keys == old(lists).Keys && place == old(place)[x := On(w)]
      ensures w in old(counts) && counts == old(counts)[w := old(counts)[w] + 1]
    {
      assert Seal(0);
      OffMove(place, x, On(w));
      Stash(w, x);
    }

    /** A list has no slots exactly if its count says so. */
    lemma EmptyIff(w: Where)
      requires Folded() && w in lists
      ensures w in counts && (counts[w] == 0 <==> NoneAt(place, w))
    {
      assert Seal(0);
      assert StackOk(next, heads, counts, lists, place, w);
      if counts[w] == 0 {
        NothingLeft(next, heads, counts, lists, place, w);
      } else {
        assert Holds(lists, place, w, lists[w][0]);
      }
    }

    /** A list off the pages gives up its first slot to the caller. */
    method UnstashOne(w: Where) returns (x: nat)
      requires Valid() && w in lists && !w.Page?
      modifies this`heads, this`counts, this`lists, this`place
      ensures Valid() && lists.Keys == old(lists).Keys && w in old(counts) && (x == 0 <==> old(counts)[w] == 0)
      ensures x == 0 ==> place == old(place) && counts == old(counts)
      ensures x != 0 ==>
                && x in old(place) && old(place)[x] == On(w) && place == old(place)[x := User]
                && counts == old(counts)[w := old(counts)[w] - 1]
    {
      assert Seal(0);
      x := Unstash(w);
      if x != 0 { OffMove(old(place), x, User); }
    }

    /** remote_free_harvest on the remote queue, and the flush of a thread's cache: all slots go to their pages. */
    method ReturnAll(w: Where)
      requires Valid() && w in lists && !w.Page?
      modifies this
      ensures others == old(others)
      ensures Valid() && old(lists).Keys <= lists.Keys && keys.Keys == old(keys).Keys && Returned(old(place), place, w)
    {
      while true
        invariant Valid() && others == old(others) && old(lists).Keys <= lists.Keys && keys.Keys == old(keys).Keys
        invariant Returning(old(place), place, w)
        decreases if w in counts then counts[w] else 0
      {
        HasCount(w);
        var x := ReturnOne(w);
        if x == 0 { break; }
      }
      assert Seal(0);
      NothingLeft(next, heads, counts, lists, place, w);
    }

    method ReturnOne(w: Where) returns (x: nat)
      requires Valid() && w in lists && !w.Page?
      modifies this
      ensures others == old(others)
      ensures Valid() && old(lists).Keys <= lists.Keys && keys.Keys == old(keys).Keys && w in old(counts) && w in counts
      ensures x == 0 ==> place == old(place) && counts == old(counts) && counts[w] == 0
      ensures x != 0 ==>
                && x in old(place) && old(place)[x] == On(w) && place == old(place)[x := On(Page(PageOf(x)))]
                && counts[w] < old(counts)[w]
    {
      x := UnstashOne(w);
      if x != 0 {
        ghost var cs := counts;
        FreeSlot(x);
        assert SameCount(cs, counts, w);
      }
    }

    /** The slab branch of mp_free: thread cache, per-CPU list, remote queue or page, in this order. */
    method Release(t: nat, cpu: nat, percpu: bool, threadSafe: bool, x: nat)
      requires Valid() && Tls(t) in lists && (percpu ==> Cpu(cpu) in lists) && x in place && place[x] == User
      modifies this
      ensures others == old(others)
      ensures Valid() && Tls(t) in old(counts) && (percpu ==> Cpu(cpu) in old(counts))
      ensures x in place && place == old(place)[x := place[x]]
      ensures place[x] == On(Tls(t)) <==> old(counts)[Tls(t)] < 256
      ensures place[x] == On(Cpu(cpu)) <==> old(counts)[Tls(t)] >= 256 && percpu && old(counts)[Cpu(cpu)] < 16
      ensures place[x] == On(Remote) <==>
                old(counts)[Tls(t)] >= 256 && (percpu ==> old(counts)[Cpu(cpu)] >= 16) && threadSafe
      ensures place[x] == On(Page(x - x % 65536)) <==>
                old(counts)[Tls(t)] >= 256 && (percpu ==> old(counts)[Cpu(cpu)] >= 16) && !threadSafe
      ensures Tls(t) in counts && (old(counts)[Tls(t)] <= 256 ==> counts[Tls(t)] <= 256)
      ensures percpu ==> Cpu(cpu) in counts && (old(counts)[Cpu(cpu)] <= 16 ==> counts[Cpu(cpu)] <= 16)
    {
      HasCount(Tls(t));
      HasRemote();
      if percpu { HasCount(Cpu(cpu)); }
      if counts[Tls(t)] < TLS_MAX {
        StashOne(Tls(t), x);
      } else if percpu && counts[Cpu(cpu)] < BATCH {
        StashOne(Cpu(cpu), x);
      } else if threadSafe {
        StashOne(Remote, x);
      } else {
        ghost var cs := counts;
        FreeSlot(x);
        assert SameCount(cs, counts, Tls(t));
        assert percpu ==> SameCount(cs, counts, Cpu(cpu));
      }
    }

    /**
     * The slab branch of mp_alloc: the remote queue is harvested if it is flagged, then the thread
     * cache, the per-CPU list with a refill, and a drain into the thread cache are tried in turn.
     */
    method Acquire(t: nat, cpu: nat, percpu: bool, pending: bool, spares: seq<nat>, more: seq<nat>) returns (x: nat)
      requires Valid() && Tls(t) in lists && (percpu ==> Cpu(cpu) in lists)
      requires Usable(spares, keys) && Usable(more, keys) && Elements(spares) !! Elements(more)
      modifies this
      ensures others == old(others)
      ensures Valid() && HandedOut(old(place), place, x)
      ensures x == 0 <==>
                && NoneAt(old(place), Tls(t)) && (percpu ==> NoneAt(old(place), Cpu(cpu)) && spares == [])
                && NoneOnPage(Harvested(old(place), pending)) && more == []
      ensures x == 0 ==> place == Harvested(old(place), pending)
    {
      HarvestedLists(place, pending, Tls(t));
      HarvestedLists(place, pending, Cpu(cpu));
      HarvestedHands(place, pending);
      Harvest(pending);
      ghost var mid := place;
      StillUsable(spares, [], old(keys), keys);
      StillUsable(more, [], old(keys), keys);
      x := AcquireHarvested(t, cpu, percpu, spares, more);
      HandedTwice(old(place), mid, place, x);
    }

    method AcquireHarvested(t: nat, cpu: nat, percpu: bool, spares: seq<nat>, more: seq<nat>) returns (x: nat)
      requires Valid() && Tls(t) in lists && (percpu ==> Cpu(cpu) in lists)
      requires Usable(spares, keys) && Usable(more, keys) && Elements(spares) !! Elements(more)
      modifies this
      ensures others == old(others)
      ensures Valid() && HandedOut(old(place), place, x)
      ensures x == 0 <==>
                && NoneAt(old(place), Tls(t)) && (percpu ==> NoneAt(old(place), Cpu(cpu)) && spares == [])
                && NoneOnPage(old(place)) && more == []
      ensures x == 0 ==> place == old(place)
    {
      EmptyIff(Tls(t));
      x := UnstashOne(Tls(t));
      if x == 0 && percpu {
        x := AcquireCpu(cpu, spares);
      }
      if x == 0 {
        StillUsable(more, spares, old(keys), keys);
        x := AcquireDrained(t, more, old(place));
      }
    }

    /** percpu_pop, and once more after percpu_refill. */
    method AcquireCpu(cpu: nat, spares: seq<nat>) returns (x: nat)
      requires Valid() && Cpu(cpu) in lists && Usable(spares, keys)
      modifies this
      ensures others == old(others)
      ensures Valid() && old(lists).Keys <= lists.Keys && HandedOut(old(place), place, x)
      ensures keys.Keys <= old(keys).Keys + Elements(spares)
      ensures x == 0 <==> NoneAt(old(place), Cpu(cpu)) && spares == [] && NoneOnPage(old(place))
      ensures x == 0 ==> place == old(place)
    {
      EmptyIff(Cpu(cpu));
      NoFreeIff();
      x := UnstashOne(Cpu(cpu));
      if x == 0 {
        NoFreeIff();
        var got := Refill(cpu, spares);
        ghost var mid := place;
        x := UnstashOne(Cpu(cpu));
        DrawnHands(old(place), mid, place, x, Cpu(cpu));
      }
    }

    /** slab_alloc_with_tls_refill */
    method AcquireDrained(t: nat, spares: seq<nat>, ghost start: Places) returns (x: nat)
      requires Valid() && Tls(t) in lists && Usable(spares, keys) && HandedOut(start, place, 0)
      modifies this
      ensures others == old(others)
      ensures Valid() && HandedOut(start, place, x)
      ensures x == 0 <==> NoneAt(old(place), Tls(t)) && spares == [] && NoneOnPage(old(place))
      ensures x == 0 ==> place == old(place)
      ensures Tls(t) in old(counts) && Tls(t) in counts
      ensures x != 0 ==> counts[Tls(t)] + 1 <= old(counts)[Tls(t)] + 64
      ensures x != 0 && counts[Tls(t)] + 1 < old(counts)[Tls(t)] + 64 ==> NoneOnPage(place)
    {
      ghost var before := place;
      EmptyIff(Tls(t));
      NoFreeIff();
      var got := Drain(t, REFILL, spares);
      ghost var mid := place;
      NoFreeIff();
      x := UnstashOne(Tls(t));
      DrawnHands(before, mid, place, x, Tls(t));
      HandedTwice(start, before, place, x);
    }
  }

  /** The bytes of every class's slots that are off their pages. */
  ghost function Shares(classes: map<nat, SlabClass>): map<nat, nat>
    reads set k | k in classes :: classes[k]
  {
    map k | k in classes :: |Off(classes[k].place)| * classes[k].slotSize
  }

  /**
   * The counter all classes share: what each class takes for the part of the others is right
   * exactly if the counter is the sum over all classes.
   */
  lemma OneCounter(classes: map<nat, SlabClass>, counter: nat)
    requires classes != map[] && forall k :: k in classes ==> classes[k].Valid() && classes[k].bytes == counter
    ensures (forall k :: k in classes ==> classes[k].others == Sum(Shares(classes) - {k})) <==>
              counter == Sum(Shares(classes))
  {
    forall k | k in classes
      ensures classes[k].others == Sum(Shares(classes) - {k}) <==> counter == Sum(Shares(classes))
    {
      SumRemove(Shares(classes), k);
    }
    var k :| k in classes;
  }

  /** Different classes are different objects. */
  ghost predicate Apart(classes: map<nat, SlabClass>) {
    forall j, k {:trigger Differ(classes, j, k)} :: j in classes && k in classes && j != k ==> Differ(classes, j, k)
  }

  ghost predicate Differ(classes: map<nat, SlabClass>, j: nat, k: nat)
    requires j in classes && k in classes
  {
    classes[j] != classes[k]
  }

  /** Class k is in order, sees the counter, and takes the rest of the sum for the part of the others. */
  ghost predicate Sees(classes: map<nat, SlabClass>, k: nat, counter: nat, shares: map<nat, nat>)
    requires k in classes
    reads classes[k]
  {
    classes[k].Valid() && classes[k].bytes == counter && classes[k].others == Sum(shares - {k})
  }

  /** All classes see the same counter, and it is the sum over all of them. */
  ghost predicate Together(classes: map<nat, SlabClass>, counter: nat, shares: map<nat, nat>)
    reads set k | k in classes :: classes[k]
  {
    && Apart(classes) && shares.Keys == classes.Keys && counter == Sum(shares)
    && forall k {:trigger Sees(classes, k, counter, shares)} :: k in classes ==> Sees(classes, k, counter, shares)
  }

  /** Class j is in order but for the counter. */
  ghost predicate Behind(classes: map<nat, SlabClass>, j: nat, shares: map<nat, nat>)
    requires j in classes
    reads classes[j]
  {
    classes[j].Folded() && j in shares && shares[j] == |Off(classes[j].place)| * classes[j].slotSize
  }

  /** After an operation of one class the others see the new counter. */
  method Publish(classes: map<nat, SlabClass>, k: nat, counter: nat, ghost shares: map<nat, nat>)
    requires Apart(classes) && k in classes && shares.Keys == classes.Keys && counter == Sum(shares)
    requires Sees(classes, k, counter, shares)
    requires forall j {:trigger Behind(classes, j, shares)} :: j in classes && j != k ==> Behind(classes, j, shares)
    modifies (set j | j in classes :: classes[j])`bytes, (set j | j in classes :: classes[j])`others
    ensures forall j {:trigger Sees(classes, j, counter, shares)} :: j in classes ==> Sees(classes, j, counter, shares)
  {
    var todo := classes.Keys - {k};
    while todo != {}
      invariant todo <= classes.Keys
      invariant forall j {:trigger Behind(classes, j, shares)} :: j in todo ==> Behind(classes, j, shares)
      invariant forall j {:trigger Sees(classes, j, counter, shares)} ::
                  j in classes && j !in todo ==> Sees(classes, j, counter, shares)
      decreases |todo|
    {
      var j :| j in todo;
      SumRemove(shares, j);
      assert Behind(classes, j, shares);
      assert forall i :: i in classes && i != j ==> Differ(classes, i, j);
      classes[j].Learn(counter, Sum(shares - {j}));
      todo := todo - {j};
    }
  }

  /** The shares are the bytes of the slots off the pages. */
  lemma ShareOf(classes: map<nat, SlabClass>, counter: nat, shares: map<nat, nat>, k: nat)
    requires Together(classes, counter, shares) && k in classes
    ensures Behind(classes, k, shares)
  {
    assert Sees(classes, k, counter, shares);
    SumRemove(shares, k);
  }

  lemma AllBehind(classes: map<nat, SlabClass>, counter: nat, shares: map<nat, nat>)
    requires Together(classes, counter, shares)
    ensures forall j {:trigger Behind(classes, j, shares)} :: j in classes ==> Behind(classes, j, shares)
  {
    forall j | j in classes ensures Behind(classes, j, shares) {
      ShareOf(classes, counter, shares, j);
    }
  }

  /** Freeing a slot of one class keeps all classes together; the shared counter goes down by the slot size. */
  method FreeShared(classes: map<nat, SlabClass>, k: nat, x: nat, ghost counter: nat, ghost shares: map<nat, nat>)
    requires Together(classes, counter, shares) && k in classes
    requires x in classes[k].place && classes[k].place[x] == User
    modifies set j | j in classes :: classes[j]
    ensures k in shares && counter >= classes[k].slotSize && shares[k] >= classes[k].slotSize
    ensures Together(classes, counter - classes[k].slotSize, shares[k := shares[k] - classes[k].slotSize])
  {
    AllBehind(classes, counter, shares);
    assert Sees(classes, k, counter, shares);
    SumRemove(shares, k);
    FreeAmong(classes, k, x, shares);
    Spread(classes, k, shares, shares[k] - classes[k].slotSize);
  }

  /** The other classes do not notice yet. */
  method FreeAmong(classes: map<nat, SlabClass>, k: nat, x: nat, ghost shares: map<nat, nat>)
    requires Apart(classes) && k in classes && classes[k].Valid()
    requires x in classes[k].place && classes[k].place[x] == User
    requires forall j {:trigger Behind(classes, j, shares)} :: j in classes ==> Behind(classes, j, shares)
    modifies classes[k]
    ensures classes[k].Valid() && classes[k].others == old(classes[k].others)
    ensures old(classes[k].bytes) >= classes[k].slotSize
    ensures classes[k].bytes == old(classes[k].bytes) - classes[k].slotSize
    ensures k in shares && shares[k] >= classes[k].slotSize
    ensures forall j {:trigger Behind(classes, j, shares)} :: j in classes && j != k ==> Behind(classes, j, shares)
  {
    assert Behind(classes, k, shares);
    assert forall j :: j in classes && j != k ==> Differ(classes, j, k);
    classes[k].FreeSlot(x);
  }

  /** The end of an operation of class k, whose share is now `share`. */
  method Spread(classes: map<nat, SlabClass>, k: nat, ghost shares: map<nat, nat>, ghost share: nat)
    requires Apart(classes) && k in classes && shares.Keys == classes.Keys
    requires classes[k].Valid() && classes[k].others == Sum(shares - {k})
    requires classes[k].bytes == classes[k].others + share
    requires forall j {:trigger Behind(classes, j, shares)} :: j in classes && j != k ==> Behind(classes, j, shares)
    modifies (set j | j in classes :: classes[j])`bytes, (set j | j in classes :: classes[j])`others
    ensures Together(classes, old(classes[k].bytes), shares[k := share])
  {
    ghost var shares' := shares[k := share];
    SumRemove(shares', k);
    assert shares' - {k} == shares - {k};
    forall j | j in classes && j != k ensures Behind(classes, j, shares') {
      assert Behind(classes, j, shares);
    }
    assert Sees(classes, k, classes[k].bytes, shares');
    Publish(classes, k, classes[k].bytes, shares');
  }

  /** Before a slot comes back, its page has room, and is full or partial. */
  lemma FreeReady(next: map<nat, nat>, heads: Heads, counts: Heads, lists: Lists, place: Places, keys: map<nat,
      PageList>, header: nat, stride: nat, x: nat)
    requires stride > 0 && header <= PAGE && Stocked(next, heads, counts, lists, place)
    requires Housed(keys, lists, place, header, stride)
    requires x in place && !OnPage(place[x]) && Paged(counts, keys, SlotCount(header, stride), 0)
    ensures var p := PageOf(x);
            && p in keys && p > 0 && p % PAGE == 0 && Page(p) in lists && Page(p) in counts
            && counts[Page(p)] < SlotCount(header, stride)
            && keys[p] == if counts[Page(p)] == 0 then Full else Partial
  {
    assert HouseOk(keys, place, header, stride, x);
    assert PageOk(counts, keys, SlotCount(header, stride), PageOf(x));
    RoomFor(next, heads, counts, lists, place, keys, header, stride, x);
  }

  /** Which list a page is on does not matter to its slots. */
  lemma HousedKeys(keys: map<nat, PageList>, keys': map<nat, PageList>, lists: Lists, place: Places, header: nat,
      stride: nat)
    requires stride > 0 && header <= PAGE && Housed(keys, lists, place, header, stride) && keys'.Keys == keys.Keys
    ensures Housed(keys', lists, place, header, stride)
  {
    forall x | x in place ensures HouseOk(keys', place, header, stride, x) {
      assert HouseOk(keys, place, header, stride, x);
    }
    forall q | q in keys' ensures Whole(place, header, stride, q) {
      assert q in keys;
    }
  }

  lemma SlotsLinked(next: map<nat, nat>, p: nat, header: nat, stride: nat, xs: seq<nat>)
    requires stride > 0 && header <= PAGE && xs == PageSlots(p, header, stride)
    requires forall i: nat {:trigger LinkedTo(next, p, header, stride, SlotCount(header, stride), i)} ::
               i < SlotCount(header, stride) ==> LinkedTo(next, p, header, stride, SlotCount(header, stride), i)
    ensures forall x :: x in xs ==> x in next
  {
    forall x | x in xs ensures x in next {
      var i: nat :| i < |xs| && xs[i] == x;
      assert LinkedTo(next, p, header, stride, SlotCount(header, stride), i);
    }
  }

  /** The lists are still there, and those off the pages have the same counts. */
  ghost predicate CachesKept(lists: Lists, counts: Heads, lists': Lists, counts': Heads) {
    && lists.Keys <= lists'.Keys
    && forall w {:trigger SameCount(counts, counts', w)} :: w in counts && !w.Page? ==> SameCount(counts, counts', w)
  }

  ghost predicate SameCount(counts: Heads, counts': Heads, w: Where) {
    w in counts && w in counts' && counts'[w] == counts[w]
  }

  lemma SameCaches(lists: Lists, counts: Heads)
    ensures CachesKept(lists, counts, lists, counts)
  {
    forall w | w in counts ensures SameCount(counts, counts, w) {}
  }

  lemma CachesTwice(l: Lists, c: Heads, l1: Lists, c1: Heads, l2: Lists, c2: Heads)
    requires CachesKept(l, c, l1, c1) && CachesKept(l1, c1, l2, c2)
    ensures CachesKept(l, c, l2, c2)
  {
    forall w | w in c && !w.Page? ensures SameCount(c, c2, w) {
      assert SameCount(c, c1, w) && SameCount(c1, c2, w);
    }
  }

  lemma PagedCache(counts: Heads, counts': Heads, keys: map<nat, PageList>, total: nat, w: Where)
    requires Paged(counts, keys, total, 0) && !w.Page? && w in counts' && counts' == counts[w := counts'[w]]
    ensures Paged(counts', keys, total, 0)
  {
    forall p | p in keys ensures PageOk(counts', keys, total, p) {
      assert PageOk(counts, keys, total, p);
    }
  }

  /** The pages a call can have added. */
  ghost function New(spare: nat): set<nat> {
    if spare == 0 then {} else {spare}
  }

  /** Some slots were added, all of them on a page. */
  ghost predicate Extends(place: Places, place': Places) {
    && place.Keys <= place'.Keys && |Off(place')| == |Off(place)|
    && (forall y {:trigger place'[y]} :: y in place ==> place'[y] == place[y])
    && (forall y {:trigger place'[y]} :: y in place' && y !in place ==> OnPage(place'[y]))
  }

  /** No page has a free slot. */
  ghost predicate NoFreeSlot(counts: Heads, keys: map<nat, PageList>) {
    forall p {:trigger p in keys} :: p in keys ==> Page(p) in counts && counts[Page(p)] == 0
  }

  lemma AllFull(counts: Heads, keys: map<nat, PageList>, total: nat, ks: Links, heads: map<PageList, nat>,
      stamp: map<nat, nat>, clock: nat)
    requires Threaded(keys, ks, heads, stamp, clock) && Paged(counts, keys, total, 0) && total > 0
    requires Partial in heads && Empty in heads && heads[Partial] == 0 && heads[Empty] == 0
    ensures NoFreeSlot(counts, keys)
  {
    forall p | p in keys ensures Page(p) in counts && counts[Page(p)] == 0 {
      assert Hooked(keys, ks, heads, stamp, clock, p);
      ListedHasHead(keys, ks, heads, stamp, clock, p);
      assert PageOk(counts, keys, total, p);
    }
  }

  /** A change at p leaves the other pages right. */
  lemma PagedElsewhere(counts: Heads, counts': Heads, keys: map<nat, PageList>, keys': map<nat, PageList>, total: nat,
      p: nat)
    requires (Paged(counts, keys, total, 0) || Paged(counts, keys, total, p)) && p != 0
    requires Page(p) in counts' && counts' == counts[Page(p) := counts'[Page(p)]] && p in keys'
    requires keys' == keys[p := keys'[p]]
    ensures Paged(counts', keys', total, p)
  {
    forall q | q in keys' && q != p ensures PageOk(counts', keys', total, q) {
      assert PageOk(counts, keys, total, q);
    }
  }

  lemma Settled(counts: Heads, counts': Heads, keys: map<nat, PageList>, keys': map<nat, PageList>, total: nat, p: nat)
    requires (Paged(counts, keys, total, 0) || Paged(counts, keys, total, p)) && p != 0
    requires Page(p) in counts' && counts' == counts[Page(p) := counts'[Page(p)]] && p in keys'
    requires keys' == keys[p := keys'[p]]
    requires PageOk(counts', keys', total, p)
    ensures Paged(counts', keys', total, 0)
  {
    PagedElsewhere(counts, counts', keys, keys', total, p);
    PagedWhole(counts', keys', total, p);
  }

  lemma PagedExcept(counts: Heads, keys: map<nat, PageList>, keys': map<nat, PageList>, total: nat, p: nat)
    requires Paged(counts, keys, total, 0) && p != 0 && p in keys' && keys' == keys[p := keys'[p]]
    ensures Paged(counts, keys', total, p)
  {
    forall q | q in keys' && q != p ensures PageOk(counts, keys', total, q) {
      assert PageOk(counts, keys, total, q);
    }
  }

  lemma PagedWhole(counts: Heads, keys: map<nat, PageList>, total: nat, p: nat)
    requires Paged(counts, keys, total, p) && (p in keys ==> PageOk(counts, keys, total, p))
    ensures Paged(counts, keys, total, 0)
  {
    forall q | q in keys && q != 0 ensures PageOk(counts, keys, total, q) {
      assert q == p || PageOk(counts, keys, total, q);
    }
  }

  /** Slots of a page nobody has seen are nowhere yet. */
  lemma FreshSlots(keys: map<nat, PageList>, lists: Lists, place: Places, header: nat, stride: nat, p: nat)
    requires stride > 0 && header + stride <= PAGE && Housed(keys, lists, place, header, stride) && p !in keys
    requires p % PAGE == 0
    ensures Page(p) !in lists && forall x :: x in PageSlots(p, header, stride) ==> x !in place && PageOf(x) == p
  {
    var xs := PageSlots(p, header, stride);
    forall x | x in xs ensures x !in place && PageOf(x) == p {
      var i :| 0 <= i < |xs| && xs[i] == x;
      SlotInside(p, header, stride, i);
      assert x in place ==> HouseOk(keys, place, header, stride, x);
    }
  }

  lemma HousedPage(keys: map<nat, PageList>, lists: Lists, place: Places, header: nat, stride: nat, p: nat)
    requires stride > 0 && header + stride <= PAGE && Housed(keys, lists, place, header, stride) && p !in keys
    requires p % PAGE == 0
    ensures var xs := PageSlots(p, header, stride);
            Housed(keys[p := Partial], lists[Page(p) := xs], WithPage(place, p, xs), header, stride)
  {
    var xs := PageSlots(p, header, stride);
    var keys', place' := keys[p := Partial], WithPage(place, p, xs);
    FreshSlots(keys, lists, place, header, stride, p);
    forall x | x in place' ensures HouseOk(keys', place', header, stride, x) {
      if x in place { assert HouseOk(keys, place, header, stride, x); }
    }
    forall q | q in keys' ensures Whole(place', header, stride, q) {
      assert q in keys ==> Whole(place, header, stride, q);
    }
  }

  /** A slot of the page is away or on its free list. */
  lemma AwayOrFree(next: map<nat, nat>, heads: Heads, counts: Heads, lists: Lists, place: Places, keys: map<nat,
      PageList>, header: nat, stride: nat, p: nat, x: nat)
    requires stride > 0 && header <= PAGE && Stocked(next, heads, counts, lists, place)
    requires Housed(keys, lists, place, header, stride)
    requires p in keys && p % PAGE == 0 && Page(p) in lists
    ensures x in PageSlots(p, header, stride) <==> x in Away(place, header, stride, p) || x in lists[Page(p)]
    ensures !(x in Away(place, header, stride, p) && x in lists[Page(p)])
  {
    assert StackOk(next, heads, counts, lists, place, Page(p)) && Whole(place, header, stride, p);
    assert Holds(lists, place, Page(p), x);
    if x in place { assert HouseOk(keys, place, header, stride, x); }
    if x in PageSlots(p, header, stride) { SlotHome(p, header, stride, x); }
  }

  /** The slots of page p that are not on it. */
  ghost function Away(place: Places, header: nat, stride: nat, p: nat): set<nat>
    requires stride > 0 && header <= PAGE
  {
    set x | x in PageSlots(p, header, stride) && x in place && !OnPage(place[x])
  }

  lemma Balance(next: map<nat, nat>, heads: Heads, counts: Heads, lists: Lists, place: Places, keys: map<nat,
      PageList>, header: nat, stride: nat, p: nat)
    requires stride > 0 && header <= PAGE && Stocked(next, heads, counts, lists, place)
    requires Housed(keys, lists, place, header, stride)
    requires p in keys && p % PAGE == 0
    ensures Page(p) in counts && |Away(place, header, stride, p)| + counts[Page(p)] == SlotCount(header, stride)
  {
    var w, xs, away := Page(p), PageSlots(p, header, stride), Away(place, header, stride, p);
    assert StackOk(next, heads, counts, lists, place, w);
    ElementsCount(lists[w]);
    PageSlotsDistinct(p, header, stride);
    ElementsCount(xs);
    var free := Elements(lists[w]);
    forall x ensures (x in Elements(xs) <==> x in away || x in free) && !(x in away && x in free) {
      AwayOrFree(next, heads, counts, lists, place, keys, header, stride, p, x);
    }
    TwoParts(Elements(xs), away, free);
  }

  lemma TwoParts(all: set<nat>, a: set<nat>, b: set<nat>)
    requires forall x {:trigger x in all} :: (x in all <==> x in a || x in b) && !(x in a && x in b)
    ensures |all| == |a| + |b|
  {
    forall x | x in a ensures x !in b {
      assert x in all ==> !(x in a && x in b);
    }
    assert all == a + b;
  }

  lemma PageSlotsDistinct(p: nat, header: nat, stride: nat)
    requires stride > 0 && header <= PAGE
    ensures Distinct(PageSlots(p, header, stride))
  {
    var xs := PageSlots(p, header, stride);
    forall i, j | 0 <= i < j < |xs| ensures xs[i] != xs[j] {
      SlotOrder(p, header, stride, i, j);
    }
  }

  lemma SlotHome(p: nat, header: nat, stride: nat, x: nat)
    requires stride > 0 && header <= PAGE && p % PAGE == 0 && x in PageSlots(p, header, stride)
    ensures PageOf(x) == p
  {
    var xs := PageSlots(p, header, stride);
    var i :| 0 <= i < |xs| && xs[i] == x;
    SlotInside(p, header, stride, i);
  }

  /** Less than a slot of the page is left over. */
  lemma PageFilled(header: nat, stride: nat)
    requires stride > 0 && header <= PAGE
    ensures header + SlotCount(header, stride) * stride <= PAGE < header + SlotCount(header, stride) * stride + stride
  {
    assert (PAGE - header) / stride * stride + (PAGE - header) % stride == PAGE - header;
  }

  lemma SlotsOnPage(place: Places, p: nat, header: nat, stride: nat)
    requires stride > 0 && header <= PAGE
    requires forall x :: x in PageSlots(p, header, stride) ==> x !in place
    ensures var place' := WithPage(place, p, PageSlots(p, header, stride));
            forall i: nat {:trigger SlotAt(p, header, stride, i)} :: i < SlotCount(header, stride) ==>
              && SlotAt(p, header, stride, i) == p + header + i * stride
              && SlotAt(p, header, stride, i) in place' && place'[SlotAt(p, header, stride, i)] == On(Page(p))
  {
    var xs := PageSlots(p, header, stride);
    forall i: nat | i < SlotCount(header, stride) ensures SlotAt(p, header, stride, i) in xs {
      assert xs[i] == SlotAt(p, header, stride, i);
    }
  }

  // ---------------------------------------------------------------------- arithmetic

  lemma EnoughRoom(header: nat, stride: nat)
    requires stride > 0 && header + stride <= PAGE
    ensures SlotCount(header, stride) > 0
  {
    assert (PAGE - header) / stride * stride + (PAGE - header) % stride == PAGE - header;
  }

  lemma OneMore(n: nat, size: nat)
    ensures (n + 1) * size == n * size + size
  {
  }

  lemma Distribute(n: nat, k: nat, size: nat)
    ensures (n + k) * size == n * size + k * size
  {
  }

  // ------------------------------------------------------------------ drawing slots

  /** Page-sized fresh regions, each usable once. */
  ghost predicate Usable(spares: seq<nat>, keys: map<nat, PageList>) {
    && Unused(spares, keys, 0)
    && forall i, j {:trigger spares[i], spares[j]} :: 0 <= i < j < |spares| ==> spares[i] != spares[j]
  }

  ghost predicate Unused(spares: seq<nat>, keys: map<nat, PageList>, k: nat) {
    forall i {:trigger spares[i]} :: k <= i < |spares| ==> spares[i] > 0 && spares[i] % PAGE == 0 && spares[i] !in keys
  }

  function SpareAt(spares: seq<nat>, k: nat): nat {
    if k < |spares| then spares[k] else 0
  }

  ghost function Used(spares: seq<nat>, k: nat): set<nat> {
    if k < |spares| then Elements(spares[..k]) else Elements(spares)
  }

  /** At most the first k spare pages have been added. */
  ghost predicate Within(spares: seq<nat>, before: set<nat>, now: set<nat>, k: nat) {
    now <= before + Used(spares, k) && Used(spares, k) <= Elements(spares)
  }

  lemma SpareReady(spares: seq<nat>, keys: map<nat, PageList>, now: set<nat>, k: nat)
    requires Usable(spares, keys) && Within(spares, keys.Keys, now, k)
    ensures var spare := SpareAt(spares, k);
            && (spare > 0 ==> spare % PAGE == 0 && spare !in now) && (spare == 0 <==> |spares| <= k)
            && (forall later {:trigger Within(spares, keys.Keys, later, k + 1)} ::
                  later <= now + New(spare) ==> Within(spares, keys.Keys, later, k + 1))
            && (forall later {:trigger Within(spares, keys.Keys, later, k)} ::
                  later <= now ==> Within(spares, keys.Keys, later, k))
  {
    if k < |spares| {
      assert spares[..k + 1] == spares[..k] + [spares[k]];
      assert k + 1 == |spares| ==> spares[..k + 1] == spares;
      assert spares[k] !in spares[..k];
    }
  }

  lemma DrawOne(place: Places, base: Places, x: nat, to: Place)
    requires Extends(place, base) && x in base && OnPage(base[x]) && !OnPage(to)
    ensures Drawn(place, base[x := to], to) && |Off(base[x := to])| == |Off(place)| + 1
    ensures x !in Off(place) && Off(base[x := to]) == Off(place) + {x}
  {
    OffMove(base, x, to);
    var after := base[x := to];
    forall y ensures y in Off(after) <==> y in Off(place) || y == x {
      assert y in after && y != x ==> after[y] == base[y];
      if y in base && y !in place { assert OnPage(base[y]); }
      if y in place { assert base[y] == place[y]; }
    }
  }

  lemma DrawFinish(start: Places, place: Places, base: Places, x: nat, to: Place)
    requires Drawn(start, place, to) && Extends(place, base) && x in base && OnPage(base[x]) && !OnPage(to)
    ensures Drawn(start, base[x := User][x := to], to) && |Off(base[x := User][x := to])| == |Off(place)| + 1
  {
    assert base[x := User][x := to] == base[x := to];
    DrawOne(place, base, x, to);
    DrawTwice(start, place, base[x := to], to);
  }

  lemma DrawTwice(a: Places, b: Places, c: Places, to: Place)
    requires Drawn(a, b, to) && Drawn(b, c, to)
    ensures Drawn(a, c, to)
  {
    forall y | y in a ensures c[y] == a[y] || (OnPage(a[y]) && c[y] == to) {
      assert b[y] == a[y] || (OnPage(a[y]) && b[y] == to);
      assert c[y] == b[y] || (OnPage(b[y]) && c[y] == to);
    }
    forall y | y in c && y !in a ensures OnPage(c[y]) || c[y] == to {
      if y in b {
        assert OnPage(b[y]) || b[y] == to;
        assert c[y] == b[y] || (OnPage(b[y]) && c[y] == to);
      }
    }
  }

  /** The slots of `out`, all different, are exactly the ones that left the pages, and are in user hands. */
  ghost predicate Gathered(start: Places, place: Places, out: seq<nat>) {
    && Off(place) == Off(start) + Elements(out) && |Off(place)| == |Off(start)| + |out| && InHand(place, out)
    && forall x {:trigger x in out} :: x in out ==> x !in Off(start)
  }

  /** Different slots, all in user hands. */
  ghost predicate InHand(place: Places, out: seq<nat>) {
    Distinct(out) && forall x {:trigger x in out} :: x in out ==> x in place && place[x] == User
  }

  lemma GatherMore(start: Places, place: Places, place': Places, out: seq<nat>, x: nat)
    requires Gathered(start, place, out) && Drawn(place, place', User)
    requires x !in Off(place) && Off(place') == Off(place) + {x} && |Off(place')| == |Off(place)| + 1 && x in place'
    requires place'[x] == User
    ensures Gathered(start, place', out + [x])
  {
    NotYet(Off(place), Off(start), out, x);
    UnionMore(Off(place'), Off(place), Off(start), out, x);
    HandMore(place, place', out, x);
    StrangersMore(Off(start), out, x);
  }

  lemma NotYet(now: set<nat>, before: set<nat>, out: seq<nat>, x: nat)
    requires now == before + Elements(out) && x !in now
    ensures x !in out && x !in before
  {
    assert x in out ==> x in Elements(out);
  }

  lemma UnionMore(later: set<nat>, now: set<nat>, before: set<nat>, out: seq<nat>, x: nat)
    requires now == before + Elements(out) && later == now + {x}
    ensures later == before + Elements(out + [x])
  {
    ElementsMore(out, x);
  }

  lemma StrangersMore(before: set<nat>, out: seq<nat>, x: nat)
    requires x !in before && forall y {:trigger y in out} :: y in out ==> y !in before
    ensures forall y {:trigger y in out + [x]} :: y in out + [x] ==> y !in before
  {
    ElementsMore(out, x);
  }

  lemma ElementsMore(out: seq<nat>, x: nat)
    ensures Elements(out + [x]) == Elements(out) + {x}
    ensures forall y {:trigger y in out + [x]} :: y in out + [x] <==> y in out || y == x
  {
  }

  lemma HandMore(place: Places, place': Places, out: seq<nat>, x: nat)
    requires InHand(place, out) && Drawn(place, place', User) && x !in out && x in place' && place'[x] == User
    ensures InHand(place', out + [x])
  {
    ElementsMore(out, x);
    forall y | y in out ensures y in place' && place'[y] == User {
      assert place'[y] == place[y] || (OnPage(place[y]) && place'[y] == User);
    }
  }

  /** The slots ys went from user hands to w. */
  ghost predicate Placed(place: Places, place': Places, ys: seq<nat>, w: Where) {
    && place'.Keys == place.Keys
    && forall y {:trigger place'[y]} ::
          y in place ==> place'[y] == if y in ys then On(w) else place[y]
  }

  lemma PlacedNone(place: Places, place': Places, w: Where)
    requires Placed(place, place', [], w)
    ensures place' == place
  {
  }

  lemma StillInHand(place: Places, place': Places, out: seq<nat>, i: nat, w: Where)
    requires i < |out| && InHand(place, out) && Placed(place, place', out[i + 1..], w)
    ensures out[i] in place' && place'[out[i]] == User
    ensures Placed(place, place'[out[i] := On(w)], out[i..], w)
  {
    assert out[i] in out && out[i] !in out[i + 1..];
    assert out[i..] == [out[i]] + out[i + 1..];
    var after := place'[out[i] := On(w)];
    forall y | y in place ensures after[y] == if y in out[i..] then On(w) else place[y] {
      assert place'[y] == if y in out[i + 1..] then On(w) else place[y];
    }
  }

  lemma DrawnTo(start: Places, place: Places, place': Places, out: seq<nat>, w: Where)
    requires Drawn(start, place, User) && Placed(place, place', out, w) && Off(place) == Off(start) + Elements(out)
    requires forall x {:trigger x in out} :: x in out ==> x !in Off(start)
    ensures Drawn(start, place', On(w))
  {
    forall y | y in start ensures place'[y] == start[y] || (OnPage(start[y]) && place'[y] == On(w)) {
      assert place[y] == start[y] || (OnPage(start[y]) && place[y] == User);
      assert y in Off(place) ==> y in Off(start) || y in out;
    }
    forall y | y in place' && y !in start ensures OnPage(place'[y]) || place'[y] == On(w) {
      assert OnPage(place[y]) || place[y] == User;
      assert y in Off(place) ==> y in Off(start) || y in out;
    }
  }

  // ------------------------------------------------------------- returning and handing out

  /** Slots that were on w may have gone to their pages; nothing else moved. */
  ghost predicate Returning(place: Places, place': Places, w: Where) {
    && place'.Keys == place.Keys
    && forall y {:trigger place'[y]} ::
          y in place ==> place'[y] == place[y] || (place[y] == On(w) && place'[y] == On(Page(PageOf(y))))
  }

  /** All slots that were on w are on their pages; nothing else moved. */
  ghost predicate Returned(place: Places, place': Places, w: Where) {
    && place'.Keys == place.Keys
    && forall y {:trigger place'[y]} ::
          y in place ==> place'[y] == if place[y] == On(w) then On(Page(PageOf(y))) else place[y]
  }

  ghost predicate NoneOnPage(place: Places) {
    forall y {:trigger place[y]} :: y in place ==> !OnPage(place[y])
  }

  /** The slots after the remote queue went home, if it did. */
  ghost function Harvested(place: Places, pending: bool): Places {
    map y | y in place :: if pending && place[y] == On(Remote) then On(Page(PageOf(y))) else place[y]
  }

  lemma NoFreeMeans(next: map<nat, nat>, heads: Heads, counts: Heads, lists: Lists, place: Places, keys: map<nat,
      PageList>, header: nat, stride: nat)
    requires stride > 0 && header <= PAGE && Stocked(next, heads, counts, lists, place)
    requires Housed(keys, lists, place, header, stride)
    ensures NoFreeSlot(counts, keys) <==> NoneOnPage(place)
  {
    if NoFreeSlot(counts, keys) {
      forall y | y in place ensures !OnPage(place[y]) {
        assert HouseOk(keys, place, header, stride, y);
        var w := Page(PageOf(y));
        assert StackOk(next, heads, counts, lists, place, w) && Holds(lists, place, w, y);
      }
    } else {
      var p :| p in keys && !(Page(p) in counts && counts[Page(p)] == 0);
      assert StackOk(next, heads, counts, lists, place, Page(p));
      var y := lists[Page(p)][0];
      assert Holds(lists, place, Page(p), y) && OnPage(place[y]);
    }
  }

  /** The list w has no slots. */
  ghost predicate NoneAt(place: Places, w: Where) {
    forall y {:trigger place[y]} :: y in place ==> place[y] != On(w)
  }

  /** A harvest fills and empties no thread cache and no per-CPU list. */
  lemma HarvestedLists(place: Places, pending: bool, w: Where)
    requires w != Remote && !w.Page?
    ensures NoneAt(Harvested(place, pending), w) <==> NoneAt(place, w)
  {
    var after := Harvested(place, pending);
    forall y | y in place ensures after[y] == On(w) <==> place[y] == On(w) {}
  }

  /** And users keep what they have. */
  lemma HarvestedHands(place: Places, pending: bool)
    ensures HandedOut(place, Harvested(place, pending), 0)
  {
  }

  lemma NothingLeft(next: map<nat, nat>, heads: Heads, counts: Heads, lists: Lists, place: Places, w: Where)
    requires Stocked(next, heads, counts, lists, place) && w in lists && w in counts && counts[w] == 0
    ensures forall y {:trigger place[y]} :: y in place ==> place[y] != On(w)
  {
    assert StackOk(next, heads, counts, lists, place, w);
    forall y | y in place ensures place[y] != On(w) {
      assert Holds(lists, place, w, y);
    }
  }

  /** x, if any, is new in user hands; everything users had they still have, and nothing more. */
  ghost predicate HandedOut(place: Places, place': Places, x: nat) {
    && place.Keys <= place'.Keys
    && (x != 0 ==> x in place' && (x in place ==> place[x] != User))
    && forall y {:trigger place'[y]} ::
          y in place' ==> (place'[y] == User <==> (y in place && place[y] == User) || (y == x && x != 0))
  }

  lemma DrawnHands(place: Places, mid: Places, after: Places, x: nat, w: Where)
    requires Drawn(place, mid, On(w))
    requires if x == 0 then after == mid else x in mid && mid[x] == On(w) && after == mid[x := User]
    ensures HandedOut(place, after, x)
  {
    forall y | y in after ensures after[y] == User <==> (y in place && place[y] == User) || (y == x && x != 0) {
      assert y in place ==> mid[y] == place[y] || (OnPage(place[y]) && mid[y] == On(w));
      assert y !in place ==> OnPage(mid[y]) || mid[y] == On(w);
    }
  }

  lemma HandedTwice(a: Places, b: Places, c: Places, x: nat)
    requires HandedOut(a, b, 0) && HandedOut(b, c, x)
    ensures HandedOut(a, c, x)
  {
    forall y | y in c ensures c[y] == User <==> (y in a && a[y] == User) || (y == x && x != 0) {
      if y in b { assert b[y] == User <==> y in a && a[y] == User; }
    }
    if x != 0 && x in b { assert b[x] == User <==> x in a && a[x] == User; }
  }

  lemma StillUsable(more: seq<nat>, spares: seq<nat>, keys: map<nat, PageList>, keys': map<nat, PageList>)
    requires Usable(more, keys) && Elements(spares) !! Elements(more) && keys'.Keys <= keys.Keys + Elements(spares)
    ensures Usable(more, keys')
  {
    forall i | 0 <= i < |more| ensures more[i] !in keys' {
      assert more[i] in Elements(more) && more[i] !in keys;
    }
  }
}
