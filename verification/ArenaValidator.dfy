/**
 * tlsf_arena_validate: the two walks the debug build asserts after every arena
 * operation, as predicates, as loops, and related to the invariant of the heap model.
 */
module ArenaValidator {
  import opened Tiling
  import opened SortedList
  import opened ArenaMerge

  /** The physical walk from block a, whose predecessor was prev (0 at the start). */
  predicate PhysWalk(t: Tiles, end: nat, prev: nat, a: nat)
    decreases if a < end then end - a else 0
  {
    if a < end then
      && a in t && 32 <= t[a].span && t[a].span % 8 == 0 && a + t[a].span <= end
      && t[a].prevPhys == prev
      && t[a].prevFree == (prev != 0 && prev in t && t[prev].free)
      && PhysWalk(t, end, a, a + t[a].span)
    else
      a == end && a in t && t[a].span == 0 && !t[a].free && !t[a].prevFree && t[a].prevPhys == prev
  }

  /** The checks on one free-list entry. */
  predicate EntryOk(t: Tiles, ks: Links, raw: nat, end: nat, prev: nat, f: nat) {
    && f in t && f in ks && t[f].free && ks[f].prev == prev
    && (prev != 0 ==> prev in t && prev < f && Next(t, prev) != f)
    && raw <= f && Next(t, f) <= end
  }

  /** The free-list walk from entry f, reached from prev. */
  predicate ListWalk(t: Tiles, ks: Links, raw: nat, end: nat, prev: nat, f: nat)
    decreases if prev < f <= end then end - f + 1 else 0
  {
    f == 0 || (EntryOk(t, ks, raw, end, prev, f) && ListWalk(t, ks, raw, end, f, ks[f].next))
  }

  predicate Validates(t: Tiles, ks: Links, raw: nat, end: nat, head: nat) {
    PhysWalk(t, end, 0, raw) && ListWalk(t, ks, raw, end, 0, head)
  }

  // ---------------------------------------------------------------- the loops

  method Validate(t: Tiles, ks: Links, raw: nat, end: nat, head: nat) returns (ok: bool)
    ensures ok <==> Validates(t, ks, raw, end, head)
  {
    var prev: nat, a: nat := 0, raw;
    while a < end
      invariant PhysWalk(t, end, prev, a) == PhysWalk(t, end, 0, raw)
      decreases end - a
    {
      if a !in t { return false; }
      var span := t[a].span;
      if span < MIN_BLOCK || span % 8 != 0 { return false; }
      if a + span > end { return false; }
      if t[a].prevPhys != prev { return false; }
      var prevFree := prev != 0 && prev in t && t[prev].free;
      if prevFree != t[a].prevFree { return false; }
      prev, a := a, a + span;
    }
    if a != end || a !in t || t[a].span != 0 || t[a].free || t[a].prevFree { return false; }
    if t[a].prevPhys != prev { return false; }
    var last: nat, f: nat := 0, head;
    while f != 0
      invariant ListWalk(t, ks, raw, end, last, f) == ListWalk(t, ks, raw, end, 0, head)
      decreases if last < f <= end then end - f + 1 else 0
    {
      if !EntryOk(t, ks, raw, end, last, f) { return false; }
      last, f := f, ks[f].next;
    }
    return true;
  }

  // ------------------------------------------------- what the invariant guarantees

  lemma {:induction false} TiledWalks(t: Tiles, raw: nat, end: nat, a: nat)
    requires Tiled(t, raw, end) && !t[end].prevFree && a in t
    ensures PhysWalk(t, end, if a == raw then 0 else t[a].prevPhys, a)
    decreases end - a
  {
    Facts(t, raw, end, a);
    if a < end {
      PrevFreeExact(t, raw, end, a);
      if a != raw { Facts(t, raw, end, t[a].prevPhys); }
      TiledWalks(t, raw, end, Next(t, a));
      Facts(t, raw, end, Next(t, a));
    }
  }

  /** The checks on one free-list entry that do not look at its list neighbours' words. */
  ghost predicate Proper(t: Tiles, ks: Links, raw: nat, end: nat, f: nat) {
    f in t && f in ks && t[f].free && raw <= f && Next(t, f) <= end && Next(t, f) != ks[f].next
  }

  lemma {:induction false} SortedWalks(t: Tiles, ks: Links, raw: nat, end: nat, head: nat, F: set<nat>, f: nat)
    requires Sorted(F, ks, end, head) && f in F
    requires forall g {:trigger Proper(t, ks, raw, end, g)} :: g in F ==> Proper(t, ks, raw, end, g)
    ensures f in ks && ListWalk(t, ks, raw, end, ks[f].prev, f)
    decreases end - f
  {
    Neighbours(F, ks, end, head, f);
    assert Proper(t, ks, raw, end, f);
    var p, n := ks[f].prev, ks[f].next;
    if p != 0 { assert Proper(t, ks, raw, end, p); }
    if n != 0 { SortedWalks(t, ks, raw, end, head, F, n); }
  }

  /** A sorted list of proper entries passes the second walk. */
  lemma ListPasses(t: Tiles, ks: Links, raw: nat, end: nat, head: nat, F: set<nat>)
    requires Sorted(F, ks, end, head)
    requires forall g {:trigger Proper(t, ks, raw, end, g)} :: g in F ==> Proper(t, ks, raw, end, g)
    ensures ListWalk(t, ks, raw, end, 0, head)
  {
    if head != 0 {
      SortedWalks(t, ks, raw, end, head, F, head);
      Neighbours(F, ks, end, head, head);
      PrevUnique(F, head, ks[head].prev, 0);
    }
  }

  lemma FreeIsProper(t: Tiles, ks: Links, raw: nat, end: nat, head: nat, F: set<nat>, f: nat)
    requires Tiled(t, raw, end) && Coalesced(t) && Sorted(F, ks, end, head) && F <= FreeSet(t) && f in F
    ensures Proper(t, ks, raw, end, f)
  {
    Neighbours(F, ks, end, head, f);
    Facts(t, raw, end, f);
    assert Lonely(t, f);
  }

  /** A state in order passes every check the validator makes. */
  lemma InvariantValidates(t: Tiles, ks: Links, raw: nat, end: nat, head: nat)
    requires Tiled(t, raw, end) && Coalesced(t) && !t[end].prevFree && Sorted(FreeSet(t), ks, end, head)
    ensures Validates(t, ks, raw, end, head)
  {
    ListedValidate(t, ks, raw, end, head, FreeSet(t));
  }

  /** The validator does not count: any of the free blocks may be off the list. */
  lemma ListedValidate(t: Tiles, ks: Links, raw: nat, end: nat, head: nat, F: set<nat>)
    requires Tiled(t, raw, end) && Coalesced(t) && !t[end].prevFree && Sorted(F, ks, end, head) && F <= FreeSet(t)
    ensures Validates(t, ks, raw, end, head)
  {
    TiledWalks(t, raw, end, raw);
    forall f | f in F ensures Proper(t, ks, raw, end, f) {
      FreeIsProper(t, ks, raw, end, head, F, f);
    }
    ListPasses(t, ks, raw, end, head, F);
  }

  /** A free block that drops off the list is lost for good and never noticed. */
  lemma OffListUnnoticed(t: Tiles, ks: Links, raw: nat, end: nat, head: nat, f: nat)
    requires Tiled(t, raw, end) && Coalesced(t) && !t[end].prevFree && Sorted(FreeSet(t), ks, end, head)
    requires f in FreeSet(t)
    ensures f in ks && Validates(t, Unlinked(ks, f), raw, end, UnlinkedHead(ks, head, f))
  {
    UnlinkSorted(FreeSet(t), ks, end, head, f);
    ListedValidate(t, Unlinked(ks, f), raw, end, UnlinkedHead(ks, head, f), FreeSet(t) - {f});
  }

  // ------------------------------------------------- what passing the checks means

  /** The addresses the physical walk from a visits. */
  ghost function Visited(t: Tiles, end: nat, a: nat): set<nat>
    decreases if a < end then end - a else 0
  {
    if a < end && a in t && t[a].span > 0 then {a} + Visited(t, end, Next(t, a)) else {a}
  }

  /** The entries the list walk from f visits. */
  ghost function Listed(ks: Links, end: nat, prev: nat, f: nat): set<nat>
    decreases if prev < f <= end then end - f + 1 else 0
  {
    if prev < f <= end && f in ks then {f} + Listed(ks, end, f, ks[f].next) else {}
  }

  ghost function Only(t: Tiles, at: set<nat>): Tiles {
    map a | a in t && a in at :: t[a]
  }

  /** Block x of the walk leads to the next block of the walk. */
  ghost predicate Leads(t: Tiles, end: nat, at: set<nat>, x: nat) {
    && x in t && MIN_BLOCK <= t[x].span && t[x].span % 8 == 0 && Next(t, x) <= end && Next(t, x) in at
    && Next(t, x) in t
    && t[Next(t, x)].prevPhys == x && t[Next(t, x)].prevFree == (t[x].free && Next(t, x) != end)
  }

  ghost predicate ComesFrom(t: Tiles, at: set<nat>, x: nat) {
    x in t && t[x].prevPhys in at && t[x].prevPhys in t && t[x].prevPhys < x && Next(t, t[x].prevPhys) == x
  }

  ghost predicate Walked(t: Tiles, end: nat, a: nat, at: set<nat>) {
    && a in at && end in at && end in t && t[end].span == 0 && !t[end].free && !t[end].prevFree
    && (forall x {:trigger x in at} :: x in at ==> a <= x <= end)
    && (forall x {:trigger Leads(t, end, at, x)} :: x in at && x != end ==> Leads(t, end, at, x))
    && (forall x {:trigger ComesFrom(t, at, x)} :: x in at && x != a ==> ComesFrom(t, at, x))
    && (forall x, y {:trigger Clear(t, x, y)} :: x in at && y in at && x in t && x < y ==> Clear(t, x, y))
  }

  lemma {:induction false} WalkVisits(t: Tiles, end: nat, prev: nat, a: nat)
    requires PhysWalk(t, end, prev, a) && prev < a
    ensures a in t && Walked(t, end, a, Visited(t, end, a)) && t[a].prevPhys == prev
    ensures a < end ==> t[a].prevFree == (prev != 0 && prev in t && t[prev].free)
    decreases if a < end then end - a else 0
  {
    if a < end {
      var b := Next(t, a);
      WalkVisits(t, end, a, b);
      var at, rest := Visited(t, end, a), Visited(t, end, b);
      forall x | x in at && x != end ensures Leads(t, end, at, x) {
        if x != a { assert Leads(t, end, rest, x); }
      }
      forall x | x in at && x != a ensures ComesFrom(t, at, x) {
        if x != b { assert ComesFrom(t, rest, x); }
      }
      forall x, y | x in at && y in at && x in t && x < y ensures Clear(t, x, y) {
        if x != a { assert Clear(t, x, y); }
      }
    }
  }

  lemma WalkTiles(t: Tiles, raw: nat, end: nat)
    requires 0 < raw < end && PhysWalk(t, end, 0, raw)
    ensures var w := Only(t, Visited(t, end, raw)); Tiled(w, raw, end) && !w[end].prevFree
  {
    WalkVisits(t, end, 0, raw);
    var at := Visited(t, end, raw);
    var w := Only(t, at);
    forall a | a in w && a != end ensures Fits(w, raw, end, a, true) {
      assert Leads(t, end, at, a);
    }
    forall b | b in w && b != raw ensures Follows(w, b) {
      assert ComesFrom(t, at, b);
    }
    forall a, b | a in w && b in w && a < b ensures Clear(w, a, b) {
      assert Clear(t, a, b);
    }
  }

  /** The walk sees only the headers it visits. */
  lemma {:induction false} WalkSees(t: Tiles, at: set<nat>, end: nat, prev: nat, a: nat)
    requires PhysWalk(Only(t, at), end, prev, a) && (prev == 0 || prev in Only(t, at))
    ensures PhysWalk(t, end, prev, a)
    decreases if a < end then end - a else 0
  {
    if a < end { WalkSees(t, at, end, a, Next(t, a)); }
  }

  /** One entry of the list from f, which was reached from prev. */
  ghost predicate Placed(ks: Links, end: nat, prev: nat, f: nat, F: set<nat>, g: nat) {
    && g in ks && IsNext(F, end, g, ks[g].next)
    && if g == f then ks[g].prev == prev else ks[g].prev != 0 && IsPrev(F, g, ks[g].prev)
  }

  lemma {:induction false} ListVisits(t: Tiles, ks: Links, raw: nat, end: nat, prev: nat, f: nat)
    requires ListWalk(t, ks, raw, end, prev, f)
    ensures var F := Listed(ks, end, prev, f);
            && (forall g {:trigger g in F} :: g in F ==> f <= g && prev < g <= end) && IsNext(F, end, prev, f)
            && (forall g {:trigger Proper(t, ks, raw, end, g)} :: g in F ==> Proper(t, ks, raw, end, g))
            && (forall g {:trigger Placed(ks, end, prev, f, F, g)} :: g in F ==> Placed(ks, end, prev, f, F, g))
    decreases if prev < f <= end then end - f + 1 else 0
  {
    if f != 0 {
      var n := ks[f].next;
      ListVisits(t, ks, raw, end, f, n);
      var F, rest := Listed(ks, end, prev, f), Listed(ks, end, f, n);
      forall g | g in F ensures Proper(t, ks, raw, end, g) && Placed(ks, end, prev, f, F, g) {
        if g != f { assert Proper(t, ks, raw, end, g) && Placed(ks, end, f, n, rest, g); }
      }
    }
  }

  lemma ListSorts(t: Tiles, ks: Links, raw: nat, end: nat, head: nat)
    requires 0 < raw && ListWalk(t, ks, raw, end, 0, head) && (end in t ==> !t[end].free)
    ensures Sorted(Listed(ks, end, 0, head), ks, end, head)
  {
    ListVisits(t, ks, raw, end, 0, head);
    var F := Listed(ks, end, 0, head);
    forall g | g in F ensures g < end && LinkedAt(F, ks, end, g) {
      assert Proper(t, ks, raw, end, g) && Placed(ks, end, 0, head, F, g);
    }
  }

  /**
   * What the validator decides, for any headers and links: the blocks it walks over tile the
   * region with exact flags, and the entries it finds on the list are sorted, free, inside the
   * region and not followed by their own list successor.
   */
  lemma ValidatesMeans(t: Tiles, ks: Links, raw: nat, end: nat, head: nat)
    requires 0 < raw < end
    ensures Validates(t, ks, raw, end, head) <==>
      var w, F := Only(t, Visited(t, end, raw)), Listed(ks, end, 0, head);
      && Tiled(w, raw, end) && !w[end].prevFree && Sorted(F, ks, end, head)
      && forall f {:trigger Proper(t, ks, raw, end, f)} :: f in F ==> Proper(t, ks, raw, end, f)
  {
    var at, F := Visited(t, end, raw), Listed(ks, end, 0, head);
    if Validates(t, ks, raw, end, head) {
      WalkTiles(t, raw, end);
      ListVisits(t, ks, raw, end, 0, head);
      ListSorts(t, ks, raw, end, head);
    }
    if Tiled(Only(t, at), raw, end) && !Only(t, at)[end].prevFree {
      TiledWalks(Only(t, at), raw, end, raw);
      WalkSees(t, at, end, 0, raw);
    }
    if
      && Sorted(F, ks, end, head)
      && forall f {:trigger Proper(t, ks, raw, end, f)} :: f in F ==> Proper(t, ks, raw, end, f)
    {
      ListPasses(t, ks, raw, end, head, F);
    }
  }

  // ------------------------------------------------------ a lost PREV_FREE bit shows

  function DropFlag(t: Tiles, b: nat): Tiles
    requires b in t
  {
    t[b := t[b].(prevFree := false)]
  }

  /** The block before b is free and b does not know. */
  ghost predicate Missing(t: Tiles, raw: nat, end: nat, b: nat)
    requires b in t
  {
    b != raw && b != end && t[b].prevPhys in t && t[t[b].prevPhys].free && !t[b].prevFree
  }

  /** PREV_FREE is exact unless some block's flag is missing. */
  lemma ExactUnlessMissing(t: Tiles, raw: nat, end: nat, exact: bool)
    requires Tiled(t, raw, end, exact)
    ensures Tiled(t, raw, end, true) <==> forall b :: b in t ==> !Missing(t, raw, end, b)
  {
    if forall b :: b in t ==> !Missing(t, raw, end, b) {
      forall a | a in t && a != end ensures Fits(t, raw, end, a, true) {
        Facts(t, raw, end, a, exact);
        Facts(t, raw, end, Next(t, a), exact);
        assert !Missing(t, raw, end, Next(t, a));
      }
    }
    if Tiled(t, raw, end, true) {
      forall b | b in t ensures !Missing(t, raw, end, b) {
        Facts(t, raw, end, b);
        if b != raw { Facts(t, raw, end, t[b].prevPhys); }
      }
    }
  }

  /** If a flag is missing, the walk fails from every block below it. */
  lemma {:induction false} WalkFailsBelow(t: Tiles, raw: nat, end: nat, b: nat, a: nat, exact: bool)
    requires Tiled(t, raw, end, exact) && b in t && a in t && a <= b && Missing(t, raw, end, b)
    ensures !PhysWalk(t, end, if a == raw then 0 else t[a].prevPhys, a)
    decreases b - a
  {
    Facts(t, raw, end, a, exact);
    Facts(t, raw, end, b, exact);
    if a < b {
      Outside(t, raw, end, a, b, exact);
      Facts(t, raw, end, Next(t, a), exact);
      WalkFailsBelow(t, raw, end, b, Next(t, a), exact);
    } else {
      Facts(t, raw, end, t[b].prevPhys, exact);
    }
  }

  /** Of a heap that is otherwise in order, the validator accepts exactly those without a missing flag. */
  lemma ValidatesIffExact(t: Tiles, ks: Links, raw: nat, end: nat, head: nat, exact: bool)
    requires Tiled(t, raw, end, exact) && Coalesced(t) && !t[end].prevFree && Sorted(FreeSet(t), ks, end, head)
    ensures Validates(t, ks, raw, end, head) <==> Tiled(t, raw, end, true)
  {
    ExactUnlessMissing(t, raw, end, exact);
    if Tiled(t, raw, end, true) {
      InvariantValidates(t, ks, raw, end, head);
    } else {
      var b :| b in t && Missing(t, raw, end, b);
      Facts(t, raw, end, b, exact);
      WalkFailsBelow(t, raw, end, b, raw, exact);
    }
  }

  lemma DropFlagTiled(t: Tiles, raw: nat, end: nat, b: nat, exact: bool)
    requires Tiled(t, raw, end, exact) && b in t && b != end
    ensures Tiled(DropFlag(t, b), raw, end, exact && !t[b].prevFree)
    ensures exact ==> (Tiled(DropFlag(t, b), raw, end, true) <==> !t[b].prevFree)
  {
    var u, exact' := DropFlag(t, b), exact && !t[b].prevFree;
    forall x | x in u && x != end ensures Fits(u, raw, end, x, exact') {
      Facts(t, raw, end, x, exact);
    }
    forall x | x in u && x != raw ensures Follows(u, x) {
      Facts(t, raw, end, x, exact);
    }
    forall x, y | x in u && y in u && x < y ensures Clear(u, x, y) {
      assert Clear(t, x, y);
    }
    if exact && t[b].prevFree {
      FlagHonest(t, raw, end, b, exact);
      ExactUnlessMissing(u, raw, end, exact');
      assert Missing(u, raw, end, b);
    }
  }

  /**
   * Clearing the PREV_FREE bit of one block of a heap without missing flags: the validator
   * still accepts it if and only if the bit was clear already.
   */
  lemma FlagLossShows(t: Tiles, ks: Links, raw: nat, end: nat, head: nat, b: nat)
    requires Tiled(t, raw, end) && Coalesced(t) && !t[end].prevFree && Sorted(FreeSet(t), ks, end, head)
    requires b in t && b != end
    ensures Validates(DropFlag(t, b), ks, raw, end, head) <==> !t[b].prevFree
  {
    var u := DropFlag(t, b);
    DropFlagTiled(t, raw, end, b, true);
    assert FreeSet(u) == FreeSet(t);
    forall x | x in u ensures Lonely(u, x) {
      assert Lonely(t, x);
    }
    ValidatesIffExact(u, ks, raw, end, head, !t[b].prevFree);
  }
}
