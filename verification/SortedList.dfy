/**
 * The address-sorted, doubly linked free list of a per-thread arena.
 *
 * Because the list is sorted, its links are determined by the set of addresses on
 * it: `next` is the least greater member and `prev` the greatest smaller one.
 */
module SortedList {

  datatype Link = Link(next: nat, prev: nat)  // 0 is NULL

  type Links = map<nat, Link>

  /** No member strictly between lo and hi. */
  ghost predicate NoneBetween(F: set<nat>, lo: nat, hi: nat) {
    forall g {:trigger g in F} :: g in F ==> g <= lo || hi <= g
  }

  /** n is the least member above x, 0 when there is none below end. */
  ghost predicate IsNext(F: set<nat>, end: nat, x: nat, n: nat) {
    if n == 0 then NoneBetween(F, x, end) else n in F && x < n && NoneBetween(F, x, n)
  }

  /** p is the greatest member below x, 0 when there is none. */
  ghost predicate IsPrev(F: set<nat>, x: nat, p: nat) {
    if p == 0 then NoneBetween(F, 0, x) else p in F && p < x && NoneBetween(F, p, x)
  }

  ghost predicate LinkedAt(F: set<nat>, ks: Links, end: nat, f: nat) {
    f in ks && IsNext(F, end, f, ks[f].next) && IsPrev(F, f, ks[f].prev)
  }

  /** The list starting at head visits exactly F, in address order, with exact back links. */
  ghost predicate Sorted(F: set<nat>, ks: Links, end: nat, head: nat) {
    && (forall f {:trigger f in F} :: f in F ==> 0 < f < end)
    && IsNext(F, end, 0, head)
    && (forall f {:trigger LinkedAt(F, ks, end, f)} :: f in F ==> LinkedAt(F, ks, end, f))
  }

  // ------------------------------------------------------------------- unlinking

  /** tlsf_arena_unlink_free on the link words. */
  function Unlinked(ks: Links, f: nat): Links
    requires f in ks
  {
    var n, p := ks[f].next, ks[f].prev;
    var ks1 := if p != 0 && p in ks then ks[p := ks[p].(next := n)] else ks;
    var ks2 := if n != 0 && n in ks1 then ks1[n := ks1[n].(prev := p)] else ks1;
    ks2[f := Link(0, 0)]
  }

  function UnlinkedHead(ks: Links, head: nat, f: nat): nat
    requires f in ks
  {
    if ks[f].prev == 0 then ks[f].next else head
  }

  lemma NextUnique(F: set<nat>, end: nat, x: nat, n: nat, m: nat)
    requires IsNext(F, end, x, n) && IsNext(F, end, x, m)
    requires forall f :: f in F ==> 0 < f < end
    ensures n == m
  {
  }

  lemma PrevUnique(F: set<nat>, x: nat, p: nat, q: nat)
    requires IsPrev(F, x, p) && IsPrev(F, x, q)
    requires forall f :: f in F ==> 0 < f
    ensures p == q
  {
  }

  /** A member's neighbours point back at it. */
  lemma Neighbours(F: set<nat>, ks: Links, end: nat, head: nat, f: nat)
    requires Sorted(F, ks, end, head) && f in F
    ensures f in ks
    ensures var n := ks[f].next; n != 0 ==> n in F && n in ks && f < n && ks[n].prev == f
    ensures var p := ks[f].prev; if p == 0 then head == f else p in F && p in ks && p < f && ks[p].next == f
  {
    assert LinkedAt(F, ks, end, f);
    var n, p := ks[f].next, ks[f].prev;
    if n != 0 {
      assert LinkedAt(F, ks, end, n);
      PrevUnique(F, n, ks[n].prev, f);
    }
    if p == 0 {
      assert IsNext(F, end, 0, f);
      NextUnique(F, end, 0, head, f);
    } else {
      assert LinkedAt(F, ks, end, p);
      NextUnique(F, end, p, ks[p].next, f);
    }
  }

  lemma UnlinkAt(F: set<nat>, ks: Links, end: nat, head: nat, f: nat, g: nat)
    requires Sorted(F, ks, end, head) && f in F && g in F && g != f && f in ks
    ensures LinkedAt(F - {f}, Unlinked(ks, f), end, g)
  {
    Neighbours(F, ks, end, head, f);
    Neighbours(F, ks, end, head, g);
    assert LinkedAt(F, ks, end, f) && LinkedAt(F, ks, end, g);
  }

  /** Unlinking a member leaves the sorted list of the others. */
  lemma UnlinkSorted(F: set<nat>, ks: Links, end: nat, head: nat, f: nat)
    requires Sorted(F, ks, end, head) && f in F
    ensures f in ks && Sorted(F - {f}, Unlinked(ks, f), end, UnlinkedHead(ks, head, f))
    ensures forall x :: x in ks <==> x in Unlinked(ks, f)
  {
    Neighbours(F, ks, end, head, f);
    assert LinkedAt(F, ks, end, f);
    forall g | g in F - {f} ensures LinkedAt(F - {f}, Unlinked(ks, f), end, g) {
      UnlinkAt(F, ks, end, head, f, g);
    }
  }

  // --------------------------------------------------------------------- linking

  /** Splicing b between p and n. */
  function Linked(ks: Links, b: nat, p: nat, n: nat): Links {
    var ks1 := ks[b := Link(n, p)];
    var ks2 := if p != 0 && p in ks1 then ks1[p := ks1[p].(next := b)] else ks1;
    if n != 0 && n in ks2 then ks2[n := ks2[n].(prev := b)] else ks2
  }

  function LinkedHead(head: nat, b: nat, p: nat): nat {
    if p == 0 then b else head
  }

  lemma LinkKeys(ks: Links, b: nat, p: nat, n: nat)
    ensures Linked(ks, b, p, n).Keys == ks.Keys + {b}
  {
  }

  /** The words of the old members after the splice. */
  lemma LinkWords(ks: Links, b: nat, p: nat, n: nat, g: nat)
    requires g in ks && g != b && g != 0
    ensures g in Linked(ks, b, p, n)
    ensures Linked(ks, b, p, n)[g].next == (if g == p then b else ks[g].next)
    ensures Linked(ks, b, p, n)[g].prev == (if g == n then b else ks[g].prev)
  {
  }

  lemma LinkNew(F: set<nat>, ks: Links, end: nat, b: nat, p: nat, n: nat)
    requires 0 < b < end && b !in F && IsPrev(F, b, p) && IsNext(F, end, b, n)
    ensures LinkedAt(F + {b}, Linked(ks, b, p, n), end, b)
  {
    LinkKeys(ks, b, p, n);
    assert Linked(ks, b, p, n)[b] == Link(n, p);
  }

  lemma LinkOld(F: set<nat>, ks: Links, end: nat, head: nat, b: nat, p: nat, n: nat, g: nat)
    requires Sorted(F, ks, end, head) && 0 < b < end && b !in F
    requires IsPrev(F, b, p) && IsNext(F, end, b, n) && g in F
    ensures LinkedAt(F + {b}, Linked(ks, b, p, n), end, g)
  {
    assert LinkedAt(F, ks, end, g);
    LinkWords(ks, b, p, n, g);
    var G, next, prev := F + {b}, ks[g].next, ks[g].prev;
    assert IsNext(G, end, g, if g == p then b else next);
    assert IsPrev(G, g, if g == n then b else prev);
  }

  /** Splicing a new address between its neighbours leaves the sorted list of all. */
  lemma LinkSorted(F: set<nat>, ks: Links, end: nat, head: nat, b: nat, p: nat, n: nat)
    requires Sorted(F, ks, end, head) && 0 < b < end && b !in F
    requires IsPrev(F, b, p) && IsNext(F, end, b, n)
    ensures Sorted(F + {b}, Linked(ks, b, p, n), end, LinkedHead(head, b, p))
  {
    forall g | g in F + {b} ensures LinkedAt(F + {b}, Linked(ks, b, p, n), end, g) {
      if g == b { LinkNew(F, ks, end, b, p, n); } else { LinkOld(F, ks, end, head, b, p, n, g); }
    }
    LinkFirst(F, end, head, b, p);
  }

  lemma LinkFirst(F: set<nat>, end: nat, head: nat, b: nat, p: nat)
    requires IsNext(F, end, 0, head) && 0 < b < end && IsPrev(F, b, p) && forall f :: f in F ==> 0 < f < end
    ensures IsNext(F + {b}, end, 0, LinkedHead(head, b, p))
  {
  }

  /** Words of addresses off the list do not matter to it. */
  lemma SortedFrame(F: set<nat>, ks: Links, end: nat, head: nat, x: nat, k: Link)
    requires Sorted(F, ks, end, head) && x !in F
    ensures Sorted(F, ks[x := k], end, head)
  {
    forall f | f in F ensures LinkedAt(F, ks[x := k], end, f) {
      assert LinkedAt(F, ks, end, f);
    }
  }
}
