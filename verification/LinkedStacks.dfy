/**
 * Families of doubly linked lists that are pushed at the head and unlinked anywhere:
 * the bucket lists of a TLSF arena, the page lists of a slab class and the list of
 * active headers.
 *
 * `keys` says which nodes are listed and on which list.  Every insertion gets a larger
 * stamp, so that along `next` the stamps go down: no list can be circular.
 */
module LinkedStacks {
  import opened SortedList

  // --------------------------------------------------------------------- the lists

  ghost predicate After<K>(keys: map<nat, K>, ks: Links, stamp: map<nat, nat>, f: nat, n: nat)
    requires f in keys && f in ks && f in stamp
  {
    && n in keys && n in ks && n in stamp && keys[n] == keys[f] && ks[f].next == n && ks[n].prev == f
    && stamp[n] < stamp[f]
  }

  /** Both neighbours of f are on f's list and point back. */
  ghost predicate Hooked<K>(keys: map<nat, K>, ks: Links, heads: map<K, nat>, stamp: map<nat, nat>, clock: nat, f: nat)
    requires f in keys
  {
    && f != 0 && f in ks && f in stamp && stamp[f] < clock && keys[f] in heads
    && (ks[f].next != 0 ==> After(keys, ks, stamp, f, ks[f].next))
    && (if ks[f].prev == 0 then heads[keys[f]] == f
        else ks[f].prev in keys && ks[f].prev in ks && ks[f].prev in stamp && After(keys, ks, stamp, ks[f].prev, f))
  }

  ghost predicate Headed<K>(keys: map<nat, K>, ks: Links, heads: map<K, nat>, b: K)
    requires b in heads
  {
    heads[b] != 0 ==> heads[b] in keys && keys[heads[b]] == b && heads[b] in ks && ks[heads[b]].prev == 0
  }

  /** Every listed block is on the list of its key, and nothing else is on any list. */
  ghost predicate Threaded<K>(keys: map<nat, K>, ks: Links, heads: map<K, nat>, stamp: map<nat, nat>, clock: nat) {
    && 0 !in ks
    && (forall f {:trigger Hooked(keys, ks, heads, stamp, clock, f)} ::
          f in keys ==> Hooked(keys, ks, heads, stamp, clock, f))
    && (forall b {:trigger Headed(keys, ks, heads, b)} :: b in heads ==> Headed(keys, ks, heads, b))
  }

  /** A list with a member has a head. */
  lemma {:induction false} ListedHasHead<K>(keys: map<nat, K>, ks: Links, heads: map<K, nat>, stamp: map<nat, nat>,
      clock: nat, f: nat)
    requires Threaded(keys, ks, heads, stamp, clock) && f in keys
    ensures keys[f] in heads && heads[keys[f]] != 0
    decreases clock - (if f in stamp then stamp[f] else 0)
  {
    assert Hooked(keys, ks, heads, stamp, clock, f);
    var p := ks[f].prev;
    if p != 0 {
      assert Hooked(keys, ks, heads, stamp, clock, p);
      ListedHasHead(keys, ks, heads, stamp, clock, p);
    }
  }

  /** The i-th block of the list starting at x, 0 past its end. */
  ghost function Nth(ks: Links, x: nat, i: nat): nat
    decreases i
  {
    if i == 0 || x !in ks then x else Nth(ks, ks[x].next, i - 1)
  }

  /** Walking a list meets only its own members, ever older blocks. */
  lemma {:induction false} NthListed<K>(keys: map<nat, K>, ks: Links, heads: map<K, nat>, stamp: map<nat, nat>,
      clock: nat, x: nat, i: nat)
    requires Threaded(keys, ks, heads, stamp, clock) && x in keys
    ensures var y := Nth(ks, x, i);
            x in stamp && (y != 0 ==> y in keys && y in stamp && keys[y] == keys[x] && (i > 0 ==> stamp[y] < stamp[x]))
    decreases i
  {
    assert Hooked(keys, ks, heads, stamp, clock, x);
    if i > 0 {
      if ks[x].next == 0 { assert Nth(ks, 0, i - 1) == 0; }
      else { NthListed(keys, ks, heads, stamp, clock, ks[x].next, i - 1); }
    }
  }

  lemma {:induction false} NthNext(ks: Links, x: nat, i: nat)
    requires Nth(ks, x, i) in ks
    ensures Nth(ks, x, i + 1) == ks[Nth(ks, x, i)].next
    decreases i
  {
    if i > 0 && x in ks { NthNext(ks, ks[x].next, i - 1); }
  }

  lemma {:induction false} NthSplit(ks: Links, x: nat, i: nat, j: nat)
    ensures Nth(ks, x, i + j) == Nth(ks, Nth(ks, x, i), j)
    decreases i
  {
    if i > 0 {
      if x in ks { NthSplit(ks, ks[x].next, i - 1, j); }
    }
  }

  /** Every listed block is met on the walk from its list's head ... */
  lemma {:induction false} OnList<K>(keys: map<nat, K>, ks: Links, heads: map<K, nat>, stamp: map<nat, nat>,
      clock: nat, f: nat) returns (i: nat)
    requires Threaded(keys, ks, heads, stamp, clock) && f in keys
    ensures keys[f] in heads && Nth(ks, heads[keys[f]], i) == f
    decreases clock - (if f in stamp then stamp[f] else 0)
  {
    assert Hooked(keys, ks, heads, stamp, clock, f);
    var p := ks[f].prev;
    if p == 0 {
      i := 0;
    } else {
      assert Hooked(keys, ks, heads, stamp, clock, p);
      i := OnList(keys, ks, heads, stamp, clock, p);
      NthNext(ks, heads[keys[f]], i);
      i := i + 1;
    }
  }

  /** ... exactly once, and on no other list. */
  lemma OnListOnce<K>(keys: map<nat, K>, ks: Links, heads: map<K, nat>, stamp: map<nat, nat>, clock: nat, b: K, c: K,
      i: nat, j: nat)
    requires Threaded(keys, ks, heads, stamp, clock) && b in heads && c in heads
    requires Nth(ks, heads[b], i) == Nth(ks, heads[c], j) != 0
    ensures b == c && i == j
  {
    Walked(keys, ks, heads, stamp, clock, b, i);
    Walked(keys, ks, heads, stamp, clock, c, j);
    if i < j { Apart(keys, ks, heads, stamp, clock, b, i, j); }
    if j < i { Apart(keys, ks, heads, stamp, clock, b, j, i); }
  }

  lemma Walked<K>(keys: map<nat, K>, ks: Links, heads: map<K, nat>, stamp: map<nat, nat>, clock: nat, b: K, i: nat)
    requires Threaded(keys, ks, heads, stamp, clock) && b in heads && Nth(ks, heads[b], i) != 0
    ensures Nth(ks, heads[b], i) in keys && keys[Nth(ks, heads[b], i)] == b
  {
    assert Headed(keys, ks, heads, b);
    NthListed(keys, ks, heads, stamp, clock, heads[b], i);
  }

  lemma Apart<K>(keys: map<nat, K>, ks: Links, heads: map<K, nat>, stamp: map<nat, nat>, clock: nat, b: K, i: nat,
      j: nat)
    requires Threaded(keys, ks, heads, stamp, clock) && b in heads && i < j && Nth(ks, heads[b], i) != 0
    ensures Nth(ks, heads[b], i) != Nth(ks, heads[b], j)
  {
    var x := Nth(ks, heads[b], i);
    Walked(keys, ks, heads, stamp, clock, b, i);
    NthSplit(ks, heads[b], i, j - i);
    NthListed(keys, ks, heads, stamp, clock, x, j - i);
  }

  // ---------------------------------------------------------------------- insertion

  /** The link words after pushing f in front of h. */
  function Pushed(ks: Links, f: nat, h: nat): Links {
    var ks1 := ks[f := Link(h, 0)];
    if h != 0 && h in ks1 then ks1[h := ks1[h].(prev := f)] else ks1
  }

  lemma PushedAt<K>(keys: map<nat, K>, ks: Links, heads: map<K, nat>, stamp: map<nat, nat>, clock: nat, f: nat, b: K,
      g: nat)
    requires Threaded(keys, ks, heads, stamp, clock) && f !in keys && f != 0 && b in heads && (g == f || g in keys)
    ensures Hooked(keys[f := b], Pushed(ks, f, heads[b]), heads[b := f], stamp[f := clock], clock + 1, g)
  {
    assert Headed(keys, ks, heads, b);
    if heads[b] != 0 { assert Hooked(keys, ks, heads, stamp, clock, heads[b]); }
    if g != f { assert Hooked(keys, ks, heads, stamp, clock, g); }
  }

  lemma PushedHead<K>(keys: map<nat, K>, ks: Links, heads: map<K, nat>, stamp: map<nat, nat>, clock: nat, f: nat, b: K,
      c: K)
    requires Threaded(keys, ks, heads, stamp, clock) && f !in keys && f != 0 && b in heads && c in heads
    ensures Headed(keys[f := b], Pushed(ks, f, heads[b]), heads[b := f], c)
  {
    assert Headed(keys, ks, heads, b) && Headed(keys, ks, heads, c);
  }

  /** Pushing a block keeps the lists. */
  lemma PushThreaded<K>(keys: map<nat, K>, ks: Links, heads: map<K, nat>, stamp: map<nat, nat>, clock: nat, f: nat,
      b: K)
    requires Threaded(keys, ks, heads, stamp, clock) && f !in keys && f != 0 && b in heads
    ensures Threaded(keys[f := b], Pushed(ks, f, heads[b]), heads[b := f], stamp[f := clock], clock + 1)
  {
    var keys', ks', heads', stamp' := keys[f := b], Pushed(ks, f, heads[b]), heads[b := f], stamp[f := clock];
    forall g | g in keys' ensures Hooked(keys', ks', heads', stamp', clock + 1, g) {
      PushedAt(keys, ks, heads, stamp, clock, f, b, g);
    }
    forall c | c in heads' ensures Headed(keys', ks', heads', c) {
      PushedHead(keys, ks, heads, stamp, clock, f, b, c);
    }
  }

  // ------------------------------------------------------------------------ removal

  /** The link words after unlinking f; f's own words stay behind. */
  function Unhooked(ks: Links, f: nat): Links
    requires f in ks
  {
    var n, p := ks[f].next, ks[f].prev;
    var ks1 := if p != 0 && p in ks then ks[p := ks[p].(next := n)] else ks;
    if n != 0 && n in ks1 then ks1[n := ks1[n].(prev := p)] else ks1
  }

  function UnhookedHeads<K(==)>(ks: Links, heads: map<K, nat>, f: nat, b: K): map<K, nat>
    requires f in ks
  {
    if ks[f].prev == 0 then heads[b := ks[f].next] else heads
  }

  lemma UnhookedAt<K>(keys: map<nat, K>, ks: Links, heads: map<K, nat>, stamp: map<nat, nat>, clock: nat, f: nat,
      g: nat)
    requires Threaded(keys, ks, heads, stamp, clock) && f in keys && g in keys && g != f && f in ks
    ensures Hooked(keys - {f}, Unhooked(ks, f), UnhookedHeads(ks, heads, f, keys[f]), stamp, clock, g)
  {
    assert Hooked(keys, ks, heads, stamp, clock, f) && Hooked(keys, ks, heads, stamp, clock, g);
    var n, p := ks[f].next, ks[f].prev;
    if n != 0 { assert Hooked(keys, ks, heads, stamp, clock, n); }
    if p != 0 { assert Hooked(keys, ks, heads, stamp, clock, p); }
  }

  lemma UnhookedHead<K>(keys: map<nat, K>, ks: Links, heads: map<K, nat>, stamp: map<nat, nat>, clock: nat, f: nat,
      c: K)
    requires Threaded(keys, ks, heads, stamp, clock) && f in keys && f in ks && c in heads
    ensures keys[f] in heads && Headed(keys - {f}, Unhooked(ks, f), UnhookedHeads(ks, heads, f, keys[f]), c)
  {
    assert Hooked(keys, ks, heads, stamp, clock, f) && Headed(keys, ks, heads, c) && Headed(keys, ks, heads, keys[f]);
    var n := ks[f].next;
    if n != 0 { assert Hooked(keys, ks, heads, stamp, clock, n); }
  }

  /** Unlinking a block keeps the lists. */
  lemma UnhookThreaded<K>(keys: map<nat, K>, ks: Links, heads: map<K, nat>, stamp: map<nat, nat>, clock: nat, f: nat)
    requires Threaded(keys, ks, heads, stamp, clock) && f in keys
    ensures f in ks && keys[f] in heads
    ensures Threaded(keys - {f}, Unhooked(ks, f), UnhookedHeads(ks, heads, f, keys[f]), stamp, clock)
  {
    assert Hooked(keys, ks, heads, stamp, clock, f);
    var heads' := UnhookedHeads(ks, heads, f, keys[f]);
    forall g | g in keys - {f} ensures Hooked(keys - {f}, Unhooked(ks, f), heads', stamp, clock, g) {
      UnhookedAt(keys, ks, heads, stamp, clock, f, g);
    }
    forall c | c in heads' ensures Headed(keys - {f}, Unhooked(ks, f), heads', c) {
      UnhookedHead(keys, ks, heads, stamp, clock, f, c);
    }
  }
}
