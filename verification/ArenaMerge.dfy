/**
 * What inserting a freed block and coalescing it does to the headers of a
 * per-thread arena: the code's edits are the composition "mark free, absorb the
 * successor if it is free, be absorbed by the predecessor if it is free".
 */
module ArenaMerge {
  import opened Tiling
  import opened SortedList

  ghost function FreeSet(t: Tiles): set<nat> {
    set a | a in t && t[a].free
  }

  predicate Forward(t: Tiles, b: nat, n: nat)
    requires b in t
  {
    n != 0 && Next(t, b) == n
  }

  predicate Backward(t: Tiles, b: nat, p: nat) {
    p != 0 && p in t && Next(t, p) == b
  }

  /** b is used, everything around it is in order, and p and n are the free blocks around it. */
  ghost predicate Ready(t: Tiles, raw: nat, end: nat, b: nat, p: nat, n: nat, exact: bool) {
    && Tiled(t, raw, end, exact) && Coalesced(t) && !t[end].prevFree
    && b in t && b != end && !t[b].free
    && IsPrev(FreeSet(t), b, p) && IsNext(FreeSet(t), end, b, n)
  }

  // -------------------------------------------------- the composition and its effect

  function Marked(t: Tiles, end: nat, b: nat): Tiles
    requires b in t && Next(t, b) in t && t[b].span > 0
  {
    SetFree(t, b, true, end)
  }

  /** A free neighbour is found by the list search. */
  lemma SuccessorFound(t: Tiles, raw: nat, end: nat, b: nat, p: nat, n: nat, exact: bool)
    requires Ready(t, raw, end, b, p, n, exact)
    ensures Next(t, b) in t && (t[Next(t, b)].free <==> Forward(t, b, n))
    ensures n != 0 ==> n in t && n != end && t[n].free && Next(t, n) in t && !t[Next(t, n)].free
  {
    Facts(t, raw, end, b, exact);
    var s := Next(t, b);
    assert n != 0 ==> n in FreeSet(t);
    if n != 0 {
      Facts(t, raw, end, n, exact);
      Outside(t, raw, end, b, n, exact);
      assert Lonely(t, n);
    }
    if t[s].free {
      assert s in FreeSet(t);
      Facts(t, raw, end, s, exact);
    }
  }

  lemma PredecessorFound(t: Tiles, raw: nat, end: nat, b: nat, p: nat, n: nat, exact: bool)
    requires Ready(t, raw, end, b, p, n, exact)
    ensures b != raw && t[b].prevPhys in t && t[t[b].prevPhys].free <==> Backward(t, b, p)
    ensures t[b].prevFree ==> Backward(t, b, p)
    ensures p != 0 ==> p in t && p != end && t[p].free && !t[p].prevFree
  {
    assert p != 0 ==> p in FreeSet(t);
    if t[b].prevFree { FlagHonest(t, raw, end, b, exact); }
    Facts(t, raw, end, b, exact);
    if p != 0 {
      Facts(t, raw, end, p, exact);
      Outside(t, raw, end, p, b, exact);
      if t[p].prevFree { FlagHonest(t, raw, end, p, exact); }
      if p != raw { assert Lonely(t, t[p].prevPhys); Facts(t, raw, end, t[p].prevPhys, exact); }
      if Next(t, p) == b { SamePred(t, raw, end, b, p, exact); }
    }
    if b != raw && t[t[b].prevPhys].free {
      var q := t[b].prevPhys;
      assert q in FreeSet(t);
      Facts(t, raw, end, q, exact);
      if p != 0 && p != q { Outside(t, raw, end, p, q, exact); Outside(t, raw, end, q, p, exact); }
    }
  }

  lemma SamePred(t: Tiles, raw: nat, end: nat, b: nat, p: nat, exact: bool)
    requires Tiled(t, raw, end, exact) && b in t && p in t && p != end && Next(t, p) == b
    ensures b != raw && t[b].prevPhys == p
  {
    assert Fits(t, raw, end, p, exact);
  }

  /** Mark b free and let it absorb a free successor; the block behind is told in either case. */
  function FreedForward(t: Tiles, end: nat, b: nat, n: nat): Tiles
    requires b in t && Next(t, b) in t && t[b].span > 0
    requires Forward(t, b, n) ==> Next(t, n) in t
  {
    if Forward(t, b, n) then Marked(Join(Marked(t, end, b), b), end, b) else Marked(t, end, b)
  }

  lemma ForwardTiled(t: Tiles, raw: nat, end: nat, b: nat, p: nat, n: nat, exact: bool)
    requires Ready(t, raw, end, b, p, n, exact)
    ensures Next(t, b) in t && t[b].span > 0 && (Forward(t, b, n) ==> n in t && Next(t, n) in t)
    ensures Tiled(FreedForward(t, end, b, n), raw, end, exact)
  {
    Facts(t, raw, end, b, exact);
    SuccessorFound(t, raw, end, b, p, n, exact);
    SetFreeTiled(t, raw, end, b, true, end, exact);
    if Forward(t, b, n) {
      JoinTiled(Marked(t, end, b), raw, end, b, exact);
      SetFreeTiled(Join(Marked(t, end, b), b), raw, end, b, true, end, exact);
    }
  }

  /** The header at x once [s, after) is one free block. */
  ghost function TileAfter(t: Tiles, end: nat, s: nat, after: nat, prevFree: bool, x: nat): Tile
    requires x in t && s in t && s < after
  {
    if x == s then Tile(after - s, true, prevFree, t[s].prevPhys)
    else if x == after then t[x].(prevPhys := s, prevFree := if after == end then t[x].prevFree else true)
    else t[x]
  }

  /** What the headers look like after the first two steps. */
  lemma ForwardTiles(t: Tiles, raw: nat, end: nat, b: nat, p: nat, n: nat, x: nat, exact: bool)
    requires Ready(t, raw, end, b, p, n, exact)
    requires Next(t, b) in t && t[b].span > 0 && (Forward(t, b, n) ==> n in t && Next(t, n) in t)
    ensures var u := FreedForward(t, end, b, n);
            var after := if Forward(t, b, n) then Next(t, n) else Next(t, b);
            && after in t && b < after
            && (x in u <==> x in t && !(Forward(t, b, n) && x == n))
            && (x in u ==> u[x] == TileAfter(t, end, b, after, t[b].prevFree, x))
  {
    Facts(t, raw, end, b, exact);
    SuccessorFound(t, raw, end, b, p, n, exact);
    if Forward(t, b, n) { Facts(t, raw, end, n, exact); }
  }

  /** The whole composition. */
  function Freed(t: Tiles, end: nat, b: nat, p: nat, n: nat): Tiles
    requires b in t && Next(t, b) in t && t[b].span > 0
    requires Forward(t, b, n) ==> Next(t, n) in t
  {
    var u := FreedForward(t, end, b, n);
    if Backward(t, b, p) && p in u && Next(u, p) in u && Next(u, Next(u, p)) in u then Join(u, p) else u
  }

  /** Where the merged block starts and ends. */
  function Start(t: Tiles, b: nat, p: nat): nat {
    if Backward(t, b, p) then p else b
  }

  function Stop(t: Tiles, b: nat, n: nat): nat
    requires b in t && (Forward(t, b, n) ==> n in t)
  {
    if Forward(t, b, n) then Next(t, n) else Next(t, b)
  }

  lemma FreedTiles(t: Tiles, raw: nat, end: nat, b: nat, p: nat, n: nat, x: nat, exact: bool)
    requires Ready(t, raw, end, b, p, n, exact)
    requires Next(t, b) in t && t[b].span > 0 && (Forward(t, b, n) ==> n in t && Next(t, n) in t)
    ensures var v := Freed(t, end, b, p, n);
            var s, after := Start(t, b, p), Stop(t, b, n);
            && after in t && s in t && s < after && s != end
            && (x in v <==> x in t && !(Forward(t, b, n) && x == n) && !(Backward(t, b, p) && x == b))
            && (x in v ==> v[x] == TileAfter(t, end, s, after, false, x))
  {
    PredecessorFound(t, raw, end, b, p, n, exact);
    SuccessorFound(t, raw, end, b, p, n, exact);
    var u, after := FreedForward(t, end, b, n), Stop(t, b, n);
    ForwardTiles(t, raw, end, b, p, n, x, exact);
    ForwardTiles(t, raw, end, b, p, n, b, exact);
    ForwardTiles(t, raw, end, b, p, n, after, exact);
    if Backward(t, b, p) {
      Facts(t, raw, end, p, exact);
      ForwardTiles(t, raw, end, b, p, n, p, exact);
    }
  }

  lemma FreedTiled(t: Tiles, raw: nat, end: nat, b: nat, p: nat, n: nat, exact: bool)
    requires Ready(t, raw, end, b, p, n, exact)
    ensures Next(t, b) in t && t[b].span > 0 && (Forward(t, b, n) ==> n in t && Next(t, n) in t)
    ensures Tiled(Freed(t, end, b, p, n), raw, end, exact)
  {
    ForwardTiled(t, raw, end, b, p, n, exact);
    PredecessorFound(t, raw, end, b, p, n, exact);
    if Backward(t, b, p) {
      var u := FreedForward(t, end, b, n);
      Facts(t, raw, end, p, exact);
      ForwardTiles(t, raw, end, b, p, n, p, exact);
      ForwardTiles(t, raw, end, b, p, n, b, exact);
      JoinTiled(u, raw, end, p, exact);
    }
  }

  lemma FreedLonely(t: Tiles, raw: nat, end: nat, b: nat, p: nat, n: nat, x: nat, exact: bool)
    requires Ready(t, raw, end, b, p, n, exact)
    requires Next(t, b) in t && t[b].span > 0 && (Forward(t, b, n) ==> n in t && Next(t, n) in t)
    requires x in Freed(t, end, b, p, n)
    ensures Lonely(Freed(t, end, b, p, n), x)
  {
    var v := Freed(t, end, b, p, n);
    var s, after := Start(t, b, p), Stop(t, b, n);
    FreedTiles(t, raw, end, b, p, n, x, exact);
    SuccessorFound(t, raw, end, b, p, n, exact);
    PredecessorFound(t, raw, end, b, p, n, exact);
    if v[x].free {
      if x == s {
        FreedTiles(t, raw, end, b, p, n, after, exact);
        assert !t[after].free;
      } else {
        assert x != end && v[x].span == t[x].span && t[x].free;
        var y := Next(t, x);
        assert Lonely(t, x);
        if y in v {
          FreedTiles(t, raw, end, b, p, n, y, exact);
          if y == s { SamePred(t, raw, end, s, x, exact); }
        }
      }
    }
  }

  /** Freeing keeps every neighbourhood coalesced. */
  lemma FreedCoalesced(t: Tiles, raw: nat, end: nat, b: nat, p: nat, n: nat, exact: bool)
    requires Ready(t, raw, end, b, p, n, exact)
    ensures Next(t, b) in t && t[b].span > 0 && (Forward(t, b, n) ==> n in t && Next(t, n) in t)
    ensures Coalesced(Freed(t, end, b, p, n)) && !Freed(t, end, b, p, n)[end].prevFree
  {
    FreedTiled(t, raw, end, b, p, n, exact);
    FreedTiles(t, raw, end, b, p, n, end, exact);
    forall x | x in Freed(t, end, b, p, n) ensures Lonely(Freed(t, end, b, p, n), x) {
      FreedLonely(t, raw, end, b, p, n, x, exact);
    }
  }

  /** Exactly b leaves the used blocks; the free set loses what was absorbed and gains the merged block. */
  lemma FreedSets(t: Tiles, raw: nat, end: nat, b: nat, p: nat, n: nat, exact: bool)
    requires Ready(t, raw, end, b, p, n, exact)
    requires Next(t, b) in t && t[b].span > 0 && (Forward(t, b, n) ==> n in t && Next(t, n) in t)
    ensures Used(Freed(t, end, b, p, n), end) == Used(t, end) - {b}
    ensures FreeSet(Freed(t, end, b, p, n)) ==
            FreeSet(t) - (if Forward(t, b, n) then {n} else {}) - (if Backward(t, b, p) then {p} else {})
            + {Start(t, b, p)}
  {
    var v := Freed(t, end, b, p, n);
    SuccessorFound(t, raw, end, b, p, n, exact);
    PredecessorFound(t, raw, end, b, p, n, exact);
    forall x ensures x in Used(v, end) <==> x in Used(t, end) - {b} {
      FreedTiles(t, raw, end, b, p, n, x, exact);
    }
    forall x | x in Used(v, end) ensures Used(v, end)[x] == Used(t, end)[x] {
      FreedTiles(t, raw, end, b, p, n, x, exact);
    }
    forall x ensures x in FreeSet(v) <==>
        x in FreeSet(t) - (if Forward(t, b, n) then {n} else {}) - (if Backward(t, b, p) then {p} else {})
             + {Start(t, b, p)}
    {
      FreedTiles(t, raw, end, b, p, n, x, exact);
    }
  }

  // ------------------------------------------------------------ the code's own edits

  ghost predicate SameTile(t: Tiles, m: Tiles, x: nat) {
    x in t && x in m && t[x] == m[x]
  }

  /** m is t with b stamped FREE; the successor's record of its predecessor may be stale. */
  ghost predicate Stamped(t: Tiles, m: Tiles, end: nat, b: nat) {
    && b in t && Next(t, b) in t && m.Keys == t.Keys
    && m[b] == t[b].(free := true, prevFree := false)
    && (var s := Next(t, b);
        && m[s].span == t[s].span && m[s].free == t[s].free
        && (s == end ==> m[s].prevFree == t[s].prevFree))
    && forall x {:trigger SameTile(t, m, x)} :: x in t && x != b && x != Next(t, b) ==> SameTile(t, m, x)
  }

  /** The header edits of tlsf_arena_insert_free, in the order the code makes them. */
  function MergeUp(m: Tiles, b: nat, n: nat): Tiles
    requires b in m && (n != 0 ==> n in m)
  {
    if Forward(m, b, n) then
      (m - {n})[b := Tile(m[b].span + m[n].span, true, false, m[b].prevPhys)]
    else m
  }

  function MergeDown(m: Tiles, b: nat, p: nat): Tiles
    requires b in m
  {
    if Backward(m, b, p) then
      (m - {b})[p := Tile(m[p].span + m[b].span, true, false, m[p].prevPhys)]
    else m
  }

  function TellNext(m: Tiles, end: nat, s: nat): Tiles
    requires s in m && Next(m, s) in m
  {
    var after := Next(m, s);
    m[after := m[after].(prevPhys := s, prevFree := if after == end then m[after].prevFree else true)]
  }

  lemma MergeUpTiles(t: Tiles, m: Tiles, raw: nat, end: nat, b: nat, p: nat, n: nat, x: nat, exact: bool)
    requires Ready(t, raw, end, b, p, n, exact) && Stamped(t, m, end, b)
    ensures n != 0 ==> n in m && n in t && Next(t, n) in t
    ensures var u := MergeUp(m, b, n);
            var after := Stop(t, b, n);
            && (Forward(m, b, n) <==> Forward(t, b, n))
            && after in t && b < after && b in u && Next(u, b) == after
            && u[b] == Tile(after - b, true, false, t[b].prevPhys)
            && (x in u <==> x in t && !(Forward(t, b, n) && x == n))
            && (x in u && x != b && x != after ==> u[x] == t[x])
            && after in u && u[after].span == t[after].span && u[after].free == t[after].free
            && (after == end ==> u[after].prevFree == t[after].prevFree)
  {
    SuccessorFound(t, raw, end, b, p, n, exact);
    Facts(t, raw, end, b, exact);
    assert x in t && x != b && x != Next(t, b) ==> SameTile(t, m, x);
    assert n != 0 && n != Next(t, b) ==> SameTile(t, m, n);
    assert Forward(t, b, n) ==> SameTile(t, m, Next(t, n));
    if n != 0 {
      Facts(t, raw, end, n, exact);
      Outside(t, raw, end, b, n, exact);
      Facts(t, raw, end, Next(t, n), exact);
    }
  }

  lemma InsertedTiles(t: Tiles, m: Tiles, raw: nat, end: nat, b: nat, p: nat, n: nat, x: nat, exact: bool)
    requires Ready(t, raw, end, b, p, n, exact) && Stamped(t, m, end, b)
    requires n != 0 ==> n in m && n in t
    ensures var u := MergeUp(m, b, n);
            var s, after := Start(t, b, p), Stop(t, b, n);
            && b in u && (Backward(u, b, p) <==> Backward(t, b, p))
            && (var w := MergeDown(u, b, p);
                && s in w && Next(w, s) == after && after in w && after in t && s in t && s < after
                && (x in w <==> x in t && !(Forward(t, b, n) && x == n) && !(Backward(t, b, p) && x == b))
                && (x in w ==> TellNext(w, end, s)[x] == TileAfter(t, end, s, after, false, x)))
  {
    MergeUpTiles(t, m, raw, end, b, p, n, x, exact);
    MergeUpTiles(t, m, raw, end, b, p, n, p, exact);
    PredecessorFound(t, raw, end, b, p, n, exact);
    if p != 0 { Facts(t, raw, end, p, exact); Outside(t, raw, end, p, b, exact); }
  }

  /** The code's edits compute the composition. */
  lemma InsertedIsFreed(t: Tiles, m: Tiles, raw: nat, end: nat, b: nat, p: nat, n: nat, w: Tiles, s: nat, exact: bool)
    requires Ready(t, raw, end, b, p, n, exact) && Stamped(t, m, end, b)
    requires Next(t, b) in t && t[b].span > 0 && (Forward(t, b, n) ==> n in t && Next(t, n) in t)
    requires (n != 0 ==> n in m && n in t) && b in MergeUp(m, b, n)
    requires w == MergeDown(MergeUp(m, b, n), b, p) && s == Start(t, b, p) && s in w && Next(w, s) in w
    ensures TellNext(w, end, s) == Freed(t, end, b, p, n)
  {
    var v := Freed(t, end, b, p, n);
    forall x ensures (x in TellNext(w, end, s) <==> x in v) && (x in v ==> TellNext(w, end, s)[x] == v[x]) {
      FreedTiles(t, raw, end, b, p, n, x, exact);
      InsertedTiles(t, m, raw, end, b, p, n, x, exact);
    }
  }

  /** The headers of used blocks below b are the same. */
  ghost predicate KeptBelow(t: Tiles, v: Tiles, b: nat) {
    forall x {:trigger SameTile(t, v, x)} :: x in t && !t[x].free && x < b ==> SameTile(t, v, x)
  }

  /** Everything an insertion guarantees about the headers. */
  lemma InsertEffect(t: Tiles, m: Tiles, raw: nat, end: nat, b: nat, p: nat, n: nat, exact: bool)
    requires Ready(t, raw, end, b, p, n, exact) && Stamped(t, m, end, b)
    ensures (n != 0 ==> n in m) && b in MergeUp(m, b, n) && (p != 0 ==> p in MergeUp(m, b, n))
    ensures var u := MergeUp(m, b, n);
            var w, s := MergeDown(u, b, p), Start(u, b, p);
            && s in w && Next(w, s) in w
            && (var v := TellNext(w, end, s);
                && Tiled(v, raw, end, exact) && Coalesced(v) && !v[end].prevFree && v.Keys <= t.Keys
                && Used(v, end) == Used(t, end) - {b}
                && KeptBelow(t, v, b)
                && FreeSet(v) ==
                   FreeSet(t) - (if Forward(m, b, n) then {n} else {}) - (if Backward(u, b, p) then {p} else {}) + {s})
  {
    FreedTiled(t, raw, end, b, p, n, exact);
    FreedCoalesced(t, raw, end, b, p, n, exact);
    FreedSets(t, raw, end, b, p, n, exact);
    SuccessorFound(t, raw, end, b, p, n, exact);
    PredecessorFound(t, raw, end, b, p, n, exact);
    MergeUpTiles(t, m, raw, end, b, p, n, p, exact);
    InsertedTiles(t, m, raw, end, b, p, n, b, exact);
    InsertedIsFreed(t, m, raw, end, b, p, n, MergeDown(MergeUp(m, b, n), b, p), Start(t, b, p), exact);
    forall x | x in Freed(t, end, b, p, n) ensures x in t {
      FreedTiles(t, raw, end, b, p, n, x, exact);
    }
    forall x | x in t && !t[x].free && x < b ensures SameTile(t, Freed(t, end, b, p, n), x) {
      FreedTiles(t, raw, end, b, p, n, x, exact);
    }
  }
}
