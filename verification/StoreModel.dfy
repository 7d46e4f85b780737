/**
 * What the compressed store promises, without its table and byte area: a queue of
 * stored blocks, oldest first, and the set of handles ever given out.
 */
module StoreModel {
  import opened Lz4

  const WORD := 0x1_0000_0000

  /** One stored block: where its handle points, the bytes it stands for, and their encoding. */
  datatype Item = Item(slot: nat, gen: nat, data: seq<Byte>, packed: seq<Byte>)

  function MakeHandle(slot: nat, gen: nat): nat { slot * WORD + gen }

  function Handle(it: Item): nat { MakeHandle(it.slot, it.gen) }

  /** The two halves the code splits a 64-bit handle into. */
  function HandleSlot(h: nat): nat { (h / WORD) % WORD }
  function HandleGen(h: nat): nat { h % WORD }

  lemma HandleParts(slot: nat, gen: nat)
    requires slot < WORD && gen < WORD
    ensures HandleSlot(MakeHandle(slot, gen)) == slot && HandleGen(MakeHandle(slot, gen)) == gen
  {
  }

  lemma HandleWhole(h: nat)
    requires h < WORD * WORD
    ensures MakeHandle(HandleSlot(h), HandleGen(h)) == h
  {
  }

  function Size(it: Item): nat { |it.packed| }

  function Total(items: seq<Item>): nat {
    if items == [] then 0 else Size(items[0]) + Total(items[1..])
  }

  /** Evicting oldest first until `need` more bytes fit. */
  function EvictFor(items: seq<Item>, need: nat, budget: nat): (r: seq<Item>)
    ensures |r| <= |items|
  {
    if items == [] || Total(items) + need <= budget then items else EvictFor(items[1..], need, budget)
  }

  function Lookup(items: seq<Item>, h: nat): Option<seq<Byte>> {
    if items == [] then None
    else if Handle(items[0]) == h then Some(items[0].data)
    else Lookup(items[1..], h)
  }

  ghost predicate Distinct(items: seq<Item>) {
    forall i, j :: 0 <= i < j < |items| ==> Handle(items[i]) != Handle(items[j])
  }

  // ----------------------------------------------------------------- eviction

  /**
   * Eviction removes the k oldest blocks, the rest fits the budget unless it is empty,
   * and one eviction fewer would not have been enough.
   */
  lemma {:induction false} EvictMinimal(items: seq<Item>, need: nat, budget: nat) returns (k: nat)
    ensures k <= |items| && EvictFor(items, need, budget) == items[k..]
    ensures need <= budget ==> Total(items[k..]) + need <= budget
    ensures k > 0 ==> Total(items[k - 1..]) + need > budget
    ensures need > budget ==> k == |items|
  {
    if items == [] || Total(items) + need <= budget {
      k := 0;
      assert items[0..] == items;
    } else {
      k := EvictMinimal(items[1..], need, budget);
      assert items[1..][k..] == items[k + 1..];
      if k > 0 {
        assert items[1..][k - 1..] == items[k..];
      }
      k := k + 1;
      if k == 1 { assert items[0..] == items; }
    }
  }

  lemma {:induction false} TotalAppend(a: seq<Item>, b: seq<Item>)
    ensures Total(a + b) == Total(a) + Total(b)
  {
    if a == [] {
      assert a + b == b;
    } else {
      TotalAppend(a[1..], b);
      assert (a + b)[1..] == a[1..] + b;
    }
  }

  lemma TotalRemove(items: seq<Item>, k: nat)
    requires k < |items|
    ensures Total(items) == Total(items[..k] + items[k + 1..]) + Size(items[k])
  {
    SplitAround(items, k);
    TotalAround(items[..k], items[k], items[k + 1..]);
  }

  lemma SplitAround(items: seq<Item>, k: nat)
    requires k < |items|
    ensures items == items[..k] + ([items[k]] + items[k + 1..])
  {
  }

  lemma TotalAround(a: seq<Item>, it: Item, b: seq<Item>)
    ensures Total(a + ([it] + b)) == Total(a + b) + Size(it)
  {
    TotalAppend(a, [it] + b);
    TotalAppend([it], b);
    TotalAppend(a, b);
  }

  // ------------------------------------------------------------------- lookup

  lemma {:induction false} LookupAt(items: seq<Item>, k: nat)
    requires k < |items| && Distinct(items)
    ensures Lookup(items, Handle(items[k])) == Some(items[k].data)
  {
    if k > 0 {
      LookupAt(items[1..], k - 1);
    }
  }

  lemma {:induction false} LookupNone(items: seq<Item>, h: nat)
    ensures Lookup(items, h).None? <==> forall k :: 0 <= k < |items| ==> Handle(items[k]) != h
  {
    if items != [] {
      LookupNone(items[1..], h);
      if Handle(items[0]) != h && Lookup(items, h).None? {
        forall k | 0 <= k < |items| ensures Handle(items[k]) != h {
          if k > 0 { assert items[k] == items[1..][k - 1]; }
        }
      }
    }
  }

  // --------------------------------------------------------------------- runs

  /** The store as its callers can know it. */
  datatype View = View(items: seq<Item>, issued: set<nat>)

  ghost predicate Coherent(v: View) {
    Distinct(v.items) && forall k :: 0 <= k < |v.items| ==> Handle(v.items[k]) in v.issued
  }

  /** The k oldest blocks go. */
  ghost predicate Drops(v: View, v': View) {
    v'.issued == v.issued && exists k :: 0 <= k <= |v.items| && v'.items == v.items[k..]
  }

  /** The k oldest blocks go and one block arrives under a handle never issued before. */
  ghost predicate Stores(v: View, v': View, it: Item) {
    && Handle(it) !in v.issued && v'.issued == v.issued + {Handle(it)}
    && exists k :: 0 <= k <= |v.items| && v'.items == v.items[k..] + [it]
  }

  /** One block is freed by handle. */
  ghost predicate Removes(v: View, v': View) {
    v'.issued == v.issued && exists k :: 0 <= k < |v.items| && v'.items == v.items[..k] + v.items[k + 1..]
  }

  ghost predicate Step(v: View, v': View) {
    Drops(v, v') || Removes(v, v') || exists it :: Stores(v, v', it)
  }

  ghost predicate Run(vs: seq<View>) {
    |vs| > 0 && Coherent(vs[0]) && forall i :: 0 <= i < |vs| - 1 ==> Step(vs[i], vs[i + 1])
  }

  /** Every item after a step is an old item or carries a handle that is new. */
  ghost predicate OldOrNew(v: View, v': View) {
    forall j :: 0 <= j < |v'.items| ==> v'.items[j] in v.items || Handle(v'.items[j]) !in v.issued
  }

  /** Where item j was before `gap` items went at position `at`. */
  function Source(at: nat, gap: nat, j: nat): nat {
    if j < at then j else j + gap
  }

  ghost predicate Kept(v: View, v': View, at: nat, gap: nat) {
    && v'.issued == v.issued && |v.items| == |v'.items| + gap && at <= |v'.items|
    && forall j: nat :: j < |v'.items| ==> v'.items[j] == v.items[Source(at, gap, j)]
  }

  lemma DropsKept(v: View, v': View) returns (gap: nat)
    requires Drops(v, v')
    ensures Kept(v, v', 0, gap)
  {
    gap :| 0 <= gap <= |v.items| && v'.items == v.items[gap..];
  }

  lemma RemovesKept(v: View, v': View) returns (at: nat)
    requires Removes(v, v')
    ensures Kept(v, v', at, 1)
  {
    at :| 0 <= at < |v.items| && v'.items == v.items[..at] + v.items[at + 1..];
  }

  lemma KeptCoherent(v: View, v': View, at: nat, gap: nat)
    requires Coherent(v) && Kept(v, v', at, gap)
    ensures Coherent(v') && OldOrNew(v, v')
  {
    forall i: nat, j: nat | i < j < |v'.items| ensures Handle(v'.items[i]) != Handle(v'.items[j]) {
      assert Source(at, gap, i) < Source(at, gap, j);
    }
  }

  lemma StoresCoherent(v: View, v': View, it: Item)
    requires Coherent(v) && Stores(v, v', it)
    ensures Coherent(v') && OldOrNew(v, v')
  {
    var k :| 0 <= k <= |v.items| && v'.items == v.items[k..] + [it];
    var n := |v.items| - k;
    assert forall j :: 0 <= j < n ==> v'.items[j] == v.items[k + j];
    assert v'.items[n] == it;
    forall i, j | 0 <= i < j < |v'.items| ensures Handle(v'.items[i]) != Handle(v'.items[j]) {
      if j == n { assert Handle(v.items[k + i]) in v.issued; }
    }
  }

  lemma StepCoherent(v: View, v': View)
    requires Coherent(v) && Step(v, v')
    ensures Coherent(v') && v.issued <= v'.issued && OldOrNew(v, v')
  {
    if Drops(v, v') {
      var gap := DropsKept(v, v');
      KeptCoherent(v, v', 0, gap);
    } else if Removes(v, v') {
      var at := RemovesKept(v, v');
      KeptCoherent(v, v', at, 1);
    } else {
      var it :| Stores(v, v', it);
      StoresCoherent(v, v', it);
    }
  }

  /** An issued handle keeps its bytes or is gone; nothing gone comes back. */
  lemma StepLookup(v: View, v': View, h: nat)
    requires Coherent(v) && Step(v, v') && h in v.issued
    ensures h in v'.issued
    ensures Lookup(v'.items, h).Some? ==> Lookup(v'.items, h) == Lookup(v.items, h)
  {
    StepCoherent(v, v');
    LookupNone(v'.items, h);
    if Lookup(v'.items, h).Some? {
      var j :| 0 <= j < |v'.items| && Handle(v'.items[j]) == h;
      LookupAt(v'.items, j);
      var i :| 0 <= i < |v.items| && v.items[i] == v'.items[j];
      LookupAt(v.items, i);
    }
  }

  lemma {:induction false} RunCoherent(vs: seq<View>, i: nat, j: nat)
    requires Run(vs) && i <= j < |vs|
    ensures Coherent(vs[i]) && Coherent(vs[j]) && vs[i].issued <= vs[j].issued
    decreases j
  {
    if i < j {
      RunCoherent(vs, i, j - 1);
      StepCoherent(vs[j - 1], vs[j]);
    } else if j > 0 {
      RunCoherent(vs, i - 1, j - 1);
      StepCoherent(vs[j - 1], vs[j]);
    }
  }

  /**
   * Over every run: a handle reads back exactly the bytes it was created from for as
   * long as it reads back anything, and once rejected it is rejected forever.
   */
  lemma {:induction false} HandleForever(vs: seq<View>, h: nat, i: nat, j: nat)
    requires Run(vs) && i <= j < |vs| && h in vs[i].issued
    ensures h in vs[j].issued
    ensures Lookup(vs[j].items, h).Some? ==> Lookup(vs[j].items, h) == Lookup(vs[i].items, h)
    decreases j - i
  {
    if i < j {
      RunCoherent(vs, i, i);
      StepLookup(vs[i], vs[i + 1], h);
      HandleForever(vs, h, i + 1, j);
    }
  }

  /** Over every run: no handle is issued twice. */
  lemma IssuedOnce(vs: seq<View>, i: nat, j: nat, a: Item, b: Item)
    requires Run(vs) && i < j && j + 1 < |vs|
    requires Stores(vs[i], vs[i + 1], a) && Stores(vs[j], vs[j + 1], b)
    ensures Handle(a) != Handle(b)
  {
    RunCoherent(vs, i + 1, j);
  }
}
