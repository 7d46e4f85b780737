/**
 * The compressed store: a handle table with generations, a byte area carved first-fit
 * in 4 KiB steps, a byte budget and oldest-first eviction.
 *
 * Generations and sequence numbers are 32-bit words in the code; the model keeps them
 * below their wrap-around point (`NoWrap`).
 */
module CompressedStore {
  import opened Lz4
  import opened Lz4Runs
  import opened StoreModel
  import Lz4Codec

  const SLOT_SIZE := 4096
  const MAX_ENTRIES := 4096
  const DEFAULT_BUDGET := 16 * 1024 * 1024
  const INT_MAX := 0x7FFF_FFFF
  const UINT32_MAX := 0xFFFF_FFFF

  datatype Entry = Entry(originalSize: nat, offset: nat, compSize: nat, generation: nat, allocSeq: nat, used: bool)

  const EmptyEntry := Entry(0, 0, 0, 0, 0, false)

  // ------------------------------------------- how the table represents the queue

  /** The table entry of an item describes it. */
  ghost predicate Tied(es: seq<Entry>, it: Item) {
    && it.slot < |es| && it.gen > 0
    && es[it.slot].used && es[it.slot].generation == it.gen
    && es[it.slot].originalSize == |it.data| && es[it.slot].compSize == Size(it) > 0
  }

  ghost predicate AllTied(es: seq<Entry>, items: seq<Item>) {
    forall k {:trigger Tied(es, items[k])} :: 0 <= k < |items| ==> Tied(es, items[k])
  }

  ghost predicate Has(items: seq<Item>, slot: nat) {
    exists k :: 0 <= k < |items| && items[k].slot == slot
  }

  /** Every used entry belongs to an item. */
  ghost predicate Covered(es: seq<Entry>, items: seq<Item>) {
    forall i :: 0 <= i < |es| && es[i].used ==> Has(items, i)
  }

  ghost predicate Before(es: seq<Entry>, a: Item, b: Item)
    requires Tied(es, a) && Tied(es, b)
  {
    es[a.slot].allocSeq < es[b.slot].allocSeq
  }

  /** The queue is in allocation order. */
  ghost predicate Ordered(es: seq<Entry>, items: seq<Item>, next: nat)
    requires AllTied(es, items)
  {
    && (forall j, k {:trigger Before(es, items[j], items[k])} ::
          0 <= j < k < |items| ==> Before(es, items[j], items[k]))
    && (forall k {:trigger Tied(es, items[k])} ::
          0 <= k < |items| ==> Tied(es, items[k]) && es[items[k].slot].allocSeq < next)
  }

  /** The bytes of an item are in the area. */
  ghost predicate Holds(es: seq<Entry>, area: seq<Byte>, it: Item)
    requires Tied(es, it)
  {
    var e := es[it.slot];
    e.offset + e.compSize <= |area| && area[e.offset..e.offset + e.compSize] == it.packed
  }

  ghost predicate Stored(es: seq<Entry>, area: seq<Byte>, items: seq<Item>)
    requires AllTied(es, items)
  {
    forall k {:trigger Holds(es, area, items[k])} :: 0 <= k < |items| ==> Holds(es, area, items[k])
  }

  /** packed decodes to data in a buffer of exactly data's size. */
  ghost predicate UnpacksTo(packed: seq<Byte>, data: seq<Byte>) {
    forall n :: n == |data| ==> Decode(packed, [], n) == Some(data)
  }

  ghost predicate Unpacks(it: Item) {
    UnpacksTo(it.packed, it.data)
  }

  predicate Overlaps(e: Entry, off: nat, len: nat) {
    e.used && e.offset < off + len && e.offset + e.compSize > off
  }

  ghost predicate Disjoint(es: seq<Entry>, i: nat, j: nat)
    requires i < |es| && j < |es|
  {
    es[i].used && es[j].used ==> !Overlaps(es[i], es[j].offset, es[j].compSize)
  }

  /** No two stored blocks share a byte. */
  ghost predicate Apart(es: seq<Entry>) {
    forall i, j :: 0 <= i < |es| && 0 <= j < |es| && i != j ==> Disjoint(es, i, j)
  }

  /** No issued handle is ahead of its entry's generation. */
  ghost predicate Behind(es: seq<Entry>, issued: set<nat>) {
    forall h :: h in issued ==>
                  && HandleSlot(h) < |es| && HandleGen(h) <= es[HandleSlot(h)].generation
                  && h == MakeHandle(HandleSlot(h), HandleGen(h))
  }

  ghost predicate Known(issued: set<nat>, it: Item) {
    Handle(it) in issued && Unpacks(it)
  }

  ghost predicate Represents(es: seq<Entry>, area: seq<Byte>, items: seq<Item>, issued: set<nat>, next: nat) {
    && |es| <= MAX_ENTRIES
    && (forall i :: 0 <= i < |es| ==> es[i].generation < WORD)
    && AllTied(es, items) && Covered(es, items) && Ordered(es, items, next)
    && Stored(es, area, items) && Apart(es) && Behind(es, issued)
    && (forall k {:trigger Known(issued, items[k])} :: 0 <= k < |items| ==> Known(issued, items[k]))
  }

  // ------------------------------------------------------- retiring one entry

  function Retire(e: Entry): Entry {
    e.(used := false, generation := e.generation + 1)
  }

  function Without(items: seq<Item>, k: nat): seq<Item>
    requires k < |items|
  {
    items[..k] + items[k + 1..]
  }

  /** Distinct items have distinct slots. */
  lemma SlotsDistinct(es: seq<Entry>, items: seq<Item>, next: nat, j: nat, k: nat)
    requires AllTied(es, items) && Ordered(es, items, next) && j < |items| && k < |items| && j != k
    ensures items[j].slot != items[k].slot
  {
    assert j < k ==> Before(es, items[j], items[k]);
    assert k < j ==> Before(es, items[k], items[j]);
  }

  lemma WithoutAt(items: seq<Item>, k: nat, j: nat)
    requires k < |items| && j < |Without(items, k)|
    ensures Without(items, k)[j] == items[if j < k then j else j + 1]
  {
  }

  lemma RetireTied(es: seq<Entry>, items: seq<Item>, next: nat, k: nat)
    requires AllTied(es, items) && Ordered(es, items, next) && k < |items| && Tied(es, items[k])
    ensures var es' := es[items[k].slot := Retire(es[items[k].slot])];
            AllTied(es', Without(items, k)) && Ordered(es', Without(items, k), next)
  {
    var slot := items[k].slot;
    var es', items' := es[slot := Retire(es[slot])], Without(items, k);
    forall j | 0 <= j < |items'|
      ensures Tied(es', items'[j]) && items'[j].slot != slot && es'[items'[j].slot] == es[items'[j].slot]
    {
      WithoutAt(items, k, j);
      var i := if j < k then j else j + 1;
      assert Tied(es, items[i]);
      SlotsDistinct(es, items, next, i, k);
    }
    forall a, b | 0 <= a < b < |items'| ensures Before(es', items'[a], items'[b]) {
      WithoutAt(items, k, a);
      WithoutAt(items, k, b);
      assert Before(es, items'[a], items'[b]);
    }
    forall a | 0 <= a < |items'| ensures Tied(es', items'[a]) && es'[items'[a].slot].allocSeq < next {
      WithoutAt(items, k, a);
      assert Tied(es, items'[a]);
    }
  }

  lemma RetireCovered(es: seq<Entry>, items: seq<Item>, k: nat)
    requires AllTied(es, items) && Covered(es, items) && k < |items| && Tied(es, items[k])
    ensures Covered(es[items[k].slot := Retire(es[items[k].slot])], Without(items, k))
  {
    var slot := items[k].slot;
    var es', items' := es[slot := Retire(es[slot])], Without(items, k);
    forall i | 0 <= i < |es'| && es'[i].used ensures Has(items', i) {
      assert es[i].used && i != slot;
      var j :| 0 <= j < |items| && items[j].slot == i;
      var j' := if j < k then j else j - 1;
      WithoutAt(items, k, j');
      assert items'[j'].slot == i;
    }
  }

  lemma RetireStored(es: seq<Entry>, area: seq<Byte>, items: seq<Item>, next: nat, k: nat)
    requires AllTied(es, items) && Ordered(es, items, next) && Stored(es, area, items) && k < |items|
    requires Tied(es, items[k])
    ensures var es' := es[items[k].slot := Retire(es[items[k].slot])];
            AllTied(es', Without(items, k)) && Stored(es', area, Without(items, k))
  {
    RetireTied(es, items, next, k);
    var slot := items[k].slot;
    var es', items' := es[slot := Retire(es[slot])], Without(items, k);
    forall j | 0 <= j < |items'| ensures Holds(es', area, items'[j]) {
      WithoutAt(items, k, j);
      var i := if j < k then j else j + 1;
      assert Tied(es, items[i]) && Holds(es, area, items[i]) && Tied(es', items'[j]);
      SlotsDistinct(es, items, next, i, k);
    }
  }

  /** Evicting or freeing a block leaves a table that represents the shorter queue. */
  lemma RetireRepresents(es: seq<Entry>, area: seq<Byte>, items: seq<Item>, issued: set<nat>, next: nat, k: nat)
    requires Represents(es, area, items, issued, next) && k < |items| && Tied(es, items[k])
    requires es[items[k].slot].generation + 1 < WORD
    ensures Represents(es[items[k].slot := Retire(es[items[k].slot])], area, Without(items, k), issued, next)
  {
    RetireTied(es, items, next, k);
    RetireCovered(es, items, k);
    RetireStored(es, area, items, next, k);
    RetireApart(es, items[k].slot);
    forall j | 0 <= j < |Without(items, k)| ensures Known(issued, Without(items, k)[j]) {
      WithoutAt(items, k, j);
    }
  }

  // ------------------------------------------------------------ adding one entry

  /** area with bytes written at off. */
  function Splice(area: seq<Byte>, off: nat, bytes: seq<Byte>): (r: seq<Byte>)
    requires off + |bytes| <= |area|
    ensures |r| == |area|
  {
    area[..off] + bytes + area[off + |bytes|..]
  }

  lemma SpliceAt(area: seq<Byte>, off: nat, bytes: seq<Byte>)
    requires off + |bytes| <= |area|
    ensures Splice(area, off, bytes)[off..off + |bytes|] == bytes
  {
  }

  lemma SpliceAway(area: seq<Byte>, off: nat, bytes: seq<Byte>, lo: nat, hi: nat)
    requires off + |bytes| <= |area| && lo <= hi <= |area| && (hi <= off || off + |bytes| <= lo)
    ensures Splice(area, off, bytes)[lo..hi] == area[lo..hi]
  {
    var r := Splice(area, off, bytes);
    forall i | lo <= i < hi ensures r[i] == area[i] {
    }
  }

  ghost predicate Clear(es: seq<Entry>, off: nat, len: nat) {
    forall i :: 0 <= i < |es| ==> !Overlaps(es[i], off, len)
  }

  lemma InsertTied(es: seq<Entry>, items: seq<Item>, next: nat, e: Entry, it: Item)
    requires AllTied(es, items) && Ordered(es, items, next) && Covered(es, items)
    requires it.slot < |es| && !es[it.slot].used
    requires Tied(es[it.slot := e], it) && e.allocSeq == next
    ensures var es' := es[it.slot := e];
            AllTied(es', items + [it]) && Ordered(es', items + [it], next + 1) && Covered(es', items + [it])
  {
    var es', items' := es[it.slot := e], items + [it];
    forall j | 0 <= j < |items'| ensures Tied(es', items'[j]) {
      if j < |items| { assert Tied(es, items[j]); }
    }
    forall i | 0 <= i < |es'| && es'[i].used ensures Has(items', i) {
      if i == it.slot {
        assert items'[|items|].slot == i;
      } else {
        var k :| 0 <= k < |items| && items[k].slot == i;
        assert items'[k].slot == i;
      }
    }
    forall a, b | 0 <= a < b < |items'| ensures Before(es', items'[a], items'[b]) {
      assert Tied(es, items[a]);
      if b < |items| { assert Before(es, items[a], items[b]); }
    }
    forall a | 0 <= a < |items'| ensures Tied(es', items'[a]) && es'[items'[a].slot].allocSeq < next + 1 {
      if a < |items| { assert Tied(es, items[a]); }
    }
  }

  lemma InsertStored(es: seq<Entry>, area: seq<Byte>, items: seq<Item>, e: Entry, it: Item)
    requires AllTied(es, items) && Stored(es, area, items)
    requires it.slot < |es| && !es[it.slot].used && Tied(es[it.slot := e], it)
    requires e.offset + e.compSize <= |area| && Clear(es, e.offset, e.compSize)
    requires AllTied(es[it.slot := e], items + [it])
    ensures Stored(es[it.slot := e], Splice(area, e.offset, it.packed), items + [it])
  {
    var es', items' := es[it.slot := e], items + [it];
    var area' := Splice(area, e.offset, it.packed);
    forall j | 0 <= j < |items'| ensures Holds(es', area', items'[j]) {
      if j < |items| {
        assert Tied(es, items[j]) && Holds(es, area, items[j]);
        var f := es[items[j].slot];
        assert !Overlaps(f, e.offset, e.compSize);
        SpliceAway(area, e.offset, it.packed, f.offset, f.offset + f.compSize);
      } else {
        SpliceAt(area, e.offset, it.packed);
      }
    }
  }

  lemma InsertApart(es: seq<Entry>, slot: nat, e: Entry)
    requires Apart(es) && slot < |es| && Clear(es, e.offset, e.compSize) && e.compSize > 0
    ensures Apart(es[slot := e])
  {
    var es' := es[slot := e];
    forall i, j | 0 <= i < |es'| && 0 <= j < |es'| && i != j ensures Disjoint(es', i, j) {
      if i != slot && j != slot { assert Disjoint(es, i, j); }
    }
  }

  lemma RetireApart(es: seq<Entry>, slot: nat)
    requires Apart(es) && slot < |es|
    ensures Apart(es[slot := Retire(es[slot])])
  {
    var es' := es[slot := Retire(es[slot])];
    forall i, j | 0 <= i < |es'| && 0 <= j < |es'| && i != j ensures Disjoint(es', i, j) {
      assert Disjoint(es, i, j);
    }
  }

  /** Storing a block in a clear stretch leaves a table that represents the longer queue. */
  lemma InsertRepresents(es: seq<Entry>, area: seq<Byte>, items: seq<Item>, issued: set<nat>, next: nat, e: Entry,
      it: Item)
    requires Represents(es, area, items, issued, next)
    requires it.slot < |es| && !es[it.slot].used && it.gen == es[it.slot].generation + 1 < WORD
    requires Tied(es[it.slot := e], it) && e.allocSeq == next && Unpacks(it)
    requires e.offset + e.compSize <= |area| && Clear(es, e.offset, e.compSize)
    ensures Handle(it) !in issued
    ensures Represents(es[it.slot := e], Splice(area, e.offset, it.packed), items + [it], issued + {Handle(it)},
              next + 1)
  {
    HandleParts(it.slot, it.gen);
    InsertTied(es, items, next, e, it);
    InsertStored(es, area, items, e, it);
    InsertApart(es, it.slot, e);
    forall k | 0 <= k < |items + [it]| ensures Known(issued + {Handle(it)}, (items + [it])[k]) {
      if k < |items| { assert Known(issued, items[k]); }
    }
  }

  /** A zeroed table represents the empty store. */
  lemma EmptyRepresents(es: seq<Entry>, area: seq<Byte>, next: nat)
    requires |es| <= MAX_ENTRIES && forall i :: 0 <= i < |es| ==> es[i] == EmptyEntry
    ensures Represents(es, area, [], {}, next)
  {
  }

  // ------------------------------------------------------------------ handles

  /** The check mp_decompress_block and mp_free_compressed make on a handle. */
  predicate Accepts(es: seq<Entry>, h: nat) {
    && h != 0 && HandleSlot(h) < |es|
    && es[HandleSlot(h)].used && es[HandleSlot(h)].generation == HandleGen(h)
  }

  lemma RepresentsDistinct(es: seq<Entry>, area: seq<Byte>, items: seq<Item>, issued: set<nat>, next: nat)
    requires Represents(es, area, items, issued, next)
    ensures Distinct(items)
  {
    forall i, j | 0 <= i < j < |items| ensures Handle(items[i]) != Handle(items[j]) {
      assert Tied(es, items[i]) && Tied(es, items[j]);
      SlotsDistinct(es, items, next, i, j);
      HandleParts(items[i].slot, items[i].gen);
      HandleParts(items[j].slot, items[j].gen);
    }
  }

  /** The table accepts a handle exactly when the queue holds a block under it. */
  lemma AcceptsIffStored(es: seq<Entry>, area: seq<Byte>, items: seq<Item>, issued: set<nat>, next: nat, h: nat)
    requires Represents(es, area, items, issued, next) && h < WORD * WORD
    ensures Accepts(es, h) <==> Lookup(items, h).Some?
    ensures forall k :: 0 <= k < |items| && items[k].slot == HandleSlot(h) && Accepts(es, h) ==>
              Handle(items[k]) == h && Lookup(items, h) == Some(items[k].data)
  {
    RepresentsDistinct(es, area, items, issued, next);
    LookupNone(items, h);
    HandleWhole(h);
    if Accepts(es, h) {
      assert Has(items, HandleSlot(h));
      var k :| 0 <= k < |items| && items[k].slot == HandleSlot(h);
      assert Tied(es, items[k]);
    }
    forall k | 0 <= k < |items| && items[k].slot == HandleSlot(h) && Accepts(es, h)
      ensures Handle(items[k]) == h && Lookup(items, h) == Some(items[k].data)
    {
      assert Tied(es, items[k]);
      LookupAt(items, k);
    }
    if Lookup(items, h).Some? {
      var k :| 0 <= k < |items| && Handle(items[k]) == h;
      assert Tied(es, items[k]);
      HandleParts(items[k].slot, items[k].gen);
    }
  }

  lemma GoneAfterRemoval(items: seq<Item>, k: nat)
    requires Distinct(items) && k < |items|
    ensures Lookup(Without(items, k), Handle(items[k])).None?
  {
    LookupNone(Without(items, k), Handle(items[k]));
    forall j | 0 <= j < |Without(items, k)| ensures Handle(Without(items, k)[j]) != Handle(items[k]) {
      WithoutAt(items, k, j);
    }
  }

  lemma WithoutRemoves(v: View, k: nat)
    requires k < |v.items|
    ensures Removes(v, View(Without(v.items, k), v.issued))
  {
  }

  /** What freeing an accepted handle does. */
  lemma FreeEffect(es: seq<Entry>, area: seq<Byte>, items: seq<Item>, issued: set<nat>, next: nat, h: nat)
    returns (k: nat)
    requires Represents(es, area, items, issued, next) && h < WORD * WORD && Accepts(es, h)
    requires es[HandleSlot(h)].generation + 1 < WORD
    ensures k < |items| && Handle(items[k]) == h && es[HandleSlot(h)].compSize == Size(items[k])
    ensures Represents(es[HandleSlot(h) := Retire(es[HandleSlot(h)])], area, Without(items, k), issued, next)
    ensures Lookup(Without(items, k), h).None?
    ensures Total(items) == Total(Without(items, k)) + Size(items[k])
  {
    AcceptsIffStored(es, area, items, issued, next, h);
    assert Has(items, HandleSlot(h));
    k :| 0 <= k < |items| && items[k].slot == HandleSlot(h);
    assert Tied(es, items[k]);
    RetireRepresents(es, area, items, issued, next, k);
    RepresentsDistinct(es, area, items, issued, next);
    GoneAfterRemoval(items, k);
    TotalRemove(items, k);
  }

  /** What storing a block in a free entry and a clear stretch does. */
  lemma InsertEffect(es: seq<Entry>, area: seq<Byte>, items: seq<Item>, issued: set<nat>, next: nat, e: Entry, it: Item)
    requires Represents(es, area, items, issued, next)
    requires it.slot < |es| && !es[it.slot].used && it.gen == es[it.slot].generation + 1 < WORD
    requires it.packed != [] && UnpacksTo(it.packed, it.data)
    requires e == Entry(|it.data|, e.offset, |it.packed|, it.gen, next, true)
    requires e.offset + |it.packed| <= |area| && Clear(es, e.offset, |it.packed|)
    ensures Handle(it) !in issued
    ensures Represents(es[it.slot := e], Splice(area, e.offset, it.packed), items + [it], issued + {Handle(it)},
              next + 1)
    ensures Total(items + [it]) == Total(items) + |it.packed|
  {
    assert Tied(es[it.slot := e], it);
    InsertRepresents(es, area, items, issued, next, e, it);
    TotalAppend(items, [it]);
  }

  /** What an accepted handle points at. */
  lemma ReadEffect(es: seq<Entry>, area: seq<Byte>, items: seq<Item>, issued: set<nat>, next: nat, h: nat)
    returns (e: Entry)
    requires Represents(es, area, items, issued, next) && h < WORD * WORD && Accepts(es, h)
    ensures e == es[HandleSlot(h)] && e.offset + e.compSize <= |area|
    ensures Lookup(items, h).Some? && |Lookup(items, h).value| == e.originalSize
    ensures UnpacksTo(area[e.offset..e.offset + e.compSize], Lookup(items, h).value)
  {
    e := es[HandleSlot(h)];
    AcceptsIffStored(es, area, items, issued, next, h);
    assert Has(items, HandleSlot(h));
    var k :| 0 <= k < |items| && items[k].slot == HandleSlot(h);
    assert Tied(es, items[k]) && Holds(es, area, items[k]) && Known(issued, items[k]);
  }

  // ---------------------------------------------------------------- the store

  function RoundUp(n: nat): (r: nat)
    ensures n <= r < n + 4096 && r % 4096 == 0
  {
    (n + SLOT_SIZE - 1) / SLOT_SIZE * SLOT_SIZE
  }

  lemma RoundUpMonotone(a: nat, b: nat)
    requires a <= b
    ensures RoundUp(a) <= RoundUp(b) == (b + 4095) / 4096 * 4096
  {
  }

  /** No multiple of the slot size is the start of a clear stretch of len bytes inside the area. */
  ghost predicate NoGap(es: seq<Entry>, len: nat, areaSize: nat) {
    forall c: nat :: c * 4096 + len <= areaSize ==> !Clear(es, c * 4096, len)
  }

  /** Without stored blocks the first offset is clear. */
  lemma EmptyGap(es: seq<Entry>, len: nat, areaSize: nat)
    requires len <= areaSize && forall i :: 0 <= i < |es| ==> !es[i].used
    ensures !NoGap(es, len, areaSize)
  {
    assert Clear(es, 0 * 4096, len);
  }

  lemma NothingUsed(es: seq<Entry>, area: seq<Byte>, issued: set<nat>, next: nat)
    requires Represents(es, area, [], issued, next)
    ensures forall i :: 0 <= i < |es| ==> !es[i].used
  {
    forall i | 0 <= i < |es| ensures !es[i].used {
      assert es[i].used ==> Has([], i);
    }
  }

  /** A run of 64 bytes and more gains. */
  lemma RunIsNotPointless(data: seq<Byte>)
    ensures AllEqual(data) && |data| >= 64 ==> !NoGain(data)
  {
    RunShrinks(data);
    forall d | d == data ensures Encode(d) == Encode(data) {}
    assert IsEncoding(Encode(data), data);
  }

  /** Decodes into a fresh buffer of exactly `size` bytes; None unless it is filled. */
  method Unpack(packed: seq<Byte>, size: nat) returns (r: Option<seq<Byte>>)
    ensures r.Some? ==> |r.value| == size && UnpacksTo(packed, r.value)
    ensures forall data :: |data| == size && UnpacksTo(packed, data) ==> r == Some(data)
  {
    var out := new Byte[size];
    var n := Lz4Codec.Decompress(packed, out);
    forall data | |data| == size && UnpacksTo(packed, data) ensures n == size && out[..n] == data {
      assert Decode(packed, [], size) == Some(data);
    }
    if n != size { return None; }
    assert out[..n] == out[..];
    return Some(out[..]);
  }

  /** packed is the encoder's output for data. */
  ghost predicate IsEncoding(packed: seq<Byte>, data: seq<Byte>) {
    forall d :: d == data ==> Encode(d) == packed
  }

  /** The encoding is not shorter than the data. */
  ghost predicate NoGain(data: seq<Byte>) {
    forall p {:trigger IsEncoding(p, data)} :: IsEncoding(p, data) ==> |p| >= |data|
  }

  /** Compresses into a scratch buffer of the input's size; refuses when nothing is gained. */
  method Pack(data: seq<Byte>) returns (ok: bool, packed: seq<Byte>)
    ensures ok ==> 0 < |packed| < |data| && IsEncoding(packed, data) && UnpacksTo(packed, data)
    ensures ok <==> !NoGain(data)
  {
    var scratch := new Byte[|data|];
    var n := Lz4Codec.Compress(data, scratch);
    packed := [];
    if n <= 0 || n >= |data| {
      forall p | IsEncoding(p, data) ensures |p| >= |data| {
        assert Encode(data) == p;
      }
      return false, [];
    }
    RoundTrip(data, |data|);
    ok, packed := true, scratch[..n];
    assert UnpacksTo(packed, data);
  }

  lemma EvictDrops(v: View, need: nat, budget: nat)
    ensures Drops(v, View(EvictFor(v.items, need, budget), v.issued))
  {
    var k := EvictMinimal(v.items, need, budget);
  }

  lemma EvictStores(v: View, need: nat, budget: nat, it: Item)
    requires Handle(it) !in v.issued
    ensures Stores(v, View(EvictFor(v.items, need, budget) + [it], v.issued + {Handle(it)}), it)
  {
    var k := EvictMinimal(v.items, need, budget);
  }

  class Store {
    var entries: seq<Entry>   // empty until the area exists
    var area: seq<Byte>
    var hasArea: bool
    var nextSeq: nat
    var budget: nat
    var used: nat

    ghost var items: seq<Item>   // the stored blocks, oldest first
    ghost var issued: set<nat>   // every handle ever returned

    ghost predicate Valid()
      reads this
    {
      && nextSeq <= UINT32_MAX
      && if hasArea then
           |entries| == 4096 && Represents(entries, area, items, issued, nextSeq) && used == Total(items)
         else
           entries == [] && items == [] && issued == {} && used == 0
    }

    /** Room for the generations and sequence numbers one call can consume. */
    ghost predicate NoWrap()
      reads this
    {
      nextSeq < UINT32_MAX && forall i :: 0 <= i < |entries| ==> entries[i].generation < WORD - 2
    }

    ghost function ToView(): View
      reads this
    {
      View(items, issued)
    }

    constructor (limit: nat)
      ensures Valid() && NoWrap() && items == [] && issued == {} && budget == limit && !hasArea
    {
      entries, area, hasArea, nextSeq, budget, used := [], [], false, 0, limit, 0;
      items, issued := [], {};
    }

    /** Creates area and table on first use; a zero budget becomes the default one. */
    method EnsureArea(granted: bool, fill: nat -> Byte) returns (ok: bool)
      requires Valid()
      modifies this
      ensures Valid() && items == old(items) && issued == old(issued) && used == old(used)
      ensures ok == hasArea == (old(hasArea) || granted)
      ensures budget == if !old(hasArea) && old(budget) == 0 then DEFAULT_BUDGET else old(budget)
      ensures old(hasArea) ==> entries == old(entries) && area == old(area)
      ensures !old(hasArea) && granted ==> |area| == budget
      ensures old(NoWrap()) ==> NoWrap()
    {
      if hasArea { return true; }
      if budget == 0 { budget := DEFAULT_BUDGET; }
      if !granted { return false; }
      entries := seq(MAX_ENTRIES, _ => EmptyEntry);
      area := seq(budget, i requires 0 <= i => fill(i));
      EmptyRepresents(entries, area, nextSeq);
      hasArea := true;
      return true;
    }

    /** Index of the used entry with the smallest sequence number, or -1. */
    method FindOldest() returns (oldest: int)
      requires Valid()
      ensures items == [] ==> oldest == -1
      ensures items != [] ==> oldest == items[0].slot
    {
      var best := UINT32_MAX;
      oldest := -1;
      var i := 0;
      while i < |entries|
        invariant 0 <= i <= |entries| && best <= UINT32_MAX
        invariant oldest == -1 ==> best == UINT32_MAX
        invariant oldest != -1 ==> 0 <= oldest < i && entries[oldest].used && entries[oldest].allocSeq == best
        invariant forall j :: 0 <= j < i && entries[j].used ==> best <= entries[j].allocSeq
        invariant forall j :: 0 <= j < i && entries[j].used && entries[j].allocSeq < UINT32_MAX ==> oldest != -1
      {
        if entries[i].used && entries[i].allocSeq < best {
          best, oldest := entries[i].allocSeq, i;
        }
        i := i + 1;
      }
      if items != [] {
        assert Tied(entries, items[0]);
        var k :| 0 <= k < |items| && items[k].slot == oldest;
        assert Tied(entries, items[k]) && (k == 0 || Before(entries, items[0], items[k]));
      }
    }

    /** Evicts the oldest block, if there is one, and invalidates its handle. */
    method EvictOldest()
      requires Valid() && (items == [] || (Tied(entries, items[0]) && entries[items[0].slot].generation + 1 < WORD))
      modifies this
      ensures Valid() && issued == old(issued)
      ensures items == if old(items) == [] then [] else old(items)[1..]
      ensures old(items) != [] ==> used < old(used)
      ensures old(items) == [] ==> used == old(used)
      ensures area == old(area) && hasArea == old(hasArea) && budget == old(budget) && nextSeq == old(nextSeq)
      ensures |entries| == |old(entries)|
      ensures forall i :: 0 <= i < |entries| ==>
                entries[i] == old(entries)[i] || (old(entries)[i].used && entries[i] == Retire(old(entries)[i]))
    {
      var oldest := FindOldest();
      if oldest < 0 { return; }
      assert Tied(entries, items[0]);
      RetireRepresents(entries, area, items, issued, nextSeq, 0);
      assert Without(items, 0) == items[1..];
      used := used - entries[oldest].compSize;
      entries := entries[oldest := Retire(entries[oldest])];
      items := items[1..];
    }

    /** Retires the entry of an accepted handle. */
    method Release(handle: nat) returns (ghost k: nat)
      requires Valid() && NoWrap() && hasArea && handle < WORD * WORD && Accepts(entries, handle)
      modifies this
      ensures Valid() && issued == old(issued) && area == old(area) && budget == old(budget)
      ensures hasArea && RetiredOnly()
      ensures k < |old(items)| && Handle(old(items)[k]) == handle && items == Without(old(items), k)
      ensures Lookup(items, handle).None?
      ensures Removes(old(ToView()), ToView())
    {
      var slot := HandleSlot(handle);
      k := FreeEffect(entries, area, items, issued, nextSeq, handle);
      WithoutRemoves(ToView(), k);
      used := used - entries[slot].compSize;
      entries := entries[slot := Retire(entries[slot])];
      items := Without(items, k);
    }

    /** Frees the block behind a handle; false for a stale, evicted or foreign handle. */
    method Free(handle: nat) returns (ok: bool, ghost k: nat)
      requires Valid() && NoWrap() && handle < WORD * WORD
      modifies this
      ensures Valid() && issued == old(issued) && area == old(area) && budget == old(budget)
      ensures hasArea == old(hasArea) && RetiredOnly()
      ensures ok <==> Lookup(old(items), handle).Some?
      ensures !ok ==> items == old(items) && entries == old(entries) && used == old(used)
      ensures ok ==> k < |old(items)| && Handle(old(items)[k]) == handle && items == Without(old(items), k)
      ensures ok ==> Lookup(items, handle).None?
      ensures ok ==> Removes(old(ToView()), ToView())
    {
      k := 0;
      ok := Check(handle);
      if ok { k := Release(handle); }
    }

    /** The test both handle operations start with. */
    method Check(handle: nat) returns (ok: bool)
      requires Valid() && handle < WORD * WORD
      ensures ok <==> Accepts(entries, handle)
      ensures ok <==> Lookup(items, handle).Some?
      ensures ok ==> hasArea
    {
      if hasArea { AcceptsIffStored(entries, area, items, issued, nextSeq, handle); }
      var slot, gen := HandleSlot(handle), HandleGen(handle);
      ok := !(handle == 0 || slot >= |entries| || !entries[slot].used || entries[slot].generation != gen);
    }

    /** Copies out the bytes behind a handle; None for a rejected handle or a failed allocation. */
    method Decompress(handle: nat, allocOk: bool) returns (r: Option<seq<Byte>>)
      requires Valid() && handle < WORD * WORD
      ensures r == if allocOk then Lookup(items, handle) else None
    {
      var ok := Check(handle);
      if !ok || !allocOk { return None; }
      ghost var e := ReadEffect(entries, area, items, issued, nextSeq, handle);
      r := ReadOut(entries[HandleSlot(handle)], Lookup(items, handle).value);
    }

    /** Expands the bytes an entry points at. */
    method ReadOut(e: Entry, ghost data: seq<Byte>) returns (r: Option<seq<Byte>>)
      requires e.offset + e.compSize <= |area| && |data| == e.originalSize
      requires UnpacksTo(area[e.offset..e.offset + e.compSize], data)
      ensures r == Some(data)
    {
      r := Unpack(area[e.offset..e.offset + e.compSize], e.originalSize);
    }

    /** First unused table entry. */
    method FindEntry() returns (slot: nat)
      ensures slot <= |entries|
      ensures slot < |entries| ==> !entries[slot].used
      ensures slot == |entries| ==> forall i :: 0 <= i < |entries| ==> entries[i].used
    {
      slot := 0;
      while slot < |entries|
        invariant slot <= |entries|
        invariant forall i :: 0 <= i < slot ==> entries[i].used
      {
        if !entries[slot].used { return; }
        slot := slot + 1;
      }
    }

    /** Whether any stored block reaches into [off, off + len). */
    method IsClear(off: nat, len: nat) returns (ok: bool)
      ensures ok <==> Clear(entries, off, len)
    {
      var i := 0;
      while i < |entries|
        invariant 0 <= i <= |entries|
        invariant forall j :: 0 <= j < i ==> !Overlaps(entries[j], off, len)
      {
        if Overlaps(entries[i], off, len) { return false; }
        i := i + 1;
      }
      return true;
    }

    /** First-fit over the slot-aligned offsets; off + len exceeds the area when there is no gap. */
    method Carve(len: nat) returns (off: nat)
      ensures off % SLOT_SIZE == 0
      ensures off + len <= |area| ==> Clear(entries, off, len)
      ensures off + len <= |area| ==> forall c: nat :: c * SLOT_SIZE < off ==> !Clear(entries, c * SLOT_SIZE, len)
      ensures off + len > |area| ==> NoGap(entries, len, |area|)
    {
      var c: nat := 0;
      off := 0;
      while off + len <= |area|
        invariant off == c * SLOT_SIZE
        invariant forall d: nat :: d < c ==> !Clear(entries, d * SLOT_SIZE, len)
        decreases |area| - off
      {
        var ok := IsClear(off, len);
        if ok { return; }
        off := off + SLOT_SIZE;
        c := c + 1;
      }
    }

    /** Entries only ever change by being retired once. */
    twostate predicate RetiredOnly()
      reads this
    {
      && |entries| == |old(entries)|
      && forall i :: 0 <= i < |entries| ==>
           entries[i] == old(entries)[i] || (old(entries)[i].used && entries[i] == Retire(old(entries)[i]))
    }

    /** The stored blocks stay where they are, the one at `slot` apart. */
    twostate predicate KeptBut(slot: nat)
      reads this
    {
      && |entries| == |old(entries)| && |area| == |old(area)|
      && forall i :: 0 <= i < |entries| && i != slot ==>
           entries[i] == old(entries)[i] || (old(entries)[i].used && entries[i] == Retire(old(entries)[i]))
    }

    /** Evicts oldest first until `need` bytes fit the budget; fails only once nothing is left to evict. */
    method MakeRoom(need: nat) returns (ok: bool)
      requires Valid() && NoWrap() && hasArea
      modifies this
      ensures Valid() && hasArea && issued == old(issued) && area == old(area)
      ensures budget == old(budget) && nextSeq == old(nextSeq)
      ensures items == EvictFor(old(items), need, budget) && RetiredOnly() && (need > budget ==> items == [])
      ensures ok <==> need <= budget
      ensures ok ==> used + need <= budget
    {
      ghost var k := EvictMinimal(items, need, budget);
      while used + need > budget
        invariant Valid() && hasArea && issued == old(issued) && area == old(area)
        invariant budget == old(budget) && nextSeq == old(nextSeq)
        invariant EvictFor(items, need, budget) == EvictFor(old(items), need, budget) && RetiredOnly()
        decreases |items|
      {
        var before := used;
        if items != [] { assert Tied(entries, items[0]); }
        EvictOldest();
        if used == before {
          return false;
        }
      }
      return true;
    }

    /** Writes the packed bytes into the clear stretch at off and fills entry `slot`. */
    method Insert(slot: nat, off: nat, data: seq<Byte>, packed: seq<Byte>) returns (handle: nat)
      requires Valid() && hasArea && nextSeq < UINT32_MAX
      requires slot < |entries| && !entries[slot].used && entries[slot].generation + 1 < WORD
      requires packed != [] && UnpacksTo(packed, data)
      requires off + |packed| <= |area| && Clear(entries, off, |packed|)
      modifies this
      ensures Valid() && hasArea && budget == old(budget) && |area| == |old(area)|
      ensures |entries| == |old(entries)| && entries == old(entries)[slot := entries[slot]]
      ensures entries[slot].offset == off
      ensures handle == MakeHandle(slot, old(entries)[slot].generation + 1) && handle !in old(issued)
      ensures items == old(items) + [Item(slot, old(entries)[slot].generation + 1, data, packed)]
      ensures issued == old(issued) + {handle} && used == old(used) + |packed|
    {
      var gen := entries[slot].generation + 1;
      var e := Entry(|data|, off, |packed|, gen, nextSeq, true);
      ghost var it := Item(slot, gen, data, packed);
      InsertEffect(entries, area, items, issued, nextSeq, e, it);
      area := Splice(area, off, packed);
      entries := entries[slot := e];
      nextSeq := nextSeq + 1;
      used := used + |packed|;
      handle := MakeHandle(slot, gen);
      items := items + [it];
      issued := issued + {handle};
    }

    /** Finds an entry and a stretch for the packed bytes and stores them; 0 when either is missing. */
    method Place(data: seq<Byte>, packed: seq<Byte>) returns (handle: nat, ghost it: Item)
      requires Valid() && hasArea && nextSeq < UINT32_MAX
      requires forall i :: 0 <= i < |entries| && !entries[i].used ==> entries[i].generation + 1 < WORD
      requires packed != [] && UnpacksTo(packed, data)
      modifies this
      ensures Valid() && hasArea && budget == old(budget) && |area| == |old(area)|
      ensures handle == 0 ==> items == old(items) && issued == old(issued) && used == old(used)
      ensures handle == 0 ==> entries == old(entries) && area == old(area)
      ensures handle == 0 ==>
                (forall i :: 0 <= i < |entries| ==> entries[i].used) || NoGap(entries, RoundUp(|packed|), |area|)
      ensures handle != 0 ==> handle == Handle(it) && handle !in old(issued) && issued == old(issued) + {handle}
      ensures handle != 0 ==> it.data == data && it.packed == packed && items == old(items) + [it]
      ensures handle != 0 ==> used == old(used) + |packed| && Fitted(it)
      ensures handle != 0 ==> |old(entries)| == |entries| && entries == old(entries)[it.slot := entries[it.slot]]
    {
      it := Item(0, 0, [], []);
      var slot := FindEntry();
      if slot == |entries| { return 0, it; }
      var off := Carve(RoundUp(|packed|));
      if off + RoundUp(|packed|) > |area| { return 0, it; }
      assert Clear(entries, off, |packed|) by {
        forall i | 0 <= i < |entries| ensures !Overlaps(entries[i], off, |packed|) {
          assert !Overlaps(entries[i], off, RoundUp(|packed|));
        }
      }
      it := Item(slot, entries[slot].generation + 1, data, packed);
      handle := Insert(slot, off, data, packed);
    }

    /** Refused before anything is evicted: wrong size, no area, no budget, no scratch buffer, or no gain. */
    ghost predicate Pointless(data: seq<Byte>, granted: bool, scratchOk: bool)
      reads this
    {
      || |data| < 64 || |data| > INT_MAX || !scratchOk
      || (if hasArea then budget == 0 else !granted)
      || NoGain(data)
    }

    /** The data is stored under a new handle, beside the newest blocks that fit with it. */
    ghost predicate Accepted(v: View, data: seq<Byte>, handle: nat, it: Item)
      reads this
    {
      && handle == it.slot * 0x1_0000_0000 + it.gen && it.data == data && IsEncoding(it.packed, data)
      && items == EvictFor(v.items, |it.packed|, budget) + [it]
      && used <= budget && Lookup(items, handle) == Some(data) && Stores(v, ToView(), it) && Fitted(it)
    }

    /** The block is on the grid of slots, rounded up within the area. */
    ghost predicate Fitted(it: Item)
      reads this
    {
      && it.slot < |entries| && entries[it.slot].offset % 4096 == 0
      && entries[it.slot].offset + RoundUp(|it.packed|) <= |area|
    }

    /** The encoding exceeds the budget, or all entries are taken, or no gap is wide enough. */
    ghost predicate NoSpace(size: nat)
      reads this
    {
      || size > budget
      || (forall i :: 0 <= i < |entries| ==> entries[i].used)
      || NoGap(entries, RoundUp(size), |area|)
    }

    /** After the evictions for it, there was no place for the encoding. */
    ghost predicate Refused(v: View, data: seq<Byte>, it: Item)
      reads this
    {
      && IsEncoding(it.packed, data) && items == EvictFor(v.items, |it.packed|, budget)
      && NoSpace(|it.packed|) && Drops(v, ToView()) && (|it.packed| > budget ==> items == [])
    }

    /**
     * Stores data and returns its handle, evicting the oldest blocks that do not fit beside
     * it; 0 leaves the caller with its data.
     */
    method Compress(data: seq<Byte>, granted: bool, fill: nat -> Byte, scratchOk: bool)
      returns (handle: nat, ghost it: Item)
      requires Valid() && NoWrap()
      modifies this
      ensures Valid()
      ensures handle != 0 ==> Accepted(old(ToView()), data, handle, it)
      ensures old(Pointless(data, granted, scratchOk)) ==> handle == 0 && ToView() == old(ToView())
      ensures handle == 0 && !old(Pointless(data, granted, scratchOk)) ==> Refused(old(ToView()), data, it)
      ensures hasArea <==> old(hasArea) || (64 <= |data| <= 2147483647 && granted)
      ensures budget ==
              if !old(hasArea) && old(budget) == 0 && 64 <= |data| <= 2147483647 then 16777216 else old(budget)
      ensures old(items) == [] && AllEqual(data) && 64 <= |data| <= 2147483647 && scratchOk && hasArea && budget > 0 &&
              6 + |data| / 215 <= budget && (6 + |data| / 215 + 4095) / 4096 * 4096 <= |area| ==>
                handle != 0
      ensures old(hasArea) ==> KeptBut(it.slot) && (handle == 0 ==> RetiredOnly())
      ensures !old(hasArea) && hasArea ==> |area| == budget
    {
      handle, it := 0, Item(0, 0, [], []);
      RunIsNotPointless(data);
      if |data| == 0 || |data| < 64 || |data| > INT_MAX { return; }
      var ok := EnsureArea(granted, fill);
      if !ok || budget == 0 || !scratchOk { return; }
      assert ToView() == old(ToView());
      handle, it := PackAndAdmit(data);
      RunHasRoom(data, it);
    }

    /** A run is not turned away from an empty store whose budget and area it fits. */
    lemma RunHasRoom(data: seq<Byte>, it: Item)
      requires Valid() && hasArea
      ensures items == [] && AllEqual(data) && IsEncoding(it.packed, data) &&
              6 + |data| / 215 <= budget && (6 + |data| / 215 + 4095) / 4096 * 4096 <= |area| ==>
                !NoSpace(|it.packed|)
    {
      if items == [] && AllEqual(data) && IsEncoding(it.packed, data) {
        RunShrinks(data);
        assert |it.packed| <= 6 + |data| / 215;
        NothingUsed(entries, area, issued, nextSeq);
        RoundUpMonotone(|it.packed|, 6 + |data| / 215);
        if RoundUp(|it.packed|) <= |area| { EmptyGap(entries, RoundUp(|it.packed|), |area|); }
        assert !entries[0].used;
      }
    }

    /** Compresses the data and stores the result unless nothing is gained. */
    method PackAndAdmit(data: seq<Byte>) returns (handle: nat, ghost it: Item)
      requires Valid() && NoWrap() && hasArea
      modifies this
      ensures Valid() && hasArea && budget == old(budget) && KeptBut(it.slot) && (handle == 0 ==> RetiredOnly())
      ensures handle != 0 ==> Accepted(old(ToView()), data, handle, it)
      ensures NoGain(data) ==> handle == 0 && ToView() == old(ToView())
      ensures handle == 0 && !NoGain(data) ==> Refused(old(ToView()), data, it)
    {
      var gain, packed := Pack(data);
      if !gain { return 0, Item(0, 0, [], []); }
      handle, it := Admit(data, packed);
    }

    /** Makes room for the packed bytes and places them. */
    method Admit(data: seq<Byte>, packed: seq<Byte>) returns (handle: nat, ghost it: Item)
      requires Valid() && NoWrap() && hasArea && packed != [] && UnpacksTo(packed, data) && IsEncoding(packed, data)
      modifies this
      ensures Valid() && hasArea && budget == old(budget) && KeptBut(it.slot) && (handle == 0 ==> RetiredOnly())
      ensures handle != 0 ==> Accepted(old(ToView()), data, handle, it)
      ensures handle == 0 ==> Refused(old(ToView()), data, it)
    {
      handle, it := 0, Item(0, 0, [], packed);
      EvictDrops(ToView(), |packed|, budget);
      var room := MakeRoom(|packed|);
      if !room { return; }
      ghost var it';
      handle, it' := Place(data, packed);
      if handle != 0 {
        it := it';
        EvictStores(old(ToView()), |packed|, budget, it);
        RepresentsDistinct(entries, area, items, issued, nextSeq);
        LookupAt(items, |items| - 1);
      }
    }

    /** Changes the budget; the stored blocks stay until the next insertion. */
    method SetBudget(limit: nat, granted: bool, fill: nat -> Byte) returns (ok: bool)
      requires Valid()
      modifies this
      ensures Valid() && items == old(items) && issued == old(issued) && budget == limit
      ensures ok <==> limit == 0 || hasArea
      ensures hasArea <==> old(hasArea) || (limit > 0 && granted)
      ensures if old(hasArea) then entries == old(entries) && area == old(area) else hasArea ==> |area| == limit
    {
      budget := limit;
      ok := true;
      if limit > 0 && !hasArea {
        ok := EnsureArea(granted, fill);
      }
    }
  }
}
