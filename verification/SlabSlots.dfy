/**
 * The slots of one slab class: a family of stacks threaded through the slots' next words
 * (the free list of each page, the caches of threads and CPUs, the remote-free queue), and
 * where every slot is.
 */
module SlabSlots {
  import opened Chains

  const PAGE := 65536  // SLAB_PAGE_SIZE

  datatype Where = Page(p: nat) | Tls(t: nat) | Cpu(c: nat) | Remote

  datatype Place = On(w: Where) | User

  type Heads = map<Where, nat>
  type Lists = map<Where, seq<nat>>
  type Places = map<nat, Place>

  ghost predicate Holds(lists: Lists, place: Places, w: Where, x: nat)
    requires w in lists
  {
    x in lists[w] <==> x in place && place[x] == On(w)
  }

  /** The stack w is intact, counted, and holds exactly the slots placed there. */
  ghost predicate StackOk(next: map<nat, nat>, heads: Heads, counts: Heads, lists: Lists, place: Places, w: Where)
    requires w in lists
  {
    && w in heads && w in counts
    && Chain(next, heads[w], lists[w]) && counts[w] == |lists[w]|
    && forall x {:trigger Holds(lists, place, w, x)} :: Holds(lists, place, w, x)
  }

  ghost predicate SlotOk(next: map<nat, nat>, lists: Lists, place: Places, x: nat)
    requires x in place
  {
    x > 0 && x in next && (place[x].On? ==> place[x].w in lists)
  }

  /** Every slot is in exactly one place, and every stack holds what is placed on it. */
  ghost predicate Stocked(next: map<nat, nat>, heads: Heads, counts: Heads, lists: Lists, place: Places) {
    && (forall w {:trigger StackOk(next, heads, counts, lists, place, w)} ::
          w in lists ==> StackOk(next, heads, counts, lists, place, w))
    && (forall x {:trigger SlotOk(next, lists, place, x)} :: x in place ==> SlotOk(next, lists, place, x))
  }

  /** A stack is empty exactly when its head is NULL, exactly when its count is zero. */
  lemma EmptyStack(next: map<nat, nat>, heads: Heads, counts: Heads, lists: Lists, place: Places, w: Where)
    requires Stocked(next, heads, counts, lists, place) && w in lists
    ensures w in heads && w in counts && (heads[w] == 0 <==> counts[w] == 0) && (heads[w] == 0 <==> lists[w] == [])
    ensures heads[w] != 0 ==> heads[w] in place && place[heads[w]] == On(w) && heads[w] in next
  {
    assert StackOk(next, heads, counts, lists, place, w);
    if lists[w] != [] {
      assert LinkAt(next, lists[w], 0);
      assert Holds(lists, place, w, lists[w][0]);
    }
  }

  // ---------------------------------------------------------------------------- pop

  lemma PopStack(next: map<nat, nat>, heads: Heads, counts: Heads, lists: Lists, place: Places, w: Where, x: nat,
      v: Where)
    requires Stocked(next, heads, counts, lists, place) && w in lists && w in heads && heads[w] == x != 0 && x in next
    requires w in counts && counts[w] > 0
    requires v in lists && lists[w] != []
    ensures StackOk(next, heads[w := next[x]], counts[w := counts[w] - 1], lists[w := lists[w][1..]],
              place[x := User], v)
  {
    assert StackOk(next, heads, counts, lists, place, v) && StackOk(next, heads, counts, lists, place, w);
    ChainTail(next, x, lists[w]);
    var lists', place' := lists[w := lists[w][1..]], place[x := User];
    forall y ensures Holds(lists', place', v, y) {
      assert Holds(lists, place, v, y) && Holds(lists, place, w, x) && Holds(lists, place, v, x);
      if v == w { assert y in lists[w] <==> y == x || y in lists[w][1..]; }
    }
  }

  /** The top slot of a stack goes to whoever popped it. */
  lemma PopStocked(next: map<nat, nat>, heads: Heads, counts: Heads, lists: Lists, place: Places, w: Where, x: nat)
    requires Stocked(next, heads, counts, lists, place) && w in lists && w in heads && heads[w] == x != 0
    ensures w in counts && counts[w] > 0 && x in next && x in place && place[x] == On(w) && lists[w] != []
    ensures Stocked(next, heads[w := next[x]], counts[w := counts[w] - 1], lists[w := lists[w][1..]], place[x := User])
  {
    EmptyStack(next, heads, counts, lists, place, w);
    var heads', counts', lists', place' :=
      heads[w := next[x]], counts[w := counts[w] - 1], lists[w := lists[w][1..]], place[x := User];
    forall v | v in lists' ensures StackOk(next, heads', counts', lists', place', v) {
      PopStack(next, heads, counts, lists, place, w, x, v);
    }
    forall y | y in place' ensures SlotOk(next, lists', place', y) {
      assert SlotOk(next, lists, place, y);
    }
  }

  // --------------------------------------------------------------------------- push

  lemma PushStack(next: map<nat, nat>, heads: Heads, counts: Heads, lists: Lists, place: Places, w: Where, x: nat,
      v: Where)
    requires Stocked(next, heads, counts, lists, place) && w in lists && w in heads && w in counts && x in place
    requires place[x] == User && v in lists && x > 0
    ensures StackOk(next[x := heads[w]], heads[w := x], counts[w := counts[w] + 1], lists[w := [x] + lists[w]],
              place[x := On(w)], v)
  {
    assert StackOk(next, heads, counts, lists, place, v) && StackOk(next, heads, counts, lists, place, w);
    assert Holds(lists, place, v, x) && Holds(lists, place, w, x);
    ChainFrame(next, heads[v], lists[v], x, heads[w]);
    var lists', place' := lists[w := [x] + lists[w]], place[x := On(w)];
    if v == w { ChainPush(next[x := heads[w]], heads[w], lists[w], x); }
    forall y ensures Holds(lists', place', v, y) {
      assert Holds(lists, place, v, y);
    }
  }

  /** A slot in hand goes on top of a stack. */
  lemma PushStocked(next: map<nat, nat>, heads: Heads, counts: Heads, lists: Lists, place: Places, w: Where, x: nat)
    requires Stocked(next, heads, counts, lists, place) && w in lists && x in place && place[x] == User
    ensures w in heads && w in counts
    ensures Stocked(next[x := heads[w]], heads[w := x], counts[w := counts[w] + 1], lists[w := [x] + lists[w]],
              place[x := On(w)])
  {
    assert StackOk(next, heads, counts, lists, place, w) && SlotOk(next, lists, place, x);
    var next', heads', counts', lists', place' :=
      next[x := heads[w]], heads[w := x], counts[w := counts[w] + 1], lists[w := [x] + lists[w]], place[x := On(w)];
    forall v | v in lists' ensures StackOk(next', heads', counts', lists', place', v) {
      PushStack(next, heads, counts, lists, place, w, x, v);
    }
    forall y | y in place' ensures SlotOk(next', lists', place', y) {
      assert SlotOk(next, lists, place, y);
    }
  }

  // ------------------------------------------------------------------- a new page

  /** The page a slot lies in: its address with the low bits masked off. */
  function PageOf(x: nat): nat {
    x - x % PAGE
  }

  function SlotAt(p: nat, header: nat, stride: nat, i: nat): nat {
    p + header + i * stride
  }

  /** How many slots a page has. */
  function SlotCount(header: nat, stride: nat): nat
    requires stride > 0 && header <= PAGE
  {
    (PAGE - header) / stride
  }

  lemma SlotInside(p: nat, header: nat, stride: nat, i: nat)
    requires stride > 0 && header <= PAGE && i < SlotCount(header, stride) && p % PAGE == 0
    ensures header + i * stride + stride <= PAGE && PageOf(SlotAt(p, header, stride, i)) == p
  {
    var n := SlotCount(header, stride);
    assert n * stride <= PAGE - header;
    assert (i + 1) * stride <= n * stride;
    assert (i + 1) * stride == i * stride + stride;
  }

  lemma {:induction false} SlotOrder(p: nat, header: nat, stride: nat, i: nat, j: nat)
    requires stride > 0 && i < j
    ensures SlotAt(p, header, stride, i) < SlotAt(p, header, stride, j)
  {
    assert j * stride == (j - 1) * stride + stride;
    if i < j - 1 { SlotOrder(p, header, stride, i, j - 1); }
  }

  /** The slots of a page, in address order. */
  ghost function PageSlots(p: nat, header: nat, stride: nat): seq<nat>
    requires stride > 0 && header <= PAGE
  {
    seq(SlotCount(header, stride), i requires 0 <= i => SlotAt(p, header, stride, i))
  }

  ghost predicate LinkedTo(next: map<nat, nat>, p: nat, header: nat, stride: nat, n: nat, i: nat) {
    && SlotAt(p, header, stride, i) in next
    && next[SlotAt(p, header, stride, i)] == if i + 1 < n then SlotAt(p, header, stride, i + 1) else 0
  }

  /** Slots linked in order make the chain of the page. */
  lemma PageChain(next: map<nat, nat>, p: nat, header: nat, stride: nat)
    requires stride > 0 && header <= PAGE && p > 0 && SlotCount(header, stride) > 0
    requires forall i: nat {:trigger LinkedTo(next, p, header, stride, SlotCount(header, stride), i)} ::
               i < SlotCount(header, stride) ==> LinkedTo(next, p, header, stride, SlotCount(header, stride), i)
    ensures Chain(next, SlotAt(p, header, stride, 0), PageSlots(p, header, stride))
  {
    var n, xs := SlotCount(header, stride), PageSlots(p, header, stride);
    forall i: nat | i < n ensures LinkAt(next, xs, i) {
      assert LinkedTo(next, p, header, stride, n, i);
      if i + 1 < n { assert xs[i + 1..][0] == xs[i + 1]; }
    }
    forall i, j | 0 <= i < j < |xs| ensures xs[i] != xs[j] {
      SlotOrder(p, header, stride, i, j);
    }
  }

  /** What was there before keeps its place when a page's slots are added. */
  ghost function WithPage(place: Places, p: nat, xs: seq<nat>): Places {
    map x | x in place.Keys + (set y | y in xs) :: if x in place then place[x] else On(Page(p))
  }

  ghost predicate AgreeOutside(next: map<nat, nat>, next': map<nat, nat>, xs: seq<nat>) {
    && next.Keys <= next'.Keys
    && forall x {:trigger next'[x]} :: x in next && x !in xs ==> next'[x] == next[x]
  }

  lemma ChainKept(next: map<nat, nat>, next': map<nat, nat>, h: nat, ys: seq<nat>, xs: seq<nat>)
    requires Chain(next, h, ys) && AgreeOutside(next, next', xs) && forall y :: y in ys ==> y !in xs
    ensures Chain(next', h, ys)
  {
    forall i: nat | i < |ys| ensures LinkAt(next', ys, i) {
      assert LinkAt(next, ys, i);
      assert ys[i] in ys;
    }
  }

  /** Adding a fresh page keeps everything in its place. */
  lemma PageStocked(next: map<nat, nat>, next': map<nat, nat>, heads: Heads, counts: Heads, lists: Lists,
      place: Places, p: nat, xs: seq<nat>)
    requires Stocked(next, heads, counts, lists, place) && Page(p) !in lists && AgreeOutside(next, next', xs)
    requires xs != [] && Chain(next', xs[0], xs) && forall x :: x in xs ==> x !in place && x in next'
    ensures Stocked(next', heads[Page(p) := xs[0]], counts[Page(p) := |xs|], lists[Page(p) := xs],
              WithPage(place, p, xs))
  {
    var heads', counts', lists', place' :=
      heads[Page(p) := xs[0]], counts[Page(p) := |xs|], lists[Page(p) := xs], WithPage(place, p, xs);
    forall w | w in lists' ensures StackOk(next', heads', counts', lists', place', w) {
      PageStack(next, next', heads, counts, lists, place, p, xs, w);
    }
    forall y | y in place' ensures SlotOk(next', lists', place', y) {
      if y in place {
        assert SlotOk(next, lists, place, y);
      } else {
        var i :| 0 <= i < |xs| && xs[i] == y;
        assert LinkAt(next', xs, i);
      }
    }
  }

  lemma PageStack(next: map<nat, nat>, next': map<nat, nat>, heads: Heads, counts: Heads, lists: Lists, place: Places,
      p: nat, xs: seq<nat>, w: Where)
    requires Stocked(next, heads, counts, lists, place) && Page(p) !in lists && AgreeOutside(next, next', xs)
    requires xs != [] && Chain(next', xs[0], xs) && (forall x :: x in xs ==> x !in place)
    requires (w == Page(p) || w in lists)
    ensures StackOk(next', heads[Page(p) := xs[0]], counts[Page(p) := |xs|], lists[Page(p) := xs],
              WithPage(place, p, xs), w)
  {
    var lists', place' := lists[Page(p) := xs], WithPage(place, p, xs);
    if w == Page(p) {
      forall y ensures Holds(lists', place', w, y) {
        if y in place { assert SlotOk(next, lists, place, y); }
      }
    } else {
      assert StackOk(next, heads, counts, lists, place, w);
      forall y | y in lists[w] ensures y !in xs { assert Holds(lists, place, w, y); }
      ChainKept(next, next', heads[w], lists[w], xs);
      forall y ensures Holds(lists', place', w, y) {
        assert Holds(lists, place, w, y);
      }
    }
  }

  // ---------------------------------------------------------------- counting slots

  /** The slots that are on no page: in a cache, in the queue or in user hands. */
  ghost function Off(place: Places): set<nat> {
    set x | x in place && !OnPage(place[x])
  }

  predicate OnPage(p: Place) {
    p.On? && p.w.Page?
  }

  lemma OffMove(place: Places, x: nat, p: Place)
    requires x in place
    ensures var off := |Off(place)|;
            |Off(place[x := p])| == off - (if OnPage(place[x]) then 0 else 1) + (if OnPage(p) then 0 else 1)
  {
    var rest := Off(place) - {x};
    assert Off(place) == if OnPage(place[x]) then rest else rest + {x};
    assert Off(place[x := p]) == if OnPage(p) then rest else rest + {x};
  }

  lemma OffPage(place: Places, p: nat, xs: seq<nat>)
    requires forall x :: x in xs ==> x !in place
    ensures Off(WithPage(place, p, xs)) == Off(place)
  {
  }

  ghost predicate Distinct(ys: seq<nat>) {
    forall i, j {:trigger ys[i], ys[j]} :: 0 <= i < j < |ys| ==> ys[i] != ys[j]
  }

  ghost function Elements(ys: seq<nat>): set<nat> {
    set y | y in ys
  }

  lemma {:induction false} ElementsCount(ys: seq<nat>)
    ensures |Elements(ys)| <= |ys| && (Distinct(ys) ==> |Elements(ys)| == |ys|)
  {
    if ys != [] {
      var tail := ys[1..];
      ElementsCount(tail);
      assert Elements(ys) == Elements(tail) + {ys[0]};
      if Distinct(ys) { assert ys[0] !in tail; }
    }
  }

  /** A list of distinct slots of a page that misses one of them is shorter than the page. */
  lemma MissingOne(ys: seq<nat>, xs: seq<nat>, x: nat)
    requires Distinct(ys) && x in xs && x !in ys && forall y :: y in ys ==> y in xs
    ensures |ys| < |xs|
  {
    ElementsCount(ys);
    ElementsCount(xs);
    assert Elements(ys) <= Elements(xs) - {x};
    Subset(Elements(ys), Elements(xs) - {x});
  }

  lemma {:induction false} Subset(a: set<nat>, b: set<nat>)
    requires a <= b
    ensures |a| <= |b|
  {
    if a != {} {
      var x :| x in a;
      Subset(a - {x}, b - {x});
    }
  }
}
