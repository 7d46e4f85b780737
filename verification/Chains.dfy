/** Singly linked lists threaded through a map of next words; 0 ends a list. */
module Chains {
  function First(xs: seq<nat>): nat {
    if xs == [] then 0 else xs[0]
  }

  ghost predicate LinkAt(next: map<nat, nat>, xs: seq<nat>, i: nat)
    requires i < |xs|
  {
    xs[i] > 0 && xs[i] in next && next[xs[i]] == First(xs[i + 1..])
  }

  /** From h the next words visit exactly xs, each slot once. */
  ghost predicate Chain(next: map<nat, nat>, h: nat, xs: seq<nat>) {
    && h == First(xs)
    && (forall i: nat {:trigger LinkAt(next, xs, i)} :: i < |xs| ==> LinkAt(next, xs, i))
    && (forall i, j {:trigger xs[i], xs[j]} :: 0 <= i < j < |xs| ==> xs[i] != xs[j])
  }

  lemma ChainFrame(next: map<nat, nat>, h: nat, xs: seq<nat>, x: nat, v: nat)
    requires Chain(next, h, xs) && x !in xs
    ensures Chain(next[x := v], h, xs)
  {
    var next' := next[x := v];
    forall i: nat | i < |xs| ensures LinkAt(next', xs, i) {
      assert LinkAt(next, xs, i);
    }
  }

  lemma ChainPush(next: map<nat, nat>, h: nat, xs: seq<nat>, x: nat)
    requires Chain(next, h, xs) && x !in xs && x > 0 && x in next && next[x] == h
    ensures Chain(next, x, [x] + xs)
  {
    var ys := [x] + xs;
    assert ys[1..] == xs;
    forall i: nat | i < |ys| ensures LinkAt(next, ys, i) {
      if i > 0 {
        assert LinkAt(next, xs, i - 1);
        assert ys[i + 1..] == xs[i..];
      }
    }
  }

  lemma ChainTail(next: map<nat, nat>, h: nat, xs: seq<nat>)
    requires Chain(next, h, xs) && h != 0
    ensures xs != [] && h == xs[0] && h in next && Chain(next, next[h], xs[1..]) && h !in xs[1..]
  {
    assert LinkAt(next, xs, 0);
    var ys := xs[1..];
    forall i: nat | i < |ys| ensures LinkAt(next, ys, i) {
      assert LinkAt(next, xs, i + 1);
      assert ys[i + 1..] == xs[i + 2..];
    }
  }
}
