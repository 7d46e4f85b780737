/** What the remote-free queues guarantee over whole runs, and where the global flag falls short. */
module RemoteQueueTheorems {
  import opened Chains
  import opened RemoteQueue

  predicate InFlight(p: Place) {
    p.Queued? || p.Walking?
  }

  /** No pushed slot is lost or returned twice, and one in flight is on exactly the list it should be on. */
  lemma SlotsConserved(s: State, ls: seq<Label>, x: Slot)
    requires Init(s) && Runs(s, ls) && x in After(s, ls).place
    ensures var e := After(s, ls);
            && x in e.pushes && x in e.harvests
            && e.pushes[x] == e.harvests[x] + (if InFlight(e.place[x]) then 1 else 0)
            && (e.place[x].Queued? ==>
                  var c := e.place[x].c;
                  c in e.head && c in e.queue && x in e.queue[c] && Chain(e.next, e.head[c], e.queue[c]))
            && (e.place[x].Walking? ==>
                  var t := e.place[x].t;
                  t in e.pc && e.pc[t].Walk? && x in e.pc[t].left && Chain(e.next, e.pc[t].cur, e.pc[t].left))
  {
    InvInit(s);
    InvRun(s, ls);
    var e := After(s, ls);
    assert SlotOk(e, x);
    if e.place[x].Queued? { assert QueueOk(e, e.place[x].c); }
    if e.place[x].Walking? { assert ThreadOk(e, e.place[x].t); }
  }

  /** A non-empty class queue has its flag set, a pusher about to set it, or a harvester about to take it. */
  lemma FlagNeverMissed(s: State, ls: seq<Label>, c: nat)
    requires Init(s) && Runs(s, ls) && c < CLASSES
    ensures var e := After(s, ls);
            && c in e.queue && c in e.flag
            && (e.queue[c] != [] ==> e.flag[c] || exists t ::
                  t in e.pc && (PushingTo(e.pc[t], c) || (e.pc[t].Exchange? && e.pc[t].c == c)))
  {
    InvInit(s);
    InvRun(s, ls);
    assert QueueOk(After(s, ls), c) && Announced(After(s, ls), c);
  }

  /** No thread ever follows a pointer to nowhere. */
  lemma NoWildRead(s: State, ls: seq<Label>, t: Tid)
    requires Init(s) && Runs(s, ls) && t in After(s, ls).pc && !After(s, ls).pc[t].Idle?
    ensures Enabled(After(s, ls), Step(t))
  {
    InvInit(s);
    InvRun(s, ls);
    StepEnabled(After(s, ls), t);
  }

  lemma StepEnabled(s: State, t: Tid)
    requires Inv(s) && t in s.pc && !s.pc[t].Idle?
    ensures Runnable(s, s.pc[t])
  {
    var p := s.pc[t];
    assert ThreadOk(s, t);
    if p.Load? || p.Write? || p.Swap? {
      assert SlotOk(s, p.x) && QueueOk(s, p.c);
    } else if p.Walk? {
      if p.cur != 0 {
        ChainTail(s.next, p.cur, p.left);
        assert p.cur in p.left;
        assert SlotOk(s, p.cur);
      }
    } else if !p.SeeAll? && !p.ClearAll? {
      assert QueueOk(s, p.c);
    }
  }

  // ------------------------------------------------------------------- a harvest drains

  lemma {:induction false} RunsAppend(s: State, a: seq<Label>, b: seq<Label>)
    requires Runs(s, a) && Runs(After(s, a), b)
    ensures Runs(s, a + b) && After(s, a + b) == After(After(s, a), b)
    decreases a
  {
    if a == [] {
      assert a + b == b;
    } else {
      assert (a + b)[0] == a[0] && (a + b)[1..] == a[1..] + b;
      RunsAppend(Apply(s, a[0]), a[1..], b);
    }
  }

  lemma One(s: State, l: Label)
    requires Enabled(s, l)
    ensures Runs(s, [l]) && After(s, [l]) == Apply(s, l)
  {
    assert [l][1..] == [];
    assert Runs(Apply(s, l), []);
  }

  lemma Then(s: State, a: seq<Label>, l: Label)
    requires Runs(s, a) && Enabled(After(s, a), l)
    ensures Runs(s, a + [l]) && After(s, a + [l]) == Apply(After(s, a), l)
  {
    One(After(s, a), l);
    RunsAppend(s, a, [l]);
  }

  /** A walking harvester left to itself brings every slot of its list home. */
  lemma {:induction false} WalkHome(s: State, t: Tid) returns (ls: seq<Label>)
    requires Inv(s) && t in s.pc && s.pc[t].Walk?
    ensures Runs(s, ls)
    ensures var e := After(s, ls);
            && e.pc == s.pc[t := Onward(s.pc[t].c, s.pc[t].last)]
            && e.queue == s.queue && e.flag == s.flag && e.any == s.any
            && (forall x :: x in s.pc[t].left ==> x in e.place && e.place[x] == Home)
            && (forall x :: x in s.place && s.place[x] == Home ==> x in e.place && e.place[x] == Home)
    decreases |s.pc[t].left|
  {
    StepEnabled(s, t);
    var p, s1 := s.pc[t], Stepped(s, t);
    assert ThreadOk(s, t);
    One(s, Step(t));
    if p.cur == 0 {
      assert p.left != [] ==> LinkAt(s.next, p.left, 0);
      ls := [Step(t)];
    } else {
      ChainTail(s.next, p.cur, p.left);
      StepKeeps(s, t);
      var rest := WalkHome(s1, t);
      ls := [Step(t)] + rest;
      RunsAppend(s, [Step(t)], rest);
      forall x | x in p.left ensures x in After(s, ls).place && After(s, ls).place[x] == Home {
        assert x == p.cur || x in p.left[1..];
      }
    }
  }

  /** With no other thread in the middle of anything, remote_free_harvest returns the whole queue. */
  lemma HarvestDrains(s: State, t: Tid, c: nat) returns (ls: seq<Label>)
    requires Inv(s) && t in s.pc && c < CLASSES && (forall u :: u in s.pc ==> s.pc[u] == Idle)
    requires c in s.queue && s.queue[c] != []
    ensures Runs(s, ls)
    ensures var e := After(s, ls);
            && t in e.pc && e.pc[t] == Idle && c in e.queue && e.queue[c] == []
            && (forall x :: x in s.queue[c] ==> x in e.place && e.place[x] == Home)
  {
    assert Announced(s, c) && QueueOk(s, c);
    var s1 := Apply(s, StartHarvest(t, c));
    var s2 := Stepped(s1, t);
    var s3 := Stepped(s2, t);
    var s4 := Stepped(s3, t);
    One(s, StartHarvest(t, c));
    Then(s, [StartHarvest(t, c)], Step(t));
    Then(s, [StartHarvest(t, c)] + [Step(t)], Step(t));
    var start := [StartHarvest(t, c)] + [Step(t)] + [Step(t)] + [Step(t)];
    Then(s, [StartHarvest(t, c)] + [Step(t)] + [Step(t)], Step(t));
    assert s4 == After(s, start) && s4.pc[t] == Walk(c, c, s.head[c], s.queue[c]);
    InvRun(s, start);
    var rest := WalkHome(s4, t);
    ls := start + rest;
    RunsAppend(s, start, rest);
  }

  // ------------------------------------------------------- whole operations, run alone

  /** What a harvest of class c, alone, does. */
  ghost predicate Drained(s: State, e: State, c: nat) {
    && c in s.flag && c in e.flag && c in s.queue && c in e.queue && !e.flag[c]
    && (if s.flag[c] then e.queue[c] == [] else e.queue[c] == s.queue[c])
    && (s.flag[c] ==> forall x :: x in s.queue[c] ==> x in e.place && e.place[x] == Home)
  }

  ghost predicate Alike(s: State, e: State, c: nat) {
    c in s.flag && c in e.flag && c in s.queue && c in e.queue && e.flag[c] == s.flag[c] && e.queue[c] == s.queue[c]
  }

  /** Slots that were home are home. */
  ghost predicate StillHome(s: State, e: State) {
    forall x {:trigger s.place[x]} {:trigger e.place[x]} ::
      x in s.place && s.place[x] == Home ==> x in e.place && e.place[x] == Home
  }

  /** One class of a sweep: skipped if its flag is down, emptied otherwise. */
  lemma DrainClass(s: State, t: Tid, c: nat) returns (ls: seq<Label>)
    requires Inv(s) && t in s.pc && s.pc[t].See? && s.pc[t].c == c < CLASSES
    ensures Runs(s, ls) && Inv(After(s, ls))
    ensures var e := After(s, ls);
            && e.pc == s.pc[t := Onward(c, s.pc[t].last)] && e.any == s.any && Drained(s, e, c) && StillHome(s, e)
            && forall d: nat {:trigger Alike(s, e, d)} :: d < CLASSES && d != c ==> Alike(s, e, d)
  {
    assert QueueOk(s, c);
    if s.flag[c] {
      ls := DrainFlagged(s, t, c);
    } else {
      ls := [Step(t)];
      One(s, Step(t));
      forall d: nat | d < CLASSES && d != c ensures Alike(s, After(s, ls), d) {
        assert QueueOk(s, d);
      }
    }
    InvRun(s, ls);
  }

  lemma DrainFlagged(s: State, t: Tid, c: nat) returns (ls: seq<Label>)
    requires Inv(s) && t in s.pc && s.pc[t].See? && s.pc[t].c == c < CLASSES && c in s.flag && s.flag[c]
    ensures Runs(s, ls)
    ensures var e := After(s, ls);
            && e.pc == s.pc[t := Onward(c, s.pc[t].last)] && e.any == s.any && Drained(s, e, c) && StillHome(s, e)
            && forall d: nat {:trigger Alike(s, e, d)} :: d < CLASSES && d != c ==> Alike(s, e, d)
  {
    ls := TakeQueue(s, t, c);
    var m := After(s, ls);
    InvRun(s, ls);
    var rest := WalkHome(m, t);
    assert m.pc[t := Onward(c, s.pc[t].last)] == s.pc[t := Onward(c, s.pc[t].last)];
    RunsAppend(s, ls, rest);
    ls := ls + rest;
    var e := After(s, ls);
    forall d: nat | d < CLASSES && d != c ensures Alike(s, e, d) {
      assert Alike(s, m, d);
    }
  }

  /** The flag goes down and the queue is taken. */
  lemma TakeQueue(s: State, t: Tid, c: nat) returns (ls: seq<Label>)
    requires Inv(s) && t in s.pc && s.pc[t].See? && s.pc[t].c == c < CLASSES && c in s.flag && s.flag[c]
    ensures Runs(s, ls)
    ensures c in s.head && c in s.queue
    ensures var m := After(s, ls);
            && m.pc == s.pc[t := Walk(c, s.pc[t].last, s.head[c], s.queue[c])] && m.any == s.any
            && m.flag == s.flag[c := false] && m.queue == s.queue[c := []] && StillHome(s, m)
            && forall d: nat {:trigger Alike(s, m, d)} :: d < CLASSES && d != c ==> Alike(s, m, d)
  {
    assert QueueOk(s, c);
    ls := [Step(t)];
    One(s, Step(t));
    Then(s, ls, Step(t));
    ls := ls + [Step(t)];
    Then(s, ls, Step(t));
    ls := ls + [Step(t)];
    var m := After(s, ls);
    assert m.pc[t] == Walk(c, s.pc[t].last, s.head[c], s.queue[c]);
    forall d: nat | d < CLASSES && d != c ensures Alike(s, m, d) {
      assert QueueOk(s, d);
    }
    forall x | x in s.place && s.place[x] == Home ensures x in m.place && m.place[x] == Home {
      NotQueued(s, c, x);
    }
  }

  /** What is home is on no queue. */
  lemma NotQueued(s: State, c: nat, x: Slot)
    requires Inv(s) && c < CLASSES && x in s.place && s.place[x] == Home
    ensures c in s.queue && x !in s.queue[c]
  {
    assert QueueOk(s, c);
    if x in s.queue[c] {
      assert false;
    }
  }

  /** A sweep from class c to the last. */
  lemma {:induction false} DrainFrom(s: State, t: Tid, c: nat) returns (ls: seq<Label>)
    requires Inv(s) && t in s.pc && c < CLASSES && s.pc[t] == See(c, CLASSES - 1)
    ensures Runs(s, ls)
    ensures var e := After(s, ls);
            && e.pc == s.pc[t := Idle] && e.any == s.any && StillHome(s, e)
            && (forall d: nat {:trigger Drained(s, e, d)} :: c <= d < CLASSES ==> Drained(s, e, d))
            && (forall d: nat {:trigger Alike(s, e, d)} :: d < c ==> Alike(s, e, d))
    decreases CLASSES - c
  {
    ls := DrainClass(s, t, c);
    if c + 1 < CLASSES {
      var m := After(s, ls);
      var rest := DrainFrom(m, t, c + 1);
      RunsAppend(s, ls, rest);
      ls := ls + rest;
      assert m.pc[t := Idle] == s.pc[t := Idle];
      DrainsAdd(s, m, After(s, ls), c);
    }
  }

  /** Class c first, then the ones behind it. */
  lemma DrainsAdd(s: State, m: State, e: State, c: nat)
    requires c < CLASSES && Drained(s, m, c) && StillHome(s, m) && StillHome(m, e)
    requires forall d: nat {:trigger Alike(s, m, d)} :: d < CLASSES && d != c ==> Alike(s, m, d)
    requires forall d: nat {:trigger Drained(m, e, d)} :: c < d < CLASSES ==> Drained(m, e, d)
    requires forall d: nat {:trigger Alike(m, e, d)} :: d <= c ==> Alike(m, e, d)
    ensures StillHome(s, e)
    ensures forall d: nat {:trigger Drained(s, e, d)} :: c <= d < CLASSES ==> Drained(s, e, d)
    ensures forall d: nat {:trigger Alike(s, e, d)} :: d < c ==> Alike(s, e, d)
  {
    forall x | x in s.place && s.place[x] == Home ensures x in e.place && e.place[x] == Home {
      assert m.place[x] == Home;
    }
    forall d: nat | c <= d < CLASSES ensures Drained(s, e, d) {
      if d == c {
        DrainedStays(s, m, e, c);
      } else {
        assert Alike(s, m, d) && Drained(m, e, d);
      }
    }
    forall d: nat | d < c ensures Alike(s, e, d) {
      assert Alike(s, m, d) && Alike(m, e, d);
    }
  }

  lemma DrainedStays(s: State, m: State, e: State, c: nat)
    requires Drained(s, m, c) && Alike(m, e, c) && StillHome(m, e)
    ensures Drained(s, e, c)
  {
    if s.flag[c] {
      forall x | x in s.queue[c] ensures x in e.place && e.place[x] == Home {
        assert m.place[x] == Home;
      }
    }
  }

  /**
   * remote_free_harvest_all with nobody in between: nothing at all if the global flag is down,
   * otherwise the flag goes down and each of the twelve classes with its flag up is emptied.
   */
  lemma SweepWhole(s: State, t: Tid) returns (ls: seq<Label>)
    requires Inv(s) && t in s.pc && s.pc[t].Idle?
    ensures Runs(s, ls)
    ensures !s.any ==> After(s, ls) == s
    ensures s.any ==>
              var e := After(s, ls);
              && e.pc == s.pc && !e.any && StillHome(s, e)
              && forall c: nat {:trigger Drained(s, e, c)} :: c < 12 ==> Drained(s, e, c)
  {
    if s.any {
      ls := SweepStarts(s, t);
      var m := After(s, ls);
      InvRun(s, ls);
      var rest := DrainFrom(m, t, 0);
      RunsAppend(s, ls, rest);
      ls := ls + rest;
      assert After(s, ls).pc == s.pc;
      forall c: nat | c < 12 ensures Drained(s, After(s, ls), c) {
        assert Drained(m, After(s, ls), c);
      }
    } else {
      ls := [StartAll(t)];
      One(s, StartAll(t));
      Then(s, ls, Step(t));
      ls := ls + [Step(t)];
      assert After(s, ls).pc == s.pc;
    }
  }

  /**
   * remote_free_push with nobody in between: x is the head, its next word is the head of before, and
   * both flags are up.  A compare-exchange that fails rereads the head.
   */
  lemma PushWhole(s: State, t: Tid, c: nat, x: Slot) returns (ls: seq<Label>)
    requires Inv(s) && t in s.pc && s.pc[t].Idle? && c < CLASSES && x in s.place && s.place[x] == Out
    ensures Runs(s, ls) && c in s.head && c in s.queue && x in s.pushes
    ensures After(s, ls) ==
            s.(head := s.head[c := x], next := s.next[x := s.head[c]], queue := s.queue[c := [x] + s.queue[c]],
               place := s.place[x := Queued(c)], pushes := s.pushes[x := s.pushes[x] + 1],
               any := true, flag := s.flag[c := true])
  {
    assert QueueOk(s, c) && SlotOk(s, x);
    ls := PushAlone(s, t, c, x);
    Then(s, ls, Step(t));
    ls := ls + [Step(t)];
    assert After(s, ls).pc == s.pc && After(s, ls).place == s.place[x := Queued(c)];
  }

  /** A compare-exchange that finds another head, or fails spuriously, changes no shared word. */
  lemma SwapRetries(s: State, t: Tid)
    requires Inv(s) && t in s.pc && s.pc[t].Swap?
    ensures var p := s.pc[t];
            && p.c in s.head
            && Apply(s, Spurious(t)) == s.(pc := s.pc[t := Write(p.c, p.x, s.head[p.c])])
            && (s.head[p.c] != p.seen ==>
                  Runnable(s, p) && Stepped(s, t) == s.(pc := s.pc[t := Write(p.c, p.x, s.head[p.c])]))
  {
    assert ThreadOk(s, t);
    StepEnabled(s, t);
  }

  // --------------------------------------------------------------------- the global flag

  /** Thread p is on its way to take the queue of class c. */
  predicate Visiting(p: Pc, c: nat) {
    || p.ClearAll?
    || ((p.See? || p.Clear? || p.Exchange?) && p.c <= c <= p.last)
    || (p.Walk? && p.c < c <= p.last)
  }

  /** remote_free_pending is set for a non-empty queue, about to be set, or a sweep is on its way. */
  ghost predicate Covered(s: State, c: nat) {
    c in s.queue && s.queue[c] != [] ==>
      s.any || exists t :: t in s.pc && (s.pc[t] == TellAll(c) || Visiting(s.pc[t], c))
  }

  /** A sweep skips class c while a pusher has set the global flag but not yet the class flag. */
  ghost predicate InWindow(s: State, l: Label, c: nat) {
    && l.Step? && l.t in s.pc && s.pc[l.t].See? && s.pc[l.t].c == c
    && c in s.flag && !s.flag[c] && exists u :: u in s.pc && s.pc[u] == TellClass(c)
  }

  /** Any other step keeps a class covered. */
  lemma UncoveredOnlyInWindow(s: State, l: Label, c: nat)
    requires Inv(s) && Enabled(s, l) && c < CLASSES && Covered(s, c) && !InWindow(s, l, c)
    ensures Covered(Apply(s, l), c)
  {
    var s' := Apply(s, l);
    assert QueueOk(s, c);
    if s'.queue[c] != [] && !s'.any {
      if s.queue[c] == [] {
        assert l.Step? && s'.pc[l.t] == TellAll(c);
      } else if s.any {
        assert l.Step? && s.pc[l.t].ClearAll? && Visiting(s'.pc[l.t], c);
      } else {
        var t :| t in s.pc && (s.pc[t] == TellAll(c) || Visiting(s.pc[t], c));
        StillCovered(s, l, c, t);
      }
    }
  }

  lemma OnlyItself(s: State, u: Tid, t: Tid)
    requires u in s.pc && Runnable(s, s.pc[u]) && t in s.pc && t != u
    ensures t in Stepped(s, u).pc && Stepped(s, u).pc[t] == s.pc[t]
  {
  }

  /** A step by anyone else leaves t where it is. */
  lemma Unmoved(s: State, l: Label, t: Tid)
    requires Enabled(s, l) && t in s.pc && !s.pc[t].Idle? && !s.pc[t].Swap? && l != Step(t)
    ensures t in Apply(s, l).pc && Apply(s, l).pc[t] == s.pc[t]
  {
    if l.Step? { OnlyItself(s, l.t, t); }
  }

  /** A sweep that passes class c without taking its queue met a flag that was down. */
  lemma PassesOn(s: State, t: Tid, c: nat)
    requires Inv(s) && t in s.pc && Runnable(s, s.pc[t]) && c < CLASSES && c in s.queue && Visiting(s.pc[t], c)
    requires c in Stepped(s, t).queue && Stepped(s, t).queue[c] != [] && c in s.flag
    ensures Visiting(Stepped(s, t).pc[t], c) || (s.pc[t].See? && s.pc[t].c == c && !s.flag[c])
  {
    assert ThreadOk(s, t);
  }

  lemma StillCovered(s: State, l: Label, c: nat, t: Tid)
    requires Inv(s) && Enabled(s, l) && c < CLASSES && !InWindow(s, l, c) && c in s.queue && s.queue[c] != []
    requires c in s.flag
    requires c in Apply(s, l).queue && Apply(s, l).queue[c] != [] && !Apply(s, l).any
    requires t in s.pc && (s.pc[t] == TellAll(c) || Visiting(s.pc[t], c))
    ensures exists u :: u in Apply(s, l).pc && (Apply(s, l).pc[u] == TellAll(c) || Visiting(Apply(s, l).pc[u], c))
  {
    if l != Step(t) {
      Unmoved(s, l, t);
    } else if Visiting(s.pc[t], c) {
      PassesOn(s, t, c);
      if !Visiting(Stepped(s, t).pc[t], c) {
        assert Announced(s, c);
        var u :| u in s.pc && (PushingTo(s.pc[u], c) || (s.pc[u].Exchange? && s.pc[u].c == c));
        assert ThreadOk(s, u);
        Unmoved(s, l, u);
      }
    }
  }

  /** Nobody but t is about to raise the global flag or to visit class c. */
  ghost predicate LastHope(s: State, t: Tid, c: nat) {
    forall u {:trigger s.pc[u]} :: u in s.pc && u != t ==> s.pc[u] != TellAll(c) && !Visiting(s.pc[u], c)
  }

  /** In the window, with nobody else to rely on, the skip does leave the queue uncovered. */
  lemma SkipUncovers(s: State, l: Label, c: nat)
    requires Enabled(s, l) && InWindow(s, l, c) && c in s.queue && s.queue[c] != [] && !s.any && LastHope(s, l.t, c)
    ensures !Covered(Apply(s, l), c)
  {
    var s' := Apply(s, l);
    forall u | u in s'.pc ensures s'.pc[u] != TellAll(c) && !Visiting(s'.pc[u], c) {
      if u != l.t { OnlyItself(s, l.t, u); }
    }
  }

  /** Exactly which steps leave a non-empty queue without the global flag. */
  lemma UncoveredIff(s: State, l: Label, c: nat)
    requires Inv(s) && Enabled(s, l) && c < CLASSES && Covered(s, c)
    ensures c in s.queue
    ensures !Covered(Apply(s, l), c) <==> InWindow(s, l, c) && s.queue[c] != [] && !s.any && LastHope(s, l.t, c)
  {
    assert QueueOk(s, c);
    if !InWindow(s, l, c) {
      UncoveredOnlyInWindow(s, l, c);
    } else if s.queue[c] != [] && !s.any {
      if LastHope(s, l.t, c) {
        SkipUncovers(s, l, c);
      } else {
        var u :| u in s.pc && u != l.t && (s.pc[u] == TellAll(c) || Visiting(s.pc[u], c));
        OnlyItself(s, l.t, u);
      }
    }
  }

  /** A run that never steps into the window. */
  ghost predicate Windowless(s: State, ls: seq<Label>, c: nat)
    requires Runs(s, ls)
    decreases ls
  {
    ls == [] || (!InWindow(s, ls[0], c) && Windowless(Apply(s, ls[0]), ls[1..], c))
  }

  /** In such runs the gate of mp_alloc never closes on a non-empty queue for good. */
  lemma {:induction false} GlobalFlagSafe(s: State, ls: seq<Label>, c: nat)
    requires Inv(s) && Runs(s, ls) && c < CLASSES && Covered(s, c) && Windowless(s, ls, c)
    ensures Covered(After(s, ls), c)
    decreases ls
  {
    if ls != [] {
      UncoveredOnlyInWindow(s, ls[0], c);
      InvStep(s, ls[0]);
      GlobalFlagSafe(Apply(s, ls[0]), ls[1..], c);
    }
  }

  /** A sweep over classes whose flags are down passes them all. */
  lemma {:induction false} SweepPasses(s: State, u: Tid, c: nat) returns (ls: seq<Label>)
    requires u in s.pc && c < CLASSES && s.pc[u] == See(c, CLASSES - 1)
    requires forall d: nat {:trigger d in s.flag} :: c <= d < CLASSES ==> d in s.flag && !s.flag[d]
    ensures Runs(s, ls) && After(s, ls) == s.(pc := s.pc[u := Idle])
    decreases CLASSES - c
  {
    var s1 := Stepped(s, u);
    One(s, Step(u));
    ls := [Step(u)];
    if c + 1 < CLASSES {
      var rest := SweepPasses(s1, u, c + 1);
      RunsAppend(s, ls, rest);
      ls := ls + rest;
      assert s1.pc[u := Idle] == s.pc[u := Idle];
    }
  }

  /** A push that nobody disturbs, up to the point between its two flag stores. */
  lemma PushAlone(s: State, t: Tid, c: nat, x: Slot) returns (ls: seq<Label>)
    requires t in s.pc && s.pc[t].Idle? && c < CLASSES && x in s.place && s.place[x] == Out
    requires c in s.head && c in s.queue && x in s.next && x in s.pushes
    ensures Runs(s, ls)
    ensures var e := After(s, ls);
            && e.pc == s.pc[t := TellClass(c)] && e.any && e.flag == s.flag
            && e == s.(pc := e.pc, head := s.head[c := x], next := s.next[x := s.head[c]], any := true,
                       queue := s.queue[c := [x] + s.queue[c]], place := e.place,
                       pushes := s.pushes[x := s.pushes[x] + 1])
            && e.place == s.place[x := Pushing(t)][x := Queued(c)]
  {
    var s1 := Apply(s, StartPush(t, c, x));
    var s2 := Stepped(s1, t);
    var s3 := Stepped(s2, t);
    var s4 := Stepped(s3, t);
    var s5 := Stepped(s4, t);
    ls := [StartPush(t, c, x)];
    One(s, StartPush(t, c, x));
    Then(s, ls, Step(t));
    ls := ls + [Step(t)];
    Then(s, ls, Step(t));
    ls := ls + [Step(t)];
    Then(s, ls, Step(t));
    ls := ls + [Step(t)];
    Then(s, ls, Step(t));
    ls := ls + [Step(t)];
    assert After(s, ls) == s5 && s5.pc == s.pc[t := TellClass(c)];
  }

  /** A sweep starts and clears the global flag. */
  lemma SweepStarts(s: State, u: Tid) returns (ls: seq<Label>)
    requires u in s.pc && s.pc[u].Idle? && s.any
    ensures Runs(s, ls) && After(s, ls) == s.(any := false, pc := s.pc[u := See(0, CLASSES - 1)])
  {
    ls := [StartAll(u)];
    One(s, StartAll(u));
    Then(s, ls, Step(u));
    ls := ls + [Step(u)];
    Then(s, ls, Step(u));
    ls := ls + [Step(u)];
    assert After(s, ls).pc == s.pc[u := See(0, CLASSES - 1)];
  }

  /** The first half of the bad run: t has pushed x and set the global flag, u has cleared it. */
  lemma WindowOpens(s: State, t: Tid, u: Tid, x: Slot) returns (ls: seq<Label>)
    requires Init(s) && t in s.pc && u in s.pc && t != u && x in s.place
    ensures Runs(s, ls)
    ensures var e := After(s, ls);
            && e.pc == s.pc[t := TellClass(0)][u := See(0, CLASSES - 1)] && !e.any && e.flag == s.flag
            && 0 in e.queue && e.queue[0] == [x]
  {
    assert 0 in s.queue;
    ls := [Allocate(x)];
    One(s, Allocate(x));
    var push := PushAlone(After(s, ls), t, 0, x);
    RunsAppend(s, ls, push);
    ls := ls + push;
    var sweep := SweepStarts(After(s, ls), u);
    RunsAppend(s, ls, sweep);
    ls := ls + sweep;
  }

  /**
   * The global flag can be down for good over a non-empty queue: from every initial state a push
   * and one sweep can end with all threads idle, x still queued and remote_free_pending 0.
   */
  lemma GlobalFlagMissed(s: State, t: Tid, u: Tid, x: Slot) returns (ls: seq<Label>)
    requires Init(s) && t in s.pc && u in s.pc && t != u && x in s.place
    ensures Runs(s, ls)
    ensures var e := After(s, ls);
            && (forall v :: v in e.pc ==> e.pc[v] == Idle) && !e.any && 0 in e.queue && e.queue[0] == [x]
            && !Covered(e, 0)
  {
    ls := WindowOpens(s, t, u, x);
    var e := After(s, ls);
    forall d: nat | d < CLASSES ensures d in s.queue && d in e.flag && !e.flag[d] {
      assert d in s.queue;
    }
    var rest := SweepPasses(e, u, 0);
    RunsAppend(s, ls, rest);
    ls := ls + rest;
    var f := After(s, ls);
    assert 0 in s.queue && f.pc[t] == TellClass(0);
    Then(s, ls, Step(t));
    ls := ls + [Step(t)];
    assert After(s, ls).pc == f.pc[t := Idle];
  }
}
