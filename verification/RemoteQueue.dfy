/**
 * The lock-free queues of slots freed by other threads, one per slab class, as a step
 * system.  Every step is one access to a shared word, or one edit of memory only the
 * acting thread can see.  Accesses are sequentially consistent; a compare-exchange may
 * fail spuriously.  Class locks are left out, which only adds interleavings.
 */
module RemoteQueue {
  import opened Chains

  const CLASSES := 12  // SLAB_CLASS_COUNT

  type Slot = nat
  type Tid = nat

  /** Where a slot is: in its page, in user hands, in a push, in a queue, or in a harvest. */
  datatype Place = Home | Out | Pushing(t: Tid) | Queued(c: nat) | Walking(t: Tid)

  /** Program points of remote_free_push, remote_free_harvest_all and remote_free_harvest. */
  datatype Pc =
    | Idle
    | Load(c: nat, x: Slot)
    | Write(c: nat, x: Slot, seen: Slot)         // about to write x's next word
    | Swap(c: nat, x: Slot, seen: Slot)          // about to compare-exchange the head
    | TellAll(c: nat)                           // about to set remote_free_pending
    | TellClass(c: nat)                         // about to set the flag of class c
    | SeeAll                                    // about to load remote_free_pending
    | ClearAll
    | See(c: nat, last: nat)                    // about to load the flag of class c
    | Clear(c: nat, last: nat)
    | Exchange(c: nat, last: nat)
    | Walk(c: nat, last: nat, cur: Slot, left: seq<Slot>)  // `left` is what cur should reach

  datatype State = State(
    head: map<nat, Slot>,
    next: map<Slot, Slot>,
    flag: map<nat, bool>,          // remote_free_pending_class
    any: bool,                     // remote_free_pending
    pc: map<Tid, Pc>,
    queue: map<nat, seq<Slot>>,    // what each head should reach
    place: map<Slot, Place>,
    pushes: map<Slot, nat>,        // successful pushes of each slot so far
    harvests: map<Slot, nat>)      // returns of each slot to its page so far

  datatype Label =
    | StartPush(t: Tid, c: nat, x: Slot)
    | StartHarvest(t: Tid, c: nat)
    | StartAll(t: Tid)
    | Step(t: Tid)
    | Spurious(t: Tid)
    | Allocate(x: Slot)            // a slot leaves its page
    | Scribble(x: Slot, v: Slot)   // the page or the user overwrites the next word

  predicate Enabled(s: State, l: Label) {
    match l
    case StartPush(t, c, x) => t in s.pc && s.pc[t].Idle? && c < CLASSES && x in s.place && s.place[x] == Out
    case StartHarvest(t, c) => t in s.pc && s.pc[t].Idle? && c < CLASSES
    case StartAll(t) => t in s.pc && s.pc[t].Idle?
    case Step(t) => t in s.pc && Runnable(s, s.pc[t])
    case Spurious(t) => t in s.pc && s.pc[t].Swap? && s.pc[t].c in s.head
    case Allocate(x) => x in s.place && s.place[x] == Home
    case Scribble(x, v) => x in s.place && x in s.next && (s.place[x] == Home || s.place[x] == Out)
  }

  /** The words the next step of a thread touches exist. */
  predicate Runnable(s: State, p: Pc) {
    match p
    case Idle => false
    case Load(c, x) => c in s.head
    case Write(c, x, seen) => x in s.next
    case Swap(c, x, seen) => c in s.head && c in s.queue && x in s.place && x in s.pushes
    case TellAll(c) => true
    case TellClass(c) => c in s.flag
    case SeeAll => true
    case ClearAll => true
    case See(c, last) => c in s.flag
    case Clear(c, last) => c in s.flag
    case Exchange(c, last) => c in s.head && c in s.queue
    case Walk(c, last, cur, left) => cur == 0 || (cur in s.next && cur in s.harvests && cur in s.place)
  }

  /** After class c: the next class of the sweep, or the end of it. */
  function Onward(c: nat, last: nat): Pc {
    if c < last then See(c + 1, last) else Idle
  }

  /** Where thread t goes. */
  function NextPc(s: State, p: Pc): Pc
    requires Runnable(s, p)
  {
    match p
    case Idle => Idle
    case Load(c, x) => Write(c, x, s.head[c])
    case Write(c, x, seen) => Swap(c, x, seen)
    case Swap(c, x, seen) => if s.head[c] == seen then TellAll(c) else Write(c, x, s.head[c])
    case TellAll(c) => TellClass(c)
    case TellClass(c) => Idle
    case SeeAll => if s.any then ClearAll else Idle
    case ClearAll => See(0, CLASSES - 1)
    case See(c, last) => if s.flag[c] then Clear(c, last) else Onward(c, last)
    case Clear(c, last) => Exchange(c, last)
    case Exchange(c, last) => Walk(c, last, s.head[c], s.queue[c])
    case Walk(c, last, cur, left) =>
      if cur == 0 then Onward(c, last) else Walk(c, last, s.next[cur], if left == [] then [] else left[1..])
  }

  /** What thread t does to the shared words. */
  function Effect(s: State, t: Tid): State
    requires t in s.pc && Runnable(s, s.pc[t])
  {
    match s.pc[t]
    case Idle => s
    case Load(c, x) => s
    case Write(c, x, seen) => s.(next := s.next[x := seen])
    case Swap(c, x, seen) =>
      if s.head[c] == seen then
        s.(head := s.head[c := x], queue := s.queue[c := [x] + s.queue[c]],
           place := s.place[x := Queued(c)], pushes := s.pushes[x := s.pushes[x] + 1])
      else s
    case TellAll(c) => s.(any := true)
    case TellClass(c) => s.(flag := s.flag[c := true])
    case SeeAll => s
    case ClearAll => s.(any := false)
    case See(c, last) => s
    case Clear(c, last) => s.(flag := s.flag[c := false])
    case Exchange(c, last) =>
      s.(head := s.head[c := 0], queue := s.queue[c := []], place := Moved(s.place, s.queue[c], Walking(t)))
    case Walk(c, last, cur, left) =>
      if cur == 0 then s else s.(place := s.place[cur := Home], harvests := s.harvests[cur := s.harvests[cur] + 1])
  }

  /** One step of thread t. */
  function Stepped(s: State, t: Tid): State
    requires t in s.pc && Runnable(s, s.pc[t])
  {
    Effect(s, t).(pc := s.pc[t := NextPc(s, s.pc[t])])
  }

  /** The slots xs are now at p. */
  function Moved(place: map<Slot, Place>, xs: seq<Slot>, p: Place): map<Slot, Place> {
    map x | x in place :: if x in xs then p else place[x]
  }

  function Apply(s: State, l: Label): State
    requires Enabled(s, l)
  {
    match l
    case StartPush(t, c, x) => s.(pc := s.pc[t := Load(c, x)], place := s.place[x := Pushing(t)])
    case StartHarvest(t, c) => s.(pc := s.pc[t := See(c, c)])
    case StartAll(t) => s.(pc := s.pc[t := SeeAll])
    case Step(t) => Stepped(s, t)
    case Spurious(t) => s.(pc := s.pc[t := Write(s.pc[t].c, s.pc[t].x, s.head[s.pc[t].c])])
    case Allocate(x) => s.(place := s.place[x := Out])
    case Scribble(x, v) => s.(next := s.next[x := v])
  }

  /** Fresh queues, any threads, every slot in its page. */
  predicate Init(s: State) {
    && !s.any
    && (forall c: nat {:trigger c in s.queue} :: c < CLASSES ==>
          c in s.head && s.head[c] == 0 && c in s.flag && !s.flag[c] && c in s.queue && s.queue[c] == [])
    && (forall t :: t in s.pc ==> s.pc[t] == Idle)
    && 0 !in s.place && s.next.Keys == s.place.Keys && s.pushes.Keys == s.place.Keys && s.harvests.Keys == s.place.Keys
    && (forall x :: x in s.place ==> s.place[x] == Home && s.pushes[x] == 0 && s.harvests[x] == 0)
  }

  predicate Runs(s: State, ls: seq<Label>)
    decreases ls
  {
    ls == [] || (Enabled(s, ls[0]) && Runs(Apply(s, ls[0]), ls[1..]))
  }

  function After(s: State, ls: seq<Label>): State
    requires Runs(s, ls)
    decreases ls
  {
    if ls == [] then s else After(Apply(s, ls[0]), ls[1..])
  }

  // ------------------------------------------------------------------------ invariant

  /** The slots of xs are exactly those at p. */
  ghost predicate Exactly(place: map<Slot, Place>, xs: seq<Slot>, p: Place) {
    forall x {:trigger x in xs} {:trigger place[x]} :: x in xs <==> x in place && place[x] == p
  }

  ghost predicate QueueOk(s: State, c: nat) {
    && c in s.head && c in s.flag && c in s.queue
    && Chain(s.next, s.head[c], s.queue[c]) && Exactly(s.place, s.queue[c], Queued(c))
  }

  /** What each thread relies on. */
  ghost predicate ThreadOk(s: State, t: Tid)
    requires t in s.pc
  {
    var p := s.pc[t];
    && (p.Load? || p.Write? || p.Swap? ==> p.c < CLASSES && p.x in s.place && s.place[p.x] == Pushing(t))
    && (p.Swap? ==> p.x in s.next && s.next[p.x] == p.seen)
    && (p.TellAll? || p.TellClass? ==> p.c < CLASSES)
    && (p.See? || p.Clear? || p.Exchange? || p.Walk? ==> p.c <= p.last < CLASSES)
    && (p.Walk? ==> Chain(s.next, p.cur, p.left) && Exactly(s.place, p.left, Walking(t)))
  }

  /** Each slot is accounted for. */
  ghost predicate SlotOk(s: State, x: Slot)
    requires x in s.place
  {
    && x > 0 && x in s.next && x in s.pushes && x in s.harvests
    && s.pushes[x] == s.harvests[x] + (if s.place[x].Queued? || s.place[x].Walking? then 1 else 0)
    && (s.place[x].Queued? ==> s.place[x].c < CLASSES)
    && (s.place[x].Walking? ==> s.place[x].t in s.pc && s.pc[s.place[x].t].Walk?)
  }

  predicate PushingTo(p: Pc, c: nat) {
    (p.TellAll? || p.TellClass?) && p.c == c
  }

  /** A non-empty queue is announced, about to be announced, or about to be taken. */
  ghost predicate Announced(s: State, c: nat) {
    c in s.queue && c in s.flag && s.queue[c] != [] ==>
      || s.flag[c]
      || exists t :: t in s.pc && (PushingTo(s.pc[t], c) || (s.pc[t].Exchange? && s.pc[t].c == c))
  }

  ghost predicate Inv(s: State) {
    && (forall c: nat {:trigger QueueOk(s, c)} :: c < CLASSES ==> QueueOk(s, c))
    && (forall t {:trigger ThreadOk(s, t)} :: t in s.pc ==> ThreadOk(s, t))
    && (forall x {:trigger SlotOk(s, x)} :: x in s.place ==> SlotOk(s, x))
    && (forall c: nat {:trigger Announced(s, c)} :: c < CLASSES ==> Announced(s, c))
  }

  // ---------------------------------------------------------------- every step keeps it

  /** Only pc of t, the flags and the global flag change, and t is not inside a harvest list. */
  ghost predicate Quiet(s: State, s': State, t: Tid) {
    && t in s.pc && t in s'.pc && s'.pc == s.pc[t := s'.pc[t]]
    && s' == s.(pc := s'.pc, flag := s'.flag, any := s'.any) && s'.flag.Keys == s.flag.Keys
    && (s.pc[t].Walk? ==> s.pc[t].left == [])
  }

  lemma QuietKeeps(s: State, s': State, t: Tid)
    requires Inv(s) && Quiet(s, s', t) && ThreadOk(s', t)
    requires forall c: nat {:trigger Announced(s', c)} :: c < CLASSES ==> Announced(s', c)
    ensures Inv(s')
  {
    forall c: nat | c < CLASSES ensures QueueOk(s', c) {
      assert QueueOk(s, c);
    }
    forall u | u in s'.pc ensures ThreadOk(s', u) {
      assert ThreadOk(s, u);
    }
    forall x | x in s'.place ensures SlotOk(s', x) {
      assert SlotOk(s, x) && ThreadOk(s, t);
      if s.pc[t].Walk? { assert x !in s.pc[t].left; }
    }
  }

  /** Announcements survive when the flag stays and t was not the one to rely on. */
  lemma QuietAnnounced(s: State, s': State, t: Tid, c: nat)
    requires Inv(s) && Quiet(s, s', t) && c < CLASSES
    requires s'.flag == s.flag
    requires PushingTo(s.pc[t], c) ==> PushingTo(s'.pc[t], c)
    requires !s.pc[t].Exchange?
    ensures Announced(s', c)
  {
    assert Announced(s, c) && QueueOk(s, c);
    if s.queue[c] != [] && !s.flag[c] {
      var u :| u in s.pc && (PushingTo(s.pc[u], c) || (s.pc[u].Exchange? && s.pc[u].c == c));
      assert u in s'.pc && (PushingTo(s'.pc[u], c) || (s'.pc[u].Exchange? && s'.pc[u].c == c));
    }
  }

  /** Steps that only move t along. */
  lemma MoveKeeps(s: State, s': State, t: Tid)
    requires Inv(s) && Quiet(s, s', t) && ThreadOk(s', t) && s'.flag == s.flag && !s.pc[t].Exchange?
    requires s.pc[t].TellClass? ==> s'.pc[t] == s.pc[t]
    requires s.pc[t].TellAll? ==> s'.pc[t] == TellClass(s.pc[t].c)
    ensures Inv(s')
  {
    forall c: nat | c < CLASSES ensures Announced(s', c) {
      QuietAnnounced(s, s', t, c);
    }
    QuietKeeps(s, s', t);
  }

  /** Setting or clearing the flag of a class. */
  lemma FlagKeeps(s: State, s': State, t: Tid, b: nat)
    requires Inv(s) && Quiet(s, s', t) && ThreadOk(s', t) && b < CLASSES && b in s.flag
    requires || (s.pc[t] == TellClass(b) && s'.flag == s.flag[b := true])
             || (s.pc[t].Clear? && s.pc[t].c == b && s'.pc[t] == Exchange(b, s.pc[t].last)
                 && s'.flag == s.flag[b := false])
    ensures Inv(s')
  {
    forall c: nat | c < CLASSES ensures Announced(s', c) {
      assert Announced(s, c) && QueueOk(s, c);
      if c != b && s.queue[c] != [] && !s.flag[c] {
        var u :| u in s.pc && (PushingTo(s.pc[u], c) || (s.pc[u].Exchange? && s.pc[u].c == c));
        assert u in s'.pc && (PushingTo(s'.pc[u], c) || (s'.pc[u].Exchange? && s'.pc[u].c == c));
      }
      if c == b && s.pc[t].Clear? { assert s'.pc[t].Exchange? && s'.pc[t].c == c; }
    }
    QuietKeeps(s, s', t);
  }

  /** Writing a next word nobody's chain goes through. */
  lemma NextKeeps(s: State, s': State, x: Slot, v: Slot)
    requires Inv(s) && x in s.place && x in s.next && !s.place[x].Queued? && !s.place[x].Walking?
    requires s' == s.(next := s.next[x := v])
    requires s.place[x].Pushing? && s.place[x].t in s.pc ==> !s.pc[s.place[x].t].Swap?
    ensures Inv(s')
  {
    forall c: nat | c < CLASSES ensures QueueOk(s', c) && Announced(s', c) {
      assert QueueOk(s, c) && Announced(s, c);
      assert x !in s.queue[c];
      ChainFrame(s.next, s.head[c], s.queue[c], x, v);
    }
    forall u | u in s'.pc ensures ThreadOk(s', u) {
      assert ThreadOk(s, u);
      if s.pc[u].Walk? {
        assert x !in s.pc[u].left;
        ChainFrame(s.next, s.pc[u].cur, s.pc[u].left, x, v);
      }
    }
    forall y | y in s'.place ensures SlotOk(s', y) {
      assert SlotOk(s, y);
    }
  }

  /** A slot changes hands outside the queues: allocation, or the start of a push by t. */
  lemma HandKeeps(s: State, s': State, x: Slot)
    requires Inv(s) && x in s.place && (s.place[x] == Home || s.place[x] == Out)
    requires || (s.place[x] == Home && s' == s.(place := s.place[x := Out]))
             || exists t, c: nat ::
                   && t in s.pc && s.pc[t].Idle? && c < CLASSES
                   && s' == s.(place := s.place[x := Pushing(t)], pc := s.pc[t := Load(c, x)])
    ensures Inv(s')
  {
    forall c: nat | c < CLASSES ensures QueueOk(s', c) && Announced(s', c) {
      assert QueueOk(s, c) && Announced(s, c);
      if s.queue[c] != [] && !s.flag[c] {
        var u :| u in s.pc && (PushingTo(s.pc[u], c) || (s.pc[u].Exchange? && s.pc[u].c == c));
        assert u in s'.pc && s'.pc[u] == s.pc[u];
      }
    }
    forall u | u in s'.pc ensures ThreadOk(s', u) {
      assert ThreadOk(s, u);
    }
    forall y | y in s'.place ensures SlotOk(s', y) {
      assert SlotOk(s, y);
    }
  }

  /** The compare-exchange succeeds. */
  lemma PushKeeps(s: State, s': State, t: Tid)
    requires Inv(s) && t in s.pc && s.pc[t].Swap? && Runnable(s, s.pc[t]) && s.head[s.pc[t].c] == s.pc[t].seen
    requires s' == Stepped(s, t)
    ensures Inv(s')
  {
    var b, x := s.pc[t].c, s.pc[t].x;
    assert ThreadOk(s, t) && SlotOk(s, x);
    forall c: nat | c < CLASSES ensures QueueOk(s', c) {
      assert QueueOk(s, c) && x !in s.queue[c];
      if c == b { ChainPush(s.next, s.head[c], s.queue[c], x); }
    }
    forall c: nat | c < CLASSES ensures Announced(s', c) {
      assert QueueOk(s, c) && Announced(s, c);
      if c == b {
        assert PushingTo(s'.pc[t], c);
      } else if s.queue[c] != [] && !s.flag[c] {
        var u :| u in s.pc && (PushingTo(s.pc[u], c) || (s.pc[u].Exchange? && s.pc[u].c == c));
        assert u in s'.pc && s'.pc[u] == s.pc[u];
      }
    }
    forall u | u in s'.pc ensures ThreadOk(s', u) {
      assert ThreadOk(s, u);
    }
    forall y | y in s'.place ensures SlotOk(s', y) {
      assert SlotOk(s, y);
    }
  }

  /** The exchange takes the whole queue. */
  lemma ExchangeKeeps(s: State, s': State, t: Tid)
    requires Inv(s) && t in s.pc && s.pc[t].Exchange? && Runnable(s, s.pc[t]) && s' == Stepped(s, t)
    ensures Inv(s')
  {
    var b := s.pc[t].c;
    assert ThreadOk(s, t) && QueueOk(s, b);
    forall c: nat | c < CLASSES ensures QueueOk(s', c) {
      assert QueueOk(s, c);
    }
    forall c: nat | c < CLASSES ensures Announced(s', c) {
      ExchangeAnnounced(s, s', t, c);
    }
    forall x | x in s'.place ensures SlotOk(s', x) {
      assert SlotOk(s, x);
    }
    forall u | u in s'.pc ensures ThreadOk(s', u) {
      assert ThreadOk(s, u);
      if u == t { NoneWalking(s, t); }
    }
  }

  lemma ExchangeAnnounced(s: State, s': State, t: Tid, c: nat)
    requires Inv(s) && t in s.pc && s.pc[t].Exchange? && Runnable(s, s.pc[t]) && s' == Stepped(s, t) && c < CLASSES
    ensures c in s'.queue && c in s'.flag && Announced(s', c)
  {
    assert ThreadOk(s, t) && QueueOk(s, s.pc[t].c) && QueueOk(s, c) && Announced(s, c);
    if c != s.pc[t].c && s.queue[c] != [] && !s.flag[c] {
      var u :| u in s.pc && (PushingTo(s.pc[u], c) || (s.pc[u].Exchange? && s.pc[u].c == c));
      assert u in s'.pc && s'.pc[u] == s.pc[u];
    }
  }

  /** A thread outside its walk holds no slots. */
  lemma NoneWalking(s: State, t: Tid)
    requires Inv(s) && t in s.pc && !s.pc[t].Walk?
    ensures forall x {:trigger s.place[x]} :: x in s.place ==> s.place[x] != Walking(t)
  {
    forall x | x in s.place ensures s.place[x] != Walking(t) {
      assert SlotOk(s, x);
    }
  }

  /** A harvester returns one slot to its page. */
  lemma WalkKeeps(s: State, s': State, t: Tid)
    requires Inv(s) && t in s.pc && s.pc[t].Walk? && Runnable(s, s.pc[t]) && s.pc[t].cur != 0 && s' == Stepped(s, t)
    ensures Inv(s')
  {
    var cur, left := s.pc[t].cur, s.pc[t].left;
    assert ThreadOk(s, t);
    ChainTail(s.next, cur, left);
    assert cur in left;
    forall c: nat | c < CLASSES ensures QueueOk(s', c) && Announced(s', c) {
      assert QueueOk(s, c) && Announced(s, c);
      if s.queue[c] != [] && !s.flag[c] {
        var u :| u in s.pc && (PushingTo(s.pc[u], c) || (s.pc[u].Exchange? && s.pc[u].c == c));
        assert u in s'.pc && s'.pc[u] == s.pc[u];
      }
    }
    forall x | x in s'.place ensures SlotOk(s', x) {
      assert SlotOk(s, x);
    }
    forall u | u in s'.pc ensures ThreadOk(s', u) {
      assert ThreadOk(s, u);
      if u == t { assert forall x :: x in left[1..] <==> x in left && x != cur; }
    }
  }

  lemma WriteKeeps(s: State, t: Tid)
    requires Inv(s) && t in s.pc && s.pc[t].Write? && Runnable(s, s.pc[t])
    ensures Inv(Stepped(s, t))
  {
    var p, s' := s.pc[t], Stepped(s, t);
    assert ThreadOk(s, t);
    var s1 := s.(next := s.next[p.x := p.seen]);
    NextKeeps(s, s1, p.x, p.seen);
    assert ThreadOk(s1, t);
    MoveKeeps(s1, s', t);
  }

  /** Loads, failed compare-exchanges and the end of a walk. */
  lemma PassKeeps(s: State, t: Tid)
    requires Inv(s) && t in s.pc && Runnable(s, s.pc[t])
    requires var p := s.pc[t];
             || p.Load? || (p.Swap? && s.head[p.c] != p.seen) || p.TellAll? || p.SeeAll? || p.ClearAll? || p.See?
             || (p.Walk? && p.cur == 0)
    ensures Inv(Stepped(s, t))
  {
    var p := s.pc[t];
    assert ThreadOk(s, t);
    if p.Walk? { assert p.left != [] ==> LinkAt(s.next, p.left, 0); }
    MoveKeeps(s, Stepped(s, t), t);
  }

  lemma FlagStepKeeps(s: State, t: Tid)
    requires Inv(s) && t in s.pc && Runnable(s, s.pc[t]) && (s.pc[t].TellClass? || s.pc[t].Clear?)
    ensures Inv(Stepped(s, t))
  {
    assert ThreadOk(s, t);
    FlagKeeps(s, Stepped(s, t), t, s.pc[t].c);
  }

  /** Every step of a thread keeps the invariant. */
  lemma StepKeeps(s: State, t: Tid)
    requires Inv(s) && t in s.pc && Runnable(s, s.pc[t])
    ensures Inv(Stepped(s, t))
  {
    var p := s.pc[t];
    if p.Write? {
      WriteKeeps(s, t);
    } else if p.Swap? && s.head[p.c] == p.seen {
      PushKeeps(s, Stepped(s, t), t);
    } else if p.TellClass? || p.Clear? {
      FlagStepKeeps(s, t);
    } else if p.Exchange? {
      ExchangeKeeps(s, Stepped(s, t), t);
    } else if p.Walk? && p.cur != 0 {
      WalkKeeps(s, Stepped(s, t), t);
    } else {
      PassKeeps(s, t);
    }
  }

  lemma InvStep(s: State, l: Label)
    requires Inv(s) && Enabled(s, l)
    ensures Inv(Apply(s, l))
  {
    if l.Step? {
      StepKeeps(s, l.t);
    } else if l.StartPush? {
      HandKeeps(s, Apply(s, l), l.x);
    } else if l.Allocate? {
      HandKeeps(s, Apply(s, l), l.x);
    } else if l.Scribble? {
      NextKeeps(s, Apply(s, l), l.x, l.v);
    } else {
      assert ThreadOk(s, l.t);
      MoveKeeps(s, Apply(s, l), l.t);
    }
  }

  lemma InvInit(s: State)
    requires Init(s)
    ensures Inv(s)
  {
    forall c: nat | c < CLASSES ensures QueueOk(s, c) && Announced(s, c) {
      assert c in s.queue;
    }
  }

  lemma {:induction false} InvRun(s: State, ls: seq<Label>)
    requires Inv(s) && Runs(s, ls)
    ensures Inv(After(s, ls))
    decreases ls
  {
    if ls != [] {
      InvStep(s, ls[0]);
      InvRun(Apply(s, ls[0]), ls[1..]);
    }
  }
}
