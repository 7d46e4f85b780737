/**
 * What the retirement protocol guarantees over every interleaving, and the one
 * interleaving family in which it does not keep its promise.
 */
module ArenaRetirementTheorems {
  import opened Sums
  import opened ArenaRetirement

  lemma InitInv(region: nat)
    ensures Inv(Init(region))
  {
    assert Counted(Init(region).blocks) == map[];
    assert Spans(Init(region).blocks) == map[];
    assert Debts(Init(region).freers) == map[];
  }

  lemma {:induction false} InvRun(s: State, ls: seq<Label>)
    requires Inv(s) && Runs(s, ls)
    ensures Inv(After(s, ls))
    decreases ls
  {
    if ls != [] {
      InvStep(s, ls[0]);
      InvRun(Apply(s, ls[0]), ls[1..]);
    }
  }

  // ------------------------------------------------------------ guaranteed in every run

  /** How many compare-exchanges on `cleanup_claimed` succeed along a run. */
  ghost function Claims(s: State, ls: seq<Label>): nat
    requires Runs(s, ls)
    decreases ls
  {
    if ls == [] then 0
    else
      var s' := Apply(s, ls[0]);
      (if !s.claimed && s'.claimed then 1 else 0) + Claims(s', ls[1..])
  }

  lemma ClaimedStays(s: State, l: Label)
    requires Enabled(s, l) && s.claimed
    ensures Apply(s, l).claimed
  {
  }

  lemma {:induction false} ClaimsCount(s: State, ls: seq<Label>)
    requires Runs(s, ls)
    ensures s.claimed ==> After(s, ls).claimed
    ensures Claims(s, ls) == if !s.claimed && After(s, ls).claimed then 1 else 0
    decreases ls
  {
    if ls != [] {
      if s.claimed { ClaimedStays(s, ls[0]); }
      ClaimsCount(Apply(s, ls[0]), ls[1..]);
    }
  }

  /**
   * In every interleaving: at most one thread wins the claim, the region goes back
   * to the OS at most once, only after the owner has detached, and the free list
   * never has two mutators.
   */
  lemma CleanupAtMostOnce(region: nat, ls: seq<Label>)
    requires Runs(Init(region), ls)
    ensures var s := After(Init(region), ls);
            && Claims(Init(region), ls) <= 1
            && s.releases <= Claims(Init(region), ls)
            && (s.releases == 1 ==> s.claimed && s.retired)
            && (s.finished ==> s.releases == 1)
            && (s.claimed ==> !Attached(s.owner))
  {
    InitInv(region);
    InvRun(Init(region), ls);
    ClaimsCount(Init(region), ls);
  }

  /**
   * tlsf_arena_registry_release, when the pool is destroyed: an arena that is not finished is released
   * whatever it holds.  A cleaner that has released the region and is about to store `finished` is
   * taken before it has cleared `raw`.
   */
  function Destroyed(s: State): State {
    if s.finished then s else s.(releases := s.releases + 1)
  }

  /** Releases the cleaner has still to make. */
  function ToCome(c: Cleaner): nat {
    if c.Exchange? || c.Reap? then 1 else 0
  }

  /**
   * With the destruction of the pool the region is released exactly once, if and only if no cleanup
   * is under way at that moment.
   */
  lemma DestroyedOnce(region: nat, ls: seq<Label>)
    requires Runs(Init(region), ls)
    ensures var s := After(Init(region), ls);
            Destroyed(s).releases + ToCome(s.cleaner) == 1 <==> s.cleaner.NoCleaner? || s.cleaner.Done?
  {
    InitInv(region);
    InvRun(Init(region), ls);
  }

  /** No byte of the region and no counted byte is ever lost. */
  lemma BytesConserved(region: nat, ls: seq<Label>)
    requires Runs(Init(region), ls)
    ensures var s := After(Init(region), ls);
            && s.freeBytes + Sum(Spans(s.blocks)) == region
            && s.liveBytes == Sum(Counted(s.blocks)) + Sum(Debts(s.freers)) + OwnerDebt(s.owner)
  {
    InitInv(region);
    InvRun(Init(region), ls);
    RegionConstant(Init(region), ls);
  }

  lemma RegionStep(s: State, l: Label)
    requires Enabled(s, l)
    ensures Apply(s, l).region == s.region
  {
  }

  lemma {:induction false} RegionConstant(s: State, ls: seq<Label>)
    requires Runs(s, ls)
    ensures After(s, ls).region == s.region
    decreases ls
  {
    if ls != [] {
      RegionStep(s, ls[0]);
      RegionConstant(Apply(s, ls[0]), ls[1..]);
    }
  }

  /** Nobody is inside an arena operation. */
  ghost predicate Quiescent(s: State) {
    && s.freers == map[]
    && (s.owner.Idle? || s.owner.Gone?)
    && (s.cleaner.NoCleaner? || s.cleaner.Done?)
  }

  /** An empty retired arena is never forgotten: once everybody is done it has been released. */
  lemma EmptyRetiredArenaReleased(region: nat, ls: seq<Label>)
    requires Runs(Init(region), ls)
    requires var s := After(Init(region), ls); Quiescent(s) && s.retired && s.liveBytes == 0
    ensures After(Init(region), ls).finished && After(Init(region), ls).releases == 1
  {
    InitInv(region);
    InvRun(Init(region), ls);
  }

  // ---------------------------------------------- when cleanup meets its own comment

  /**
   * "Every block is free by now": once cleanup is claimed no block is held by a user
   * or by a thread still freeing it, the remaining ones are in the mailbox or with the
   * cleaner, and when the region is released its free list spans all of it.
   */
  ghost predicate SafeCleanup(s: State) {
    s.claimed ==>
      && s.liveBytes == 0 && !Attached(s.owner)
      && (forall b ::
            b in s.blocks ==> s.blocks[b].place == Boxed || s.blocks[b].place == ArenaRetirement.Place.Reaping)
      && (s.releases == 1 ==> s.blocks == map[] && s.freeBytes == s.region)
  }

  ghost predicate ZeroObserver(s: State) {
    exists t :: t in s.freers && s.freers[t].ZeroSeen?
  }

  ghost predicate Convinced(s: State) {
    || s.claimed || s.owner.OwnerClaiming?
    || exists t :: t in s.freers && (s.freers[t].ZeroSeen? || s.freers[t].Claiming?)
  }

  /** Whoever is convinced that the arena is empty is right. */
  ghost predicate Trusty(s: State) {
    && (Convinced(s) ==> s.liveBytes == 0)
    && (s.cleaner.Reap? || s.cleaner.Finish? || s.cleaner.Done? ==> s.mailbox == [])
  }

  /** The one step that can make a convinced thread wrong. */
  ghost predicate Hazard(s: State, l: Label) {
    l.OwnerAdd? && ZeroObserver(s)
  }

  lemma LiveBlockCounts(s: State, b: Id)
    requires Accounting(s) && b in s.blocks && IsCounted(s.blocks[b])
    ensures s.liveBytes > 0
  {
    SumPositive(Counted(s.blocks), b);
  }

  lemma DebtCounts(s: State, t: Tid)
    requires Accounting(s) && t in s.freers && s.freers[t].Pushed?
    ensures s.liveBytes >= s.freers[t].span > 0
  {
    SumRemove(Debts(s.freers), t);
  }

  /** Without the hazardous step, nobody becomes or stays convinced in vain. */
  lemma TrustyLive(s: State, l: Label)
    requires Inv(s) && Trusty(s) && Enabled(s, l) && !Hazard(s, l)
    ensures Convinced(Apply(s, l)) ==> Apply(s, l).liveBytes == 0
  {
    if Convinced(Apply(s, l)) {
      if l.Decrement? {
        DebtCounts(s, l.t);
      } else if l.OwnerGrow? {
        LiveBlockCounts(s, l.b);
        StillConvinced(s, l);
      } else if l.DirectDecrement? || l.LoadLive? || l.DirectLoadRetired? {
        OwnerSeesZero(s, l);
      } else {
        StillConvinced(s, l);
      }
    }
  }

  /** The owner's own subtraction and its loads. */
  lemma OwnerSeesZero(s: State, l: Label)
    requires Inv(s) && Trusty(s) && Enabled(s, l) && (l.DirectDecrement? || l.LoadLive? || l.DirectLoadRetired?)
    requires Convinced(Apply(s, l))
    ensures Apply(s, l).liveBytes == 0
  {
    if Apply(s, l).claimed || exists t :: t in s.freers && (s.freers[t].ZeroSeen? || s.freers[t].Claiming?) {
      assert Convinced(s);
    }
  }

  lemma CounterKept(s: State, l: Label)
    requires Enabled(s, l) && !l.Decrement? && !l.DirectDecrement? && !l.OwnerAdd? && !l.OwnerGrow?
    ensures Apply(s, l).liveBytes == s.liveBytes
  {
  }

  /** A convinced freer was convinced before. */
  lemma FreerConvinced(s: State, l: Label, t: Tid)
    requires Enabled(s, l) && !l.Decrement? && t in Apply(s, l).freers
    requires Apply(s, l).freers[t].ZeroSeen? || Apply(s, l).freers[t].Claiming?
    ensures t in s.freers && (s.freers[t].ZeroSeen? || s.freers[t].Claiming?)
  {
    if l.BeginFree? || l.LoadHead? || l.CasPush? {
      FreerStarts(s, l, t);
    } else if !l.LoadRetired? && !l.ClaimCas? {
      FreersKept(s, l);
    }
  }

  lemma FreerStarts(s: State, l: Label, t: Tid)
    requires Enabled(s, l) && (l.BeginFree? || l.LoadHead? || l.CasPush?) && t in Apply(s, l).freers
    ensures l.t in Apply(s, l).freers && !Apply(s, l).freers[l.t].ZeroSeen? && !Apply(s, l).freers[l.t].Claiming?
    ensures t != l.t ==> t in s.freers && Apply(s, l).freers[t] == s.freers[t]
  {
  }

  /** Steps of the owner and the cleaner leave the freers alone. */
  lemma FreersKept(s: State, l: Label)
    requires Enabled(s, l) && !l.BeginFree? && !l.LoadHead? && !l.CasPush? && !l.Decrement? && !l.LoadRetired?
    requires !l.ClaimCas?
    ensures Apply(s, l).freers == s.freers
  {
    match l
    case AllocStart =>
    case OwnerExchange =>
    case ReapOne =>
    case AllocFail =>
    case OwnerTake(_, _) =>
    case OwnerAdd =>
    case OwnerGrow(_, _) =>
    case DirectFree(_) =>
    case DirectDecrement =>
    case DirectLoadRetired =>
    case Detach =>
    case StoreRetired =>
    case LoadLive =>
    case OwnerClaimCas =>
    case CleanExchange =>
    case CleanRelease =>
    case CleanFinish =>
  }

  /** A claim, and an owner about to claim, come from somebody convinced before. */
  lemma ClaimConvinced(s: State, l: Label)
    requires Enabled(s, l) && !l.LoadLive? && !l.DirectLoadRetired?
    requires Apply(s, l).claimed || Apply(s, l).owner.OwnerClaiming?
    ensures Convinced(s)
  {
    if l.ClaimCas? { assert s.freers[l.t].Claiming?; }
  }

  /** Other steps convince nobody and leave the counter alone, the hazardous add apart. */
  lemma StillConvinced(s: State, l: Label)
    requires Inv(s) && Trusty(s) && Enabled(s, l) && !Hazard(s, l) && Convinced(Apply(s, l))
    requires !l.Decrement? && !l.DirectDecrement? && !l.LoadLive? && !l.DirectLoadRetired?
    ensures Convinced(s) && (!l.OwnerGrow? ==> Apply(s, l).liveBytes == 0)
  {
    if Apply(s, l).claimed || Apply(s, l).owner.OwnerClaiming? {
      ClaimConvinced(s, l);
    } else {
      var t :| t in Apply(s, l).freers && (Apply(s, l).freers[t].ZeroSeen? || Apply(s, l).freers[t].Claiming?);
      FreerConvinced(s, l, t);
    }
    if l.OwnerAdd? {
      AddsUnconvinced(s);
    } else if !l.OwnerGrow? {
      CounterKept(s, l);
    }
  }

  /** An owner about to add, outside the window, has convinced nobody. */
  lemma AddsUnconvinced(s: State)
    requires Inv(s) && Enabled(s, OwnerAdd) && !ZeroObserver(s)
    ensures !Convinced(s)
  {
  }

  lemma TrustyMailbox(s: State, l: Label)
    requires Inv(s) && Trusty(s) && Enabled(s, l)
    ensures var s' := Apply(s, l); s'.cleaner.Reap? || s'.cleaner.Finish? || s'.cleaner.Done? ==> s'.mailbox == []
  {
    if l.CasPush? && s.claimed {
      LiveBlockCounts(s, s.freers[l.t].b);
    } else if !l.CasPush? {
      MailboxShrinks(s, l);
    }
  }

  /** Only a push fills the mailbox, and only its exchange sets a cleaner to work. */
  lemma MailboxShrinks(s: State, l: Label)
    requires Enabled(s, l) && !l.CasPush?
    ensures var s' := Apply(s, l);
            && (s'.mailbox == [] || s'.mailbox == s.mailbox)
            && (s'.cleaner.Reap? || s'.cleaner.Finish? || s'.cleaner.Done? ==>
                  s'.mailbox == [] || s.cleaner.Reap? || s.cleaner.Finish? || s.cleaner.Done?)
  {
    match l
    case BeginFree(_, _) =>
    case LoadHead(_) =>
    case Decrement(_) =>
    case LoadRetired(_) =>
    case ClaimCas(_) =>
    case AllocStart =>
    case OwnerExchange =>
    case ReapOne =>
    case AllocFail =>
    case OwnerTake(_, _) =>
    case OwnerAdd =>
    case OwnerGrow(_, _) =>
    case DirectFree(_) =>
    case DirectDecrement =>
    case DirectLoadRetired =>
    case Detach =>
    case StoreRetired =>
    case LoadLive =>
    case OwnerClaimCas =>
    case CleanExchange =>
    case CleanRelease =>
    case CleanFinish =>
  }

  lemma SafeFromTrusty(s: State)
    requires Inv(s) && Trusty(s)
    ensures SafeCleanup(s)
  {
    if s.claimed {
      forall b | b in s.blocks
        ensures s.blocks[b].place == Boxed || s.blocks[b].place == ArenaRetirement.Place.Reaping
      {
        if IsCounted(s.blocks[b]) { LiveBlockCounts(s, b); }
      }
      if s.releases == 1 {
        assert forall b :: b in s.blocks ==> b in s.mailbox || b in s.reaping;
        assert s.blocks == map[];
        assert Spans(s.blocks) == map[];
      }
    }
  }

  ghost predicate HazardFree(s: State, ls: seq<Label>)
    requires Runs(s, ls)
    decreases ls
  {
    ls == [] || (!Hazard(s, ls[0]) && HazardFree(Apply(s, ls[0]), ls[1..]))
  }

  lemma {:induction false} TrustyRun(s: State, ls: seq<Label>)
    requires Inv(s) && Trusty(s) && Runs(s, ls) && HazardFree(s, ls)
    ensures Inv(After(s, ls)) && Trusty(After(s, ls))
    decreases ls
  {
    if ls != [] {
      InvStep(s, ls[0]);
      TrustyLive(s, ls[0]);
      TrustyMailbox(s, ls[0]);
      TrustyRun(Apply(s, ls[0]), ls[1..]);
    }
  }

  /**
   * Over every interleaving in which the owner never adds to live_bytes while another
   * thread sits between its subtraction to zero and its load of `retired`, cleanup
   * happens only with nothing live and gives back a region that is entirely free.
   */
  lemma CleanupSafe(region: nat, ls: seq<Label>)
    requires Runs(Init(region), ls) && HazardFree(Init(region), ls)
    ensures SafeCleanup(After(Init(region), ls))
  {
    InitInv(region);
    TrustyRun(Init(region), ls);
    SafeFromTrusty(After(Init(region), ls));
  }

  lemma NoAddsHazardFree(s: State, ls: seq<Label>)
    requires Runs(s, ls) && OwnerAdd !in ls
    ensures HazardFree(s, ls)
    decreases ls
  {
  }

  lemma Prepend(s: State, l: Label, ls: seq<Label>)
    requires Enabled(s, l) && Runs(Apply(s, l), ls)
    ensures Runs(s, [l] + ls) && After(s, [l] + ls) == After(Apply(s, l), ls)
  {
    assert ([l] + ls)[1..] == ls;
  }

  /** The region has gone back to the system under a block of n bytes that a user still holds. */
  ghost predicate ReleasedUnder(s: State, b: Id, n: nat) {
    s.releases == 1 && b in s.blocks && s.blocks[b] == Block(n, InUse)
  }

  ghost predicate Disaster(s: State) {
    exists b, n :: ReleasedUnder(s, b, n)
  }

  /** A cleaner left to itself reaps what it took and releases the region; a block in use stays in use. */
  lemma {:induction false} CleanerReleases(s: State, b: Id) returns (ls: seq<Label>)
    requires Inv(s) && s.cleaner.Reap? && b in s.blocks && s.blocks[b].place == InUse
    ensures Runs(s, ls) && OwnerAdd !in ls && ReleasedUnder(After(s, ls), b, s.blocks[b].span)
    decreases |s.reaping|
  {
    if s.reaping == [] {
      Prepend(s, CleanRelease, []);
      ls := [CleanRelease] + [];
    } else {
      var s1 := Apply(s, ReapOne);
      InvStep(s, ReapOne);
      assert s.reaping[0] in s.reaping;
      var rest := CleanerReleases(s1, b);
      Prepend(s, ReapOne, rest);
      ls := [ReapOne] + rest;
    }
  }

  /** From the won claim on. */
  lemma ClaimReleases(s: State, b: Id) returns (ls: seq<Label>)
    requires Inv(s) && s.cleaner.Exchange? && s.owner.Gone? && b in s.blocks && s.blocks[b].place == InUse
    ensures Runs(s, ls) && OwnerAdd !in ls && ReleasedUnder(After(s, ls), b, s.blocks[b].span)
  {
    var s1 := Apply(s, CleanExchange);
    InvStep(s, CleanExchange);
    var rest := CleanerReleases(s1, b);
    Prepend(s, CleanExchange, rest);
    ls := [CleanExchange] + rest;
  }

  /** A freer that saw `retired` wins the claim. */
  lemma FreerClaims(s: State, t: Tid, b: Id) returns (ls: seq<Label>)
    requires Inv(s) && s.owner.Gone? && !s.claimed && b in s.blocks && s.blocks[b].place == InUse
    requires t in s.freers && s.freers[t].Claiming?
    ensures Runs(s, ls) && OwnerAdd !in ls && ReleasedUnder(After(s, ls), b, s.blocks[b].span)
  {
    InvStep(s, ClaimCas(t));
    var rest := ClaimReleases(Apply(s, ClaimCas(t)), b);
    Prepend(s, ClaimCas(t), rest);
    ls := [ClaimCas(t)] + rest;
  }

  /** The freer in the window loads `retired`. */
  lemma WindowCloses(s: State, t: Tid, b: Id) returns (ls: seq<Label>)
    requires Inv(s) && s.retired && s.owner.Gone? && !s.claimed && b in s.blocks && s.blocks[b].place == InUse
    requires t in s.freers && s.freers[t].ZeroSeen?
    ensures Runs(s, ls) && OwnerAdd !in ls && ReleasedUnder(After(s, ls), b, s.blocks[b].span)
  {
    InvStep(s, LoadRetired(t));
    var rest := FreerClaims(Apply(s, LoadRetired(t)), t, b);
    Prepend(s, LoadRetired(t), rest);
    ls := [LoadRetired(t)] + rest;
  }

  /** The owner finds the live block and leaves. */
  lemma OwnerLeaves(s: State, t: Tid, b: Id) returns (ls: seq<Label>)
    requires Inv(s) && s.owner.LoadingLive? && !s.claimed && b in s.blocks && s.blocks[b].place == InUse
    requires t in s.freers && s.freers[t].ZeroSeen?
    ensures Runs(s, ls) && OwnerAdd !in ls && ReleasedUnder(After(s, ls), b, s.blocks[b].span)
  {
    LiveBlockCounts(s, b);
    InvStep(s, LoadLive);
    var rest := WindowCloses(Apply(s, LoadLive), t, b);
    Prepend(s, LoadLive, rest);
    ls := [LoadLive] + rest;
  }

  /** The owner retires the arena. */
  lemma OwnerRetires(s: State, t: Tid, b: Id) returns (ls: seq<Label>)
    requires Inv(s) && s.owner.Detached? && !s.claimed && b in s.blocks && s.blocks[b].place == InUse
    requires t in s.freers && s.freers[t].ZeroSeen?
    ensures Runs(s, ls) && OwnerAdd !in ls && ReleasedUnder(After(s, ls), b, s.blocks[b].span)
  {
    InvStep(s, StoreRetired);
    var rest := OwnerLeaves(Apply(s, StoreRetired), t, b);
    Prepend(s, StoreRetired, rest);
    ls := [StoreRetired] + rest;
  }

  /** The run that turns a hazardous add into the release of the region under a live block. */
  lemma HazardIsReal(s: State, t: Tid, b: Id) returns (ls: seq<Label>)
    requires Inv(s) && s.owner.Idle? && !s.claimed && b in s.blocks && s.blocks[b].place == InUse
    requires t in s.freers && s.freers[t].ZeroSeen?
    ensures Runs(s, ls) && OwnerAdd !in ls && ReleasedUnder(After(s, ls), b, s.blocks[b].span)
  {
    InvStep(s, Detach);
    var rest := OwnerRetires(Apply(s, Detach), t, b);
    Prepend(s, Detach, rest);
    ls := [Detach] + rest;
  }

  /** A safe cleanup releases nothing that is in use. */
  lemma SafeNoDisaster(s: State)
    requires Inv(s) && SafeCleanup(s)
    ensures !Disaster(s)
  {
  }

  /**
   * The exact condition.  Take any state in which everybody convinced of emptiness is
   * right, and let the owner perform its add.  Some continuation without a further add
   * then releases the region under a block in use if and only if, at the moment of the
   * add, another thread had subtracted to zero and not yet loaded `retired`; and under the
   * same condition some continuation claims a cleanup that is not safe.
   */
  lemma CleanupUnsafeIff(s: State)
    requires Inv(s) && Trusty(s) && Enabled(s, OwnerAdd)
    ensures (exists ls :: Runs(Apply(s, OwnerAdd), ls) && OwnerAdd !in ls && Disaster(After(Apply(s, OwnerAdd), ls)))
            <==> ZeroObserver(s)
    ensures (exists ls ::
             Runs(Apply(s, OwnerAdd), ls) && OwnerAdd !in ls && !SafeCleanup(After(Apply(s, OwnerAdd), ls)))
            <==> ZeroObserver(s)
  {
    if ZeroObserver(s) {
      var ls := WindowIsUnsafe(s);
    } else {
      forall ls | Runs(Apply(s, OwnerAdd), ls) && OwnerAdd !in ls
        ensures SafeCleanup(After(Apply(s, OwnerAdd), ls)) && !Disaster(After(Apply(s, OwnerAdd), ls))
      {
        NoWindowIsSafe(s, ls);
      }
    }
  }

  lemma WindowIsUnsafe(s: State) returns (ls: seq<Label>)
    requires Inv(s) && Trusty(s) && Enabled(s, OwnerAdd) && ZeroObserver(s)
    ensures Runs(Apply(s, OwnerAdd), ls) && OwnerAdd !in ls
    ensures Disaster(After(Apply(s, OwnerAdd), ls)) && !SafeCleanup(After(Apply(s, OwnerAdd), ls))
  {
    InvStep(s, OwnerAdd);
    var t :| t in s.freers && s.freers[t].ZeroSeen?;
    ls := HazardIsReal(Apply(s, OwnerAdd), t, s.owner.b);
    InvRun(Apply(s, OwnerAdd), ls);
    DisasterUnsafe(After(Apply(s, OwnerAdd), ls), s.owner.b, s.blocks[s.owner.b].span);
  }

  lemma DisasterUnsafe(s: State, b: Id, n: nat)
    requires Inv(s) && ReleasedUnder(s, b, n)
    ensures Disaster(s) && !SafeCleanup(s)
  {
  }

  lemma NoWindowIsSafe(s: State, ls: seq<Label>)
    requires Inv(s) && Trusty(s) && Enabled(s, OwnerAdd) && !ZeroObserver(s)
    requires Runs(Apply(s, OwnerAdd), ls) && OwnerAdd !in ls
    ensures SafeCleanup(After(Apply(s, OwnerAdd), ls)) && !Disaster(After(Apply(s, OwnerAdd), ls))
  {
    var s' := Apply(s, OwnerAdd);
    InvStep(s, OwnerAdd);
    TrustyLive(s, OwnerAdd);
    TrustyMailbox(s, OwnerAdd);
    NoAddsHazardFree(s', ls);
    TrustyRun(s', ls);
    SafeFromTrusty(After(s', ls));
    SafeNoDisaster(After(s', ls));
  }

  lemma {:induction false} Concat(s: State, ls: seq<Label>, more: seq<Label>)
    requires Runs(s, ls) && Runs(After(s, ls), more)
    ensures Runs(s, ls + more) && After(s, ls + more) == After(After(s, ls), more)
    decreases ls
  {
    if ls == [] {
      assert ls + more == more;
    } else {
      Concat(Apply(s, ls[0]), ls[1..], more);
      assert (ls + more)[1..] == ls[1..] + more;
    }
  }

  /** The owner of a fresh arena allocates one block. */
  lemma AllocOne(region: nat, span: nat) returns (ls: seq<Label>, s: State)
    requires 0 < span <= region
    ensures Runs(Init(region), ls) && After(Init(region), ls) == s
    ensures s == Init(region).(owner := Idle, freeBytes := region - span, liveBytes := span,
              blocks := map[8 := Block(span, InUse)])
  {
    var s0 := Init(region);
    var s1 := Apply(s0, AllocStart);
    var s2 := Apply(s1, OwnerTake(8, span));
    s := Apply(s2, OwnerAdd);
    assert s.blocks == map[8 := Block(span, InUse)];
    Prepend(s2, OwnerAdd, []);
    Prepend(s1, OwnerTake(8, span), [OwnerAdd]);
    Prepend(s0, AllocStart, [OwnerTake(8, span)] + [OwnerAdd]);
    ls := [AllocStart] + ([OwnerTake(8, span)] + [OwnerAdd]);
  }

  /** Thread 1 frees it and stops right after its subtraction. */
  lemma FreeOne(region: nat, span: nat, s: State) returns (ls: seq<Label>, s': State)
    requires 0 < span <= region
    requires s == Init(region).(owner := Idle, freeBytes := region - span, liveBytes := span,
               blocks := map[8 := Block(span, InUse)])
    ensures Runs(s, ls) && After(s, ls) == s'
    ensures s'.owner.Idle? && !s'.retired && !s'.claimed && s'.liveBytes == 0 && s'.head == To(8) && s'.cursor.Null?
    ensures s'.link == map[8 := Null] && s'.blocks == map[8 := Block(span, Boxed)] && s'.freers == map[1 := ZeroSeen]
    ensures s'.freeBytes == region - span
  {
    var s5 := LinkOne(region, span, s);
    var tail: seq<Label>;
    tail, s' := PushOne(region, span, s5);
    Prepend(Apply(s, BeginFree(1, 8)), LoadHead(1), tail);
    tail := [LoadHead(1)] + tail;
    Prepend(s, BeginFree(1, 8), tail);
    ls := [BeginFree(1, 8)] + tail;
  }

  /** The freer writes the next word of the block. */
  lemma LinkOne(region: nat, span: nat, s: State) returns (s': State)
    requires 0 < span <= region
    requires s == Init(region).(owner := Idle, freeBytes := region - span, liveBytes := span,
               blocks := map[8 := Block(span, InUse)])
    ensures Enabled(s, BeginFree(1, 8)) && Enabled(Apply(s, BeginFree(1, 8)), LoadHead(1))
    ensures s' == Apply(Apply(s, BeginFree(1, 8)), LoadHead(1))
    ensures s' == s.(blocks := map[8 := Block(span, Freeing)], freers := map[1 := Linking(8, Null)],
              link := map[8 := Null])
  {
    s' := Apply(Apply(s, BeginFree(1, 8)), LoadHead(1));
  }

  /** It pushes the block and takes its bytes off the counter. */
  lemma PushOne(region: nat, span: nat, s: State) returns (ls: seq<Label>, s': State)
    requires 0 < span <= region && s.owner.Idle? && !s.retired && !s.claimed && s.liveBytes == span && s.head.Null?
    requires s.cursor.Null?
    requires s.blocks == map[8 := Block(span, Freeing)] && s.freers == map[1 := Linking(8, Null)]
    requires s.link == map[8 := Null]
    ensures Runs(s, ls) && After(s, ls) == s'
    ensures s' == s.(head := To(8), mailbox := [8] + s.mailbox, blocks := map[8 := Block(span, Boxed)],
                     freers := map[1 := ZeroSeen], liveBytes := 0)
  {
    var s6 := Apply(s, CasPush(1));
    s' := Apply(s6, Decrement(1));
    Prepend(s6, Decrement(1), []);
    Prepend(s, CasPush(1), [Decrement(1)] + []);
    ls := [CasPush(1)] + ([Decrement(1)] + []);
  }

  /** The owner then reaps the mailbox and hands the same bytes out again. */
  lemma AllocAgain(region: nat, span: nat, s: State) returns (ls: seq<Label>, s': State)
    requires 0 < span <= region
    requires s.owner.Idle? && !s.retired && !s.claimed && s.liveBytes == 0 && s.head == To(8) && s.cursor.Null?
    requires s.link == map[8 := Null] && s.blocks == map[8 := Block(span, Boxed)] && s.freers == map[1 := ZeroSeen]
    requires s.freeBytes == region - span
    ensures Runs(s, ls) && After(s, ls) == s'
    ensures s'.owner.Idle? && !s'.claimed && s'.liveBytes == span && s'.freers == map[1 := ZeroSeen]
    ensures 8 in s'.blocks && s'.blocks[8] == Block(span, InUse)
  {
    var s1 := Apply(s, AllocStart);
    var s2 := Apply(s1, OwnerExchange);
    assert s2.blocks[8] == Block(span, ArenaRetirement.Place.Reaping);
    var s3 := Apply(s2, ReapOne);
    var s4 := Apply(s3, OwnerTake(8, span));
    s' := Apply(s4, OwnerAdd);
    var tail: seq<Label> := [];
    Prepend(s4, OwnerAdd, tail);
    tail := [OwnerAdd] + tail;
    Prepend(s3, OwnerTake(8, span), tail);
    tail := [OwnerTake(8, span)] + tail;
    Prepend(s2, ReapOne, tail);
    tail := [ReapOne] + tail;
    Prepend(s1, OwnerExchange, tail);
    tail := [OwnerExchange] + tail;
    Prepend(s, AllocStart, tail);
    ls := [AllocStart] + tail;
  }

  /** Thread 1 is in the window, and block 8 is live again. */
  lemma WindowReached(region: nat, span: nat) returns (ls: seq<Label>)
    requires 0 < span <= region
    ensures Runs(Init(region), ls)
    ensures var s := After(Init(region), ls);
            && s.owner.Idle? && !s.claimed && s.freers == map[1 := ZeroSeen] && 8 in s.blocks
            && s.blocks[8] == Block(span, InUse)
  {
    var first, s1 := AllocOne(region, span);
    var second, s2 := FreeOne(region, span, s1);
    var third, s3 := AllocAgain(region, span, s2);
    Concat(Init(region), first, second);
    Concat(Init(region), first + second, third);
    ls := first + second + third;
  }

  /** For every region and span that fits, a whole run that releases the region under a live block of that span. */
  lemma UnsafeRunExists(region: nat, span: nat)
    requires 0 < span <= region
    ensures exists ls, b :: Runs(Init(region), ls) && ReleasedUnder(After(Init(region), ls), b, span)
  {
    var first := WindowReached(region, span);
    InitInv(region);
    var ls := WindowRun(Init(region), first, 1, 8);
  }

  /** Whatever run leads into the window, it can go on to the disaster. */
  lemma WindowRun(s: State, first: seq<Label>, t: Tid, b: Id) returns (ls: seq<Label>)
    requires Inv(s) && Runs(s, first)
    requires var e := After(s, first);
             && e.owner.Idle? && !e.claimed && b in e.blocks && e.blocks[b].place == InUse
             && t in e.freers && e.freers[t].ZeroSeen?
    ensures Runs(s, ls) && b in After(s, first).blocks && ReleasedUnder(After(s, ls), b, After(s, first).blocks[b].span)
  {
    InvRun(s, first);
    var last := HazardIsReal(After(s, first), t, b);
    Concat(s, first, last);
    ls := first + last;
  }

  // ------------------------------------------------------- whole operations, run alone

  /** One label more at the end. */
  lemma Then(s: State, ls: seq<Label>, l: Label)
    requires Runs(s, ls) && Enabled(After(s, ls), l)
    ensures Runs(s, ls + [l]) && After(s, ls + [l]) == Apply(After(s, ls), l)
  {
    Prepend(After(s, ls), l, []);
    assert [l] + [] == [l];
    Concat(s, ls, [l]);
  }

  /** The freer publishes the block: it is the head, and its next word is the head of before. */
  lemma PublishWhole(s: State, t: Tid, b: Id) returns (ls: seq<Label>)
    requires t !in s.freers && b in s.blocks && s.blocks[b].place == InUse
    ensures Runs(s, ls)
    ensures After(s, ls) ==
            s.(head := To(b), link := s.link[b := s.head], mailbox := [b] + s.mailbox,
               blocks := s.blocks[b := Block(s.blocks[b].span, Boxed)],
               freers := s.freers[t := Pushed(s.blocks[b].span)])
  {
    ls := [];
    Then(s, ls, BeginFree(t, b));
    ls := ls + [BeginFree(t, b)];
    Then(s, ls, LoadHead(t));
    ls := ls + [LoadHead(t)];
    Then(s, ls, CasPush(t));
    ls := ls + [CasPush(t)];
    var e := After(s, ls);
    assert e.freers == s.freers[t := Pushed(s.blocks[b].span)];
    assert e.blocks == s.blocks[b := Block(s.blocks[b].span, Boxed)];
  }

  /**
   * tlsf_arena_free_block of another thread: the block is in the mailbox, its bytes are off the counter,
   * and the freer claims the cleanup if and only if the counter reached zero and the arena is retired.
   */
  lemma FreeWhole(s: State, t: Tid, b: Id) returns (ls: seq<Label>)
    requires t !in s.freers && b in s.blocks && s.blocks[b].place == InUse
    ensures Runs(s, ls)
    ensures var n, last := s.blocks[b].span, s.liveBytes == s.blocks[b].span && s.retired;
            After(s, ls) ==
            s.(head := To(b), link := s.link[b := s.head], mailbox := [b] + s.mailbox,
               blocks := s.blocks[b := Block(n, Boxed)], liveBytes := s.liveBytes - n,
               claimed := s.claimed || last, cleaner := if last && !s.claimed then Exchange else s.cleaner)
  {
    ls := PublishWhole(s, t, b);
    var n := s.blocks[b].span;
    Then(s, ls, Decrement(t));
    ls := ls + [Decrement(t)];
    if s.liveBytes == n {
      Then(s, ls, LoadRetired(t));
      ls := ls + [LoadRetired(t)];
      if s.retired {
        Then(s, ls, ClaimCas(t));
        ls := ls + [ClaimCas(t)];
      }
    }
    assert After(s, ls).freers == s.freers;
  }

  /** An arena whose owner is attached is not retired, and nobody cleans it. */
  lemma AttachedOpen(s: State)
    requires Inv(s) && s.owner.Idle?
    ensures !s.retired && !s.claimed && s.reaping == [] && s.cursor.Null?
  {
  }

  /** The direct path of the owner: the block is on the free list at once. */
  lemma DirectWhole(s: State, b: Id) returns (ls: seq<Label>)
    requires s.owner.Idle? && !s.retired && b in s.blocks && s.blocks[b].place == InUse
    ensures Runs(s, ls)
    ensures var n := s.blocks[b].span;
            After(s, ls) == s.(freeBytes := s.freeBytes + n, blocks := s.blocks - {b}, liveBytes := s.liveBytes - n)
  {
    ls := [];
    Then(s, ls, DirectFree(b));
    ls := ls + [DirectFree(b)];
    Then(s, ls, DirectDecrement);
    ls := ls + [DirectDecrement];
    if s.liveBytes == s.blocks[b].span {
      Then(s, ls, DirectLoadRetired);
      ls := ls + [DirectLoadRetired];
    }
  }

  /** tlsf_arena_retire: the owner claims the cleanup if and only if the counter is zero. */
  lemma RetireWhole(s: State) returns (ls: seq<Label>)
    requires s.owner.Idle? && !s.claimed
    ensures Runs(s, ls)
    ensures var none := s.liveBytes == 0;
            After(s, ls) ==
            s.(owner := Gone, retired := true, claimed := none, cleaner := if none then Exchange else s.cleaner)
  {
    ls := [];
    Then(s, ls, Detach);
    ls := ls + [Detach];
    Then(s, ls, StoreRetired);
    ls := ls + [StoreRetired];
    Then(s, ls, LoadLive);
    ls := ls + [LoadLive];
    if s.liveBytes == 0 {
      Then(s, ls, OwnerClaimCas);
      ls := ls + [OwnerClaimCas];
    }
  }

  /** The blocks that are not at p. */
  ghost function Elsewhere(bs: map<Id, Block>, p: Place): map<Id, Block> {
    map b | b in bs && bs[b].place != p :: bs[b]
  }

  /** The walker merges everything it took. */
  lemma {:induction false} ReapWhole(s: State) returns (ls: seq<Label>)
    requires Inv(s) && s.owner.Searching?
    ensures Runs(s, ls)
    ensures var e := After(s, ls);
            e == s.(cursor := Null, reaping := [], freeBytes := e.freeBytes,
                    blocks := Elsewhere(s.blocks, ArenaRetirement.Place.Reaping))
    decreases |s.reaping|
  {
    if s.reaping == [] {
      ls := [];
      NoneTaken(s);
    } else {
      var s1 := Apply(s, ReapOne);
      ReapsFirst(s);
      InvStep(s, ReapOne);
      var rest := ReapWhole(s1);
      Prepend(s, ReapOne, rest);
      ls := [ReapOne] + rest;
    }
  }

  lemma NoneTaken(s: State)
    requires Inv(s) && s.reaping == []
    ensures s.cursor.Null? && Elsewhere(s.blocks, ArenaRetirement.Place.Reaping) == s.blocks
  {
    forall b | b in s.blocks ensures s.blocks[b].place != ArenaRetirement.Place.Reaping {
      assert b !in s.reaping;
    }
  }

  lemma ReapsFirst(s: State)
    requires Inv(s) && s.owner.Searching? && s.reaping != []
    ensures Enabled(s, ReapOne) && |Apply(s, ReapOne).reaping| < |s.reaping|
    ensures var s1 := Apply(s, ReapOne);
            && s1 == s.(cursor := s1.cursor, reaping := s1.reaping, freeBytes := s1.freeBytes, blocks := s1.blocks)
            && Elsewhere(s1.blocks, ArenaRetirement.Place.Reaping) == Elsewhere(s.blocks, ArenaRetirement.Place.Reaping)
  {
    assert s.reaping[0] in s.reaping;
  }

  /** The owner takes the mailbox, if there is one, and merges it. */
  lemma CollectWhole(s: State) returns (ls: seq<Label>)
    requires Inv(s) && s.owner.Idle?
    ensures Runs(s, ls)
    ensures var e := After(s, ls);
            e == s.(owner := Searching, head := Null, mailbox := [], cursor := Null, reaping := [],
                    freeBytes := e.freeBytes, blocks := Elsewhere(s.blocks, Boxed))
  {
    AttachedOpen(s);
    ls := [];
    Then(s, ls, AllocStart);
    ls := ls + [AllocStart];
    if s.head.Null? {
      NoneMailed(s);
    } else {
      Then(s, ls, OwnerExchange);
      ls := ls + [OwnerExchange];
      var m := After(s, ls);
      InvRun(s, ls);
      var rest := ReapWhole(m);
      TakenAll(s, m.blocks);
      Concat(s, ls, rest);
      ls := ls + rest;
    }
  }

  lemma NoneMailed(s: State)
    requires Inv(s) && s.head.Null?
    ensures s.mailbox == [] && Elsewhere(s.blocks, Boxed) == s.blocks
  {
    forall b | b in s.blocks ensures s.blocks[b].place != Boxed {
      assert b !in s.mailbox;
    }
  }

  /** After the exchange the blocks that were boxed are exactly those being reaped. */
  lemma TakenAll(s: State, bs: map<Id, Block>)
    requires Inv(s) && s.reaping == [] && bs == MarkReaping(s.blocks)
    ensures Elsewhere(bs, ArenaRetirement.Place.Reaping) == Elsewhere(s.blocks, Boxed)
  {
    forall b | b in s.blocks ensures s.blocks[b].place != ArenaRetirement.Place.Reaping {
      assert b !in s.reaping;
    }
  }

  /** tlsf_arena_alloc: the mailbox is merged first, then n bytes become block b, in use and counted. */
  lemma AllocWhole(s: State, b: Id, n: nat) returns (ls: seq<Label>)
    requires Inv(s) && s.owner.Idle? && b !in s.blocks && 0 < n <= s.freeBytes
    ensures Runs(s, ls)
    ensures var e := After(s, ls);
            e == s.(head := Null, mailbox := [], cursor := Null, reaping := [], liveBytes := s.liveBytes + n,
                    freeBytes := e.freeBytes, blocks := Elsewhere(s.blocks, Boxed)[b := Block(n, InUse)])
  {
    ls := CollectWhole(s);
    var m := After(s, ls);
    InvRun(s, ls);
    RegionConstant(s, ls);
    CollectedMore(s, m);
    var rest := TakeWhole(m, b, n);
    Concat(s, ls, rest);
    ls := ls + rest;
  }

  lemma TakeWhole(s: State, b: Id, n: nat) returns (ls: seq<Label>)
    requires s.owner.Searching? && s.cursor.Null? && b !in s.blocks && 0 < n <= s.freeBytes
    ensures Runs(s, ls)
    ensures After(s, ls) ==
            s.(owner := Idle, freeBytes := s.freeBytes - n, liveBytes := s.liveBytes + n,
               blocks := s.blocks[b := Block(n, InUse)])
  {
    ls := [];
    Then(s, ls, OwnerTake(b, n));
    ls := ls + [OwnerTake(b, n)];
    Then(s, ls, OwnerAdd);
    ls := ls + [OwnerAdd];
    assert After(s, ls).blocks == s.blocks[b := Block(n, InUse)];
  }

  /** Merging never takes free bytes away. */
  lemma CollectedMore(s: State, m: State)
    requires Inv(s) && Inv(m) && s.region == m.region && m.blocks == Elsewhere(s.blocks, Boxed)
    ensures m.freeBytes >= s.freeBytes
  {
    SumSubset(Spans(s.blocks), Spans(m.blocks));
  }

  lemma {:induction false} SumSubset(a: map<Id, nat>, b: map<Id, nat>)
    requires b.Keys <= a.Keys && forall k :: k in b ==> b[k] == a[k]
    ensures Sum(b) <= Sum(a)
    decreases |a|
  {
    if b != map[] {
      var k :| k in b;
      SumRemove(a, k);
      SumRemove(b, k);
      SumSubset(a - {k}, b - {k});
    }
  }
}
