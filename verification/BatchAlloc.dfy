/**
 * mp_alloc_batch: one limit decision up front, three phases of slab slots (or a TLSF or
 * OS loop), an emergency element, and the totals charged once at the end.
 */
module BatchAlloc {
  import opened BatchModel

  const CHUNK := 64  // CMEM_BATCH_SLAB_CHUNK

  class Pool {
    const c: Config
    var active: nat
    var allocations: nat
    var tripped: bool
    var emergencyUsed: bool
    var quotaBytes: nat    // of the calling thread
    var quotaCount: nat

    function Now(): State
      reads this
    {
      State(active, allocations, tripped, emergencyUsed, quotaBytes, quotaCount)
    }

    constructor (c: Config, s: State)
      ensures this.c == c && Now() == s
    {
      this.c := c;
      active, allocations, tripped := s.active, s.allocations, s.tripped;
      emergencyUsed, quotaBytes, quotaCount := s.emergencyUsed, s.quotaBytes, s.quotaCount;
    }

    /** batch_breaker_accrue and the store its callers make when it says so. */
    method Accrue(size: nat) returns (trip: bool)
      modifies this`tripped, this`quotaBytes, this`quotaCount
      ensures Now() == Accrued(c, old(Now()), size)
      ensures c.breaker && tripped <==> (c.breaker && old(tripped)) || trip
    {
      trip := false;
      if c.breaker {
        quotaBytes := quotaBytes + size;
        quotaCount := quotaCount + 1;
        trip := c.quota > 0 && quotaBytes >= c.quota;
        if trip { tripped := true; }
      }
    }

    /** p elements are out and accrued; active_bytes is not charged yet. */
    ghost predicate Out(s: State, size: nat, p: nat)
      reads this
    {
      Now() == After(c, s, size, p).(active := s.active, allocations := s.allocations)
    }

    /** As far as the batch has come, the per-element loop has come too. */
    ghost predicate InStep(s: State, size: nat, count: nat, p: nat, stop: bool)
      reads this
    {
      && size > 0 && !(c.dirty && !c.fallback) && Decide(c, s, size, count).Produce?
      && p <= Decide(c, s, size, count).target <= count
      && PlainUpTo(c, s, size, p) && Out(s, size, p) && (stop <==> c.breaker && tripped)
    }

    /** One more element. */
    method Next(ghost s: State, size: nat, ghost count: nat, ghost p: nat) returns (stop: bool)
      requires InStep(s, size, count, p, false) && p < Decide(c, s, size, count).target
      modifies this`tripped, this`quotaBytes, this`quotaCount
      ensures InStep(s, size, count, p + 1, stop)
      ensures quotaBytes == old(quotaBytes) + (if c.breaker then size else 0)
    {
      PlainStep(c, s, size, count, p);
      stop := Accrue(size);
    }

    /** Phases A and B: up to `avail` slots of the thread's cache or a per-CPU list. */
    method Drain(ghost s: State, size: nat, ghost count: nat, target: nat, avail: nat, p0: nat)
      returns (p: nat, stop: bool)
      requires InStep(s, size, count, p0, false) && target == Decide(c, s, size, count).target
      modifies this`tripped, this`quotaBytes, this`quotaCount
      ensures InStep(s, size, count, p, stop)
    {
      p, stop := p0, false;
      var left := avail;
      while p < target && left > 0 && !stop
        invariant InStep(s, size, count, p, stop)
        decreases left
      {
        left := left - 1;
        stop := Next(s, size, count, p);
        p := p + 1;
      }
    }

    /** The size of the next chunk. */
    function Want(size: nat, remaining: nat): (want: nat)
      requires size > 0
      reads this
      ensures remaining > 0 ==> 0 < want <= remaining
    {
      var want := if remaining > CHUNK then CHUNK else remaining;
      if !(c.breaker && c.quota > 0) then want
      else
        var cap := Cap(c.quota, quotaBytes, size);
        if cap == 0 then (if remaining == 0 then 0 else 1) else if want > cap then cap else want
    }

    /**
     * Stamps the `got` slots of one chunk.  When the breaker trips, it trips on the last of
     * them: no slot that left the pages is dropped.
     */
    method StampChunk(ghost s: State, size: nat, ghost count: nat, ghost target: nat, got: nat, p0: nat)
      returns (p: nat, stop: bool)
      requires InStep(s, size, count, p0, false) && target == Decide(c, s, size, count).target && p0 < target
      requires got <= Want(size, target - p0)
      modifies this`tripped, this`quotaBytes, this`quotaCount
      ensures InStep(s, size, count, p, stop) && p == p0 + got
    {
      var i := 0;
      p, stop := p0, false;
      ghost var q := quotaBytes;
      while i < got && !stop
        invariant i <= got && p == p0 + i && InStep(s, size, count, p, stop)
        invariant c.breaker ==> quotaBytes == q + i * size
        invariant stop ==> i == got
      {
        stop := Next(s, size, count, p);
        p := p + 1;
        i := i + 1;
        Times(i, size);
        Quota(s, size, count, p);
        if stop { ChunkEnds(c.quota, q, size, got, i); }
      }
    }

    /** The breaker of a batch in step has tripped exactly when the quota is reached. */
    lemma Quota(s: State, size: nat, count: nat, p: nat)
      requires p > 0 && PlainUpTo(c, s, size, p) && Out(s, size, p)
      ensures c.breaker ==> (tripped <==> c.quota > 0 && quotaBytes >= c.quota)
    {
      AfterTotals(c, s, size, p);
      assert Plain(c, After(c, s, size, 0), size);
    }

    /** Phase C: slab_alloc_batch supplies between one slot and the whole chunk each round. */
    method Bulk(ghost s: State, size: nat, ghost count: nat, target: nat, supply: nat -> nat, p0: nat)
      returns (p: nat, stop: bool, ghost popped: nat)
      requires InStep(s, size, count, p0, false) && target == Decide(c, s, size, count).target
      modifies this`tripped, this`quotaBytes, this`quotaCount
      ensures InStep(s, size, count, p, stop) && popped == p - p0 && (stop || p == target)
    {
      p, stop, popped := p0, false, 0;
      var round := 0;
      while p < target && !stop
        invariant InStep(s, size, count, p, stop) && p >= p0 && popped == p - p0
        decreases target - p
      {
        var want := Want(size, target - p);
        var got := if supply(round) == 0 then 1 else if supply(round) > want then want else supply(round);
        round := round + 1;
        popped := popped + got;
        p, stop := StampChunk(s, size, count, target, got, p);
      }
    }

    /** The TLSF loop. */
    method Tlsf(ghost s: State, size: nat, ghost count: nat, target: nat) returns (p: nat, stop: bool)
      requires InStep(s, size, count, 0, false) && target == Decide(c, s, size, count).target
      modifies this`tripped, this`quotaBytes, this`quotaCount
      ensures InStep(s, size, count, p, stop) && (stop || p == target)
    {
      p, stop := 0, false;
      while p < target && !stop
        invariant InStep(s, size, count, p, stop)
        decreases target - p
      {
        stop := Next(s, size, count, p);
        p := p + 1;
      }
    }

    /** The OS loop, which goes on after a trip. */
    method Os(ghost s: State, size: nat, target: nat) returns (p: nat, stop: bool)
      requires Now() == s && !(c.breaker && tripped)
      modifies this`tripped, this`quotaBytes, this`quotaCount
      ensures Out(s, size, p) && p == target && (stop <==> c.breaker && tripped)
    {
      p, stop := 0, false;
      while p < target
        invariant p <= target && Out(s, size, p) && (stop <==> c.breaker && tripped)
      {
        var trip := Accrue(size);
        p := p + 1;
        stop := stop || trip;
      }
    }

    /** The emergency element, when the limit asked for it and the breaker has not tripped. */
    method Emergency(size: nat, want: bool, stop: bool, p0: nat) returns (p: nat)
      requires stop <==> c.breaker && tripped
      modifies this`tripped, this`quotaBytes, this`quotaCount, this`emergencyUsed
      ensures p == p0 + (if want && !stop then 1 else 0)
      ensures Now() == if want && !stop then Accrued(c, old(Now()).(emergencyUsed := true), size) else old(Now())
    {
      p := p0;
      if want && !stop {
        emergencyUsed := true;
        p := p + 1;
        var trip := Accrue(size);
      }
    }

    /** The aggregated charge at the end. */
    method ChargeAll(size: nat, p: nat)
      modifies this`active, this`allocations
      ensures Now() == old(Now()).(active := old(active) + p * Charge(c, size), allocations := old(allocations) + p)
    {
      if p > 0 {
        active := active + p * Charge(c, size);
        allocations := allocations + p;
      }
    }

    /**
     * mp_alloc_batch with a backing store that never fails: `tls` slots are in the thread's
     * cache, `percpu` can be popped from the per-CPU list, and `supply` says how many slots each
     * bulk pop yields.  Count and state are those of the per-element loop exactly when the
     * request is not for the OS tier or the breaker does not trip before the last element.
     * No slot that was popped is dropped.
     */
    method AllocBatch(size: nat, count: nat, tls: nat, percpu: nat, supply: nat -> nat)
      returns (produced: nat, ghost dropped: nat)
      modifies this
      ensures (Now(), produced) == Loop(c, old(Now()), size, count) <==> !Overshoots(c, old(Now()), size, count)
      ensures dropped == 0
      ensures size == 0 || count == 0 || Closed(c, old(Now())) ==> produced == 0 && Now() == old(Now())
      ensures size > 0 && count > 0 && !Closed(c, old(Now())) ==>
                && Yields(c, old(Now()), size, count, produced, ForOs(c, size))
                && Books(c, old(Now()), Now(), size, produced, produced > Fitting(c, old(Now()), size, count))
      ensures size > 0 && Bare(c, old(Now())) ==>
                && produced ==
                   (if (c.limit - old(active)) / size < count then (c.limit - old(active)) / size else count)
                && active == old(active) + produced * size
    {
      ghost var s := Now();
      produced, dropped := AllocNumbers(size, count, tls, percpu, supply);
      PlainCase(s, size, count, produced);
    }

    lemma PlainCase(s: State, size: nat, count: nat, n: nat)
      requires size == 0 || count == 0 || Closed(c, s) ==> n == 0 && Now() == s
      requires size > 0 && count > 0 && !Closed(c, s) ==>
                 && Yields(c, s, size, count, n, ForOs(c, size))
                 && Books(c, s, Now(), size, n, n > Fitting(c, s, size, count))
      ensures size > 0 && Bare(c, s) ==> Divided(c, s, Now(), size, count, n)
    {
      if size > 0 && Bare(c, s) {
        if count > 0 {
          PlainPool(c, s, Now(), size, count, n, ForOs(c, size));
        } else {
          NothingWanted(c, s, size);
        }
      }
    }

    method AllocNumbers(size: nat, count: nat, tls: nat, percpu: nat, supply: nat -> nat)
      returns (produced: nat, ghost dropped: nat)
      modifies this
      ensures (Now(), produced) == Loop(c, old(Now()), size, count) <==> !Overshoots(c, old(Now()), size, count)
      ensures dropped == 0
      ensures size == 0 || count == 0 || Closed(c, old(Now())) ==> produced == 0 && Now() == old(Now())
      ensures size > 0 && count > 0 && !Closed(c, old(Now())) ==>
                && Yields(c, old(Now()), size, count, produced, ForOs(c, size))
                && Books(c, old(Now()), Now(), size, produced, produced > Fitting(c, old(Now()), size, count))
    {
      if size > 0 && count > 0 && !Closed(c, Now()) {
        LoopNumbers(c, Now(), size, count);
        DecideNumbers(c, Now(), size, count);
        if Decide(c, Now(), size, count).Produce? { OsNumbers(c, Now(), size, count); }
      }
      produced, dropped := AllocMany(size, count, tls, percpu, supply);
    }

    method AllocMany(size: nat, count: nat, tls: nat, percpu: nat, supply: nat -> nat)
      returns (produced: nat, ghost dropped: nat)
      modifies this
      ensures (Now(), produced) == Loop(c, old(Now()), size, count) <==> !Overshoots(c, old(Now()), size, count)
      ensures dropped == 0
      ensures size == 0 || count == 0 || Shut(c, old(Now())) ==> produced == 0 && Now() == old(Now())
      ensures size > 0 && count > 0 && !Shut(c, old(Now())) && OsTier(c, size) &&
              Decide(c, old(Now()), size, count).Produce? ==>
                (Now(), produced) == OsEnd(old(Now()), size, count)
    {
      dropped := 0;
      if count == 0 || size == 0 || (c.dirty && !c.fallback) || (c.breaker && tripped) {
        return 0, 0;
      }
      ghost var s := Now();
      var plan := Decide(c, Now(), size, count);
      match plan {
        case Refuse =>
          LoopNoRoom(c, s, size, count);
          produced := 0;
        case EmergencyOnly =>
          LoopNoRoom(c, s, size, count);
          produced := Emergency(size, true, false, 0);
          ChargeAll(size, produced);
        case Produce(target, thenEmergency) =>
          TargetExact(c, s, size, count, 0);
          if OsTier(c, size) {
            produced := FinishOs(s, size, count, target, thenEmergency);
          } else {
            produced, dropped := FinishPlain(s, size, count, target, thenEmergency, tls, percpu, supply);
          }
      }
    }

    method FinishPlain(ghost s: State, size: nat, count: nat, target: nat, thenEmergency: bool, tls: nat, percpu: nat,
        supply: nat -> nat) returns (produced: nat, ghost dropped: nat)
      requires InStep(s, size, count, 0, false) && Decide(c, s, size, count) == Produce(target, thenEmergency)
      requires Now() == s
      modifies this
      ensures (Now(), produced) == Loop(c, s, size, count) && dropped == 0
    {
      var stop: bool;
      dropped := 0;
      if !c.fixed && Charge(c, size) <= SLAB_MAX {
        produced, stop, dropped := Slab(s, size, count, target, tls, percpu, supply);
      } else {
        produced, stop := Tlsf(s, size, count, target);
      }
      produced := Close(s, size, count, target, thenEmergency, produced, stop);
    }

    /** The three phases of the slab tier. */
    method Slab(ghost s: State, size: nat, ghost count: nat, target: nat, tls: nat, percpu: nat, supply: nat -> nat)
      returns (p: nat, stop: bool, ghost dropped: nat)
      requires InStep(s, size, count, 0, false) && target == Decide(c, s, size, count).target
      modifies this`tripped, this`quotaBytes, this`quotaCount
      ensures InStep(s, size, count, p, stop) && (stop || p == target) && dropped == 0
    {
      dropped := 0;
      p, stop := Drain(s, size, count, target, tls, 0);
      if !stop && p < target {
        p, stop := Drain(s, size, count, target, percpu, p);
      }
      if !stop && p < target {
        ghost var p0, popped: nat := p, 0;
        p, stop, popped := Bulk(s, size, count, target, supply, p);
        dropped := popped - (p - p0);
      }
    }

    method Close(ghost s: State, size: nat, ghost count: nat, target: nat, thenEmergency: bool, p: nat, stop: bool)
      returns (produced: nat)
      requires InStep(s, size, count, p, stop) && Decide(c, s, size, count) == Produce(target, thenEmergency)
      requires (stop || p == target)
      modifies this
      ensures (Now(), produced) == Loop(c, s, size, count)
    {
      LoopFinish(c, s, size, count, p);
      Closing(c, s, size, p, thenEmergency && p == target);
      produced := Emergency(size, thenEmergency && p == target, stop, p);
      ChargeAll(size, produced);
    }

    /** Where the OS tier ends. */
    ghost function OsEnd(s: State, size: nat, count: nat): (State, nat)
      requires size > 0 && Decide(c, s, size, count).Produce?
    {
      var d := Decide(c, s, size, count);
      var (u, k) := Finish(c, After(c, s, size, d.target), size, d.thenEmergency);
      (u, d.target + k)
    }

    method FinishOs(ghost s: State, size: nat, count: nat, target: nat, thenEmergency: bool) returns (produced: nat)
      requires InStep(s, size, count, 0, false) && Decide(c, s, size, count) == Produce(target, thenEmergency)
      requires Now() == s
      modifies this
      ensures (Now(), produced) == Loop(c, s, size, count) <==> !TripsEarly(c, s, size, target)
      ensures (Now(), produced) == OsEnd(s, size, count)
    {
      var stop: bool;
      produced, stop := Os(s, size, target);
      Closing(c, s, size, produced, thenEmergency && produced == target);
      if TripsEarly(c, s, size, target) {
        EarlyTripShort(c, s, size, count, 0);
      } else {
        NoTripPlain(c, s, size, count, target);
        LoopFinish(c, s, size, count, target);
      }
      produced := Emergency(size, thenEmergency && produced == target, stop, produced);
      ChargeAll(size, produced);
    }
  }

  /** Where the batch and the loop part: the OS tier, with a trip before the last element. */
  predicate Overshoots(c: Config, s: State, size: nat, count: nat) {
    && size > 0 && count > 0 && !Shut(c, s) && OsTier(c, size)
    && Decide(c, s, size, count).Produce? && TripsEarly(c, s, size, Decide(c, s, size, count).target)
  }

  /** It does happen: two 5 MB elements against a quota of one byte. */
  lemma OvershootExample(c: Config, s: State)
    requires c == Config(0, false, false, 0, true, 1, false, false, false, false)
    requires s == State(0, 0, false, false, 0, 0)
    ensures Overshoots(c, s, 5_000_000, 2)
    ensures Decide(c, s, 5_000_000, 2) == Produce(2, false) && Loop(c, s, 5_000_000, 2).1 == 1
  {
    var t := Counted(c, s, 5_000_000);
    assert One(c, s, 5_000_000) == Granted(t) && Loop(c, t, 5_000_000, 1) == (t, 0);
  }

  lemma Times(i: nat, size: nat)
    requires i > 0
    ensures i * size == (i - 1) * size + size
  {
  }

  /** Charging at the end amounts to charging each element. */
  lemma Closing(c: Config, s: State, size: nat, p: nat, emergency: bool)
    ensures var t := After(c, s, size, p).(active := s.active, allocations := s.allocations);
            var fire := emergency && !(c.breaker && t.tripped);
            var u := if fire then Accrued(c, t.(emergencyUsed := true), size) else t;
            var n := p + (if fire then 1 else 0);
            && Finish(c, After(c, s, size, p), size, emergency).0 ==
               u.(active := s.active + n * Charge(c, size), allocations := s.allocations + n)
            && Finish(c, After(c, s, size, p), size, emergency).1 == n - p
  {
    AfterTotals(c, s, size, p);
    assert (p + 1) * Charge(c, size) == p * Charge(c, size) + Charge(c, size);
  }
}
