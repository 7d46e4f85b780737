/**
 * Admission of allocations: the memory limit, the emergency buffer and the circuit
 * breaker, as one mp_alloc call after another applies them.
 */
module BatchModel {
  const STAMP := 152                   // sizeof(mp_block_header_t)
  const SLAB_MAX := 512                // SLAB_MAX_SIZE
  const TLSF_MAX := 4 * 1024 * 1024    // TLSF_MAX_SIZE

  datatype Config = Config(
    limit: nat,           // max_memory_limit, 0 is none
    fallback: bool,       // fallback_to_sys_alloc_on_oom
    emergency: bool,      // there is an emergency buffer ...
    emergencySize: nat,   // ... of this size
    breaker: bool,        // circuit_breaker_enabled
    quota: nat,           // thread_quota_bytes, 0 is none
    aligned: bool,        // MP_FLAG_CACHE_ALIGNED
    canary: bool,         // MP_FLAG_DEBUG_CANARY
    fixed: bool,          // MP_FLAG_STATIC_BUFFER
    dirty: bool)          // is_dirty

  datatype State = State(
    active: nat,          // active_bytes
    allocations: nat,     // active_allocations
    tripped: bool,        // circuit_breaker_tripped
    emergencyUsed: bool,
    quotaBytes: nat,      // the thread's alloc_bytes
    quotaCount: nat)      // the thread's alloc_count

  datatype Outcome = Refused | Granted(state: State)

  /** The internal request, which the limit and active_bytes are charged with. */
  function Charge(c: Config, size: nat): nat {
    if c.aligned then size + 64 + STAMP + (if c.canary then 1 else 0) else size
  }

  predicate Exceeds(c: Config, s: State, size: nat) {
    c.limit > 0 && s.active + Charge(c, size) > c.limit
  }

  predicate EmergencyFits(c: Config, s: State, size: nat) {
    c.emergency && !s.emergencyUsed && Charge(c, size) + STAMP + (if c.canary then 1 else 0) <= c.emergencySize
  }

  predicate Shut(c: Config, s: State) {
    (c.dirty && !c.fallback) || (c.breaker && s.tripped)
  }

  /** The quota accrual after a success. */
  function Accrued(c: Config, s: State, size: nat): State {
    if !c.breaker then s
    else
      var bytes := s.quotaBytes + size;
      s.(quotaBytes := bytes, quotaCount := s.quotaCount + 1, tripped := s.tripped || (c.quota > 0 && bytes >= c.quota))
  }

  /** The state after an element was handed out. */
  function Counted(c: Config, s: State, size: nat): State {
    Accrued(c, s.(active := s.active + Charge(c, size), allocations := s.allocations + 1), size)
  }

  /** One mp_alloc call, when the backing store does not fail. */
  function One(c: Config, s: State, size: nat): Outcome {
    if size == 0 || Shut(c, s) then Refused
    else if Exceeds(c, s, size) && !c.fallback then
      if EmergencyFits(c, s, size) then Granted(Counted(c, s.(emergencyUsed := true), size)) else Refused
    else Granted(Counted(c, s, size))
  }

  /** Calling mp_alloc up to n times, until the first NULL: the final state and the count. */
  function Loop(c: Config, s: State, size: nat, n: nat): (State, nat)
    decreases n
  {
    if n == 0 then (s, 0)
    else match One(c, s, size)
      case Refused => (s, 0)
      case Granted(t) => var (u, k) := Loop(c, t, size, n - 1); (u, k + 1)
  }

  // -------------------------------------------------------------- a run of plain grants

  /** The state after p elements, the limit and the breaker left aside. */
  ghost function After(c: Config, s: State, size: nat, p: nat): State {
    if p == 0 then s else Counted(c, After(c, s, size, p - 1), size)
  }

  /** The next element is granted from the ordinary tiers. */
  predicate Plain(c: Config, s: State, size: nat) {
    size > 0 && !Shut(c, s) && (c.fallback || !Exceeds(c, s, size))
  }

  ghost predicate PlainUpTo(c: Config, s: State, size: nat, p: nat) {
    forall q: nat {:trigger After(c, s, size, q)} :: q < p ==> Plain(c, After(c, s, size, q), size)
  }

  lemma {:induction false} AfterShift(c: Config, s: State, size: nat, p: nat)
    ensures After(c, Counted(c, s, size), size, p) == After(c, s, size, p + 1)
  {
    if p > 0 { AfterShift(c, s, size, p - 1); }
  }

  /** The loop runs through a plain prefix. */
  lemma {:induction false} LoopPrefix(c: Config, s: State, size: nat, n: nat, p: nat)
    requires p <= n && PlainUpTo(c, s, size, p)
    ensures var (u, k) := Loop(c, After(c, s, size, p), size, n - p);
            Loop(c, s, size, n) == (u, p + k)
    decreases p
  {
    if p > 0 {
      assert After(c, s, size, 0) == s;
      var t := Counted(c, s, size);
      forall q: nat | q < p - 1 ensures Plain(c, After(c, t, size, q), size) {
        AfterShift(c, s, size, q);
      }
      AfterShift(c, s, size, p - 1);
      LoopPrefix(c, t, size, n - 1, p - 1);
    }
  }

  /** What a run of grants adds up to. */
  lemma {:induction false} AfterTotals(c: Config, s: State, size: nat, p: nat)
    ensures var t := After(c, s, size, p);
            && t.active == s.active + p * Charge(c, size) && t.allocations == s.allocations + p
            && t.emergencyUsed == s.emergencyUsed
            && t.quotaBytes == (if c.breaker then s.quotaBytes + p * size else s.quotaBytes)
            && t.quotaCount == (if c.breaker then s.quotaCount + p else s.quotaCount)
            && (t.tripped <==> s.tripped || (p > 0 && c.breaker && c.quota > 0 && s.quotaBytes + p * size >= c.quota))
  {
    if p > 0 {
      AfterTotals(c, s, size, p - 1);
      assert p * size == (p - 1) * size + size && p * Charge(c, size) == (p - 1) * Charge(c, size) + Charge(c, size);
    }
  }

  // ------------------------------------------------------------------ the batch decision

  datatype Plan = Refuse | EmergencyOnly | Produce(target: nat, thenEmergency: bool)

  /** The one-shot limit decision of mp_alloc_batch. */
  function Decide(c: Config, s: State, size: nat, count: nat): Plan
    requires size > 0
  {
    if c.limit == 0 then Produce(count, false)
    else if s.active + Charge(c, size) > c.limit then
      if c.fallback then Produce(count, false)
      else if EmergencyFits(c, s, size) then EmergencyOnly
      else Refuse
    else
      var fit := (c.limit - s.active) / Charge(c, size);
      if fit < count && !c.fallback then Produce(fit, EmergencyFits(c, s, size)) else Produce(count, false)
  }

  lemma Fits(room: nat, charge: nat, p: nat)
    requires charge > 0
    ensures p <= room / charge <==> p * charge <= room
  {
    var q := room / charge;
    assert room == q * charge + room % charge;
    if p <= q { assert p * charge <= q * charge; }
    if p > q { assert p * charge >= (q + 1) * charge; }
  }

  /** Up to the target no element exceeds the limit, and beyond it the next one does. */
  lemma TargetExact(c: Config, s: State, size: nat, count: nat, p: nat)
    requires size > 0 && Decide(c, s, size, count).Produce? && p <= count
    ensures var target := Decide(c, s, size, count).target;
            && target <= count
            && (p < target ==> c.fallback || !Exceeds(c, After(c, s, size, p), size))
            && (p == target < count ==> !c.fallback && Exceeds(c, After(c, s, size, p), size))
            && (Decide(c, s, size, count).thenEmergency ==> target < count && EmergencyFits(c, s, size))
            && (target < count && !Decide(c, s, size, count).thenEmergency ==> !EmergencyFits(c, s, size))
  {
    AfterTotals(c, s, size, p);
    if c.limit > 0 && s.active + Charge(c, size) <= c.limit {
      var room, charge := c.limit - s.active, Charge(c, size);
      Fits(room, charge, p + 1);
      assert (p + 1) * charge == p * charge + charge;
    }
  }

  /** The elements before the first trip are plain. */
  lemma PlainStep(c: Config, s: State, size: nat, count: nat, p: nat)
    requires size > 0 && !(c.dirty && !c.fallback) && Decide(c, s, size, count).Produce?
    requires p < Decide(c, s, size, count).target <= count
    requires PlainUpTo(c, s, size, p) && !(c.breaker && After(c, s, size, p).tripped)
    ensures PlainUpTo(c, s, size, p + 1)
  {
    TargetExact(c, s, size, count, p);
  }

  /** What is left for the loop after the plain elements: one emergency element, or nothing. */
  ghost function Finish(c: Config, t: State, size: nat, emergency: bool): (State, nat) {
    if emergency && !(c.breaker && t.tripped) then (Counted(c, t.(emergencyUsed := true), size), 1) else (t, 0)
  }

  /** The loop ends where the batch ends. */
  lemma LoopFinish(c: Config, s: State, size: nat, count: nat, p: nat)
    requires size > 0 && !(c.dirty && !c.fallback) && Decide(c, s, size, count).Produce?
    requires PlainUpTo(c, s, size, p) && p <= Decide(c, s, size, count).target <= count
    requires p == Decide(c, s, size, count).target || (c.breaker && After(c, s, size, p).tripped)
    ensures var t := After(c, s, size, p);
            var (u, k) :=
              Finish(c, t, size, Decide(c, s, size, count).thenEmergency && p == Decide(c, s, size, count).target);
            Loop(c, s, size, count) == (u, p + k)
  {
    var t := After(c, s, size, p);
    LoopPrefix(c, s, size, count, p);
    TargetExact(c, s, size, count, p);
    AfterTotals(c, s, size, p);
    LoopTail(c, t, size, count - p);
  }

  /** From a state where the limit or the breaker says no, at most an emergency element comes. */
  lemma LoopTail(c: Config, t: State, size: nat, n: nat)
    requires size > 0 && !(c.dirty && !c.fallback)
    requires n > 0 ==> (c.breaker && t.tripped) || (!c.fallback && Exceeds(c, t, size))
    ensures Loop(c, t, size, n) == Finish(c, t, size, n > 0 && EmergencyFits(c, t, size))
  {
    if n > 0 && !(c.breaker && t.tripped) && EmergencyFits(c, t, size) {
      var u := Counted(c, t.(emergencyUsed := true), size);
      assert One(c, u, size) == Refused;
      assert Loop(c, u, size, n - 1) == (u, 0);
    }
  }

  /** When not even one element fits, the loop gets the emergency element or nothing. */
  lemma LoopNoRoom(c: Config, s: State, size: nat, count: nat)
    requires size > 0 && count > 0 && !Shut(c, s) && !Decide(c, s, size, count).Produce?
    ensures Loop(c, s, size, count) == Finish(c, s, size, Decide(c, s, size, count).EmergencyOnly?)
  {
    LoopTail(c, s, size, count);
  }

  // ------------------------------------------------------------------- the chunk cap

  /** ceil((quota - accrued) / size) */
  function Cap(quota: nat, accrued: nat, size: nat): nat
    requires size > 0
  {
    if quota > accrued then (quota - accrued + size - 1) / size else 0
  }

  /** i elements cross the quota exactly when i reaches the cap. */
  lemma CapExact(quota: nat, accrued: nat, size: nat, i: nat)
    requires size > 0 && quota > accrued
    ensures accrued + i * size >= quota <==> i >= Cap(quota, accrued, size)
  {
    var room, cap := quota - accrued, Cap(quota, accrued, size);
    Fits(room + size - 1, size, cap);
    Fits(room + size - 1, size, cap + 1);
    Steps(cap, i, size);
    Steps(cap + 1, i + 1, size);
    Steps(i, cap, size);
  }

  /** i steps against n. */
  lemma Steps(n: nat, i: nat, size: nat)
    ensures (n + 1) * size == n * size + size && (i >= n ==> i * size >= n * size)
    ensures (i < n ==> i * size + size <= n * size)
  {
    if i >= n { Split(n, i - n, size); } else { Split(i + 1, n - i - 1, size); }
    Split(n, 1, size);
    Split(i, 1, size);
  }

  lemma Split(a: nat, b: nat, size: nat)
    ensures (a + b) * size == a * size + b * size
  {
  }

  /** A chunk within the cap can cross the quota only with its last element. */
  lemma ChunkEnds(quota: nat, accrued: nat, size: nat, got: nat, i: nat)
    requires size > 0 && 0 < i <= got && accrued + i * size >= quota
    requires got <= if Cap(quota, accrued, size) == 0 then 1 else Cap(quota, accrued, size)
    ensures i == got
  {
    if quota > accrued { CapExact(quota, accrued, size, i); }
  }

  // ----------------------------------------------------------------------- the OS tier

  /** Requests too large for the slab and TLSF tiers. */
  predicate OsTier(c: Config, size: nat) {
    !c.fixed && Charge(c, size) > TLSF_MAX
  }

  /** The breaker would trip before the last element of the target. */
  predicate TripsEarly(c: Config, s: State, size: nat, target: nat) {
    c.breaker && c.quota > 0 && target >= 2 && s.quotaBytes + (target - 1) * size >= c.quota
  }

  lemma TimesMonotone(p: nat, q: nat, size: nat)
    requires p <= q
    ensures p * size <= q * size
  {
  }

  /** Without an early trip every element of the target is plain. */
  lemma {:induction false} NoTripPlain(c: Config, s: State, size: nat, count: nat, p: nat)
    requires size > 0 && !Shut(c, s) && Decide(c, s, size, count).Produce? && p <= Decide(c, s, size, count).target
    requires !TripsEarly(c, s, size, Decide(c, s, size, count).target)
    ensures PlainUpTo(c, s, size, p) && Decide(c, s, size, count).target <= count
    decreases p
  {
    TargetExact(c, s, size, count, 0);
    if p > 0 {
      NoTripPlain(c, s, size, count, p - 1);
      AfterTotals(c, s, size, p - 1);
      TimesMonotone(p - 1, Decide(c, s, size, count).target - 1, size);
      PlainStep(c, s, size, count, p - 1);
    }
  }

  /** With an early trip the loop stops short of the target. */
  lemma {:induction false} EarlyTripShort(c: Config, s: State, size: nat, count: nat, p: nat)
    requires size > 0 && !Shut(c, s) && Decide(c, s, size, count).Produce? && p < Decide(c, s, size, count).target
    requires TripsEarly(c, s, size, Decide(c, s, size, count).target) && PlainUpTo(c, s, size, p)
    ensures Loop(c, s, size, count).1 < Decide(c, s, size, count).target
    decreases Decide(c, s, size, count).target - p
  {
    TargetExact(c, s, size, count, 0);
    AfterTotals(c, s, size, p);
    if c.breaker && After(c, s, size, p).tripped {
      LoopFinish(c, s, size, count, p);
    } else {
      PlainStep(c, s, size, count, p);
      EarlyTripShort(c, s, size, count, p + 1);
    }
  }

  // ------------------------------------------------------------------ everything in numbers

  /** The pool is closed: dirty without the fallback, or its breaker has tripped. */
  ghost predicate Closed(c: Config, s: State) {
    (c.dirty && !c.fallback) || (c.breaker && s.tripped)
  }

  /** The request is for the OS: above 4 MB, on pools that are not static buffers. */
  ghost predicate ForOs(c: Config, size: nat) {
    !c.fixed && (if !c.aligned then size else if c.canary then size + 64 + 152 + 1 else size + 64 + 152) > 4194304
  }

  /** How many elements the limit leaves room for, of `count`. */
  ghost function Fitting(c: Config, s: State, size: nat, count: nat): nat {
    var charge := if !c.aligned then size else if c.canary then size + 64 + 152 + 1 else size + 64 + 152;
    if c.limit == 0 || c.fallback || charge == 0 then count
    else if s.active >= c.limit then 0
    else if (c.limit - s.active) / charge < count then (c.limit - s.active) / charge
    else count
  }

  /** The emergency buffer is there, unused and large enough for an element. */
  ghost predicate Spare(c: Config, s: State, size: nat) {
    && c.emergency && !s.emergencyUsed
    && (if !c.aligned then size + 152 else size + 64 + 2 * 152)
       + (if !c.canary then 0 else if c.aligned then 2 else 1) <= c.emergencySize
  }

  /** n elements reach the quota of the thread. */
  ghost predicate Reaches(c: Config, s: State, size: nat, n: nat) {
    c.breaker && c.quota > 0 && n > 0 && s.quotaBytes + n * size >= c.quota
  }

  /** What n elements leave behind, the last of them from the emergency buffer if `spare`. */
  ghost predicate Books(c: Config, s: State, u: State, size: nat, n: nat, spare: bool) {
    && u.active ==
       s.active + n * (if !c.aligned then size else if c.canary then size + 64 + 152 + 1 else size + 64 + 152)
    && u.allocations == s.allocations + n
    && u.quotaBytes == (if c.breaker then s.quotaBytes + n * size else s.quotaBytes)
    && u.quotaCount == (if c.breaker then s.quotaCount + n else s.quotaCount)
    && u.emergencyUsed == (s.emergencyUsed || spare)
    && (u.tripped <==> s.tripped || Reaches(c, s, size, n))
  }

  /**
   * How many elements come out: as many as fit, and one more from the emergency buffer if they are
   * not all and the quota is not reached.  The slab and TLSF tiers stop at the element that reaches
   * the quota; the OS tier, for charges above 4 MB, does not.
   */
  ghost predicate Yields(c: Config, s: State, size: nat, count: nat, n: nat, os: bool) {
    var fit := Fitting(c, s, size, count);
    if !os && fit > 0 && Reaches(c, s, size, fit - 1) then
      0 < n < fit && Reaches(c, s, size, n) && !Reaches(c, s, size, n - 1)
    else n == fit + if fit < count && Spare(c, s, size) && !Reaches(c, s, size, fit) then 1 else 0
  }

  lemma DecideNumbers(c: Config, s: State, size: nat, count: nat)
    requires size > 0 && count > 0
    ensures var fit, d := Fitting(c, s, size, count), Decide(c, s, size, count);
            && (d.Produce? ==> d.target == fit && (d.thenEmergency <==> fit < count && Spare(c, s, size)))
            && (!d.Produce? ==> fit == 0 && (d.EmergencyOnly? <==> Spare(c, s, size)))
  {
    if c.limit > 0 && !c.fallback && s.active <= c.limit {
      Fits(c.limit - s.active, Charge(c, size), 1);
    }
  }

  lemma AfterBooks(c: Config, s: State, size: nat, p: nat)
    ensures Books(c, s, After(c, s, size, p), size, p, false)
  {
    AfterTotals(c, s, size, p);
  }

  /** One more element, from the emergency buffer. */
  lemma SpareBooks(c: Config, s: State, t: State, size: nat, p: nat)
    requires Books(c, s, t, size, p, false) && !(c.breaker && t.tripped)
    ensures Books(c, s, Counted(c, t.(emergencyUsed := true), size), size, p + 1, true)
  {
    Split(p, 1, size);
    Split(p, 1, Charge(c, size));
  }

  /** The loop runs plainly to the end of what fits or to the element that reaches the quota. */
  lemma {:induction false} PlainRun(c: Config, s: State, size: nat, count: nat, p: nat) returns (q: nat)
    requires size > 0 && !Closed(c, s) && Decide(c, s, size, count).Produce?
    requires p <= Decide(c, s, size, count).target <= count && PlainUpTo(c, s, size, p)
    requires p > 0 ==> !Reaches(c, s, size, p - 1)
    ensures p <= q <= Decide(c, s, size, count).target && PlainUpTo(c, s, size, q)
    ensures q > 0 ==> !Reaches(c, s, size, q - 1)
    ensures q == Decide(c, s, size, count).target || Reaches(c, s, size, q)
    decreases Decide(c, s, size, count).target - p
  {
    AfterBooks(c, s, size, p);
    if p == Decide(c, s, size, count).target || Reaches(c, s, size, p) {
      q := p;
    } else {
      PlainStep(c, s, size, count, p);
      q := PlainRun(c, s, size, count, p + 1);
    }
  }

  /** More elements reach the quota if fewer do. */
  lemma ReachesMore(c: Config, s: State, size: nat, p: nat, q: nat)
    requires p <= q && Reaches(c, s, size, p)
    ensures Reaches(c, s, size, q)
  {
    TimesMonotone(p, q, size);
  }

  /** The per-element loop in numbers. */
  lemma LoopNumbers(c: Config, s: State, size: nat, count: nat)
    requires size > 0 && count > 0 && !Closed(c, s)
    ensures var (u, n) := Loop(c, s, size, count);
            && Yields(c, s, size, count, n, false)
            && Books(c, s, u, size, n, n > Fitting(c, s, size, count))
  {
    if Decide(c, s, size, count).Produce? {
      DecideNumbers(c, s, size, count);
      TargetExact(c, s, size, count, 0);
      var p := PlainRun(c, s, size, count, 0);
      AfterBooks(c, s, size, p);
      LoopFinish(c, s, size, count, p);
      FinishNumbers(c, s, size, count, p);
    } else {
      NoRoomNumbers(c, s, size, count);
    }
  }

  lemma NoRoomNumbers(c: Config, s: State, size: nat, count: nat)
    requires size > 0 && count > 0 && !Closed(c, s) && !Decide(c, s, size, count).Produce?
    ensures var (u, n) := Loop(c, s, size, count);
            && Yields(c, s, size, count, n, false)
            && Books(c, s, u, size, n, n > Fitting(c, s, size, count))
  {
    DecideNumbers(c, s, size, count);
    LoopNoRoom(c, s, size, count);
    AfterBooks(c, s, size, 0);
    if Decide(c, s, size, count).EmergencyOnly? { SpareBooks(c, s, s, size, 0); }
  }

  /** A pool with a limit and nothing else. */
  ghost predicate Bare(c: Config, s: State) {
    !c.aligned && !c.breaker && !c.emergency && !c.fallback && !c.dirty && 0 < c.limit && s.active <= c.limit
  }

  /** There the count is a division. */
  ghost predicate Divided(c: Config, s: State, u: State, size: nat, count: nat, n: nat)
    requires size > 0 && s.active <= c.limit
  {
    && n == (if (c.limit - s.active) / size < count then (c.limit - s.active) / size else count)
    && u.active == s.active + n * size
  }

  lemma PlainPool(c: Config, s: State, u: State, size: nat, count: nat, n: nat, os: bool)
    requires size > 0 && Bare(c, s)
    requires Yields(c, s, size, count, n, os) && Books(c, s, u, size, n, n > Fitting(c, s, size, count))
    ensures Divided(c, s, u, size, count, n)
  {
  }

  lemma NothingWanted(c: Config, s: State, size: nat)
    requires size > 0 && Bare(c, s)
    ensures Divided(c, s, s, size, 0, 0)
  {
    assert (c.limit - s.active) / size >= 0;
  }

  lemma FinishNumbers(c: Config, s: State, size: nat, count: nat, p: nat)
    requires size > 0 && count > 0 && !Closed(c, s) && Decide(c, s, size, count).Produce?
    requires var fit := Fitting(c, s, size, count);
             p <= fit && (p > 0 ==> !Reaches(c, s, size, p - 1)) && (p == fit || Reaches(c, s, size, p))
    ensures var fit, t := Fitting(c, s, size, count), After(c, s, size, p);
            var (u, k) := Finish(c, t, size, fit < count && Spare(c, s, size) && p == fit);
            && Yields(c, s, size, count, p + k, false) && Books(c, s, u, size, p + k, p + k > fit)
  {
    var fit, t := Fitting(c, s, size, count), After(c, s, size, p);
    AfterBooks(c, s, size, p);
    if p < fit {
      ReachesMore(c, s, size, p, fit - 1);
    } else if fit < count && Spare(c, s, size) && !(c.breaker && t.tripped) {
      SpareBooks(c, s, t, size, p);
    }
  }

  /** The OS tier goes on to the end of what fits. */
  lemma OsNumbers(c: Config, s: State, size: nat, count: nat)
    requires size > 0 && count > 0 && !Closed(c, s) && Decide(c, s, size, count).Produce?
    ensures var fit, t := Fitting(c, s, size, count), After(c, s, size, Fitting(c, s, size, count));
            var (u, k) := Finish(c, t, size, fit < count && Spare(c, s, size));
            && Yields(c, s, size, count, fit + k, true) && Books(c, s, u, size, fit + k, k > 0)
  {
    var fit := Fitting(c, s, size, count);
    var t := After(c, s, size, fit);
    AfterBooks(c, s, size, fit);
    if fit < count && Spare(c, s, size) && !(c.breaker && t.tripped) {
      SpareBooks(c, s, t, size, fit);
    }
  }
}
