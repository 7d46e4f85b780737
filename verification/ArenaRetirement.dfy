/**
 * The retirement protocol of a per-thread TLSF arena as a step system.
 *
 * One owner thread allocates, frees and finally retires; any number of other
 * threads free blocks through the lock-free mailbox.  Every label below is one
 * atomic access to a shared word (or one edit of memory that only the acting
 * thread can see).  Accesses are sequentially consistent and a compare-exchange
 * fails only when the word differs from the expected value.
 */
module ArenaRetirement {
  import opened Sums

  type Id = nat    // the address of a block
  type Tid = nat   // a thread other than the attached owner

  /** A `next_free` word, the mailbox head, or a walker's cursor. */
  datatype Link = Null | To(id: Id)

  /** Who holds an outstanding (not yet merged back) block. */
  datatype Place = Taken | InUse | Freeing | Boxed | Reaping

  datatype Block = Block(span: nat, place: Place)

  /** Program points of `tlsf_arena_free_block` on the mailbox path. */
  datatype Freer =
    | Loading(b: Id)
    | Linking(b: Id, expected: Link)  // b.next_free == expected, about to CAS
    | Pushed(span: nat)               // published, about to subtract span
    | ZeroSeen                        // its subtraction reached zero, about to load `retired`
    | Claiming                        // saw `retired`, about to CAS `cleanup_claimed`

  /** Program points of the owner thread. */
  datatype Owner =
    | Idle
    | Exchanging            // saw a non-empty mailbox
    | Searching             // reaping what it took, then looking for a fit
    | Adding(b: Id)         // took b off the free list, about to add its span
    | DirectDec(span: nat)  // merged a block of its own back, about to subtract
    | DirectCheck           // that subtraction reached zero
    | Detached              // `tls_cache.tlsf_arena` is NULL
    | LoadingLive           // `retired` is stored
    | OwnerClaiming
    | Gone

  /** Progress of the thread that won `cleanup_claimed`. */
  datatype Cleaner = NoCleaner | Exchange | Reap | Finish | Done

  datatype State = State(
    region: nat,
    freeBytes: nat,                // bytes on the arena's free list
    blocks: map<Id, Block>,        // every block that is not on the free list
    link: map<Id, Link>,           // next_free words
    head: Link, mailbox: seq<Id>,  // remote_free, and the blocks reachable from it
    cursor: Link, reaping: seq<Id>,// the walker of tlsf_arena_reap, and what it has left
    freers: map<Tid, Freer>,
    owner: Owner,
    cleaner: Cleaner,
    liveBytes: int,
    retired: bool,
    claimed: bool,
    finished: bool,
    releases: nat)                 // calls of sys_mem_free on the region

  datatype Label =
    | BeginFree(t: Tid, b: Id) | LoadHead(t: Tid) | CasPush(t: Tid)
    | Decrement(t: Tid) | LoadRetired(t: Tid) | ClaimCas(t: Tid)
    | AllocStart | OwnerExchange | ReapOne | AllocFail
    | OwnerTake(b: Id, span: nat) | OwnerAdd | OwnerGrow(b: Id, more: nat)
    | DirectFree(b: Id) | DirectDecrement | DirectLoadRetired
    | Detach | StoreRetired | LoadLive | OwnerClaimCas
    | CleanExchange | CleanRelease | CleanFinish

  function First(xs: seq<Id>): Link {
    if xs == [] then Null else To(xs[0])
  }

  /** The words a step may rely on being present when it runs. */
  predicate Enabled(s: State, l: Label) {
    match l
    case BeginFree(t, b) => t !in s.freers && b in s.blocks && s.blocks[b].place == InUse
    case LoadHead(t) => t in s.freers && s.freers[t].Loading?
    case CasPush(t) => t in s.freers && s.freers[t].Linking? && s.freers[t].b in s.blocks
    case Decrement(t) => t in s.freers && s.freers[t].Pushed?
    case LoadRetired(t) => t in s.freers && s.freers[t].ZeroSeen?
    case ClaimCas(t) => t in s.freers && s.freers[t].Claiming?
    case AllocStart => s.owner.Idle?
    case OwnerExchange => s.owner.Exchanging?
    case ReapOne =>
      && (s.owner.Searching? || s.cleaner.Reap?)
      && s.cursor.To? && s.cursor.id in s.link && s.cursor.id in s.blocks
    case AllocFail => s.owner.Searching? && s.cursor.Null?
    case OwnerTake(b, n) => s.owner.Searching? && s.cursor.Null? && b !in s.blocks && 0 < n <= s.freeBytes
    case OwnerAdd => s.owner.Adding? && s.owner.b in s.blocks
    case OwnerGrow(b, more) =>
      && s.owner.Searching? && s.cursor.Null?
      && b in s.blocks && s.blocks[b].place == InUse && more <= s.freeBytes
    case DirectFree(b) => s.owner.Idle? && b in s.blocks && s.blocks[b].place == InUse
    case DirectDecrement => s.owner.DirectDec?
    case DirectLoadRetired => s.owner.DirectCheck?
    case Detach => s.owner.Idle?
    case StoreRetired => s.owner.Detached?
    case LoadLive => s.owner.LoadingLive?
    case OwnerClaimCas => s.owner.OwnerClaiming?
    case CleanExchange => s.cleaner.Exchange?
    case CleanRelease => s.cleaner.Reap? && s.cursor.Null?
    case CleanFinish => s.cleaner.Finish?
  }

  function Apply(s: State, l: Label): State
    requires Enabled(s, l)
  {
    match l
    case BeginFree(t, b) =>
      s.(blocks := s.blocks[b := s.blocks[b].(place := Freeing)], freers := s.freers[t := Loading(b)])
    case LoadHead(t) =>
      var b := s.freers[t].b;
      s.(link := s.link[b := s.head], freers := s.freers[t := Linking(b, s.head)])
    case CasPush(t) =>
      var b := s.freers[t].b;
      if s.head == s.freers[t].expected then
        s.(head := To(b), mailbox := [b] + s.mailbox,
           blocks := s.blocks[b := s.blocks[b].(place := Boxed)],
           freers := s.freers[t := Pushed(s.blocks[b].span)])
      else
        s.(link := s.link[b := s.head], freers := s.freers[t := Linking(b, s.head)])
    case Decrement(t) =>
      var n := s.freers[t].span;
      s.(liveBytes := s.liveBytes - n,
         freers := if s.liveBytes == n then s.freers[t := ZeroSeen] else s.freers - {t})
    case LoadRetired(t) =>
      s.(freers := if s.retired then s.freers[t := Claiming] else s.freers - {t})
    case ClaimCas(t) =>
      if s.claimed then s.(freers := s.freers - {t})
      else s.(claimed := true, cleaner := Exchange, freers := s.freers - {t})
    case AllocStart =>
      s.(owner := if s.head.Null? then Searching else Exchanging)
    case OwnerExchange =>
      s.(owner := Searching, head := Null, mailbox := [], cursor := s.head, reaping := s.mailbox,
         blocks := MarkReaping(s.blocks))
    case ReapOne =>
      var b := s.cursor.id;
      s.(cursor := s.link[b], reaping := if s.reaping == [] then [] else s.reaping[1..],
         freeBytes := s.freeBytes + s.blocks[b].span, blocks := s.blocks - {b})
    case AllocFail => s.(owner := Idle)
    case OwnerTake(b, n) =>
      s.(owner := Adding(b), freeBytes := s.freeBytes - n, blocks := s.blocks[b := Block(n, Taken)])
    case OwnerAdd =>
      var b := s.owner.b;
      s.(owner := Idle, liveBytes := s.liveBytes + s.blocks[b].span,
         blocks := s.blocks[b := s.blocks[b].(place := InUse)])
    case OwnerGrow(b, more) =>
      s.(owner := Idle, freeBytes := s.freeBytes - more, liveBytes := s.liveBytes + more,
         blocks := s.blocks[b := s.blocks[b].(span := s.blocks[b].span + more)])
    case DirectFree(b) =>
      s.(owner := DirectDec(s.blocks[b].span), freeBytes := s.freeBytes + s.blocks[b].span,
         blocks := s.blocks - {b})
    case DirectDecrement =>
      s.(liveBytes := s.liveBytes - s.owner.span,
         owner := if s.liveBytes == s.owner.span then DirectCheck else Idle)
    case DirectLoadRetired => s.(owner := if s.retired then OwnerClaiming else Idle)
    case Detach => s.(owner := Detached)
    case StoreRetired => s.(retired := true, owner := LoadingLive)
    case LoadLive => s.(owner := if s.liveBytes == 0 then OwnerClaiming else Gone)
    case OwnerClaimCas =>
      if s.claimed then s.(owner := Gone)
      else s.(claimed := true, cleaner := Exchange, owner := Gone)
    case CleanExchange =>
      s.(cleaner := Reap, head := Null, mailbox := [], cursor := s.head, reaping := s.mailbox,
         blocks := MarkReaping(s.blocks))
    case CleanRelease => s.(cleaner := Finish, releases := s.releases + 1)
    case CleanFinish => s.(cleaner := Done, finished := true)
  }

  /** An exchange of the mailbox head moves every boxed block to the walker. */
  function MarkReaping(bs: map<Id, Block>): map<Id, Block> {
    map b | b in bs :: if bs[b].place == Boxed then bs[b].(place := Reaping) else bs[b]
  }

  function Init(region: nat): State {
    State(region, region, map[], map[], Null, [], Null, [], map[], Idle, NoCleaner, 0, false, false, false, 0)
  }

  /** ls leads from s to the result, every label being enabled where it is taken. */
  ghost predicate Runs(s: State, ls: seq<Label>)
    decreases ls
  {
    ls == [] || (Enabled(s, ls[0]) && Runs(Apply(s, ls[0]), ls[1..]))
  }

  ghost function After(s: State, ls: seq<Label>): State
    requires Runs(s, ls)
    decreases ls
  {
    if ls == [] then s else After(Apply(s, ls[0]), ls[1..])
  }

  // ---------------------------------------------------------------- invariant

  predicate IsCounted(x: Block) {
    x.place == InUse || x.place == Freeing
  }

  /** Blocks whose span is inside live_bytes because somebody still holds them. */
  ghost function Counted(bs: map<Id, Block>): map<Id, nat> {
    map b | b in bs && IsCounted(bs[b]) :: bs[b].span
  }

  ghost function Spans(bs: map<Id, Block>): map<Id, nat> {
    map b | b in bs :: bs[b].span
  }

  /** Spans that were published but not yet subtracted. */
  ghost function Debts(fs: map<Tid, Freer>): map<Tid, nat> {
    map t | t in fs && fs[t].Pushed? :: fs[t].span
  }

  function OwnerDebt(o: Owner): nat {
    if o.DirectDec? then o.span else 0
  }

  predicate Attached(o: Owner) {
    o.Idle? || o.Exchanging? || o.Searching? || o.Adding? || o.DirectDec? || o.DirectCheck?
  }

  /** live_bytes is exact, and no byte of the region is lost. */
  ghost predicate Accounting(s: State) {
    && s.liveBytes == Sum(Counted(s.blocks)) + Sum(Debts(s.freers)) + OwnerDebt(s.owner)
    && s.freeBytes + Sum(Spans(s.blocks)) == s.region
    && (forall b :: b in s.blocks ==> s.blocks[b].span > 0)
    && (forall t :: t in s.freers && s.freers[t].Pushed? ==> s.freers[t].span > 0)
    && (s.owner.DirectDec? ==> s.owner.span > 0)
  }

  /** xs is what a walk along the next_free words starting at its first element visits. */
  ghost predicate Chain(xs: seq<Id>, link: map<Id, Link>) {
    && (forall i :: 0 <= i < |xs| ==> xs[i] in link && link[xs[i]] == First(xs[i + 1..]))
    && (forall i, j :: 0 <= i < j < |xs| ==> xs[i] != xs[j])
  }

  /** The mailbox and the walker's list are intact, and hold exactly the blocks placed there. */
  ghost predicate Lists(s: State) {
    && s.head == First(s.mailbox) && Chain(s.mailbox, s.link)
    && s.cursor == First(s.reaping) && Chain(s.reaping, s.link)
    && (forall b :: b in s.mailbox <==> b in s.blocks && s.blocks[b].place == Boxed)
    && (forall b :: b in s.reaping <==> b in s.blocks && s.blocks[b].place == Reaping)
  }

  predicate Holds(f: Freer, b: Id) {
    (f.Loading? || f.Linking?) && f.b == b
  }

  /** Each block being freed belongs to one freer, which linked it to what it expects. */
  ghost predicate Holders(s: State) {
    && (forall t :: t in s.freers && (s.freers[t].Loading? || s.freers[t].Linking?) ==>
          s.freers[t].b in s.blocks && s.blocks[s.freers[t].b].place == Freeing)
    && (forall t :: t in s.freers && s.freers[t].Linking? ==>
          s.freers[t].b in s.link && s.link[s.freers[t].b] == s.freers[t].expected)
    && (forall t, u, b :: t in s.freers && u in s.freers && Holds(s.freers[t], b) && Holds(s.freers[u], b) ==> t == u)
    && (forall b :: b in s.blocks && s.blocks[b].place == Taken <==> s.owner.Adding? && s.owner.b == b)
  }

  /** Which program points can coexist. */
  ghost predicate Phases(s: State) {
    && (s.retired <==> s.owner.LoadingLive? || s.owner.OwnerClaiming? || s.owner.Gone?)
    && (s.claimed <==> !s.cleaner.NoCleaner?)
    && (s.claimed ==> s.retired)
    && (s.releases == if s.cleaner.Finish? || s.cleaner.Done? then 1 else 0)
    && (s.finished <==> s.cleaner.Done?)
    && (!s.owner.Searching? && !s.cleaner.Reap? ==> s.reaping == [])
    && (forall t :: t in s.freers && s.freers[t].Claiming? ==> s.retired)
  }

  /** Somebody who will still try to claim: this is what makes cleanup happen at all. */
  ghost predicate Claimant(s: State) {
    || s.owner.LoadingLive? || s.owner.OwnerClaiming?
    || exists t :: t in s.freers && (s.freers[t].ZeroSeen? || s.freers[t].Claiming?)
  }

  ghost predicate Watched(s: State) {
    s.retired && s.liveBytes == 0 && !s.claimed ==> Claimant(s)
  }

  ghost predicate Inv(s: State) {
    Accounting(s) && Lists(s) && Holders(s) && Phases(s) && Watched(s)
  }

  // ------------------------------------------------------- preservation, part by part

  lemma SpansUpdate(bs: map<Id, Block>, b: Id, x: Block)
    ensures Sum(Spans(bs[b := x])) == Sum(Spans(bs - {b})) + x.span
  {
    SumAdd(Spans(bs - {b}), b, x.span);
    assert Spans(bs[b := x]) == Spans(bs - {b})[b := x.span];
  }

  lemma CountedUpdate(bs: map<Id, Block>, b: Id, x: Block)
    ensures Sum(Counted(bs[b := x])) == Sum(Counted(bs - {b})) + (if IsCounted(x) then x.span else 0)
  {
    var rest := Counted(bs - {b});
    if IsCounted(x) {
      SumAdd(rest, b, x.span);
      assert Counted(bs[b := x]) == rest[b := x.span];
    } else {
      assert Counted(bs[b := x]) == rest;
    }
  }

  /** What replacing one block does to both sums. */
  lemma BlocksUpdate(bs: map<Id, Block>, b: Id, x: Block)
    requires b in bs
    ensures Sum(Counted(bs[b := x])) ==
            Sum(Counted(bs)) - (if IsCounted(bs[b]) then bs[b].span else 0) + (if IsCounted(x) then x.span else 0)
    ensures Sum(Spans(bs[b := x])) == Sum(Spans(bs)) - bs[b].span + x.span
    ensures Sum(Counted(bs - {b})) == Sum(Counted(bs)) - (if IsCounted(bs[b]) then bs[b].span else 0)
    ensures Sum(Spans(bs - {b})) == Sum(Spans(bs)) - bs[b].span
  {
    SpansUpdate(bs, b, x);
    SpansUpdate(bs, b, bs[b]);
    CountedUpdate(bs, b, x);
    CountedUpdate(bs, b, bs[b]);
    assert bs[b := bs[b]] == bs;
  }

  lemma DebtsUpdate(fs: map<Tid, Freer>, t: Tid, f: Freer)
    ensures Sum(Debts(fs[t := f])) == Sum(Debts(fs - {t})) + (if f.Pushed? then f.span else 0)
    ensures Sum(Debts(fs)) == Sum(Debts(fs - {t})) + (if t in fs && fs[t].Pushed? then fs[t].span else 0)
  {
    var rest := fs - {t};
    if f.Pushed? {
      SumAdd(Debts(rest), t, f.span);
      assert Debts(fs[t := f]) == Debts(rest)[t := f.span];
    } else {
      assert Debts(fs[t := f]) == Debts(rest);
    }
    if t in fs && fs[t].Pushed? {
      SumRemove(Debts(fs), t);
      assert Debts(fs) - {t} == Debts(rest);
    } else {
      assert Debts(fs) == Debts(rest);
    }
  }

  lemma MarkReapingSums(bs: map<Id, Block>)
    ensures Counted(MarkReaping(bs)) == Counted(bs)
    ensures Spans(MarkReaping(bs)) == Spans(bs)
  {
  }

  lemma BeginFreeAccounting(s: State, t: Tid, b: Id)
    requires Accounting(s) && Enabled(s, BeginFree(t, b))
    ensures Accounting(Apply(s, BeginFree(t, b)))
  {
    DebtsUpdate(s.freers, t, Loading(b));
    BlocksUpdate(s.blocks, b, s.blocks[b].(place := Freeing));
  }

  lemma PushAccounting(s: State, t: Tid)
    requires Accounting(s) && Holders(s) && Enabled(s, CasPush(t)) && s.head == s.freers[t].expected
    ensures Accounting(Apply(s, CasPush(t)))
  {
    var b := s.freers[t].b;
    var x := s.blocks[b];
    assert x.place == Freeing;
    DebtsUpdate(s.freers, t, Pushed(x.span));
    BlocksUpdate(s.blocks, b, x.(place := Boxed));
  }

  lemma FreerAccounting(s: State, l: Label)
    requires Accounting(s) && Enabled(s, l)
    requires l.LoadHead? || l.Decrement? || l.LoadRetired? || l.ClaimCas? ||
             (l.CasPush? && s.head != s.freers[l.t].expected)
    ensures Accounting(Apply(s, l))
  {
    var s' := Apply(s, l);
    DebtsUpdate(s.freers, l.t, if l.t in s'.freers then s'.freers[l.t] else Claiming);
  }

  lemma ReapOneAccounting(s: State)
    requires Accounting(s) && Lists(s) && Enabled(s, ReapOne)
    ensures Accounting(Apply(s, ReapOne))
  {
    assert s.reaping[0] in s.reaping;
    BlocksUpdate(s.blocks, s.cursor.id, s.blocks[s.cursor.id]);
  }

  lemma OwnerTakeAccounting(s: State, b: Id, n: nat)
    requires Accounting(s) && Enabled(s, OwnerTake(b, n))
    ensures Accounting(Apply(s, OwnerTake(b, n)))
  {
    assert s.blocks - {b} == s.blocks;
    CountedUpdate(s.blocks, b, Block(n, Taken));
    SpansUpdate(s.blocks, b, Block(n, Taken));
  }

  lemma OwnerAddAccounting(s: State)
    requires Accounting(s) && Holders(s) && Enabled(s, OwnerAdd)
    ensures Accounting(Apply(s, OwnerAdd))
  {
    BlocksUpdate(s.blocks, s.owner.b, s.blocks[s.owner.b].(place := InUse));
  }

  lemma GrowSums(bs: map<Id, Block>, b: Id, x: Block, more: nat)
    requires b in bs && bs[b].place == InUse && x == bs[b].(span := bs[b].span + more)
    ensures Sum(Counted(bs[b := x])) == Sum(Counted(bs)) + more && Sum(Spans(bs[b := x])) == Sum(Spans(bs)) + more
  {
    BlocksUpdate(bs, b, x);
  }

  lemma OwnerGrowAccounting(s: State, b: Id, more: nat)
    requires Accounting(s) && Enabled(s, OwnerGrow(b, more))
    ensures Accounting(Apply(s, OwnerGrow(b, more)))
  {
    var x := s.blocks[b].(span := s.blocks[b].span + more);
    var s' := Apply(s, OwnerGrow(b, more));
    assert s'.blocks == s.blocks[b := x] && s'.freers == s.freers && s'.owner == Idle;
    assert forall y :: y in s'.blocks ==> s'.blocks[y].span > 0;
    GrowSums(s.blocks, b, x, more);
  }

  lemma DirectFreeAccounting(s: State, b: Id)
    requires Accounting(s) && Enabled(s, DirectFree(b))
    ensures Accounting(Apply(s, DirectFree(b)))
  {
    BlocksUpdate(s.blocks, b, s.blocks[b]);
  }

  lemma ExchangeAccounting(s: State, l: Label)
    requires Accounting(s) && Enabled(s, l) && (l.OwnerExchange? || l.CleanExchange?)
    ensures Accounting(Apply(s, l))
  {
    MarkReapingSums(s.blocks);
  }

  /** live_bytes stays exact and no byte is lost, whatever step is taken. */
  lemma AccountingStep(s: State, l: Label)
    requires Accounting(s) && Lists(s) && Holders(s) && Enabled(s, l)
    ensures Accounting(Apply(s, l))
  {
    if l.BeginFree? {
      BeginFreeAccounting(s, l.t, l.b);
    } else if l.CasPush? && s.head == s.freers[l.t].expected {
      PushAccounting(s, l.t);
    } else if l.LoadHead? || l.CasPush? || l.Decrement? || l.LoadRetired? || l.ClaimCas? {
      FreerAccounting(s, l);
    } else if l.ReapOne? {
      ReapOneAccounting(s);
    } else if l.OwnerTake? {
      OwnerTakeAccounting(s, l.b, l.span);
    } else if l.OwnerAdd? {
      OwnerAddAccounting(s);
    } else if l.OwnerGrow? {
      OwnerGrowAccounting(s, l.b, l.more);
    } else if l.DirectFree? {
      DirectFreeAccounting(s, l.b);
    } else if l.OwnerExchange? || l.CleanExchange? {
      ExchangeAccounting(s, l);
    }
  }

  lemma ChainPush(xs: seq<Id>, link: map<Id, Link>, b: Id)
    requires Chain(xs, link) && b !in xs && b in link && link[b] == First(xs)
    ensures Chain([b] + xs, link)
  {
    var ys := [b] + xs;
    forall i | 0 <= i < |ys| ensures ys[i] in link && link[ys[i]] == First(ys[i + 1..]) {
      assert ys[i + 1..] == xs[i..];
    }
  }

  lemma ChainPop(xs: seq<Id>, link: map<Id, Link>)
    requires Chain(xs, link) && xs != []
    ensures Chain(xs[1..], link) && link[xs[0]] == First(xs[1..])
    ensures forall c :: c in xs[1..] <==> c in xs && c != xs[0]
  {
    var ys := xs[1..];
    forall i | 0 <= i < |ys| ensures ys[i] in link && link[ys[i]] == First(ys[i + 1..]) {
      assert ys[i + 1..] == xs[i + 2..];
    }
    forall c | c in xs && c != xs[0] ensures c in ys {
      var i :| 0 <= i < |xs| && xs[i] == c;
      assert ys[i - 1] == c;
    }
  }

  /** Rewriting the next_free word of a block outside the list leaves the list alone. */
  lemma ChainFrame(xs: seq<Id>, link: map<Id, Link>, b: Id, k: Link)
    requires Chain(xs, link) && b !in xs
    ensures Chain(xs, link[b := k])
  {
  }

  lemma FreerLists(s: State, l: Label)
    requires Lists(s) && Holders(s) && Enabled(s, l)
    requires l.LoadHead? || l.CasPush?
    ensures Lists(Apply(s, l))
  {
    var b := s.freers[l.t].b;
    assert s.blocks[b].place == Freeing;
    assert b !in s.mailbox && b !in s.reaping;
    if l.CasPush? && s.head == s.freers[l.t].expected {
      ChainPush(s.mailbox, s.link, b);
    } else {
      ChainFrame(s.mailbox, s.link, b, s.head);
      ChainFrame(s.reaping, s.link, b, s.head);
    }
  }

  lemma WalkerLists(s: State, l: Label)
    requires Lists(s) && Phases(s) && Enabled(s, l)
    requires l.ReapOne? || l.OwnerExchange? || l.CleanExchange?
    ensures Lists(Apply(s, l))
  {
    if l.ReapOne? {
      ChainPop(s.reaping, s.link);
    }
  }

  /** No push is lost and no block is walked twice: the lists always match the blocks in them. */
  lemma ListsStep(s: State, l: Label)
    requires Lists(s) && Holders(s) && Phases(s) && Enabled(s, l)
    ensures Lists(Apply(s, l))
  {
    if l.LoadHead? || l.CasPush? {
      FreerLists(s, l);
    } else if l.ReapOne? || l.OwnerExchange? || l.CleanExchange? {
      WalkerLists(s, l);
    }
  }

  /** A block being freed has no second holder. */
  lemma SoleHolder(s: State, t: Tid, u: Tid, b: Id)
    requires Holders(s) && t in s.freers && u in s.freers && Holds(s.freers[t], b) && Holds(s.freers[u], b)
    ensures t == u
  {
  }

  lemma LinkHolders(s: State, t: Tid, l: Label)
    requires Holders(s) && Enabled(s, l)
    requires l == LoadHead(t) || (l == CasPush(t) && s.head != s.freers[t].expected)
    ensures Holders(Apply(s, l))
  {
    var s' := Apply(s, l);
    var b := s.freers[t].b;
    assert Holds(s.freers[t], b);
    forall u | u in s'.freers && s'.freers[u].Linking?
      ensures s'.freers[u].b in s'.link && s'.link[s'.freers[u].b] == s'.freers[u].expected
    {
      if u != t && s.freers[u].b == b { SoleHolder(s, t, u, b); }
    }
    forall u, v, c | u in s'.freers && v in s'.freers && Holds(s'.freers[u], c) && Holds(s'.freers[v], c)
      ensures u == v
    {
      assert Holds(s.freers[u], c) && Holds(s.freers[v], c);
    }
  }

  lemma PushHolders(s: State, t: Tid)
    requires Holders(s) && Enabled(s, CasPush(t)) && s.head == s.freers[t].expected
    ensures Holders(Apply(s, CasPush(t)))
  {
    var s' := Apply(s, CasPush(t));
    var b := s.freers[t].b;
    assert Holds(s.freers[t], b);
    forall u | u in s'.freers && (s'.freers[u].Loading? || s'.freers[u].Linking?)
      ensures s'.freers[u].b in s'.blocks && s'.blocks[s'.freers[u].b].place == Freeing
    {
      assert Holds(s.freers[u], s.freers[u].b);
      if s.freers[u].b == b { SoleHolder(s, t, u, b); }
    }
  }

  lemma BeginFreeHolders(s: State, t: Tid, b: Id)
    requires Holders(s) && Enabled(s, BeginFree(t, b))
    ensures Holders(Apply(s, BeginFree(t, b)))
  {
  }

  lemma WalkerHolders(s: State, l: Label)
    requires Lists(s) && Holders(s) && Enabled(s, l)
    requires l.ReapOne? || l.OwnerExchange? || l.CleanExchange?
    ensures Holders(Apply(s, l))
  {
    if l.ReapOne? { assert s.reaping[0] in s.reaping; }
  }

  lemma OwnerHolders(s: State, l: Label)
    requires Holders(s) && Enabled(s, l)
    requires l.OwnerTake? || l.OwnerAdd? || l.OwnerGrow? || l.DirectFree?
    ensures Holders(Apply(s, l))
  {
  }

  lemma LeaverHolders(s: State, l: Label)
    requires Holders(s) && Enabled(s, l)
    requires l.Decrement? || l.LoadRetired? || l.ClaimCas?
    ensures Holders(Apply(s, l))
  {
  }

  /** Steps that change neither who holds a block nor any next_free word. */
  lemma QuietHolders(s: State, l: Label)
    requires Holders(s) && Enabled(s, l)
    requires !l.BeginFree? && !l.LoadHead? && !l.CasPush? && !l.Decrement? && !l.LoadRetired? && !l.ClaimCas?
    requires !l.ReapOne? && !l.OwnerExchange? && !l.CleanExchange?
    requires !l.OwnerTake? && !l.OwnerAdd? && !l.OwnerGrow? && !l.DirectFree?
    ensures Holders(Apply(s, l))
  {
    var s' := Apply(s, l);
    assert s'.blocks == s.blocks && s'.freers == s.freers && s'.link == s.link;
    assert (!s.owner.Adding? && !s'.owner.Adding?) || s.owner == s'.owner;
  }

  lemma HoldersStep(s: State, l: Label)
    requires Lists(s) && Holders(s) && Enabled(s, l)
    ensures Holders(Apply(s, l))
  {
    if l.LoadHead? || (l.CasPush? && s.head != s.freers[l.t].expected) {
      LinkHolders(s, l.t, l);
    } else if l.CasPush? {
      PushHolders(s, l.t);
    } else if l.BeginFree? {
      BeginFreeHolders(s, l.t, l.b);
    } else if l.ReapOne? || l.OwnerExchange? || l.CleanExchange? {
      WalkerHolders(s, l);
    } else if l.OwnerTake? || l.OwnerAdd? || l.OwnerGrow? || l.DirectFree? {
      OwnerHolders(s, l);
    } else if l.Decrement? || l.LoadRetired? || l.ClaimCas? {
      LeaverHolders(s, l);
    } else {
      QuietHolders(s, l);
    }
  }

  lemma PhasesStep(s: State, l: Label)
    requires Lists(s) && Phases(s) && Enabled(s, l)
    ensures Phases(Apply(s, l))
  {
    var s' := Apply(s, l);
    forall t | t in s'.freers && s'.freers[t].Claiming? ensures s'.retired {
      assert t in s.freers;
    }
  }

  /** While the arena is retired, empty and unclaimed, somebody is still on the way to claim it. */
  lemma WatchedStep(s: State, l: Label)
    requires Inv(s) && Enabled(s, l)
    ensures Watched(Apply(s, l))
  {
    var s' := Apply(s, l);
    if s'.retired && s'.liveBytes == 0 && !s'.claimed {
      if l.Decrement? {
        assert s'.freers[l.t].ZeroSeen?;
      } else if l.LoadRetired? {
        assert s'.freers[l.t].Claiming?;
      } else if !s'.owner.LoadingLive? && !s'.owner.OwnerClaiming? {
        var t :| t in s.freers && (s.freers[t].ZeroSeen? || s.freers[t].Claiming?);
        assert t in s'.freers && s'.freers[t] == s.freers[t];
      }
    }
  }

  lemma InvStep(s: State, l: Label)
    requires Inv(s) && Enabled(s, l)
    ensures Inv(Apply(s, l))
  {
    AccountingStep(s, l);
    ListsStep(s, l);
    HoldersStep(s, l);
    PhasesStep(s, l);
    WatchedStep(s, l);
  }
}
