/**
 * The segregated free lists of a shared TLSF arena: one list per bucket, with the two
 * bitmap levels, and the search through them.
 */
module BucketLists {
  import opened SortedList
  import opened TlsfIndex
  import opened LinkedStacks

  type Keys = map<nat, Bucket>
  type Heads = map<Bucket, nat>

  /** There is a list for each bucket and no other. */
  ghost predicate Proper(heads: Heads) {
    && (forall b {:trigger b in heads} :: b in heads ==> b.fl < FL_MAX && b.sl < SL_COUNT)
    && (forall fl: nat, sl: nat {:trigger Bucket(fl, sl)} :: fl < FL_MAX && sl < SL_COUNT ==> Bucket(fl, sl) in heads)
  }

  // ------------------------------------------------------------------------ bitmaps

  /** The bitmaps after the list of b became non-empty. */
  function SetSl(slMap: seq<Word>, b: Bucket, bit: bool): seq<Word>
    requires b.fl < |slMap| && b.sl < 32
  {
    slMap[b.fl := slMap[b.fl][b.sl := bit]]
  }

  lemma SetSlBit(slMap: seq<Word>, heads: Heads, heads': Heads, b: Bucket, bit: bool, fl: nat, sl: nat)
    requires |slMap| == FL_MAX && b.fl < FL_MAX && b.sl < SL_COUNT && b in heads
    requires b in heads' && heads' == heads[b := heads'[b]] && (bit <==> heads'[b] != 0)
    requires fl < FL_MAX && sl < 32 && SlBit(slMap, heads, fl, sl)
    ensures SlBit(SetSl(slMap, b, bit), heads', fl, sl)
  {
    if Bucket(fl, sl) == b { assert fl == b.fl && sl == b.sl; }
  }

  /** Setting the bits of a list that has a head. */
  lemma MarkSet(slMap: seq<Word>, flMap: Word, heads: Heads, heads': Heads, b: Bucket)
    requires Marked(slMap, flMap, heads) && b.fl < FL_MAX && b.sl < SL_COUNT && b in heads
    requires b in heads' && heads' == heads[b := heads'[b]] && heads'[b] != 0
    ensures Marked(SetSl(slMap, b, true), flMap[b.fl := true], heads')
  {
    var slMap', flMap' := SetSl(slMap, b, true), flMap[b.fl := true];
    forall fl: nat, sl: nat | fl < FL_MAX && sl < 32 ensures SlBit(slMap', heads', fl, sl) {
      assert SlBit(slMap, heads, fl, sl);
      SetSlBit(slMap, heads, heads', b, true, fl, sl);
    }
    forall fl: nat | fl < 32 ensures FlBit(slMap', flMap', fl) {
      assert FlBit(slMap, flMap, fl);
      if fl == b.fl { assert slMap'[fl][b.sl]; }
    }
  }

  /** Clearing the bits of a list that has just become empty. */
  lemma MarkCleared(slMap: seq<Word>, flMap: Word, heads: Heads, heads': Heads, b: Bucket)
    requires Marked(slMap, flMap, heads) && b.fl < FL_MAX && b.sl < SL_COUNT && b in heads
    requires b in heads' && heads' == heads[b := heads'[b]] && heads'[b] == 0
    ensures var slMap' := SetSl(slMap, b, false);
            Marked(slMap', if Ffs(slMap'[b.fl], 0) == 32 then flMap[b.fl := false] else flMap, heads')
  {
    var slMap' := SetSl(slMap, b, false);
    var flMap' := if Ffs(slMap'[b.fl], 0) == 32 then flMap[b.fl := false] else flMap;
    forall fl: nat, sl: nat | fl < FL_MAX && sl < 32 ensures SlBit(slMap', heads', fl, sl) {
      assert SlBit(slMap, heads, fl, sl);
      SetSlBit(slMap, heads, heads', b, false, fl, sl);
    }
    forall fl: nat | fl < 32 ensures FlBit(slMap', flMap', fl) {
      assert FlBit(slMap, flMap, fl);
      if fl == b.fl && Ffs(slMap'[fl], 0) < 32 { assert slMap[fl][Ffs(slMap'[fl], 0)]; }
    }
  }

  /** A list that keeps a head keeps its bits. */
  lemma MarkKept(slMap: seq<Word>, flMap: Word, heads: Heads, heads': Heads, b: Bucket)
    requires Marked(slMap, flMap, heads) && b.fl < FL_MAX && b.sl < SL_COUNT && b in heads && heads[b] != 0
    requires b in heads' && heads' == heads[b := heads'[b]] && heads'[b] != 0
    ensures Marked(slMap, flMap, heads')
  {
    forall fl: nat, sl: nat | fl < FL_MAX && sl < 32 ensures SlBit(slMap, heads', fl, sl) {
      assert SlBit(slMap, heads, fl, sl);
    }
  }

  // ------------------------------------------------------------------------- search

  /** Every listed block is in the bucket of its size. */
  ghost predicate Sized(keys: Keys, size: map<nat, nat>) {
    forall f {:trigger f in keys} :: f in keys ==> f in size && size[f] < LIMIT && keys[f] == MappingInsert(size[f])
  }

  /**
   * The search succeeds exactly when some listed block is at least the rounded request.
   * The block found is one of those, and no other of them is in an earlier bucket.
   */
  lemma FindCorrect(keys: Keys, size: map<nat, nat>, ks: Links, heads: Heads, stamp: map<nat, nat>, clock: nat,
      slMap: seq<Word>, flMap: Word, total: nat)
    requires Threaded(keys, ks, heads, stamp, clock) && Marked(slMap, flMap, heads) && Sized(keys, size)
    requires total < LIMIT
    ensures var r := FindSuitable(slMap, flMap, heads, total);
            && (r != 0 ==> r in keys && total <= RoundedUp(total) <= size[r])
            && (forall f :: f in keys && size[f] >= RoundedUp(total) ==> r != 0 && AtMost(keys[r], keys[f]))
  {
    var r := FindSuitable(slMap, flMap, heads, total);
    if r != 0 {
      FindsEligible(slMap, flMap, heads, total);
      var c :| c in heads && heads[c] == r && Eligible(c, MappingSearch(total));
      assert Headed(keys, ks, heads, c);
      EligibleIff(size[r], total);
      RoundedUpBounds(total);
    }
    forall f | f in keys && size[f] >= RoundedUp(total) ensures r != 0 && AtMost(keys[r], keys[f]) {
      EligibleIff(size[f], total);
      HasBucket(size[f]);
      ListedHasHead(keys, ks, heads, stamp, clock, f);
      FindsLeast(slMap, flMap, heads, total, keys[f]);
      var c :| c in heads && heads[c] == r && AtMost(c, keys[f]);
      assert Headed(keys, ks, heads, c);
    }
  }
}
