/**
 * The two-level index of the shared TLSF allocator: how a size maps to a bucket,
 * how a request is rounded up to its segment, and the bitmap search.
 */
module TlsfIndex {
  const SL_COUNT := 16        // TLSF_SL_COUNT, 1 << TLSF_SL_SHIFT
  const FL_MAX := 30          // TLSF_FL_MAX
  const LIMIT := 0x4000_0000  // sizes at or above 2^FL_MAX have no bucket

  datatype Bucket = Bucket(fl: nat, sl: nat)

  /** A 32-bit bitmap word, bit 0 first. */
  type Word = w: seq<bool> | |w| == 32 witness seq(32, _ => false)

  // ------------------------------------------------------------ shifts and logarithms

  /** q << n */
  function Shl(q: nat, n: nat): nat {
    if n == 0 then q else 2 * Shl(q, n - 1)
  }

  /** x >> n */
  function Shr(x: nat, n: nat): nat {
    if n == 0 then x else Shr(x / 2, n - 1)
  }

  /** tlsf_fls: the position of the highest set bit. */
  function Log2(x: nat): nat
    requires x > 0
  {
    if x == 1 then 0 else 1 + Log2(x / 2)
  }

  /** The two shifts are adjoint. */
  lemma {:induction false} ShrAtLeast(x: nat, n: nat, q: nat)
    ensures Shr(x, n) >= q <==> x >= Shl(q, n)
  {
    if n > 0 { ShrAtLeast(x / 2, n - 1, q); }
  }

  lemma {:induction false} ShlMonotone(p: nat, q: nat, n: nat)
    requires p <= q
    ensures Shl(p, n) <= Shl(q, n)
  {
    if n > 0 { ShlMonotone(p, q, n - 1); }
  }

  lemma {:induction false} ShlPositive(n: nat)
    ensures Shl(1, n) > 0
  {
    if n > 0 { ShlPositive(n - 1); }
  }

  /** A segment is a sixteenth of its class. */
  lemma ShlSixteen(n: nat)
    ensures Shl(16, n) == 16 * Shl(1, n) > 0
  {
    ShlPositive(n);
    ShlAdd(1, 1, n);
    ShlAdd(2, 2, n);
    ShlAdd(4, 4, n);
    ShlAdd(8, 8, n);
  }

  lemma {:induction false} ShlAdd(p: nat, q: nat, n: nat)
    ensures Shl(p + q, n) == Shl(p, n) + Shl(q, n)
  {
    if n > 0 { ShlAdd(p, q, n - 1); }
  }

  lemma {:induction false} ShlTwice(q: nat, m: nat, n: nat)
    ensures Shl(Shl(q, m), n) == Shl(q, m + n)
  {
    if n > 0 { ShlTwice(q, m, n - 1); }
  }

  /** Shifting by more doubles at least. */
  lemma {:induction false} ShlFurther(q: nat, m: nat, n: nat)
    requires m < n
    ensures 2 * Shl(q, m) <= Shl(q, n)
  {
    if m + 1 < n { ShlFurther(q, m, n - 1); }
  }

  lemma {:induction false} Log2Bounds(x: nat)
    requires x > 0
    ensures Shl(1, Log2(x)) <= x < Shl(2, Log2(x))
  {
    if x > 1 { Log2Bounds(x / 2); }
  }

  lemma {:induction false} Log2Monotone(x: nat, y: nat)
    requires 0 < x <= y
    ensures Log2(x) <= Log2(y)
  {
    if x > 1 { Log2Monotone(x / 2, y / 2); }
  }

  lemma {:induction false} Log2Below(x: nat, n: nat)
    requires 0 < x
    ensures Log2(x) < n <==> x < Shl(1, n)
  {
    if x > 1 && n > 0 {
      Log2Below(x / 2, n - 1);
    } else {
      ShlPositive(n);
    }
  }

  lemma Below(x: nat)
    requires 0 < x
    ensures Log2(x) < FL_MAX <==> x < LIMIT
  {
    assert Shl(1, 10) == 1024 && Shl(1024, 10) == 0x10_0000 && Shl(0x10_0000, 10) == LIMIT;
    ShlTwice(1, 10, 10);
    ShlTwice(1, 20, 10);
    Log2Below(x, 30);
  }

  /** A size from 16 up is 16 to 32 segments of its first-level class long. */
  lemma Class(x: nat)
    requires x >= SL_COUNT
    ensures Log2(x) >= 4 && Shl(16, Log2(x) - 4) <= x < Shl(32, Log2(x) - 4)
    ensures 16 <= Shr(x, Log2(x) - 4) < 32
  {
    Log2Monotone(16, x);
    assert Log2(16) == 1 + Log2(8) && Log2(8) == 1 + Log2(4) && Log2(4) == 1 + Log2(2);
    Log2Bounds(x);
    var n := Log2(x) - 4;
    assert Shl(1, 4) == 2 * Shl(1, 3) == 4 * Shl(1, 2) && Shl(2, 4) == 2 * Shl(2, 3) == 4 * Shl(2, 2);
    ShlTwice(1, 4, n);
    ShlTwice(2, 4, n);
    ShrAtLeast(x, n, 16);
    ShrAtLeast(x, n, 32);
  }

  // --------------------------------------------------------------------- mappings

  /** v ^ (1 << TLSF_SL_SHIFT), for the values that occur. */
  function Flip16(v: nat): nat
    requires v < 64
  {
    if v < 16 || 32 <= v < 48 then v + 16 else v - 16
  }

  /** tlsf_mapping_insert */
  function MappingInsert(size: nat): Bucket {
    if size < SL_COUNT then Bucket(0, size)
    else
      Class(size);
      Bucket(Log2(size), Flip16(Shr(size, Log2(size) - 4)))
  }

  /** size + round */
  function Bumped(size: nat): nat
    requires size >= SL_COUNT
  {
    Class(size);
    ShlPositive(Log2(size) - 4);
    size + (Shl(1, Log2(size) - 4) - 1)
  }

  lemma SegmentsAt(x: nat, y: nat, n: nat)
    requires Shl(16, n) <= x < Shl(32, n) && y + 1 == x + Shl(1, n)
    ensures 16 <= Shr(y, n) <= 32
  {
    ShrAtLeast(y, n, 16);
    ShrAtLeast(y, n, 33);
    ShlAdd(32, 1, n);
    ShlPositive(n);
  }

  /** tlsf_mapping_search: fl is not recomputed after rounding, so sl can come out as 48. */
  function MappingSearch(size: nat): Bucket {
    if size < SL_COUNT then Bucket(0, size)
    else
      Class(size);
      SegmentsAt(size, Bumped(size), Log2(size) - 4);
      Bucket(Log2(size), Flip16(Shr(Bumped(size), Log2(size) - 4)))
  }

  /** The request rounded up to the next segment boundary. */
  function RoundedUp(size: nat): nat {
    if size < SL_COUNT then size
    else
      Class(size);
      Shl(Shr(Bumped(size), Log2(size) - 4), Log2(size) - 4)
  }

  /** Sizes below the limit have a bucket, and no others: the first index of those is past the bitmaps. */
  lemma BucketExists(x: nat)
    ensures MappingInsert(x).fl < FL_MAX <==> x < LIMIT
    ensures MappingInsert(x).sl < SL_COUNT
  {
    if x >= SL_COUNT {
      Class(x);
      Below(x);
    }
  }

  lemma HasBucket(x: nat)
    requires x < LIMIT
    ensures MappingInsert(x).fl < FL_MAX && MappingInsert(x).sl < SL_COUNT
  {
    BucketExists(x);
  }

  /** The first index of a size with segments is its power of two. */
  lemma FirstIndex(x: nat, n: nat)
    requires 4 <= n
    ensures MappingInsert(x).fl == n <==> Shl(1, n) <= x < Shl(1, n + 1)
  {
    ShlGrows(n - 4);
    SixteenFold(n - 4);
    if x >= SL_COUNT {
      Log2Below(x, n);
      Log2Below(x, n + 1);
    }
  }

  lemma SixteenFold(n: nat)
    ensures Shl(1, n + 4) == 16 * Shl(1, n)
  {
    assert Shl(1, n + 4) == 2 * Shl(1, n + 3) && Shl(1, n + 2) == 2 * Shl(1, n + 1);
  }

  lemma {:induction false} ShlGrows(n: nat)
    ensures Shl(1, n) > n
  {
    if n > 0 { ShlGrows(n - 1); }
  }

  /** The powers of two from 64 to 16384. */
  lemma Powers()
    ensures Shl(1, 6) == 64 && Shl(1, 7) == 128 && Shl(1, 8) == 256 && Shl(1, 9) == 512 && Shl(1, 10) == 1024
    ensures Shl(1, 11) == 2048 && Shl(1, 12) == 4096 && Shl(1, 13) == 8192 && Shl(1, 14) == 16384
  {
    ShlTwice(1, 7, 7);
    assert Shl(1, 7) == 128 && Shl(128, 4) == 2048 && Shl(2048, 3) == 16384;
    ShlTwice(1, 7, 4);
    ShlTwice(1, 11, 3);
  }

  /** Rounding never goes down and adds less than a sixteenth. */
  lemma RoundedUpBounds(req: nat)
    ensures req <= RoundedUp(req) && (req > 0 ==> 16 * (RoundedUp(req) - req) < req)
  {
    if req >= SL_COUNT {
      Class(req);
      var n, y := Log2(req) - 4, Bumped(req);
      var q := Shr(y, n);
      ShrAtLeast(y, n, q);
      ShrAtLeast(y, n, q + 1);
      ShlAdd(q, 1, n);
      ShlSixteen(n);
    }
  }

  /**
   * A request of 16 to 32 segments of 2^n bytes is rounded up to the next whole number of them; below
   * 16 bytes there is nothing to round.
   */
  lemma RoundedUpExact(req: nat, n: nat)
    ensures req < 16 ==> RoundedUp(req) == req
    ensures Shl(16, n) <= req < Shl(32, n) ==>
              req <= RoundedUp(req) < req + Shl(1, n) && exists q :: RoundedUp(req) == Shl(q, n)
  {
    if Shl(16, n) <= req < Shl(32, n) {
      ShlSixteen(n);
      ShlAdd(16, 16, n);
      SixteenFold(n);
      Log2Below(req, n + 4);
      Log2Below(req, n + 5);
      ShlPositive(n);
      Class(req);
      var y := Bumped(req);
      var q := Shr(y, n);
      ShrAtLeast(y, n, q);
      ShrAtLeast(y, n, q + 1);
      ShlAdd(q, 1, n);
      assert RoundedUp(req) == Shl(q, n);
    }
  }

  /** The order in which the search visits buckets. */
  predicate AtMost(b: Bucket, c: Bucket) {
    b.fl < c.fl || (b.fl == c.fl && b.sl <= c.sl)
  }

  /** What the two masks of the search let through; the shifts are taken modulo 32. */
  predicate Eligible(b: Bucket, s: Bucket) {
    || (b.fl == s.fl && b.sl >= s.sl % 32)
    || b.fl >= (s.fl + 1) % 32
  }

  lemma FlipSegment(q: nat)
    requires 16 <= q <= 32
    ensures Flip16(q) == if q == 32 then 48 else q - 16
  {
  }

  lemma SegmentCount(req: nat)
    requires req >= SL_COUNT
    ensures Log2(req) >= 4 && 16 <= Shr(Bumped(req), Log2(req) - 4) <= 32
  {
    Class(req);
    var n, y := Log2(req) - 4, Bumped(req);
    assert y + 1 == req + Shl(1, n) by { ShlPositive(n); }
    SegmentsAt(req, y, n);
  }

  /** A request with a first-level class needs 16 to 32 segments; 32 is the carry. */
  lemma Segments(req: nat)
    requires req >= SL_COUNT
    ensures Log2(req) >= 4
    ensures var q := Shr(Bumped(req), Log2(req) - 4);
            16 <= q <= 32 && MappingSearch(req) == Bucket(Log2(req), if q == 32 then 48 else q - 16)
  {
    SegmentCount(req);
  }

  /** Every size of a lower class is below 16 segments of a higher one. */
  lemma ClassesApart(q: nat, m: nat, n: nat)
    requires 16 <= q <= 32
    ensures m < n ==> Shl(q, m) <= Shl(16, n)
    ensures n < m ==> Shl(32, n) <= Shl(q, m)
  {
    ShlMonotone(q, 32, m);
    ShlMonotone(16, q, m);
    ShlAdd(16, 16, m);
    ShlAdd(16, 16, n);
    if m < n { ShlFurther(16, m, n); }
    if n < m { ShlFurther(16, n, m); }
  }

  /** A size of class n is in a later segment than q of class m exactly when it reaches q segments. */
  lemma LaterIff(x: nat, n: nat, m: nat, q: nat)
    requires Shl(16, n) <= x < Shl(32, n) && 16 <= q <= 32
    ensures n > m || (n == m && Shr(x, n) >= q) <==> x >= Shl(q, m)
  {
    ShrAtLeast(x, m, q);
    ClassesApart(q, m, n);
  }

  /** What a size has to do with a rounded request, both given by class and segments. */
  datatype Place = Place(n: nat, h: nat)

  function PlaceOf(x: nat): Place
    requires x >= SL_COUNT
  {
    Class(x);
    Place(Log2(x) - 4, Shr(x, Log2(x) - 4))
  }

  function NeedOf(req: nat): Place
    requires req >= SL_COUNT
  {
    Class(req);
    Place(Log2(req) - 4, Shr(Bumped(req), Log2(req) - 4))
  }

  predicate Reaches(p: Place, need: Place) {
    p.n > need.n || (p.n == need.n && p.h >= need.h)
  }

  lemma ReachesIff(x: nat, req: nat)
    requires x >= SL_COUNT && req >= SL_COUNT
    ensures Reaches(PlaceOf(x), NeedOf(req)) <==> x >= RoundedUp(req)
  {
    Class(x);
    Segments(req);
    LaterIff(x, Log2(x) - 4, Log2(req) - 4, Shr(Bumped(req), Log2(req) - 4));
  }

  lemma InsertForm(x: nat)
    requires x >= SL_COUNT
    ensures var p := PlaceOf(x); 16 <= p.h < 32 && MappingInsert(x) == Bucket(p.n + 4, p.h - 16)
  {
    Class(x);
    FlipSegment(Shr(x, Log2(x) - 4));
  }

  lemma SearchForm(req: nat)
    requires SL_COUNT <= req < LIMIT
    ensures var p := NeedOf(req);
            && p.n + 4 < FL_MAX && 16 <= p.h <= 32
            && MappingSearch(req) == Bucket(p.n + 4, if p.h == 32 then 48 else p.h - 16)
  {
    Segments(req);
    Below(req);
  }

  lemma {:induction false} ShrMonotone(x: nat, y: nat, n: nat)
    requires x <= y
    ensures Shr(x, n) <= Shr(y, n)
    decreases n
  {
    if n > 0 { ShrMonotone(x / 2, y / 2, n - 1); }
  }

  /** Larger sizes are in later buckets. */
  lemma BucketMonotone(x: nat, y: nat)
    requires x <= y < LIMIT
    ensures AtMost(MappingInsert(x), MappingInsert(y))
  {
    if x >= SL_COUNT { InsertForm(x); }
    if y >= SL_COUNT { InsertForm(y); }
    if x >= SL_COUNT {
      Log2Monotone(x, y);
      ShrMonotone(x, y, PlaceOf(x).n);
    }
  }

  lemma SegmentNarrow(x: nat, y: nat, n: nat)
    requires Shl(16, n) <= x <= y && Shr(x, n) == Shr(y, n)
    ensures 16 * (y - x) < x
  {
    var q := Shr(x, n);
    ShrAtLeast(x, n, q);
    ShrAtLeast(y, n, q + 1);
    ShlAdd(q, 1, n);
    ShlSixteen(n);
  }

  /** Sizes sharing a bucket differ by less than a sixteenth. */
  lemma BucketNarrow(x: nat, y: nat)
    requires x <= y < LIMIT && MappingInsert(x) == MappingInsert(y)
    ensures x == y || 16 * (y - x) < x
  {
    if x >= SL_COUNT { InsertForm(x); Class(x); }
    if y >= SL_COUNT { InsertForm(y); }
    if x >= SL_COUNT { SegmentNarrow(x, y, Log2(x) - 4); }
  }

  /** With the carry, sl & 31 is 16 and masks off the whole second-level word. */
  lemma EligibleForm(b: Bucket, fl: nat, q: nat)
    requires fl < FL_MAX && 16 <= q <= 32 && b.sl < SL_COUNT
    ensures Eligible(b, Bucket(fl, if q == 32 then 48 else q - 16)) <==> b.fl > fl || (b.fl == fl && b.sl + 16 >= q)
  {
  }

  /** The masks, in terms of class and segments. */
  lemma MasksIff(b: Bucket, s: Bucket, p: Place, need: Place)
    requires 16 <= p.h < 32 && b == Bucket(p.n + 4, p.h - 16)
    requires need.n + 4 < FL_MAX && 16 <= need.h <= 32
    requires s == Bucket(need.n + 4, if need.h == 32 then 48 else need.h - 16)
    ensures Eligible(b, s) <==> Reaches(p, need)
  {
    EligibleForm(b, need.n + 4, need.h);
  }

  /**
   * The masks let a bucket through exactly when its blocks are at least the rounded
   * request, also when the rounding carries past the power of two.
   */
  lemma EligibleIff(x: nat, req: nat)
    requires x < LIMIT && req < LIMIT
    ensures Eligible(MappingInsert(x), MappingSearch(req)) <==> x >= RoundedUp(req)
  {
    if x >= SL_COUNT { InsertForm(x); }
    if req >= SL_COUNT {
      SearchForm(req);
      if x >= SL_COUNT {
        MasksIff(MappingInsert(x), MappingSearch(req), PlaceOf(x), NeedOf(req));
        ReachesIff(x, req);
      } else {
        EligibleForm(MappingInsert(x), NeedOf(req).n + 4, NeedOf(req).h);
        RoundedUpBounds(req);
      }
    }
  }

  // ----------------------------------------------------------------------- search

  /** tlsf_ffs of a word whose bits below `from` are masked off; 32 for an empty word. */
  function Ffs(w: Word, from: nat): (i: nat)
    ensures from <= 32 ==> from <= i <= 32
    ensures i < 32 ==> w[i]
    ensures forall j :: from <= j < i && j < 32 ==> !w[j]
    decreases 32 - from
  {
    if from >= 32 then from else if w[from] then from else Ffs(w, from + 1)
  }

  ghost predicate SlBit(slMap: seq<Word>, heads: map<Bucket, nat>, fl: nat, sl: nat)
    requires fl < |slMap| && sl < 32
  {
    slMap[fl][sl] <==> sl < SL_COUNT && Bucket(fl, sl) in heads && heads[Bucket(fl, sl)] != 0
  }

  ghost predicate FlBit(slMap: seq<Word>, flMap: Word, fl: nat)
    requires fl < 32
  {
    flMap[fl] <==> fl < |slMap| && Ffs(slMap[fl], 0) < 32
  }

  /** Bitmap bits are set exactly for the non-empty lists. */
  ghost predicate Marked(slMap: seq<Word>, flMap: Word, heads: map<Bucket, nat>) {
    && |slMap| == FL_MAX
    && (forall fl: nat, sl: nat {:trigger SlBit(slMap, heads, fl, sl)} ::
          fl < FL_MAX && sl < 32 ==> SlBit(slMap, heads, fl, sl))
    && (forall fl: nat {:trigger FlBit(slMap, flMap, fl)} :: fl < 32 ==> FlBit(slMap, flMap, fl))
  }

  /** tlsf_find_suitable_block */
  function FindSuitable(slMap: seq<Word>, flMap: Word, heads: map<Bucket, nat>, total: nat): nat
    requires Marked(slMap, flMap, heads) && total < LIMIT
  {
    var s := MappingSearch(total);
    SearchFits(total);
    var sl := Ffs(slMap[s.fl], s.sl % 32);
    if sl < 32 then
      assert SlBit(slMap, heads, s.fl, sl);
      heads[Bucket(s.fl, sl)]
    else
      var fl := Ffs(flMap, (s.fl + 1) % 32);
      if fl < 32 then
        assert FlBit(slMap, flMap, fl);
        var first := Ffs(slMap[fl], 0);
        assert SlBit(slMap, heads, fl, first);
        heads[Bucket(fl, first)]
      else 0
  }

  lemma SearchFits(total: nat)
    requires total < LIMIT
    ensures MappingSearch(total).fl < FL_MAX
  {
    if total >= SL_COUNT {
      Class(total);
      Below(total);
    }
  }

  /** The search returns the head of the first eligible non-empty bucket, 0 if there is none. */
  lemma FindsLeast(slMap: seq<Word>, flMap: Word, heads: map<Bucket, nat>, total: nat, b: Bucket)
    requires Marked(slMap, flMap, heads) && total < LIMIT
    requires b.fl < FL_MAX && b.sl < SL_COUNT && b in heads && heads[b] != 0 && Eligible(b, MappingSearch(total))
    ensures FindSuitable(slMap, flMap, heads, total) != 0
    ensures exists c :: c in heads && heads[c] == FindSuitable(slMap, flMap, heads, total) && AtMost(c, b)
  {
    var s := MappingSearch(total);
    SearchFits(total);
    assert SlBit(slMap, heads, b.fl, b.sl);
    assert FlBit(slMap, flMap, b.fl);
    var sl := Ffs(slMap[s.fl], s.sl % 32);
    if sl < 32 {
      assert SlBit(slMap, heads, s.fl, sl);
      assert heads[Bucket(s.fl, sl)] == FindSuitable(slMap, flMap, heads, total);
    } else {
      var fl := Ffs(flMap, (s.fl + 1) % 32);
      assert fl <= b.fl;
      assert FlBit(slMap, flMap, fl);
      assert SlBit(slMap, heads, fl, Ffs(slMap[fl], 0));
      assert heads[Bucket(fl, Ffs(slMap[fl], 0))] == FindSuitable(slMap, flMap, heads, total);
    }
  }

  /** Whatever the search returns comes from an eligible bucket. */
  lemma FindsEligible(slMap: seq<Word>, flMap: Word, heads: map<Bucket, nat>, total: nat)
    requires Marked(slMap, flMap, heads) && total < LIMIT && FindSuitable(slMap, flMap, heads, total) != 0
    ensures exists c ::
             c in heads && heads[c] == FindSuitable(slMap, flMap, heads, total) && Eligible(c, MappingSearch(total))
  {
    var s := MappingSearch(total);
    SearchFits(total);
    var sl := Ffs(slMap[s.fl], s.sl % 32);
    if sl < 32 {
      assert SlBit(slMap, heads, s.fl, sl);
      assert Eligible(Bucket(s.fl, sl), s);
    } else {
      var fl := Ffs(flMap, (s.fl + 1) % 32);
      assert FlBit(slMap, flMap, fl);
      assert SlBit(slMap, heads, fl, Ffs(slMap[fl], 0));
      assert Eligible(Bucket(fl, Ffs(slMap[fl], 0)), s);
    }
  }

  // ------------------------------------------------------------- a fresh arena fits

  const FIRST := 4 * 1024 * 1024
  const HEADER_BYTES := 32

  /** expand_sz */
  function Expansion(total: nat): nat {
    if total * 2 > FIRST then total * 2 else FIRST
  }

  /** The one block of a fresh arena is large enough for the request that caused it. */
  lemma ExpansionFits(total: nat)
    requires 35 <= total && Expansion(total) - HEADER_BYTES < LIMIT
    ensures RoundedUp(total) <= Expansion(total) - HEADER_BYTES
    ensures Eligible(MappingInsert(Expansion(total) - HEADER_BYTES), MappingSearch(total))
  {
    RoundedUpBounds(total);
    EligibleIff(Expansion(total) - HEADER_BYTES, total);
  }
}
