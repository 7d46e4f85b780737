/**
 * How well the codec does on runs: the exact size of the encoding of n equal bytes, and that it is
 * smaller than the run from 64 bytes on.
 */
module Lz4Runs {
  import opened Lz4

  ghost predicate AllEqual(src: seq<Byte>) {
    forall i, j {:trigger src[i], src[j]} :: 0 <= i < j < |src| ==> src[i] == src[j]
  }

  /** The bytes of the sequences that cover the last n bytes of a run, none of them pending. */
  function TailSize(n: nat): nat {
    if n == 0 then 0
    else if n < 4 then n + 1
    else if n < 19 then 3
    else if n <= 4096 then 4 + (n - 19) / 255
    else 19 + TailSize(n - 4096)
  }

  /** The bytes of the encoding of n equal bytes: the first byte is a literal, the others are matched. */
  function RunSize(n: nat): nat {
    if n == 0 then 0 else if n < 5 then n + 1 else 1 + TailSize(n - 1)
  }

  /** The match found inside a run is as long as the probe allows and one byte back. */
  lemma RunMatch(src: seq<Byte>, p: nat)
    requires AllEqual(src) && p < |src|
    ensures p == 0 ==> BestMatch(src, p) == (0, 0)
    ensures p > 0 ==> BestMatch(src, p) == (Min(|src| - p, 4096), 1)
  {
    if p > 0 {
      var probe := Min(|src| - p, 4096);
      BestMatchOptimal(src, p);
      assert Matches(src, p, 1, probe);
    }
  }

  lemma ExtLength(n: nat)
    ensures |Ext(n)| == if n < 15 then 0 else (n - 15) / 255 + 1
  {
    ExtBytes(n);
  }

  lemma SequenceLength(lits: seq<Byte>, off: nat, mlen: nat)
    requires off <= 65535 && mlen >= 4 && |lits| < 15
    ensures |Sequence(lits, off, mlen)| == |lits| + if mlen < 19 then 3 else 4 + (mlen - 19) / 255
  {
    ExtLength(|lits|);
    ExtLength(mlen - 4);
    SequenceBytes(lits, off, mlen);
  }

  /** Fewer than four bytes before the end are literals. */
  lemma {:induction false} ShortTail(src: seq<Byte>, anchor: nat, p: nat)
    requires AllEqual(src) && anchor <= p <= |src| && |src| - p < 4 && 0 < |src| - anchor < 15 && p > 0
    ensures |EncodeFrom(src, anchor, p)| == |src| - anchor + 1
    decreases |src| - p
  {
    if p < |src| {
      RunMatch(src, p);
      EncodeAt(src, anchor, p);
      ShortTail(src, anchor, p + 1);
    } else {
      LastBytes(src[anchor..]);
      ExtLength(|src| - anchor);
    }
  }

  lemma NothingLeft(src: seq<Byte>)
    ensures EncodeFrom(src, |src|, |src|) == []
  {
  }

  /** One match of a run. */
  lemma OneMatch(src: seq<Byte>, anchor: nat, p: nat, len: nat)
    requires AllEqual(src) && anchor <= p && 0 < p && p + 4 <= |src| && p - anchor < 15 && len == Min(|src| - p, 4096)
    ensures EncodeFrom(src, anchor, p) == Sequence(src[anchor..p], 1, len) + EncodeFrom(src, p + len, p + len)
  {
    RunMatch(src, p);
    EncodeAt(src, anchor, p);
  }

  lemma MatchLength(src: seq<Byte>, anchor: nat, p: nat, len: nat)
    requires AllEqual(src) && anchor <= p && 0 < p && p + 4 <= |src| && p - anchor < 15 && len == Min(|src| - p, 4096)
    ensures |EncodeFrom(src, anchor, p)| ==
            p - anchor + (if len < 19 then 3 else 4 + (len - 19) / 255) + |EncodeFrom(src, p + len, p + len)|
  {
    OneMatch(src, anchor, p, len);
    SequenceLength(src[anchor..p], 1, len);
  }

  /** The encoding from p on, nothing pending, has k bytes. */
  ghost predicate HasSize(src: seq<Byte>, p: nat, k: nat) {
    forall q :: q == p <= |src| ==> |EncodeFrom(src, q, q)| == k
  }

  lemma EndSize(src: seq<Byte>)
    ensures HasSize(src, |src|, 0)
  {
    NothingLeft(src);
  }

  lemma ShortSize(src: seq<Byte>, p: nat)
    requires AllEqual(src) && 0 < p < |src| && |src| - p < 4
    ensures HasSize(src, p, |src| - p + 1)
  {
    ShortTail(src, p, p);
  }

  lemma MatchSize(src: seq<Byte>, p: nat, len: nat, k: nat)
    requires AllEqual(src) && 0 < p && p + 4 <= |src| && len == Min(|src| - p, 4096) && HasSize(src, p + len, k)
    ensures HasSize(src, p, k + if len < 19 then 3 else 4 + (len - 19) / 255)
  {
    MatchLength(src, p, p, len);
  }

  /** From inside the run. */
  lemma {:induction false} TailEncoded(src: seq<Byte>, p: nat)
    requires AllEqual(src) && 0 < p <= |src|
    ensures HasSize(src, p, TailSize(|src| - p))
    decreases |src| - p
  {
    var n := |src| - p;
    if n == 0 {
      EndSize(src);
    } else if n < 4 {
      ShortSize(src, p);
    } else {
      var len := Min(n, 4096);
      TailEncoded(src, p + len);
      MatchSize(src, p, len, TailSize(n - len));
    }
  }

  lemma RunEncoded(src: seq<Byte>)
    requires AllEqual(src)
    ensures |Encode(src)| == RunSize(|src|)
  {
    if |src| == 0 {
      NothingLeft(src);
    } else {
      RunMatch(src, 0);
      EncodeAt(src, 0, 0);
      if |src| < 5 {
        ShortTail(src, 0, 1);
      } else {
        var len := Min(|src| - 1, 4096);
        MatchLength(src, 0, 1, len);
        TailEncoded(src, 1 + len);
      }
    }
  }

  lemma {:induction false} TailBound(n: nat)
    ensures TailSize(n) <= 4 + n / 215
  {
    if n > 4096 { TailBound(n - 4096); }
  }

  /** Every run of 64 bytes and more shrinks; one that the first match covers needs a byte for every 255. */
  lemma RunGains(n: nat)
    ensures RunSize(n) <= 6 + n / 215
    ensures n <= 4097 ==> RunSize(n) <= 6 + n / 255
    ensures n >= 64 ==> RunSize(n) < n
  {
    if n > 0 { TailBound(n - 1); }
  }

  lemma RunShrinks(src: seq<Byte>)
    ensures AllEqual(src) ==> |Encode(src)| <= 6 + |src| / 215
    ensures AllEqual(src) && |src| >= 64 ==> |Encode(src)| < |src|
  {
    if AllEqual(src) {
      RunEncoded(src);
      RunGains(|src|);
    }
  }

  /** A match is at most 4096 bytes, so a longer run needs more than a byte for every 255. */
  lemma LongRun()
    ensures RunSize(4099) == 23 > 6 + 4099 / 255
  {
    assert TailSize(2) == 3;
  }

  /** A hundred equal bytes become five. */
  lemma HundredZeros(src: seq<Byte>)
    requires |src| == 100 && AllEqual(src) && src[0] == 0
    ensures Encode(src) == [0x1F, 0, 1, 0, 80]
  {
    RunMatch(src, 0);
    EncodeAt(src, 0, 0);
    OneMatch(src, 0, 1, 99);
    NothingLeft(src);
    HundredBytes(src[0..1]);
  }

  lemma HundredBytes(lits: seq<Byte>)
    requires lits == [0]
    ensures Sequence(lits, 1, 99) == [0x1F, 0, 1, 0, 80]
  {
    SequenceBytes(lits, 1, 99);
    ExtBytes(1);
    ExtBytes(95);
    assert Ext(95) == [80];
  }
}
