/** The codec's cursor loops over byte buffers, proved to compute `Lz4.Encode` and `Lz4.Decode`. */
module Lz4Codec {
  import opened Lz4
  import opened Lz4Runs

  // ----------------------------------------------------------------- encoder

  /** Once a match fills the whole probe window no farther offset can replace it. */
  lemma {:induction false} BestSaturated(src: seq<Byte>, p: nat, m: nat, limit: nat)
    requires m <= limit <= p <= |src| && Best(src, p, m).0 == Probe(src, p)
    ensures Best(src, p, limit) == Best(src, p, m)
    decreases limit
  {
    if m < limit {
      BestSaturated(src, p, m, limit - 1);
    }
  }

  method Compare(src: seq<Byte>, p: nat, off: nat, probe: nat) returns (len: nat)
    requires 1 <= off <= p && p + probe <= |src|
    ensures len == MatchFrom(src, p, off, probe, 0)
  {
    len := 0;
    while len < probe && src[p - off + len] == src[p + len]
      invariant len <= probe
      invariant MatchFrom(src, p, off, probe, len) == MatchFrom(src, p, off, probe, 0)
    {
      len := len + 1;
    }
  }

  /** The bounded probe: longest match, nearest offset first. */
  method FindMatch(src: seq<Byte>, p: nat) returns (bestLen: nat, bestOff: nat)
    requires p < |src|
    ensures (bestLen, bestOff) == BestMatch(src, p)
    ensures bestLen > 0 ==> Matches(src, p, bestOff, bestLen)
    ensures forall off: nat, len: nat {:trigger Matches(src, p, off, len)} :: Matches(src, p, off, len) ==>
              len <= bestLen && (off < bestOff ==> len < bestLen)
  {
    BestMatchOptimal(src, p);
    bestLen, bestOff := 0, 0;
    var probe := |src| - p;
    if probe > MAX_PROBE { probe := MAX_PROBE; }
    if p > 0 {
      var maxOff := p;
      if maxOff > MAX_DIST { maxOff := MAX_DIST; }
      var off := 1;
      while off <= maxOff
        invariant 1 <= off <= maxOff + 1
        invariant (bestLen, bestOff) == Best(src, p, off - 1)
        decreases maxOff - off
      {
        var len := Compare(src, p, off, probe);
        if len > bestLen {
          bestLen, bestOff := len, off;
          if len == probe {
            BestSaturated(src, p, off, maxOff);
            return;
          }
        }
        off := off + 1;
      }
    }
  }

  /** Copies bytes to dst at op; the caller has checked that they fit. */
  method Put(dst: array<Byte>, op: nat, bytes: seq<Byte>)
    requires op + |bytes| <= dst.Length
    modifies dst
    ensures dst[..op + |bytes|] == old(dst[..op]) + bytes
  {
    for i := 0 to |bytes|
      invariant dst[..op] == old(dst[..op])
      invariant dst[op..op + i] == bytes[..i]
    {
      dst[op + i] := bytes[i];
      assert dst[op..op + i + 1] == dst[op..op + i] + [bytes[i]];
    }
    assert dst[..op + |bytes|] == dst[..op] + dst[op..op + |bytes|];
  }

  /** Writes length extension bytes; -1 when they do not fit. */
  method PutLen(dst: array<Byte>, op: nat, len: nat) returns (op': int)
    requires op <= dst.Length
    modifies dst
    ensures op' == -1 <==> op + |WriteLen(len)| > dst.Length
    ensures op' != -1 ==> 0 <= op' == op + |WriteLen(len)| && dst[..op'] == old(dst[..op]) + WriteLen(len)
  {
    var n: nat := len;
    var q: nat := op;
    while n >= MAX_EXT
      invariant op <= q <= dst.Length
      invariant dst[..q] + WriteLen(n) == old(dst[..op]) + WriteLen(len)
    {
      if q >= dst.Length {
        assert |dst[..q] + WriteLen(n)| > dst.Length;
        return -1;
      }
      ghost var before := dst[..q];
      Put(dst, q, [MAX_EXT]);
      assert before + WriteLen(n) == dst[..q + 1] + WriteLen(n - MAX_EXT);
      q := q + 1;
      n := n - MAX_EXT;
    }
    if q >= dst.Length {
      assert |dst[..q] + WriteLen(n)| > dst.Length;
      return -1;
    }
    Put(dst, q, [n]);
    op' := q + 1;
    assert |dst[..op']| == |old(dst[..op]) + WriteLen(len)|;
  }

  /** Token, literal-length extension and literals: the part both kinds of sequence share. */
  method PutLiterals(dst: array<Byte>, op: nat, token: Byte, lits: seq<Byte>) returns (op': int)
    requires op <= dst.Length
    modifies dst
    ensures op' == -1 <==> op + |[token] + Ext(|lits|) + lits| > dst.Length
    ensures op' != -1 ==> 0 <= op' <= dst.Length && dst[..op'] == old(dst[..op]) + ([token] + Ext(|lits|) + lits)
  {
    if op + 1 > dst.Length { return -1; }
    Put(dst, op, [token]);
    var q: int := op + 1;
    if |lits| >= NIBBLE {
      q := PutLen(dst, q, |lits| - NIBBLE);
      if q < 0 { return -1; }
    }
    assert dst[..q] == old(dst[..op]) + ([token] + Ext(|lits|));
    assert q == op + 1 + |Ext(|lits|)|;
    if q + |lits| > dst.Length { return -1; }
    Put(dst, q, lits);
    op' := q + |lits|;
    assert dst[..op'] == old(dst[..op]) + ([token] + Ext(|lits|) + lits);
  }

  lemma SequenceSplit(lits: seq<Byte>, off: nat, mlen: nat)
    requires off <= MAX_DIST && mlen >= MIN_MATCH
    ensures Sequence(lits, off, mlen) ==
            ([Token(|lits|, mlen - MIN_MATCH)] + Ext(|lits|) + lits) + (OffsetField(off) + Ext(mlen - MIN_MATCH))
  {
  }

  /** The offset field and the match-length extension. */
  method PutMatch(dst: array<Byte>, op: nat, off: nat, mlen: nat) returns (op': int)
    requires op <= dst.Length && off <= MAX_DIST && mlen >= MIN_MATCH
    modifies dst
    ensures op' == -1 <==> op + |OffsetField(off) + Ext(mlen - MIN_MATCH)| > dst.Length
    ensures op' != -1 ==>
              0 <= op' <= dst.Length && dst[..op'] == old(dst[..op]) + (OffsetField(off) + Ext(mlen - MIN_MATCH))
  {
    if op + 2 > dst.Length { return -1; }
    ghost var before := dst[..op];
    Put(dst, op, OffsetField(off));
    var q: int := op + 2;
    if mlen - MIN_MATCH >= NIBBLE {
      q := PutLen(dst, q, mlen - MIN_MATCH - NIBBLE);
      if q < 0 { return -1; }
      assert dst[..q] == (before + OffsetField(off)) + WriteLen(mlen - MIN_MATCH - NIBBLE);
    }
    op' := q;
    assert dst[..op'] == before + (OffsetField(off) + Ext(mlen - MIN_MATCH));
  }

  /** One literal-plus-match sequence; -1 when it does not fit. */
  method PutSequence(dst: array<Byte>, op: nat, lits: seq<Byte>, off: nat, mlen: nat) returns (op': int)
    requires op <= dst.Length && off <= MAX_DIST && mlen >= MIN_MATCH
    modifies dst
    ensures op' == -1 <==> op + |Sequence(lits, off, mlen)| > dst.Length
    ensures op' != -1 ==> 0 <= op' <= dst.Length && dst[..op'] == old(dst[..op]) + Sequence(lits, off, mlen)
  {
    SequenceSplit(lits, off, mlen);
    ghost var before := dst[..op];
    ghost var front := [Token(|lits|, mlen - MIN_MATCH)] + Ext(|lits|) + lits;
    ghost var back := OffsetField(off) + Ext(mlen - MIN_MATCH);
    Regroup(before, front, back);
    var q := PutLiterals(dst, op, Token(|lits|, mlen - MIN_MATCH), lits);
    if q < 0 { return -1; }
    ghost var mid := dst[..q];
    assert mid == before + front;
    op' := PutMatch(dst, q, off, mlen);
    assert op' != -1 ==> dst[..op'] == mid + back;
  }

  lemma Regroup(out: seq<Byte>, first: seq<Byte>, tail: seq<Byte>)
    ensures out + (first + tail) == (out + first) + tail
    ensures |out + (first + tail)| == |out| + |first| + |tail|
  {
  }

  lemma {:induction false} EncodeNonEmpty(src: seq<Byte>, anchor: nat, p: nat)
    requires anchor <= p <= |src| && anchor < |src|
    ensures EncodeFrom(src, anchor, p) != []
    decreases |src| - p
  {
    if p < |src| && BestMatch(src, p).0 < MIN_MATCH {
      EncodeNonEmpty(src, anchor, p + 1);
    }
  }

  /** One turn of the encoder: gather a literal, or flush the pending ones with a match. */
  method Advance(src: seq<Byte>, anchor: nat, p: nat, dst: array<Byte>, op: nat)
    returns (anchor': nat, p': nat, op': int)
    requires anchor <= p < |src| && op <= dst.Length
    modifies dst
    ensures op' == -1 ==> op + |EncodeFrom(src, anchor, p)| > dst.Length
    ensures op' != -1 ==>
              && 0 <= op' <= dst.Length && anchor' <= p' <= |src| && p < p'
              && dst[..op'] + EncodeFrom(src, anchor', p') == old(dst[..op]) + EncodeFrom(src, anchor, p)
  {
    var bestLen, bestOff := FindMatch(src, p);
    if bestLen < MIN_MATCH { return anchor, p + 1, op; }
    Regroup(dst[..op], Sequence(src[anchor..p], bestOff, bestLen), EncodeFrom(src, p + bestLen, p + bestLen));
    op' := PutSequence(dst, op, src[anchor..p], bestOff, bestLen);
    anchor', p' := p + bestLen, p + bestLen;
  }

  /**
   * Compresses src into dst.  The result is exactly the greedy encoding whenever that
   * fits, and -1 otherwise (or when either buffer is empty).
   */
  method Compress(src: seq<Byte>, dst: array<Byte>) returns (n: int)
    modifies dst
    ensures n == -1 <==> src == [] || dst.Length == 0 || |Encode(src)| > dst.Length
    ensures n != -1 ==> 0 < n <= dst.Length && dst[..n] == Encode(src)
    ensures AllEqual(src) && 64 <= |src| <= dst.Length ==> 0 < n <= 6 + |src| / 215
  {
    RunShrinks(src);
    n := CompressAll(src, dst);
  }

  method CompressAll(src: seq<Byte>, dst: array<Byte>) returns (n: int)
    modifies dst
    ensures n == -1 <==> src == [] || dst.Length == 0 || |Encode(src)| > dst.Length
    ensures n != -1 ==> 0 < n <= dst.Length && dst[..n] == Encode(src)
  {
    if |src| == 0 || dst.Length == 0 { return -1; }
    var p: nat, anchor: nat, op: int := 0, 0, 0;
    assert dst[..0] + EncodeFrom(src, 0, 0) == Encode(src);
    while p < |src|
      invariant anchor <= p <= |src| && 0 <= op <= dst.Length
      invariant dst[..op] + EncodeFrom(src, anchor, p) == Encode(src)
      decreases |src| - p
    {
      ghost var rest := EncodeFrom(src, anchor, p);
      assert |dst[..op] + rest| == op + |rest|;
      anchor, p, op := Advance(src, anchor, p, dst, op);
      if op < 0 { return -1; }
    }
    if anchor < |src| {
      op := PutLiterals(dst, op, Token(|src| - anchor, 0), src[anchor..]);
      if op < 0 { return -1; }
    }
    assert dst[..op] == Encode(src);
    EncodeNonEmpty(src, 0, 0);
    return op;
  }

  // ----------------------------------------------------------------- decoder

  /** What an outer length read becomes once `got` has been accumulated. */
  ghost function Plus(got: nat, r: Option<(nat, seq<Byte>)>): Option<(nat, seq<Byte>)> {
    match r
    case None => None
    case Some((n, rest)) => Some((got + n, rest))
  }

  /** Reads a length whose nibble is nib, starting at ip. */
  method TakeLen(src: seq<Byte>, ip: nat, nib: nat) returns (ok: bool, len: nat, ip': nat)
    requires ip <= |src|
    ensures ip' <= |src|
    ensures ReadLen(nib, src[ip..]) == if ok then Some((len, src[ip'..])) else None
  {
    len, ip' := nib, ip;
    if nib == NIBBLE {
      ghost var all := ReadExt(src[ip..]);
      while true
        invariant ip <= ip' <= |src| && len >= NIBBLE
        invariant all == Plus(len - NIBBLE, ReadExt(src[ip'..]))
        decreases |src| - ip'
      {
        if ip' >= |src| { return false, len, ip'; }
        var ext := src[ip'];
        assert src[ip'..][1..] == src[ip' + 1..];
        ip' := ip' + 1;
        len := len + ext;
        if ext != MAX_EXT { break; }
      }
    }
    ok := true;
  }

  /** The overlapping copy loop. */
  method CopyOut(dst: array<Byte>, op: nat, off: nat, mlen: nat)
    requires 1 <= off <= op && op + mlen <= dst.Length
    modifies dst
    ensures dst[..op + mlen] == CopyMatch(old(dst[..op]), off, mlen)
  {
    ghost var out := dst[..op];
    for i := 0 to mlen
      invariant dst[..op] == out
      invariant forall j :: op <= j < op + i ==> dst[j] == dst[j - off]
    {
      dst[op + i] := dst[op + i - off];
    }
    ghost var r := dst[..op + mlen];
    assert r[..op] == out;
    forall j | op <= j < |r| ensures r[j] == r[j - off] {
      assert r[j] == dst[j];
    }
    CopyMatchUnique(out, off, mlen, r);
  }

  /** Reads offset and match length, with every check the decoder makes. */
  method TakeMatch(src: seq<Byte>, ip: nat, nib: nat, produced: nat, cap: nat)
    returns (ok: bool, off: nat, mlen: nat, ip': nat)
    requires ip <= |src|
    ensures ip' <= |src|
    ensures ReadMatch(nib, src[ip..], produced, cap) == if ok then Some((off, mlen, src[ip'..])) else None
  {
    ok, off, mlen, ip' := false, 0, 0, ip;
    if ip + 2 > |src| { return; }
    off := Offset(src[ip], src[ip + 1]);
    if off == 0 || off > produced { return; }
    assert src[ip..][2..] == src[ip + 2..];
    var ok2, m, ip2 := TakeLen(src, ip + 2, nib);
    if !ok2 || produced + m + MIN_MATCH > cap { return; }
    return true, off, m + MIN_MATCH, ip2;
  }

  /** What a turn of the loop did: Turn itself, with the new cursors. */
  ghost predicate TurnIs(t: Progress, src: seq<Byte>, failed: bool, ended: bool, ip: nat, out: seq<Byte>)
    requires ip <= |src|
  {
    t == if failed then Fail else if ended then Stop(out) else More(src[ip..], out)
  }

  /** The second half of the loop body: stop at the end of the input, or copy a match. */
  method TakeRest(src: seq<Byte>, ip: nat, nib: nat, dst: array<Byte>, op: nat)
    returns (failed: bool, ended: bool, ip': nat, op': nat)
    requires ip <= |src| && op <= dst.Length
    modifies dst
    ensures ip' <= |src| && op' <= dst.Length
    ensures !failed && !ended ==> ip <= ip'
    ensures TurnIs(AfterLiterals(nib, src[ip..], old(dst[..op]), dst.Length), src, failed, ended, ip', dst[..op'])
  {
    failed, ended, ip', op' := true, false, ip, op;
    if ip >= |src| { return false, true, ip, op; }
    var ok, off, mlen, ip2 := TakeMatch(src, ip, nib, op, dst.Length);
    if !ok { return; }
    CopyOut(dst, op, off, mlen);
    return false, false, ip2, op + mlen;
  }

  lemma TurnAfterLiterals(s: seq<Byte>, out: seq<Byte>, cap: nat, lit: nat, s2: seq<Byte>)
    requires s != [] && ReadLen(LitNibble(s[0]), s[1..]) == Some((lit, s2))
    ensures Turn(s, out, cap) ==
            if |out| + lit > cap || lit > |s2| then Fail
            else AfterLiterals(MatchNibble(s[0]), s2[lit..], out + s2[..lit], cap)
  {
  }

  lemma Slices(src: seq<Byte>, at: nat, n: nat)
    requires at + n <= |src|
    ensures src[at..][..n] == src[at..at + n] && src[at..][n..] == src[at + n..]
  {
  }

  /** The body of the decoder's loop. */
  method TakeTurn(src: seq<Byte>, ip: nat, dst: array<Byte>, op: nat)
    returns (failed: bool, ended: bool, ip': nat, op': nat)
    requires ip < |src| && op <= dst.Length
    modifies dst
    ensures ip' <= |src| && op' <= dst.Length
    ensures !failed && !ended ==> ip < ip'
    ensures TurnIs(Turn(src[ip..], old(dst[..op]), dst.Length), src, failed, ended, ip', dst[..op'])
  {
    failed, ended, ip', op' := true, false, ip, op;
    Slices(src, ip, 1);
    var ok, lit, ip2 := TakeLen(src, ip + 1, LitNibble(src[ip]));
    if !ok { return; }
    TurnAfterLiterals(src[ip..], dst[..op], dst.Length, lit, src[ip2..]);
    if op + lit > dst.Length || ip2 + lit > |src| { return; }
    Slices(src, ip2, lit);
    failed, ended, ip', op' := TakeBody(src, ip2, lit, MatchNibble(src[ip]), dst, op);
  }

  /** The literals of a turn, and what follows them. */
  method TakeBody(src: seq<Byte>, ip: nat, lit: nat, nib: nat, dst: array<Byte>, op: nat)
    returns (failed: bool, ended: bool, ip': nat, op': nat)
    requires ip + lit <= |src| && op + lit <= dst.Length
    modifies dst
    ensures ip' <= |src| && op' <= dst.Length && (!failed && !ended ==> ip + lit <= ip')
    ensures TurnIs(AfterLiterals(nib, src[ip + lit..], old(dst[..op]) + src[ip..ip + lit], dst.Length),
              src, failed, ended, ip', dst[..op'])
  {
    Put(dst, op, src[ip..ip + lit]);
    failed, ended, ip', op' := TakeRest(src, ip + lit, nib, dst, op + lit);
  }

  /** Decompresses src into dst: the decoder's function, with -1 for every malformed or oversized input. */
  method Decompress(src: seq<Byte>, dst: array<Byte>) returns (n: int)
    modifies dst
    ensures n == -1 <==> Decode(src, [], dst.Length).None?
    ensures n != -1 ==> 0 <= n <= dst.Length && Decode(src, [], dst.Length) == Some(dst[..n])
  {
    var ip: nat, op: nat := 0, 0;
    assert src[0..] == src && dst[..0] == [];
    while ip < |src|
      invariant 0 <= ip <= |src| && 0 <= op <= dst.Length
      invariant Decode(src[ip..], dst[..op], dst.Length) == Decode(src, [], dst.Length)
      decreases |src| - ip
    {
      var failed, ended;
      failed, ended, ip, op := TakeTurn(src, ip, dst, op);
      if failed { return -1; }
      if ended { return op; }
    }
    return op;
  }

  /** The loops undo each other: whatever Compress produced, Decompress restores. */
  method RoundTripLoops(src: seq<Byte>, packed: array<Byte>, unpacked: array<Byte>) returns (n: int, m: int)
    requires packed != unpacked && unpacked.Length >= |src|
    modifies packed, unpacked
    ensures n != -1 ==> m == |src| && unpacked[..m] == src
  {
    n := Compress(src, packed);
    m := -1;
    if n != -1 {
      RoundTrip(src, unpacked.Length);
      m := Decompress(packed[..n], unpacked);
    }
  }
}
