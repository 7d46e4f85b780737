/**
 * The LZ4 block codec of the compressed store.
 *
 * `Encode` and `Decode` are the specification: the greedy parse written as a
 * function of the input, and the decoder written as a function of the bytes left
 * to read and the output so far.  The cursor loops in Lz4Codec are proved to
 * compute exactly these functions; the round trip is proved on the functions and
 * so holds of the loops.
 */
module Lz4 {
  type Byte = x: int | 0 <= x < 256

  const MIN_MATCH := 4
  const MAX_DIST := 0xFFFF
  const NIBBLE := 15
  const MAX_EXT := 255
  const MAX_PROBE := 4096

  datatype Option<T> = None | Some(value: T)

  // ------------------------------------------------------------------ format

  /** Extension bytes of a length: runs of 255 and a final smaller byte. */
  function WriteLen(n: nat): seq<Byte> {
    if n >= MAX_EXT then [MAX_EXT] + WriteLen(n - MAX_EXT) else [n]
  }

  function Nibble(n: nat): nat {
    if n < NIBBLE then n else NIBBLE
  }

  function Ext(n: nat): seq<Byte> {
    if n < NIBBLE then [] else WriteLen(n - NIBBLE)
  }

  function Token(lit: nat, match4: nat): Byte {
    Nibble(lit) * 16 + Nibble(match4)
  }

  /** The two halves of a token. */
  function LitNibble(token: Byte): nat { token / 16 }
  function MatchNibble(token: Byte): nat { token % 16 }

  lemma TokenNibbles(lit: nat, match4: nat)
    ensures LitNibble(Token(lit, match4)) == Nibble(lit)
    ensures MatchNibble(Token(lit, match4)) == Nibble(match4)
  {
  }

  /** The 16-bit little-endian offset field. */
  function OffsetField(off: nat): (f: seq<Byte>)
    requires off <= MAX_DIST
    ensures |f| == 2 && Offset(f[0], f[1]) == off
  {
    [off % 256, off / 256]
  }

  function Offset(lo: Byte, hi: Byte): nat {
    lo as int + 256 * (hi as int)
  }

  /** One sequence: token, literal length, literals, offset, match length. */
  function Sequence(lits: seq<Byte>, off: nat, mlen: nat): seq<Byte>
    requires off <= MAX_DIST && mlen >= MIN_MATCH
  {
    [Token(|lits|, mlen - MIN_MATCH)] + Ext(|lits|) + lits + OffsetField(off) + Ext(mlen - MIN_MATCH)
  }

  /** The final literals-only sequence. */
  function LastLiterals(lits: seq<Byte>): seq<Byte> {
    [Token(|lits|, 0)] + Ext(|lits|) + lits
  }

  // ----------------------------------------------------------------- decoder

  /** A length whose nibble is `nib`, and the bytes after it. */
  function ReadExt(s: seq<Byte>): Option<(nat, seq<Byte>)> {
    if s == [] then None
    else if s[0] != MAX_EXT then Some((s[0], s[1..]))
    else
      match ReadExt(s[1..])
      case None => None
      case Some((n, rest)) => Some((MAX_EXT + n, rest))
  }

  function ReadLen(nib: nat, s: seq<Byte>): (r: Option<(nat, seq<Byte>)>)
    ensures r.Some? ==> |r.value.1| <= |s|
  {
    ReadExtShrinks(s);
    if nib != NIBBLE then Some((nib, s))
    else
      match ReadExt(s)
      case None => None
      case Some((n, rest)) => Some((NIBBLE + n, rest))
  }

  lemma ReadExtShrinks(s: seq<Byte>)
    ensures ReadExt(s).Some? ==> |ReadExt(s).value.1| < |s|
  {
  }

  /** k reduced modulo the period off. */
  function Wrap(k: nat, off: nat): (r: nat)
    requires off > 0
    ensures r < off
  {
    if k < off then k else Wrap(k - off, off)
  }

  /** A match: the last `off` bytes of the output, repeated cyclically for n bytes. */
  function CopyMatch(out: seq<Byte>, off: nat, n: nat): (r: seq<Byte>)
    requires 1 <= off <= |out|
    ensures |r| == |out| + n
  {
    seq(|out| + n, i requires 0 <= i < |out| + n =>
      if i < |out| then out[i] else out[|out| - off + Wrap(i - |out|, off)])
  }

  /** The match half of a sequence, checked against the bytes produced and the room there is. */
  function ReadMatch(nib: nat, s: seq<Byte>, produced: nat, cap: nat): (r: Option<(nat, nat, seq<Byte>)>)
    ensures r.Some? ==> 1 <= r.value.0 <= produced && produced + r.value.1 <= cap && |r.value.2| <= |s|
  {
    if |s| < 2 then None
    else
      var off := Offset(s[0], s[1]);
      if off == 0 || off > produced then None
      else
        match ReadLen(nib, s[2..])
        case None => None
        case Some((m, rest)) =>
          if produced + m + MIN_MATCH > cap then None else Some((off, m + MIN_MATCH, rest))
  }

  datatype Progress = Fail | Stop(all: seq<Byte>) | More(rest: seq<Byte>, out: seq<Byte>)

  /** The turn after its literals: the input may end here, otherwise a match follows. */
  function AfterLiterals(nib: nat, s: seq<Byte>, out: seq<Byte>, cap: nat): (r: Progress)
    ensures r.More? ==> |r.rest| <= |s|
  {
    if s == [] then Stop(out)
    else
      match ReadMatch(nib, s, |out|, cap)
      case None => Fail
      case Some((off, mlen, rest)) => More(rest, CopyMatch(out, off, mlen))
  }

  /** One turn of the decoder: a token, its literals and, unless the input ends there, its match. */
  function Turn(s: seq<Byte>, out: seq<Byte>, cap: nat): (r: Progress)
    requires s != []
    ensures r.More? ==> |r.rest| < |s|
  {
    match ReadLen(LitNibble(s[0]), s[1..])
    case None => Fail
    case Some((lit, s2)) =>
      if |out| + lit > cap || lit > |s2| then Fail
      else AfterLiterals(MatchNibble(s[0]), s2[lit..], out + s2[..lit], cap)
  }

  /** The whole decoder: what is still to read, what has been produced, the room there is. */
  function Decode(s: seq<Byte>, out: seq<Byte>, cap: nat): Option<seq<Byte>>
    decreases |s|
  {
    if s == [] then Some(out)
    else
      match Turn(s, out, cap)
      case Fail => None
      case Stop(all) => Some(all)
      case More(rest, out') => Decode(rest, out', cap)
  }

  // ----------------------------------------------------------------- encoder

  function Min(a: nat, b: nat): nat {
    if a < b then a else b
  }

  /** How far the bytes at p and at p - off agree, counted from k on, at most `probe`. */
  function MatchFrom(src: seq<Byte>, p: nat, off: nat, probe: nat, k: nat): (len: nat)
    requires 1 <= off <= p && p + probe <= |src| && k <= probe
    ensures k <= len <= probe
    decreases probe - k
  {
    if k < probe && src[p - off + k] == src[p + k] then MatchFrom(src, p, off, probe, k + 1) else k
  }

  function Probe(src: seq<Byte>, p: nat): nat
    requires p <= |src|
  {
    Min(|src| - p, MAX_PROBE)
  }

  /** The longest match among the offsets 1..m, the nearest one if several are longest. */
  function Best(src: seq<Byte>, p: nat, m: nat): (r: (nat, nat))
    requires m <= p <= |src|
    ensures r.0 <= Probe(src, p) && r.1 <= m
    ensures r.0 > 0 ==> r.1 >= 1
  {
    if m == 0 then (0, 0)
    else
      var r := Best(src, p, m - 1);
      var len := MatchFrom(src, p, m, Probe(src, p), 0);
      if len > r.0 then (len, m) else r
  }

  function BestMatch(src: seq<Byte>, p: nat): (nat, nat)
    requires p <= |src|
  {
    Best(src, p, Min(p, MAX_DIST))
  }

  /** The greedy parse: src[anchor..p] are pending literals. */
  function EncodeFrom(src: seq<Byte>, anchor: nat, p: nat): seq<Byte>
    requires anchor <= p <= |src|
    decreases |src| - p
  {
    if p == |src| then
      if anchor < p then LastLiterals(src[anchor..]) else []
    else
      var (len, off) := BestMatch(src, p);
      if len < MIN_MATCH then EncodeFrom(src, anchor, p + 1)
      else Sequence(src[anchor..p], off, len) + EncodeFrom(src, p + len, p + len)
  }

  function Encode(src: seq<Byte>): seq<Byte> {
    EncodeFrom(src, 0, 0)
  }

  // -------------------------------------------------------------- round trip

  lemma {:induction false} ReadWriteLen(n: nat, rest: seq<Byte>)
    ensures ReadExt(WriteLen(n) + rest) == Some((n, rest))
  {
    var s := WriteLen(n) + rest;
    if n >= MAX_EXT {
      ReadWriteLen(n - MAX_EXT, rest);
      assert s[1..] == WriteLen(n - MAX_EXT) + rest;
    } else {
      assert s[1..] == rest;
    }
  }

  lemma ReadNibbleExt(n: nat, rest: seq<Byte>)
    ensures ReadLen(Nibble(n), Ext(n) + rest) == Some((n, rest))
  {
    if n < NIBBLE {
      assert Ext(n) + rest == rest;
    } else {
      ReadWriteLen(n - NIBBLE, rest);
    }
  }

  /** Every byte of src[lo..hi] equals the byte `off` before it. */
  ghost predicate Repeats(src: seq<Byte>, off: nat, lo: nat, hi: nat)
    requires off <= lo && hi <= |src|
  {
    forall j :: lo <= j < hi ==> src[j] == src[j - off]
  }

  /** The reported length is a real match. */
  lemma {:induction false} MatchFromAgrees(src: seq<Byte>, p: nat, off: nat, probe: nat, k: nat)
    requires 1 <= off <= p && p + probe <= |src| && k <= probe
    ensures Repeats(src, off, p + k, p + MatchFrom(src, p, off, probe, k))
    decreases probe - k
  {
    if k < probe && src[p - off + k] == src[p + k] {
      MatchFromAgrees(src, p, off, probe, k + 1);
    }
  }

  lemma {:induction false} BestAgrees(src: seq<Byte>, p: nat, m: nat)
    requires m <= p <= |src|
    ensures Repeats(src, Best(src, p, m).1, p, p + Best(src, p, m).0)
  {
    if m > 0 {
      BestAgrees(src, p, m - 1);
      MatchFromAgrees(src, p, m, Probe(src, p), 0);
    }
  }

  lemma {:induction false} CopyMatchAt(out: seq<Byte>, off: nat, n: nat, r: seq<Byte>, j: nat)
    requires 1 <= off <= |out| && |r| == |out| + n && r[..|out|] == out
    requires Repeats(r, off, |out|, |r|) && j < |r|
    ensures r[j] == CopyMatch(out, off, n)[j]
    decreases j
  {
    if j < |out| {
      assert r[..|out|][j] == r[j];
    } else if j - off < |out| {
      assert Wrap(j - |out|, off) == j - |out|;
      assert r[j] == r[j - off] == r[..|out|][j - off];
    } else {
      CopyMatchAt(out, off, n, r, j - off);
    }
  }

  /** Extending the output byte by byte, each a copy of the one `off` before it, is a match copy. */
  lemma CopyMatchUnique(out: seq<Byte>, off: nat, n: nat, r: seq<Byte>)
    requires 1 <= off <= |out| && |r| == |out| + n && r[..|out|] == out
    requires Repeats(r, off, |out|, |r|)
    ensures r == CopyMatch(out, off, n)
  {
    forall j | 0 <= j < |r| ensures r[j] == CopyMatch(out, off, n)[j] {
      CopyMatchAt(out, off, n, r, j);
    }
  }

  /** Copying a match whose source bytes agree extends the output along src, overlapping or not. */
  lemma CopyMatchAgrees(src: seq<Byte>, p: nat, off: nat, n: nat)
    requires 1 <= off <= p && p + n <= |src|
    requires Repeats(src, off, p, p + n)
    ensures CopyMatch(src[..p], off, n) == src[..p + n]
  {
    var r := src[..p + n];
    assert r[..p] == src[..p];
    forall j | p <= j < p + n ensures r[j] == r[j - off] {
      assert r[j] == src[j];
    }
    CopyMatchUnique(src[..p], off, n, r);
  }

  lemma ReadMatchBytes(field: seq<Byte>, m: nat, rest: seq<Byte>, produced: nat, cap: nat)
    requires |field| == 2
    requires 1 <= Offset(field[0], field[1]) <= produced && produced + m + MIN_MATCH <= cap
    ensures ReadMatch(Nibble(m), field + (Ext(m) + rest), produced, cap) ==
            Some((Offset(field[0], field[1]), m + MIN_MATCH, rest))
  {
    ReadNibbleExt(m, rest);
    assert (field + (Ext(m) + rest))[2..] == Ext(m) + rest;
  }

  /** The literal half of a turn. */
  lemma TurnLiterals(s: seq<Byte>, token: Byte, lits: seq<Byte>, body: seq<Byte>, out: seq<Byte>, cap: nat)
    requires s == [token] + Ext(|lits|) + lits + body
    requires LitNibble(token) == Nibble(|lits|) && |out| + |lits| <= cap
    ensures Turn(s, out, cap) == AfterLiterals(MatchNibble(token), body, out + lits, cap)
  {
    var after := lits + body;
    assert s[1..] == Ext(|lits|) + after;
    ReadNibbleExt(|lits|, after);
    assert after[|lits|..] == body && after[..|lits|] == lits;
  }

  /** The match half of a turn. */
  lemma TurnMatch(body: seq<Byte>, field: seq<Byte>, m: nat, rest: seq<Byte>, out: seq<Byte>, cap: nat)
    requires body == field + (Ext(m) + rest) && |field| == 2
    requires 1 <= Offset(field[0], field[1]) <= |out| && |out| + m + MIN_MATCH <= cap
    ensures AfterLiterals(Nibble(m), body, out, cap) ==
            More(rest, CopyMatch(out, Offset(field[0], field[1]), m + MIN_MATCH))
  {
    ReadMatchBytes(field, m, rest, |out|, cap);
  }

  lemma SequenceParts(lits: seq<Byte>, off: nat, mlen: nat, rest: seq<Byte>)
    requires off <= MAX_DIST && mlen >= MIN_MATCH
    ensures Sequence(lits, off, mlen) + rest ==
            [Token(|lits|, mlen - MIN_MATCH)] + Ext(|lits|) + lits + (OffsetField(off) + (Ext(mlen - MIN_MATCH) + rest))
  {
  }

  /** The decoder consumes exactly one encoded sequence per turn. */
  lemma TurnSequence(s: seq<Byte>, lits: seq<Byte>, off: nat, mlen: nat, rest: seq<Byte>, out: seq<Byte>, cap: nat)
    requires 1 <= off <= MAX_DIST && mlen >= MIN_MATCH && off <= |out| + |lits|
    requires |out| + |lits| + mlen <= cap
    requires s == Sequence(lits, off, mlen) + rest
    ensures s != [] && Turn(s, out, cap) == More(rest, CopyMatch(out + lits, off, mlen))
  {
    var m := mlen - MIN_MATCH;
    var field := OffsetField(off);
    var body := field + (Ext(m) + rest);
    TokenNibbles(|lits|, m);
    SequenceParts(lits, off, mlen, rest);
    TurnLiterals(s, Token(|lits|, m), lits, body, out, cap);
    TurnMatch(body, field, m, rest, out + lits, cap);
  }

  lemma TurnLast(lits: seq<Byte>, out: seq<Byte>, cap: nat)
    requires |out| + |lits| <= cap
    ensures Turn(LastLiterals(lits), out, cap) == Stop(out + lits)
  {
    TokenNibbles(|lits|, 0);
    assert LastLiterals(lits)[1..] == Ext(|lits|) + lits;
    ReadNibbleExt(|lits|, lits);
    assert lits[..|lits|] == lits;
  }

  /** Where a match is found, the encoding goes on with its sequence; elsewhere the literals grow. */
  lemma EncodeAt(src: seq<Byte>, anchor: nat, p: nat)
    requires anchor <= p < |src|
    ensures var (len, off) := BestMatch(src, p);
            EncodeFrom(src, anchor, p) ==
              if len < MIN_MATCH then EncodeFrom(src, anchor, p + 1)
              else Sequence(src[anchor..p], off, len) + EncodeFrom(src, p + len, p + len)
  {
  }

  /** One turn of the decoder across a match that repeats earlier input. */
  lemma TurnAcrossMatch(src: seq<Byte>, s: seq<Byte>, tail: seq<Byte>, anchor: nat, p: nat, cap: nat)
    requires anchor <= p < |src| <= cap && BestMatch(src, p).0 >= MIN_MATCH
    requires s == Sequence(src[anchor..p], BestMatch(src, p).1, BestMatch(src, p).0) + tail
    ensures s != [] && Turn(s, src[..anchor], cap) == More(tail, src[..p + BestMatch(src, p).0])
  {
    var (len, off) := BestMatch(src, p);
    var lits := src[anchor..p];
    TurnSequence(s, lits, off, len, tail, src[..anchor], cap);
    assert src[..anchor] + lits == src[..p];
    BestAgrees(src, p, Min(p, MAX_DIST));
    CopyMatchAgrees(src, p, off, len);
  }

  /** Decoding across one emitted match. */
  lemma DecodeAcrossMatch(src: seq<Byte>, anchor: nat, p: nat, cap: nat)
    requires anchor <= p < |src| <= cap && BestMatch(src, p).0 >= MIN_MATCH
    ensures var q := p + BestMatch(src, p).0;
            && EncodeFrom(src, anchor, p) != []
            && Turn(EncodeFrom(src, anchor, p), src[..anchor], cap) == More(EncodeFrom(src, q, q), src[..q])
  {
    var q := p + BestMatch(src, p).0;
    EncodeAt(src, anchor, p);
    TurnAcrossMatch(src, EncodeFrom(src, anchor, p), EncodeFrom(src, q, q), anchor, p, cap);
  }

  lemma DecodeMore(s: seq<Byte>, out: seq<Byte>, cap: nat, rest: seq<Byte>, out': seq<Byte>)
    requires s != [] && Turn(s, out, cap) == More(rest, out')
    ensures Decode(s, out, cap) == Decode(rest, out', cap)
  {
  }

  lemma RoundTripEnd(src: seq<Byte>, anchor: nat, cap: nat)
    requires anchor <= |src| <= cap
    ensures Decode(EncodeFrom(src, anchor, |src|), src[..anchor], cap) == Some(src)
  {
    if anchor < |src| {
      TurnLast(src[anchor..], src[..anchor], cap);
      assert src[..anchor] + src[anchor..] == src;
    } else {
      assert src[..anchor] == src;
    }
  }

  lemma {:induction false} RoundTripFrom(src: seq<Byte>, anchor: nat, p: nat, cap: nat)
    requires anchor <= p <= |src| <= cap
    ensures Decode(EncodeFrom(src, anchor, p), src[..anchor], cap) == Some(src)
    decreases |src| - p
  {
    if p == |src| {
      RoundTripEnd(src, anchor, cap);
    } else if BestMatch(src, p).0 < MIN_MATCH {
      EncodeAt(src, anchor, p);
      RoundTripFrom(src, anchor, p + 1, cap);
    } else {
      var q := p + BestMatch(src, p).0;
      RoundTripFrom(src, q, q, cap);
      RoundTripMatch(src, anchor, p, cap);
    }
  }

  lemma RoundTripMatch(src: seq<Byte>, anchor: nat, p: nat, cap: nat)
    requires anchor <= p < |src| <= cap && BestMatch(src, p).0 >= MIN_MATCH
    requires var q := p + BestMatch(src, p).0; Decode(EncodeFrom(src, q, q), src[..q], cap) == Some(src)
    ensures Decode(EncodeFrom(src, anchor, p), src[..anchor], cap) == Some(src)
  {
    var q := p + BestMatch(src, p).0;
    DecodeAcrossMatch(src, anchor, p, cap);
    DecodeMore(EncodeFrom(src, anchor, p), src[..anchor], cap, EncodeFrom(src, q, q), src[..q]);
  }

  /** Decoding an encoding gives back the input, whatever room beyond its length there is. */
  lemma RoundTrip(src: seq<Byte>, cap: nat)
    requires |src| <= cap
    ensures Decode(Encode(src), [], cap) == Some(src)
  {
    RoundTripFrom(src, 0, 0, cap);
    assert src[..0] == [];
  }

  // ---------------------------------------------- what the search finds, how large the output gets

  /** No offset in reach matches longer, and no nearer offset matches as long. */
  lemma {:induction false} BestIsLongest(src: seq<Byte>, p: nat, m: nat, off: nat)
    requires 1 <= off <= m <= p <= |src|
    ensures MatchFrom(src, p, off, Probe(src, p), 0) <= Best(src, p, m).0
    ensures off < Best(src, p, m).1 ==> MatchFrom(src, p, off, Probe(src, p), 0) < Best(src, p, m).0
    decreases m
  {
    if off < m {
      BestIsLongest(src, p, m - 1, off);
    }
  }

  /**
   * The `len` bytes at p are those `off` before them, and the match is one the format and the probe
   * allow.
   */
  ghost predicate Matches(src: seq<Byte>, p: nat, off: nat, len: nat) {
    && 1 <= off <= p && off <= 65535 && len <= 4096 && p + len <= |src|
    && forall j :: p <= j < p + len ==> src[j] == src[j - off]
  }

  lemma {:induction false} MatchFromReaches(src: seq<Byte>, p: nat, off: nat, probe: nat, k: nat, len: nat)
    requires Matches(src, p, off, len) && len <= probe && p + probe <= |src| && k <= len
    ensures MatchFrom(src, p, off, probe, k) >= len
    decreases len - k
  {
    if k < len {
      assert src[p + k] == src[p + k - off];
      MatchFromReaches(src, p, off, probe, k + 1, len);
    }
  }

  /** No allowed match is longer than the one chosen, and no nearer one is as long. */
  lemma BestMatchOptimal(src: seq<Byte>, p: nat)
    requires p <= |src|
    ensures BestMatch(src, p).0 > 0 ==> Matches(src, p, BestMatch(src, p).1, BestMatch(src, p).0)
    ensures forall off: nat, len: nat {:trigger Matches(src, p, off, len)} :: Matches(src, p, off, len) ==>
              len <= BestMatch(src, p).0 && (off < BestMatch(src, p).1 ==> len < BestMatch(src, p).0)
  {
    var m := Min(p, MAX_DIST);
    BestAgrees(src, p, m);
    forall off: nat, len: nat | Matches(src, p, off, len)
      ensures len <= BestMatch(src, p).0 && (off < BestMatch(src, p).1 ==> len < BestMatch(src, p).0)
    {
      BestIsLongest(src, p, m, off);
      MatchFromReaches(src, p, off, Probe(src, p), 0, len);
    }
  }

  /** No match of four bytes or more starts at any of lo, ..., hi - 1. */
  ghost predicate NoMatch(src: seq<Byte>, lo: nat, hi: nat) {
    forall r: nat, off: nat, len: nat {:trigger Matches(src, r, off, len)} ::
      lo <= r < hi && Matches(src, r, off, len) ==> len < 4
  }

  /** At q the longest match, and of those the nearest, is `len` bytes at `off`. */
  ghost predicate Longest(src: seq<Byte>, q: nat, off: nat, len: nat) {
    && Matches(src, q, off, len)
    && forall o: nat, l: nat {:trigger Matches(src, q, o, l)} ::
         Matches(src, q, o, l) ==> l <= len && (o < off ==> l < len)
  }

  lemma LongestHere(src: seq<Byte>, p: nat)
    requires p <= |src| && BestMatch(src, p).0 >= 4
    ensures Longest(src, p, BestMatch(src, p).1, BestMatch(src, p).0)
  {
    BestMatchOptimal(src, p);
  }

  lemma NoMatchHere(src: seq<Byte>, p: nat, q: nat)
    requires p < |src| && BestMatch(src, p).0 < 4 && NoMatch(src, p + 1, q)
    ensures NoMatch(src, p, q)
  {
    BestMatchOptimal(src, p);
  }

  /** What is left to encode: src[anchor..] parsed from p on, the next match being at q. */
  ghost predicate Goes(src: seq<Byte>, anchor: nat, q: nat, off: nat, len: nat, code: seq<Byte>)
    requires anchor <= q <= |src|
  {
    if q == |src| then code == if anchor < q then LastLiterals(src[anchor..]) else []
    else
      && len >= 4 && Longest(src, q, off, len)
      && code == Sequence(src[anchor..q], off, len) + EncodeFrom(src, q + len, q + len)
  }

  /**
   * The parse is greedy: from p on the first position with a match of four bytes or more is found, the
   * bytes before it are literals, the longest match there is taken, and the parse goes on behind it.
   */
  lemma {:induction false} EncodeGreedy(src: seq<Byte>, anchor: nat, p: nat) returns (q: nat, off: nat, len: nat)
    requires anchor <= p <= |src|
    ensures p <= q <= |src| && NoMatch(src, p, q) && Goes(src, anchor, q, off, len, EncodeFrom(src, anchor, p))
    decreases |src| - p
  {
    q, off, len := p, 0, 0;
    if p < |src| {
      EncodeAt(src, anchor, p);
      if BestMatch(src, p).0 < MIN_MATCH {
        q, off, len := EncodeGreedy(src, anchor, p + 1);
        NoMatchHere(src, p, q);
      } else {
        off, len := BestMatch(src, p).1, BestMatch(src, p).0;
        LongestHere(src, p);
      }
    }
  }

  // -------------------------------------------------------------------- the bytes of the format

  /** A length below 15 has no extension; a longer one has bytes of 255 and a last smaller one. */
  lemma {:induction false} ExtBytes(n: nat)
    ensures n < 15 ==> Ext(n) == []
    ensures n >= 15 ==>
              && |Ext(n)| == (n - 15) / 255 + 1 && Ext(n)[(n - 15) / 255] == (n - 15) % 255
              && forall i :: 0 <= i < (n - 15) / 255 ==> Ext(n)[i] == 255
  {
    if n >= 15 { WriteLenBytes(n - 15); }
  }

  lemma {:induction false} WriteLenBytes(n: nat)
    ensures |WriteLen(n)| == n / 255 + 1 && WriteLen(n)[n / 255] == n % 255
    ensures forall i :: 0 <= i < n / 255 ==> WriteLen(n)[i] == 255
  {
    if n >= 255 { WriteLenBytes(n - 255); }
  }

  /** Token, extension of the literals, literals, offset low byte first, extension of the match less 4. */
  lemma SequenceBytes(lits: seq<Byte>, off: nat, mlen: nat)
    requires off <= 65535 && mlen >= 4
    ensures var low := if mlen - 4 < 15 then mlen - 4 else 15;
            var high := if |lits| < 15 then |lits| else 15;
            Sequence(lits, off, mlen) ==
              [16 * high + low] + Ext(|lits|) + lits + [off % 256, off / 256] + Ext(mlen - 4)
  {
  }

  lemma LastBytes(lits: seq<Byte>)
    ensures LastLiterals(lits) == [16 * if |lits| < 15 then |lits| else 15] + Ext(|lits|) + lits
  {
  }

  // ------------------------------------------------- the decoder accepts nothing else

  lemma {:induction false} ReadExtInverse(s: seq<Byte>)
    requires ReadExt(s).Some?
    ensures s == WriteLen(ReadExt(s).value.0) + ReadExt(s).value.1
  {
    if s[0] == MAX_EXT { ReadExtInverse(s[1..]); }
  }

  lemma ReadLenInverse(nib: nat, s: seq<Byte>, n: nat, rest: seq<Byte>)
    requires nib <= 15 && ReadLen(nib, s) == Some((n, rest))
    ensures nib == Nibble(n) && s == Ext(n) + rest
  {
    if nib == NIBBLE { ReadExtInverse(s); }
  }

  /** A match the decoder accepts has the bytes of one. */
  lemma ReadMatchInverse(nib: nat, s: seq<Byte>, produced: nat, cap: nat)
    requires nib <= 15 && ReadMatch(nib, s, produced, cap).Some?
    ensures var (off, mlen, rest) := ReadMatch(nib, s, produced, cap).value;
            && off <= 65535 && mlen >= 4 && nib == Nibble(mlen - 4)
            && s == OffsetField(off) + (Ext(mlen - 4) + rest)
  {
    var (off, mlen, rest) := ReadMatch(nib, s, produced, cap).value;
    ReadLenInverse(nib, s[2..], mlen - 4, rest);
    assert s == s[..2] + s[2..] && s[..2] == OffsetField(off);
  }

  /** A turn that goes on read one sequence, whose match starts in the output. */
  lemma TurnInverse(s: seq<Byte>, out: seq<Byte>, cap: nat) returns (lits: seq<Byte>, off: nat, mlen: nat)
    requires s != [] && Turn(s, out, cap).More?
    ensures 1 <= off <= 65535 && mlen >= 4 && off <= |out| + |lits| && |out| + |lits| + mlen <= cap
    ensures s == Sequence(lits, off, mlen) + Turn(s, out, cap).rest
    ensures Turn(s, out, cap).out == CopyMatch(out + lits, off, mlen)
  {
    var (n, s2) := ReadLen(LitNibble(s[0]), s[1..]).value;
    lits := s2[..n];
    off, mlen := MatchInverse(MatchNibble(s[0]), s2[n..], out + lits, cap);
    WholeSequence(s, n, s2, off, mlen, AfterLiterals(MatchNibble(s[0]), s2[n..], out + lits, cap).rest);
  }

  lemma MatchInverse(nib: nat, body: seq<Byte>, out: seq<Byte>, cap: nat) returns (off: nat, mlen: nat)
    requires nib <= 15 && AfterLiterals(nib, body, out, cap).More?
    ensures 1 <= off <= 65535 && mlen >= 4 && off <= |out| && |out| + mlen <= cap && nib == Nibble(mlen - 4)
    ensures body == OffsetField(off) + (Ext(mlen - 4) + AfterLiterals(nib, body, out, cap).rest)
    ensures AfterLiterals(nib, body, out, cap).out == CopyMatch(out, off, mlen)
  {
    ReadMatchInverse(nib, body, |out|, cap);
    var (o, m, rest) := ReadMatch(nib, body, |out|, cap).value;
    off, mlen := o, m;
  }

  /** The pieces of a turn put together again. */
  lemma WholeSequence(s: seq<Byte>, n: nat, s2: seq<Byte>, off: nat, mlen: nat, rest: seq<Byte>)
    requires s != [] && ReadLen(LitNibble(s[0]), s[1..]) == Some((n, s2)) && n <= |s2|
    requires off <= 65535 && mlen >= 4 && MatchNibble(s[0]) == Nibble(mlen - 4)
    requires s2[n..] == OffsetField(off) + (Ext(mlen - 4) + rest)
    ensures s == Sequence(s2[..n], off, mlen) + rest
  {
    ReadLenInverse(LitNibble(s[0]), s[1..], n, s2);
    TokenWhole(s[0], n, mlen - 4);
    SequenceParts(s2[..n], off, mlen, rest);
    HeadParts(s, s[0], s2[..n], s2[n..], s2);
  }

  lemma TokenWhole(token: Byte, lit: nat, match4: nat)
    requires LitNibble(token) == Nibble(lit) && MatchNibble(token) == Nibble(match4)
    ensures token == Token(lit, match4)
  {
  }

  lemma HeadParts(s: seq<Byte>, token: Byte, lits: seq<Byte>, body: seq<Byte>, s2: seq<Byte>)
    requires s != [] && s[0] == token && s[1..] == Ext(|lits|) + s2 && |lits| <= |s2| && lits == s2[..|lits|]
    requires body == s2[|lits|..]
    ensures s == [token] + Ext(|lits|) + lits + body
  {
    assert s2 == lits + body;
    assert s == [s[0]] + s[1..];
  }

  /** A turn that ends the input read literals only. */
  lemma StopInverse(s: seq<Byte>, out: seq<Byte>, cap: nat) returns (lits: seq<Byte>)
    requires s != [] && Turn(s, out, cap).Stop?
    ensures |out| + |lits| <= cap && Turn(s, out, cap).all == out + lits
    ensures s[0] / 16 == (if |lits| < 15 then |lits| else 15) && s == [s[0]] + Ext(|lits|) + lits
  {
    var (n, s2) := ReadLen(LitNibble(s[0]), s[1..]).value;
    ReadLenInverse(LitNibble(s[0]), s[1..], n, s2);
    lits := s2[..n];
    HeadParts(s, s[0], lits, s2[n..], s2);
  }

  lemma {:induction false} WriteLenSize(n: nat)
    ensures |WriteLen(n)| == n / MAX_EXT + 1
  {
    if n >= MAX_EXT {
      WriteLenSize(n - MAX_EXT);
    }
  }

  lemma ExtSize(n: nat)
    ensures |Ext(n)| <= n / MAX_EXT + 1
    ensures n < NIBBLE ==> |Ext(n)| == 0
  {
    if n >= NIBBLE {
      WriteLenSize(n - NIBBLE);
    }
  }

  /** Every match sequence costs at most the bytes it covers plus one per 255 of them. */
  lemma SequenceSize(lits: seq<Byte>, off: nat, mlen: nat)
    requires off <= MAX_DIST && mlen >= MIN_MATCH
    ensures |Sequence(lits, off, mlen)| <= |lits| + mlen + |lits| / MAX_EXT
  {
    ExtSize(|lits|);
    ExtSize(mlen - MIN_MATCH);
  }

  /**
   * Incompressible input grows by at most one byte in 255 plus two, so a buffer of that
   * size always suffices.
   */
  lemma {:induction false} EncodeBound(src: seq<Byte>, anchor: nat, p: nat)
    requires anchor <= p <= |src|
    ensures |EncodeFrom(src, anchor, p)| <= (|src| - anchor) + (|src| - anchor) / MAX_EXT + 2
    decreases |src| - p
  {
    if p == |src| {
      ExtSize(|src| - anchor);
    } else if BestMatch(src, p).0 < MIN_MATCH {
      EncodeAt(src, anchor, p);
      EncodeBound(src, anchor, p + 1);
    } else {
      EncodeAt(src, anchor, p);
      var (len, off) := BestMatch(src, p);
      SequenceSize(src[anchor..p], off, len);
      EncodeBound(src, p + len, p + len);
    }
  }
}
