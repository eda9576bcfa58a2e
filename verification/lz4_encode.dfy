/** LZ4_compress_fast: the hash-table compressor, for any hash function and any acceleration. */
module Lz4Encode {
  import opened Bytes
  import opened Lz4Format
  import opened Lz4Copy
  import opened Lz4Decode
  import opened Lz4Greedy

  const MAX_INPUT_SIZE := 0x7E00_0000
  const LIMIT_64K := 65536 + MFLIMIT - 1
  const MIN_LENGTH := MFLIMIT + 1

  // ---- What is emitted.

  predicate Emittable(s: Sequence) {
    SequenceOk(s) && s.offset > 0
  }

  /** The sequences written so far, to position op of the output, mean the input up to the anchor,
      and so far keep the end-of-block rules. */
  ghost predicate Emitted(src: seq<Byte>, a: seq<Byte>, seqs: seq<Sequence>, op: nat, anchor: nat) {
    && op <= |a| && anchor <= |src| && Good(seqs)
    && a[..op] == EncodeSeqs(seqs)
    && ApplyAll([], seqs) == Some(src[..anchor])
    && EndsWell(|src|, seqs, anchor)
  }

  ghost predicate Good(seqs: seq<Sequence>)
    ensures Good(seqs) ==> forall s | s in seqs :: SequenceOk(s)
  {
    forall s | s in seqs :: Emittable(s)
  }

  predicate EndsWell(n: nat, seqs: seq<Sequence>, anchor: nat) {
    seqs == [] || (anchor + LASTLITERALS <= n && anchor + MFLIMIT <= n + seqs[|seqs| - 1].matchLen)
  }

  /** The token, length and literals of a sequence are written; its match starts at ip. */
  ghost predicate Begun(src: seq<Byte>, a: seq<Byte>, seqs: seq<Sequence>, token: nat, op: nat, anchor: nat, ip: nat) {
    && anchor <= ip <= |src| && op <= |a| && Good(seqs)
    && token == |EncodeSeqs(seqs)|
    && a[..op] == EncodeSeqs(seqs) + [16 * Nibble(ip - anchor)] + Ext(ip - anchor) + src[anchor..ip]
    && ApplyAll([], seqs) == Some(src[..anchor])
  }

  /** The offset is written behind them. */
  ghost predicate Aimed(src: seq<Byte>, a: seq<Byte>, seqs: seq<Sequence>, token: nat, op: nat, anchor: nat, ip: nat,
                        offset: nat) {
    && anchor <= ip <= |src| && op <= |a| && Good(seqs) && offset <= DISTANCE_MAX
    && token == |EncodeSeqs(seqs)|
    && a[..op] == EncodeSeqs(seqs) + [16 * Nibble(ip - anchor)] + Ext(ip - anchor) + src[anchor..ip]
                  + [offset % 256, offset / 256]
    && ApplyAll([], seqs) == Some(src[..anchor])
  }

  /** The bytes from ip to end repeat those `offset` back: a match that the format can express. */
  ghost predicate Genuine(src: seq<Byte>, offset: nat, ip: nat, end: nat) {
    1 <= offset <= DISTANCE_MAX && Repeats(src, offset, ip, end)
  }

  // ---- Room.

  /** LZ4_compressBound, for sizes in range. */
  function Bound(n: nat): nat { n + n / 255 + 16 }

  /** Between sequences. With a limited output nothing is known before the first one; otherwise the
      output is ahead of the input by less than one byte in 255. */
  predicate Room(limited: bool, cap: nat, n: nat, op: nat, anchor: nat) {
    if limited then op == 0 || op + 1 + LASTLITERALS <= cap
    else Bound(n) <= cap && op <= anchor + anchor / 255
  }

  /** Before an offset. */
  predicate RoomForMatch(limited: bool, cap: nat, n: nat, op: nat, ip: nat) {
    if limited then op + 2 <= cap else Bound(n) <= cap && op <= ip + ip / 255 + 2
  }

  lemma ExtLenIs(n: nat)
    ensures |Ext(n)| == ExtLen(n) <= n / 255 + 1 && ExtLen(n) <= n
  {
  }

  lemma RoomLiterals(n: nat, cap: nat, op: nat, anchor: nat, ll: nat)
    requires Room(false, cap, n, op, anchor) && anchor + ll + MFLIMIT <= n
    ensures RoomForMatch(false, cap, n, op + 1 + ExtLen(ll) + ll, anchor + ll)
    ensures op + 1 + ExtLen(ll) + ll + 8 <= cap
  {
    assert anchor / 255 + (ll + 240) / 255 <= (anchor + ll) / 255 + 1;
  }

  lemma RoomMatch(n: nat, cap: nat, op: nat, ip: nat, mc: nat)
    requires RoomForMatch(false, cap, n, op, ip) && ip + MINMATCH + mc + LASTLITERALS <= n
    ensures Room(false, cap, n, op + 2 + ExtLen(mc), ip + MINMATCH + mc)
    ensures op + 2 + ExtLen(mc) + 6 <= cap
  {
    ExtLenIs(mc);
    assert ip / 255 <= (ip + MINMATCH + mc) / 255 <= n / 255;
  }

  lemma RoomLast(n: nat, cap: nat, op: nat, anchor: nat)
    requires Room(false, cap, n, op, anchor) && anchor <= n
    ensures op + (n - anchor) + 1 + ExtLen(n - anchor) <= cap
  {
    var ll := n - anchor;
    assert anchor / 255 + (ll + 240) / 255 <= (anchor + ll) / 255 + 1;
  }

  lemma RoomAgain(limited: bool, n: nat, cap: nat, op: nat, anchor: nat)
    requires Room(limited, cap, n, op, anchor) && op > 0 && anchor + MFLIMIT <= n
    ensures RoomForMatch(limited, cap, n, op + 1, anchor) && op + 1 <= cap
  {
  }

  // ---- Writing lengths.

  /** The literal length bytes: 255 at a time. */
  method WriteLength(dst: array<Byte>, op0: nat, n: nat) returns (op: nat)
    requires op0 + n / 255 + 1 <= dst.Length
    modifies dst
    ensures op == op0 + n / 255 + 1
    ensures dst[..op] == old(dst[..op0]) + LenBytes(n)
  {
    ghost var pre := dst[..op0];
    op := op0;
    var len := n;
    while len >= 255
      invariant 0 <= len && op0 <= op && op + len / 255 + 1 == op0 + n / 255 + 1
      invariant pre + LenBytes(n) == dst[..op] + LenBytes(len)
    {
      ghost var a := dst[..op];
      dst[op] := 255;
      op := op + 1;
      len := len - 255;
      assert dst[..op] == a + [255];
      assert a + LenBytes(len + 255) == (a + [255]) + LenBytes(len);
    }
    ghost var a := dst[..op];
    dst[op] := len;
    op := op + 1;
    assert dst[..op] == a + [len];
  }

  lemma LenBytesFour(n: nat)
    requires n >= 1020
    ensures LenBytes(n) == [255, 255, 255, 255] + LenBytes(n - 1020)
  {
    assert LenBytes(n) == [255] + LenBytes(n - 255);
    assert LenBytes(n - 255) == [255] + LenBytes(n - 510);
    assert LenBytes(n - 510) == [255] + LenBytes(n - 765);
    assert LenBytes(n - 765) == [255] + LenBytes(n - 1020);
  }

  lemma LenBytesShort(n: nat, a: seq<Byte>, b: seq<Byte>)
    requires n < 1020 && |b| == |a| + n / 255 + 1 && b[..|a|] == a
    requires forall k :: |a| <= k < |a| + n / 255 ==> b[k] == 255
    requires b[|a| + n / 255] == n % 255
    ensures b == a + LenBytes(n)
  {
    assert b == a + b[|a|..];
    LenBytesSmall(n, b[|a|..]);
  }

  lemma LenBytesSmall(n: nat, c: seq<Byte>)
    requires n < 1020 && |c| == n / 255 + 1
    requires forall k :: 0 <= k < n / 255 ==> c[k] == 255
    requires c[n / 255] == n % 255
    ensures c == LenBytes(n)
  {
    if n >= 255 {
      assert c[1..][(n - 255) / 255] == (n - 255) % 255;
      if n >= 510 {
        assert LenBytes(n - 255) == [255] + LenBytes(n - 510);
        if n >= 765 {
          assert LenBytes(n - 510) == [255] + LenBytes(n - 765);
        }
      }
    }
  }

  /** LZ4_write32 of 0xFFFFFFFF. */
  method WriteOnes(dst: array<Byte>, op: nat)
    requires op + 4 <= dst.Length
    modifies dst
    ensures dst[op] == 255 && dst[op + 1] == 255 && dst[op + 2] == 255 && dst[op + 3] == 255
    ensures forall k :: 0 <= k < op ==> dst[k] == old(dst[k])
  {
    dst[op], dst[op + 1], dst[op + 2], dst[op + 3] := 255, 255, 255, 255;
  }

  /** The match length bytes: four at a time, written ahead of the position. */
  method WriteMatchLength(dst: array<Byte>, op0: nat, n: nat) returns (op: nat)
    requires op0 + n / 255 + 5 <= dst.Length
    modifies dst
    ensures op == op0 + n / 255 + 1
    ensures dst[..op] == old(dst[..op0]) + LenBytes(n)
  {
    hide LenBytes;
    ghost var pre := dst[..op0];
    op := op0;
    var mc := n;
    WriteOnes(dst, op);
    assert dst[..op0] == pre;
    while mc >= 4 * 255
      invariant 0 <= mc && op0 <= op && op + mc / 255 == op0 + n / 255
      invariant dst[op] == 255 && dst[op + 1] == 255 && dst[op + 2] == 255 && dst[op + 3] == 255
      invariant pre + LenBytes(n) == dst[..op] + LenBytes(mc)
    {
      ghost var a := dst[..op];
      LenBytesFour(mc);
      assert dst[..op + 4] == a + [255, 255, 255, 255];
      assert a + LenBytes(mc) == (a + [255, 255, 255, 255]) + LenBytes(mc - 1020);
      ghost var b := dst[..op + 4];
      op := op + 4;
      WriteOnes(dst, op);
      assert dst[..op] == b;
      mc := mc - 4 * 255;
    }
    ghost var a := dst[..op];
    op := op + mc / 255;
    dst[op] := mc % 255;
    op := op + 1;
    LenBytesShort(mc, a, dst[..op]);
  }

  // ---- A sequence: token, literals, offset and match length.

  lemma LiteralRoom(limited: bool, cap: nat, n: nat, op: nat, anchor: nat, ll: nat)
    requires (limited || Room(limited, cap, n, op, anchor)) && anchor + ll + MFLIMIT <= n
    requires limited ==> op + 1 + ll + (2 + 1 + LASTLITERALS) + ll / 255 <= cap
    ensures op + 1 + |Ext(ll)| + ll + 7 <= cap && op + 1 + |Ext(ll)| + 8 <= cap
    ensures RoomForMatch(limited, cap, n, op + 1 + |Ext(ll)| + ll, anchor + ll)
  {
    hide Ext;
    ExtLenIs(ll);
    if !limited {
      RoomLiterals(n, cap, op, anchor, ll);
    }
  }

  /** Token, literal length and literals; fails exactly when a limited output has no room. */
  method EncodeLiterals(src: seq<Byte>, dst: array<Byte>, ghost seqs: seq<Sequence>, token: nat, anchor: nat, ip: nat,
                        limited: bool) returns (ok: bool, op: nat)
    requires Emitted(src, dst[..], seqs, token, anchor) && (limited || Room(limited, dst.Length, |src|, token, anchor))
    requires anchor <= ip && ip + MFLIMIT <= |src|
    modifies dst
    ensures ok <==> (limited ==> LiteralsFit(token, ip - anchor, dst.Length))
    ensures ok ==> Begun(src, dst[..], seqs, token, op, anchor, ip) && RoomForMatch(limited, dst.Length, |src|, op, ip)
  {
    hide Room, RoomForMatch, Emitted, Begun, LenBytes;
    var litLength := ip - anchor;
    op := token + 1;
    if limited && op + litLength + (2 + 1 + LASTLITERALS) + litLength / 255 > dst.Length {
      return false, op;
    }
    LiteralRoom(limited, dst.Length, |src|, token, anchor, litLength);
    ghost var before := dst[..];
    op := WriteRun(dst, token, litLength);
    ghost var run := dst[..op];
    WildCopyFrom(dst, op, src, anchor, op + litLength, 8);
    assert dst[..op] == run;
    op := op + litLength;
    assert dst[..op] == run + src[anchor..ip];
    BegunBy(src, before, dst[..], seqs, token, op, anchor, ip);
    ok := true;
  }

  /** A token with a literal length, and the length bytes. */
  method WriteRun(dst: array<Byte>, token: nat, n: nat) returns (op: nat)
    requires token + 1 + |Ext(n)| <= dst.Length
    modifies dst
    ensures op == token + 1 + |Ext(n)|
    ensures dst[..op] == old(dst[..token]) + [16 * Nibble(n)] + Ext(n)
  {
    ghost var pre := dst[..token];
    op := token + 1;
    if n >= RUN_MASK {
      dst[token] := RUN_MASK * 16;
      assert dst[..op] == pre + [240];
      op := WriteLength(dst, op, n - RUN_MASK);
    } else {
      dst[token] := n * 16;
      assert dst[..op] == pre + [16 * n];
    }
  }

  lemma BegunBy(src: seq<Byte>, before: seq<Byte>, a: seq<Byte>, seqs: seq<Sequence>, token: nat, op: nat, anchor: nat,
                ip: nat)
    requires Emitted(src, before, seqs, token, anchor) && anchor <= ip <= |src| && op <= |a|
    requires a[..op] == before[..token] + [16 * Nibble(ip - anchor)] + Ext(ip - anchor) + src[anchor..ip]
    ensures Begun(src, a, seqs, token, op, anchor, ip)
  {
    hide Ext, Nibble, EncodeSeqs, ApplyAll, Good;
  }

  /** The first differing byte of two words that differ (LZ4_NbCommonBytes). */
  method FirstDifference(src: seq<Byte>, p: nat, q: nat, ghost d: nat) returns (c: nat)
    requires q <= p && p + 8 <= |src| && d < 8 && src[p + d] != src[q + d]
    ensures c < 8 && src[p + c] != src[q + c]
    ensures forall k :: p <= k < p + c ==> src[k] == src[k - (p - q)]
  {
    c := 0;
    while src[p + c] == src[q + c]
      invariant 0 <= c <= d
      invariant forall k :: p <= k < p + c ==> src[k] == src[k - (p - q)]
      decreases d - c
    {
      c := c + 1;
    }
  }

  /** Whether n bytes agree (a comparison of words). */
  method SameBytes(src: seq<Byte>, p: nat, q: nat, n: nat) returns (same: bool, ghost d: nat)
    requires q <= p && p + n <= |src|
    ensures same ==> forall k :: p <= k < p + n ==> src[k] == src[k - (p - q)]
    ensures !same ==> d < n && src[p + d] != src[q + d]
  {
    var i := 0;
    while i < n
      invariant 0 <= i <= n
      invariant forall k :: p <= k < p + i ==> src[k] == src[k - (p - q)]
    {
      if src[p + i] != src[q + i] {
        return false, i;
      }
      i := i + 1;
    }
    return true, 0;
  }

  /** LZ4_count: how far two positions agree before the limit, eight bytes at a time, then four, two
      and one. */
  method Count(src: seq<Byte>, start: nat, match0: nat, limit: nat) returns (c: nat)
    requires match0 < start <= limit <= |src|
    ensures start + c <= limit
    ensures forall k :: start <= k < start + c ==> src[k] == src[k - (start - match0)]
    ensures start + c < limit ==> src[start + c] != src[match0 + c]
  {
    var p, m := start, match0;
    while p + 7 < limit
      invariant start <= p <= limit && p - m == start - match0
      invariant forall k :: start <= k < p ==> src[k] == src[k - (start - match0)]
    {
      var same, d := SameBytes(src, p, m, 8);
      if !same {
        var n := FirstDifference(src, p, m, d);
        return p + n - start;
      }
      p, m := p + 8, m + 8;
    }
    p := CountTail(src, p, m, limit);
    c := p - start;
  }

  /** The last seven bytes at most. */
  method CountTail(src: seq<Byte>, p0: nat, m0: nat, limit: nat) returns (p: nat)
    requires m0 < p0 <= limit <= |src| && limit < p0 + 8
    ensures p0 <= p <= limit
    ensures forall k :: p0 <= k < p ==> src[k] == src[k - (p0 - m0)]
    ensures p < limit ==> src[p] != src[m0 + (p - p0)]
  {
    p := p0;
    var m := m0;
    var same := false;
    ghost var d := 4;
    if p + 3 < limit {
      same, d := SameBytes(src, p, m, 4);
      if same {
        p, m := p + 4, m + 4;
      }
    }
    if p + 1 < limit {
      same, d := SameBytes(src, p, m, 2);
      if same {
        p, m := p + 2, m + 2;
      }
    }
    if p < limit && src[m] == src[p] {
      p := p + 1;
    }
  }

  lemma AimedBy(src: seq<Byte>, before: seq<Byte>, a: seq<Byte>, seqs: seq<Sequence>, token: nat, op: nat, anchor: nat,
                ip: nat, offset: nat)
    requires Begun(src, before, seqs, token, op, anchor, ip) && op + 2 <= |a| == |before| && offset <= DISTANCE_MAX
    requires forall k :: 0 <= k < op ==> a[k] == before[k]
    requires a[op] == offset % 256 && a[op + 1] == offset / 256
    ensures Aimed(src, a, seqs, token, op + 2, anchor, ip, offset)
    ensures token < op && a[token] == 16 * Nibble(ip - anchor)
  {
    var e, l := EncodeSeqs(seqs), src[anchor..ip];
    NibbleSmall(ip - anchor);
    hide Ext, Nibble, EncodeSeqs, ApplyAll, Good;
    Regroup(e, 16 * Nibble(ip - anchor), Ext(ip - anchor), l);
    AimedBytes(e, 16 * Nibble(ip - anchor), Ext(ip - anchor) + l, before, a, op);
  }

  lemma Regroup(e: seq<Byte>, t: Byte, x: seq<Byte>, l: seq<Byte>)
    ensures e + [t] + x + l == e + [t] + (x + l)
  {
  }

  lemma NibbleSmall(n: nat)
    ensures Nibble(n) < 16
  {
  }

  lemma AimedBytes(e: seq<Byte>, t: Byte, rest: seq<Byte>, before: seq<Byte>, a: seq<Byte>, op: nat)
    requires op + 2 <= |a| == |before| && before[..op] == e + [t] + rest
    requires forall k :: 0 <= k < op ==> a[k] == before[k]
    ensures a[..op + 2] == before[..op] + [a[op], a[op + 1]] && |e| < op && a[|e|] == t
  {
    assert a[..op] == before[..op];
    assert before[..op][|e|] == t;
  }

  lemma TokenSet(pre: seq<Byte>, t: Byte, t': Byte, rest: seq<Byte>, s: seq<Byte>)
    requires s == pre + [t] + rest
    ensures s[|pre| := t'] == pre + [t'] + rest
  {
  }

  /** The output once the token holds both nibbles and the match length bytes are written. */
  lemma SequenceWritten(src: seq<Byte>, before: seq<Byte>, s: seq<Byte>, seqs: seq<Sequence>, token: nat, op: nat,
                        anchor: nat, ip: nat, offset: nat, mc: nat)
    requires Aimed(src, before, seqs, token, op, anchor, ip, offset) && token < op
    requires s == before[..op][token := 16 * Nibble(ip - anchor) + Nibble(mc)] + Ext(mc)
    ensures s == EncodeSeqs(seqs) + EncodeSeq(Sequence(src[anchor..ip], offset, mc + MINMATCH))
  {
    hide Ext, EncodeSeqs, ApplyAll, Good;
    var nl, nm := Nibble(ip - anchor), Nibble(mc);
    assert nl < 16 && nm < 16;
    hide Nibble;
    var e := EncodeSeqs(seqs);
    var tail := Ext(ip - anchor) + src[anchor..ip] + [offset % 256, offset / 256];
    assert before[..op] == e + [16 * nl] + tail;
    TokenSet(e, 16 * nl, 16 * nl + nm, tail, before[..op]);
    assert s == e + ([16 * nl + nm] + tail + Ext(mc));
    var q := Sequence(src[anchor..ip], offset, mc + MINMATCH);
    assert EncodeSeq(q) == [16 * nl + nm] + tail + Ext(mc);
  }

  lemma EmittedMore(src: seq<Byte>, before: seq<Byte>, a: seq<Byte>, seqs: seq<Sequence>, token: nat, at: nat, op: nat,
                    anchor: nat, ip: nat, offset: nat, mc: nat)
    requires Aimed(src, before, seqs, token, at, anchor, ip, offset) && op <= |a|
    requires Genuine(src, offset, ip, ip + MINMATCH + mc)
    requires ip + MFLIMIT <= |src| && ip + MINMATCH + mc + LASTLITERALS <= |src|
    requires a[..op] == EncodeSeqs(seqs) + EncodeSeq(Sequence(src[anchor..ip], offset, mc + MINMATCH))
    ensures var q := Sequence(src[anchor..ip], offset, mc + MINMATCH);
            Emitted(src, a, seqs + [q], op, ip + MINMATCH + mc)
  {
    hide EncodeSeq, EncodeSeqs, ApplyAll, Repeats;
    var q := Sequence(src[anchor..ip], offset, mc + MINMATCH);
    var end := ip + MINMATCH + mc;
    EncodeSnoc(seqs, q);
    ApplySnoc([], seqs, q);
    MatchMeans(src, anchor, ip, offset, mc + MINMATCH);
    assert (seqs + [q])[|seqs|] == q;
    assert Good(seqs + [q]);
  }

  lemma MatchMeans(src: seq<Byte>, anchor: nat, ip: nat, offset: nat, ml: nat)
    requires anchor <= ip && Genuine(src, offset, ip, ip + ml)
    ensures Apply(src[..anchor], Sequence(src[anchor..ip], offset, ml)) == Some(src[..ip + ml])
  {
    GenuineInside(src, offset, ip, ip + ml);
    hide Repeats;
    assert src[..anchor] + src[anchor..ip] == src[..ip];
    ExtendUnique(src[..ip], offset, ml, src);
  }

  lemma GenuineInside(src: seq<Byte>, offset: nat, ip: nat, end: nat)
    requires Genuine(src, offset, ip, end)
    ensures 1 <= offset <= ip && end <= |src|
  {
  }

  lemma MatchRoom(limited: bool, cap: nat, n: nat, op: nat, ip: nat, mc: nat)
    requires RoomForMatch(limited, cap, n, op, ip) && ip + MINMATCH + mc + LASTLITERALS <= n
    requires limited ==> op + 2 + (1 + LASTLITERALS) + (mc + 240) / 255 <= cap
    ensures op + 2 + |Ext(mc)| + 6 <= cap
    ensures Room(limited, cap, n, op + 2 + |Ext(mc)|, ip + MINMATCH + mc)
  {
    hide Ext;
    ExtLenIs(mc);
    if !limited {
      RoomMatch(n, cap, op, ip, mc);
    }
  }

  lemma RoomForOffset(limited: bool, cap: nat, n: nat, op: nat, ip: nat)
    requires RoomForMatch(limited, cap, n, op, ip) && ip + MFLIMIT <= n
    ensures op + 2 <= cap
  {
  }

  lemma Longer(src: seq<Byte>, offset: nat, ip: nat, c: nat)
    requires Genuine(src, offset, ip, ip + MINMATCH) && ip + MINMATCH + c <= |src|
    requires forall k :: ip + MINMATCH <= k < ip + MINMATCH + c ==> src[k] == src[k - offset]
    ensures Genuine(src, offset, ip, ip + MINMATCH + c)
  {
  }

  /** A match that stops before the limit stops at a difference, so it covers every known one. */
  lemma Longest(src: seq<Byte>, offset: nat, ip: nat, end: nat, known: nat)
    requires 1 <= offset <= ip <= end < |src|
    requires src[end] != src[end - offset] && Repeats(src, offset, ip, known)
    ensures known <= end
  {
  }

  /** From _next_match on: offset, match length and the token's low half; fails exactly when a limited
      output has no room. The match is extended as far as it goes. */
  method EncodeMatch(src: seq<Byte>, dst: array<Byte>, ghost seqs: seq<Sequence>, token: nat, op0: nat,
                     ghost anchor: nat, ip0: nat, m: nat, limited: bool, ghost known: nat)
    returns (ok: bool, op: nat, ip: nat, ghost q: Sequence)
    requires Begun(src, dst[..], seqs, token, op0, anchor, ip0) && RoomForMatch(limited, dst.Length, |src|, op0, ip0)
    requires m < ip0 && ip0 + MFLIMIT <= |src| && Genuine(src, ip0 - m, ip0, ip0 + MINMATCH)
    requires Repeats(src, ip0 - m, ip0, known) && known + LASTLITERALS <= |src|
    modifies dst
    ensures anchor <= ip0 && q == SequenceAt(src, anchor, ip0, m) && ip == ip0 + q.matchLen
    ensures ok <==> (limited ==> MatchFits(op0, MatchCode(q), dst.Length))
    ensures ok ==> Emitted(src, dst[..], seqs + [q], op, ip) && Room(limited, dst.Length, |src|, op, ip) && op > 0
    ensures ok ==> op == op0 + 2 + ExtLen(MatchCode(q))
    ensures ok ==> known <= ip && ip0 + MINMATCH <= ip
  {
    hide Begun, RoomForMatch, Room, Emitted, Aimed, Genuine, Repeats, Ext, EncodeSeq, EncodeSeqs, LenBytes;
    var offset := ip0 - m;
    BegunInside(src, dst[..], seqs, token, op0, anchor, ip0);
    OffsetSmall(src, offset, ip0, ip0 + MINMATCH);
    RoomForOffset(limited, dst.Length, |src|, op0, ip0);
    ghost var before := dst[..];
    dst[op0], dst[op0 + 1] := offset % 256, offset / 256;
    op := op0 + 2;
    AimedBy(src, before, dst[..], seqs, token, op0, anchor, ip0, offset);
    var matchCode := Count(src, ip0 + MINMATCH, m + MINMATCH, |src| - LASTLITERALS);
    ip := ip0 + matchCode + MINMATCH;
    CommonIs(src, ip0 + MINMATCH, m + MINMATCH, |src| - LASTLITERALS, matchCode);
    q := Sequence(src[anchor..ip0], offset, matchCode + MINMATCH);
    Longer(src, offset, ip0, matchCode);
    if ip < |src| - LASTLITERALS {
      Longest(src, offset, ip0, ip, known);
    }
    if limited && op + (1 + LASTLITERALS) + (matchCode + 240) / 255 > dst.Length {
      return false, op, ip, q;
    }
    MatchRoom(limited, dst.Length, |src|, op0, ip0, matchCode);
    ExtLenIs(matchCode);
    ghost var aimed := dst[..];
    op := WriteMatch(dst, token, op, matchCode, ip0 - anchor);
    SequenceWritten(src, aimed, dst[..op], seqs, token, op0 + 2, anchor, ip0, offset, matchCode);
    EmittedMore(src, aimed, dst[..], seqs, token, op0 + 2, op, anchor, ip0, offset, matchCode);
    ok := true;
  }

  lemma BegunInside(src: seq<Byte>, a: seq<Byte>, seqs: seq<Sequence>, token: nat, op: nat, anchor: nat, ip: nat)
    requires Begun(src, a, seqs, token, op, anchor, ip)
    ensures anchor <= ip <= |src| && op <= |a| && op == token + 1 + ExtLen(ip - anchor) + (ip - anchor)
  {
    hide ApplyAll, Good, EncodeSeqs, Nibble, Ext;
    ExtLenIs(ip - anchor);
    assert |a[..op]| == op;
  }

  lemma OffsetSmall(src: seq<Byte>, offset: nat, ip: nat, end: nat)
    requires Genuine(src, offset, ip, end)
    ensures offset <= DISTANCE_MAX
  {
  }

  /** The low half of the token, and the length bytes after op. */
  method WriteMatch(dst: array<Byte>, token: nat, op0: nat, mc: nat, ghost ll: nat) returns (op: nat)
    requires token < op0 && op0 + |Ext(mc)| + 6 <= dst.Length && dst[token] == 16 * Nibble(ll)
    modifies dst
    ensures op == op0 + |Ext(mc)|
    ensures dst[..op] == old(dst[..op0])[token := 16 * Nibble(ll) + Nibble(mc)] + Ext(mc)
  {
    ghost var pre: seq<Byte> := dst[..op0];
    ghost var t: Byte := 16 * Nibble(ll) + Nibble(mc);
    op := op0;
    if mc >= ML_MASK {
      dst[token] := dst[token] + ML_MASK;
      assert dst[..op0] == pre[token := t];
      op := WriteMatchLength(dst, op, mc - ML_MASK);
    } else {
      dst[token] := dst[token] + mc;
      assert dst[..op0] == pre[token := t];
    }
  }

  // ---- The hash table.

  ghost predicate TableBelow(t: seq<nat>, bound: nat) {
    forall i | 0 <= i < |t| :: t[i] < bound
  }

  /** A hash of the eight bytes at a position stays inside the table. */
  ghost predicate HashOk(src: seq<Byte>, hash: nat -> nat, size: nat) {
    forall p: nat | p + 8 <= |src| :: hash(p) < size
  }

  /** LZ4_putIndexOnHash; entries of the byU16 table have 16 bits. */
  method PutIndex(table: array<nat>, idx: nat, h: nat, byU16: bool, ghost bound: nat)
    requires h < table.Length && TableBelow(table[..], bound) && idx < bound
    requires byU16 ==> idx < 65536
    modifies table
    ensures table[..] == old(table[..])[h := idx]
    ensures TableBelow(table[..], bound)
  {
    table[h] := idx;
    assert table[..] == old(table[..])[h := idx];
  }

  lemma TableBelowMore(t: seq<nat>, bound: nat, bound': nat)
    requires TableBelow(t, bound) && bound <= bound'
    ensures TableBelow(t, bound')
  {
  }

  lemma TableEntry(t: seq<nat>, bound: nat, h: nat)
    requires TableBelow(t, bound) && h < |t|
    ensures t[h] < bound
  {
  }

  lemma HashInside(src: seq<Byte>, hash: nat -> nat, size: nat, p: nat)
    requires HashOk(src, hash, size) && p + 8 <= |src|
    ensures hash(p) < size
  {
  }

  lemma GenuineFour(src: seq<Byte>, m: nat, ip: nat)
    requires m < ip <= m + DISTANCE_MAX && ip + MINMATCH <= |src|
    requires forall k :: ip <= k < ip + MINMATCH ==> src[k] == src[k - (ip - m)]
    ensures Genuine(src, ip - m, ip, ip + MINMATCH)
  {
  }

  /** The search: positions further and further apart until the table names an earlier position,
      near enough, with the same four bytes. */
  method FindMatch(src: seq<Byte>, table: array<nat>, hash: nat -> nat, ip0: nat, byU16: bool, acceleration: nat)
    returns (found: bool, ip: nat, m: nat)
    requires HashOk(src, hash, table.Length) && TableBelow(table[..], ip0)
    requires 1 <= ip0 && ip0 + MFLIMIT - 1 <= |src| && acceleration >= 1
    requires byU16 ==> |src| < LIMIT_64K
    modifies table
    ensures var s := Probe(src, old(table[..]), hash, ip0, 1, acceleration * 64, byU16);
      found == s.found && table[..] == s.table && (found ==> ip == s.ip && m == s.m)
    ensures found ==> ip0 <= ip && ip + MFLIMIT <= |src| && m < ip
    ensures found ==> Genuine(src, ip - m, ip, ip + MINMATCH) && TableBelow(table[..], ip + 1)
  {
    hide HashOk, TableBelow, Genuine, Probe, Hit, Put, EntryAt;
    HashInside(src, hash, table.Length, ip0);
    var forwardH: nat := hash(ip0);
    var forwardIp := ip0;
    var step := 1;
    var searchMatchNb := acceleration * 64;
    while true
      invariant ip0 <= forwardIp && forwardIp + MFLIMIT - 1 <= |src|
      invariant step >= 1 && searchMatchNb >= 64 && forwardH == hash(forwardIp) < table.Length
      invariant TableBelow(table[..], forwardIp)
      invariant Probe(src, old(table[..]), hash, ip0, 1, acceleration * 64, byU16)
                == Probe(src, table[..], hash, forwardIp, step, searchMatchNb, byU16)
      decreases |src| - forwardIp
    {
      var h := forwardH;
      var current := forwardIp;
      TableEntry(table[..], forwardIp, h);
      var matchIndex := table[h];
      ProbeUnfolds(src, table[..], hash, forwardIp, step, searchMatchNb, byU16);
      ip := forwardIp;
      forwardIp := forwardIp + step;
      step := searchMatchNb / 64;
      searchMatchNb := searchMatchNb + 1;
      if forwardIp > |src| - MFLIMIT + 1 {
        return false, ip, 0;
      }
      m := matchIndex;
      HashInside(src, hash, table.Length, forwardIp);
      forwardH := hash(forwardIp);
      TableBelowMore(table[..], ip, ip + 1);
      PutIs(table[..], h, ip);
      EntryIs(table[..], h);
      PutIndex(table, current, h, byU16, ip + 1);
      var near := byU16 || matchIndex + DISTANCE_MAX >= current;
      if near {
        var same, d := SameBytes(src, ip, m, MINMATCH);
        HitIs(src, m, ip, byU16, same, d);
        if same {
          GenuineFour(src, m, ip);
          return true, ip, m;
        }
      } else {
        FarIs(src, m, ip, byU16);
      }
      TableBelowMore(table[..], ip + 1, forwardIp);
    }
  }

  lemma EntryIs(t: seq<nat>, h: nat)
    requires h < |t|
    ensures EntryAt(t, h) == t[h]
  {
  }

  lemma HitIs(src: seq<Byte>, m: nat, ip: nat, byU16: bool, same: bool, d: nat)
    requires m < ip && ip + MINMATCH <= |src| && (byU16 || m + DISTANCE_MAX >= ip)
    requires same ==> forall k :: ip <= k < ip + MINMATCH ==> src[k] == src[k - (ip - m)]
    requires !same ==> d < MINMATCH && src[ip + d] != src[m + d]
    ensures same <==> Hit(src, m, ip, byU16)
  {
  }

  lemma FarIs(src: seq<Byte>, m: nat, ip: nat, byU16: bool)
    requires !(byU16 || m + DISTANCE_MAX >= ip)
    ensures !Hit(src, m, ip, byU16)
  {
  }

  /** Extending a match backwards, to the anchor at most. */
  method CatchUp(src: seq<Byte>, anchor: nat, ip0: nat, m0: nat) returns (ip: nat, m: nat)
    requires anchor <= ip0 && m0 < ip0 && Genuine(src, ip0 - m0, ip0, ip0 + MINMATCH)
    ensures anchor <= ip <= ip0 && m < ip && ip - m == ip0 - m0
    ensures Genuine(src, ip - m, ip, ip + MINMATCH) && Repeats(src, ip - m, ip, ip0 + MINMATCH)
    ensures ip0 <= |src| && ip0 - ip == Back(src, anchor, ip0, m0)
  {
    ip, m := ip0, m0;
    while ip > anchor && m > 0 && src[ip - 1] == src[m - 1]
      invariant anchor <= ip <= ip0 && m < ip && ip - m == ip0 - m0
      invariant Repeats(src, ip - m, ip, ip0 + MINMATCH)
      invariant ip0 <= |src| && Back(src, anchor, ip0, m0) == ip0 - ip + Back(src, anchor, ip, m)
    {
      ip, m := ip - 1, m - 1;
    }
  }

  /** The position before last goes into the table, and the next position may match at once. */
  method TestNext(src: seq<Byte>, table: array<nat>, hash: nat -> nat, ip: nat, byU16: bool)
    returns (found: bool, m: nat)
    requires HashOk(src, hash, table.Length) && TableBelow(table[..], ip)
    requires 2 <= ip && ip + MFLIMIT <= |src|
    requires byU16 ==> |src| < LIMIT_64K
    modifies table
    ensures found ==> m < ip && Genuine(src, ip - m, ip, ip + MINMATCH)
    ensures var t1 := Put(old(table[..]), hash(ip - 2), ip - 2);
      m == EntryAt(t1, hash(ip)) && found == Hit(src, m, ip, byU16) && table[..] == Put(t1, hash(ip), ip)
    ensures TableBelow(table[..], ip + 1) && hash(ip - 2) < table.Length && hash(ip) < table.Length
    ensures table[..] == old(table[..])[hash(ip - 2) := ip - 2][hash(ip) := ip]
  {
    hide HashOk, TableBelow, Genuine, Hit;
    HashInside(src, hash, table.Length, ip - 2);
    PutIndex(table, ip - 2, hash(ip - 2), byU16, ip);
    HashInside(src, hash, table.Length, ip);
    var h := hash(ip);
    TableEntry(table[..], ip, h);
    m := table[h];
    TableBelowMore(table[..], ip, ip + 1);
    PutIndex(table, ip, h, byU16, ip + 1);
    found := byU16 || m + DISTANCE_MAX >= ip;
    if found {
      var same, d := SameBytes(src, ip, m, MINMATCH);
      HitIs(src, m, ip, byU16, same, d);
      found := same;
      if same {
        GenuineFour(src, m, ip);
      }
    } else {
      FarIs(src, m, ip, byU16);
    }
  }

  // ---- The whole compressor.

  /** A block whose content is the input, keeping every restriction of the format. */
  ghost predicate Compressed(src: seq<Byte>, out: seq<Byte>, b: Block) {
    && BlockOk(b) && b.low == 0 && Good(b.seqs) && EndRules(b)
    && Content(b) == Some(src)
    && out == Encode(b)
  }

  /** What a chain of matches leads to. */
  datatype Chained = Full | AtEnd | Search

  lemma BegunAgain(src: seq<Byte>, before: seq<Byte>, a: seq<Byte>, seqs: seq<Sequence>, op: nat, ip: nat)
    requires Emitted(src, before, seqs, op, ip) && op + 1 <= |a| == |before|
    requires forall k :: 0 <= k < op ==> a[k] == before[k]
    requires a[op] == 0
    ensures Begun(src, a, seqs, op, op + 1, ip, ip)
  {
    hide EncodeSeqs, ApplyAll, Good;
    assert a[..op] == before[..op];
    assert a[..op + 1] == a[..op] + [0];
    assert src[ip..ip] == [];
    assert Ext(0) == [];
    assert a[..op + 1] == EncodeSeqs(seqs) + [16 * Nibble(0)] + Ext(0) + src[ip..ip];
  }

  /** The position after a match: if the table names a match for it, a token without literals is begun. */
  method BeginNext(src: seq<Byte>, dst: array<Byte>, table: array<nat>, hash: nat -> nat, ghost seqs: seq<Sequence>,
                   op: nat, ip: nat, limited: bool, byU16: bool) returns (found: bool, m: nat)
    requires HashOk(src, hash, table.Length) && TableBelow(table[..], ip) && (byU16 ==> |src| < LIMIT_64K)
    requires 2 <= ip && ip + MFLIMIT <= |src| && op > 0
    requires Emitted(src, dst[..], seqs, op, ip) && Room(limited, dst.Length, |src|, op, ip)
    modifies dst, table
    ensures var t1 := Put(old(table[..]), hash(ip - 2), ip - 2);
      m == EntryAt(t1, hash(ip)) && found == Hit(src, m, ip, byU16) && table[..] == Put(t1, hash(ip), ip)
    ensures !found ==> dst[..] == old(dst[..]) && TableBelow(table[..], ip + 1)
    ensures found ==>
      && Begun(src, dst[..], seqs, op, op + 1, ip, ip) && RoomForMatch(limited, dst.Length, |src|, op + 1, ip)
      && m < ip && Genuine(src, ip - m, ip, ip + MINMATCH) && Repeats(src, ip - m, ip, ip + MINMATCH)
      && TableBelow(table[..], ip + MINMATCH)
  {
    hide Emitted, Begun, Room, RoomForMatch, Genuine, Repeats, HashOk, TableBelow, Hit, Put, EntryAt;
    found, m := TestNext(src, table, hash, ip, byU16);
    if found {
      RoomAgain(limited, |src|, dst.Length, op, ip);
      ghost var before := dst[..];
      dst[op] := 0;
      BegunAgain(src, before, dst[..], seqs, op, ip);
      GenuineRepeats(src, ip - m, ip, ip + MINMATCH);
      TableBelowMore(table[..], ip + 1, ip + MINMATCH);
    }
  }

  /** Of the chain c0, the sequences done are written and rest is to come. */
  ghost predicate Partly(c0: Chain, done: seq<Item>, rest: Chain, seqs0: seq<Sequence>, seqs: seq<Sequence>, op0: nat,
                         op: nat, limited: bool, cap: nat) {
    && c0 == rest.(items := done + rest.items) && (limited ==> ItemsFit(done, op0, cap))
    && op == OpAfter(done, op0) && seqs == seqs0 + Quoted(done)
  }

  /** A match, and the matches that follow it without literals in between; fails exactly when a limited
      output has no room for one of them. */
  method EncodeChain(src: seq<Byte>, dst: array<Byte>, table: array<nat>, hash: nat -> nat, ghost seqs0: seq<Sequence>,
                     token0: nat, op0: nat, ghost anchor0: nat, ip0: nat, m0: nat, limited: bool, byU16: bool,
                     ghost known0: nat)
    returns (result: Chained, op: nat, ip: nat, ghost seqs: seq<Sequence>, ghost c0: Chain)
    requires HashOk(src, hash, table.Length) && (byU16 ==> |src| < LIMIT_64K)
    requires Begun(src, dst[..], seqs0, token0, op0, anchor0, ip0) && anchor0 <= ip0
    requires limited ==> LiteralsFit(token0, ip0 - anchor0, dst.Length)
    requires RoomForMatch(limited, dst.Length, |src|, op0, ip0)
    requires m0 < ip0 && ip0 + MFLIMIT <= |src| && Genuine(src, ip0 - m0, ip0, ip0 + MINMATCH)
    requires Repeats(src, ip0 - m0, ip0, known0) && known0 + LASTLITERALS <= |src| && TableBelow(table[..], known0)
    modifies dst, table
    ensures c0 == ChainFrom(src, old(table[..]), hash, anchor0, ip0, m0, false, byU16)
    ensures result.Full? <==> limited && !ItemsFit(c0.items, token0, dst.Length)
    ensures !result.Full? ==>
      && result.AtEnd? == c0.atEnd && ip == c0.ip && table[..] == c0.table
      && seqs == seqs0 + Quoted(c0.items) && op == OpAfter(c0.items, token0)
    ensures !result.Full? ==> Emitted(src, dst[..], seqs, op, ip) && Room(limited, dst.Length, |src|, op, ip)
    ensures result.Search? ==> known0 <= ip && ip + MFLIMIT <= |src| && TableBelow(table[..], ip + 1)
  {
    hide Emitted, Begun, Room, RoomForMatch, Genuine, Repeats, HashOk, TableBelow, ItemsFit, OpAfter, SequenceAt, Hit,
         LiteralsFit, MatchFits, Quoted, Put, EntryAt, Partly, ChainFrom, ItemFits, MatchCode, After;
    seqs, ip := seqs0, ip0;
    var token: nat, m: nat := token0, m0;
    op := op0;
    ghost var anchor: nat, known: nat, chained := anchor0, known0, false;
    ghost var done: seq<Item> := [];
    c0 := ChainFrom(src, table[..], hash, anchor, ip, m, false, byU16);
    PartlyNone(c0, seqs0, token0, limited, dst.Length);
    while true
      invariant known0 <= known && anchor <= ip && Begun(src, dst[..], seqs, token, op, anchor, ip)
      invariant RoomForMatch(limited, dst.Length, |src|, op, ip)
      invariant m < ip && ip + MFLIMIT <= |src| && Genuine(src, ip - m, ip, ip + MINMATCH)
      invariant Repeats(src, ip - m, ip, known) && known + LASTLITERALS <= |src| && TableBelow(table[..], known)
      invariant Partly(c0, done, ChainFrom(src, table[..], hash, anchor, ip, m, chained, byU16), seqs0, seqs, token0,
                       token, limited, dst.Length)
      invariant limited && !chained ==> LiteralsFit(token, ip - anchor, dst.Length)
      decreases |src| - ip
    {
      ghost var c := ChainFrom(src, table[..], hash, anchor, ip, m, chained, byU16);
      ChainUnfolds(src, table[..], hash, anchor, ip, m, chained, byU16);
      ghost var t := token;
      var ok;
      ghost var q;
      BegunInside(src, dst[..], seqs, token, op, anchor, ip);
      ghost var at := op;
      ok, op, ip, q := EncodeMatch(src, dst, seqs, token, op, anchor, ip, m, limited, known);
      ItemWritten(Item(q, chained), token, at, dst.Length, limited);
      if !ok {
        PartlyFails(c0, done, c, seqs0, seqs, token0, token, limited, dst.Length);
        return Full, op, ip, seqs, c0;
      }
      PartlyMore(c0, done, c, seqs0, seqs, token0, token, limited, dst.Length);
      done := done + [c.items[0]];
      seqs := seqs + [q];
      anchor := ip;
      if ip >= |src| - MFLIMIT + 1 {
        assert c.items[1..] == [];
        PartlyAll(c0, done, c.(items := []), seqs0, seqs, token0, op, limited, dst.Length);
        return AtEnd, op, ip, seqs, c0;
      }
      TableBelowMore(table[..], known, ip);
      var found;
      found, m := BeginNext(src, dst, table, hash, seqs, op, ip, limited, byU16);
      if !found {
        assert c.items[1..] == [];
        PartlyAll(c0, done, c.(items := []), seqs0, seqs, token0, op, limited, dst.Length);
        return Search, op, ip, seqs, c0;
      }
      token, op := op, op + 1;
      chained := true;
      known := ip + MINMATCH;
    }
  }

  lemma PartlyNone(c: Chain, seqs: seq<Sequence>, op: nat, limited: bool, cap: nat)
    ensures Partly(c, [], c, seqs, seqs, op, op, limited, cap)
  {
    assert [] + c.items == c.items;
  }

  lemma ItemWritten(i: Item, token: nat, op: nat, cap: nat, limited: bool)
    requires op == AfterLiterals(token, i.q) && (limited && !i.chained ==> LiteralsFit(token, |i.q.literals|, cap))
    ensures limited ==> (ItemFits(i, token, cap) <==> MatchFits(op, MatchCode(i.q), cap))
    ensures After(token, i.q) == op + 2 + ExtLen(MatchCode(i.q))
  {
  }

  lemma PartlyFails(c0: Chain, done: seq<Item>, rest: Chain, seqs0: seq<Sequence>, seqs: seq<Sequence>, op0: nat, op: nat,
                    limited: bool, cap: nat)
    requires Partly(c0, done, rest, seqs0, seqs, op0, op, limited, cap)
    requires rest.items != [] && !ItemFits(rest.items[0], op, cap)
    ensures !ItemsFit(c0.items, op0, cap)
  {
    hide ItemFits;
    FitJoin(done, rest.items, op0, cap);
  }

  lemma PartlyMore(c0: Chain, done: seq<Item>, rest: Chain, seqs0: seq<Sequence>, seqs: seq<Sequence>, op0: nat, op: nat,
                   limited: bool, cap: nat)
    requires Partly(c0, done, rest, seqs0, seqs, op0, op, limited, cap)
    requires rest.items != [] && (limited ==> ItemFits(rest.items[0], op, cap))
    ensures var i := rest.items[0];
      Partly(c0, done + [i], rest.(items := rest.items[1..]), seqs0, seqs + [i.q], op0, After(op, i.q), limited, cap)
  {
    hide ItemFits, After;
    var i := rest.items[0];
    FitJoin(done, [i], op0, cap);
    FitOne(i, op, cap);
    QuotedJoin(done, [i]);
    QuotedOne(i);
    assert done + [i] + rest.items[1..] == done + rest.items;
  }

  lemma PartlyAll(c0: Chain, done: seq<Item>, rest: Chain, seqs0: seq<Sequence>, seqs: seq<Sequence>, op0: nat, op: nat,
                  limited: bool, cap: nat)
    requires Partly(c0, done, rest, seqs0, seqs, op0, op, limited, cap) && rest.items == []
    ensures c0 == rest.(items := done) && (limited ==> ItemsFit(done, op0, cap))
    ensures op == OpAfter(done, op0) && seqs == seqs0 + Quoted(done)
  {
    assert done + [] == done;
  }

  lemma GenuineRepeats(src: seq<Byte>, offset: nat, ip: nat, end: nat)
    requires Genuine(src, offset, ip, end)
    ensures Repeats(src, offset, ip, end)
  {
  }

  /** The last literals. */
  method EncodeLast(src: seq<Byte>, dst: array<Byte>, ghost seqs: seq<Sequence>, op0: nat, anchor: nat, limited: bool)
    returns (r: nat)
    requires Emitted(src, dst[..], seqs, op0, anchor) && (limited || Room(limited, dst.Length, |src|, op0, anchor))
    modifies dst
    ensures anchor <= |src|
    ensures r == 0 <==> limited && op0 + (|src| - anchor) + 1 + ExtLen(|src| - anchor) > dst.Length
    ensures r > 0 ==> r <= dst.Length && Compressed(src, dst[..r], Block(seqs, src[anchor..], 0))
    ensures !limited ==> r <= Bound(|src|)
  {
    hide Room, Emitted, Ext, Compressed;
    EmittedInside(src, dst[..], seqs, op0, anchor);
    var lastRun := |src| - anchor;
    ExtLenIs(lastRun);
    if limited && op0 + lastRun + 1 + (lastRun + 240) / 255 > dst.Length {
      return 0;
    }
    if !limited {
      RoomLast(|src|, dst.Length, op0, anchor);
      RoomBound(|src|, dst.Length, op0, anchor);
    }
    ghost var before := dst[..];
    var op := WriteRun(dst, op0, lastRun);
    ghost var run := dst[..op];
    CopyFrom(dst, op, src, anchor, lastRun);
    assert dst[..op] == run;
    r := op + lastRun;
    assert dst[..r] == run + src[anchor..];
    CompressedBy(src, before, dst[..r], seqs, op0, anchor);
  }

  lemma EmittedInside(src: seq<Byte>, a: seq<Byte>, seqs: seq<Sequence>, op: nat, anchor: nat)
    requires Emitted(src, a, seqs, op, anchor)
    ensures op <= |a| && anchor <= |src|
  {
  }

  lemma RoomBound(n: nat, cap: nat, op: nat, anchor: nat)
    requires Room(false, cap, n, op, anchor) && anchor <= n
    ensures op + (n - anchor) + 1 + ExtLen(n - anchor) <= Bound(n)
  {
    RoomLast(n, Bound(n), op, anchor);
  }

  lemma CompressedBy(src: seq<Byte>, before: seq<Byte>, out: seq<Byte>, seqs: seq<Sequence>, op: nat, anchor: nat)
    requires Emitted(src, before, seqs, op, anchor)
    requires out == before[..op] + [16 * Nibble(|src| - anchor)] + Ext(|src| - anchor) + src[anchor..]
    ensures Compressed(src, out, Block(seqs, src[anchor..], 0))
  {
    hide Ext, EncodeSeqs, ApplyAll;
    var tail := src[anchor..];
    assert src[..anchor] + tail == src;
    assert Nibble(|tail|) < 16;
    hide Nibble;
    assert EncodeTail(tail, 0) == [16 * Nibble(|tail|)] + Ext(|tail|) + tail;
    assert out == EncodeSeqs(seqs) + EncodeTail(tail, 0);
  }

  lemma EmittedNone(src: seq<Byte>, a: seq<Byte>)
    ensures Emitted(src, a, [], 0, 0)
  {
    assert src[..0] == [];
    assert a[..0] == [];
  }

  lemma TableZero(t: seq<nat>)
    requires t == ZeroTable(|t|)
    ensures TableBelow(t, 1)
  {
  }

  /** LZ4_compress_generic_validated without dictionary, on a table of zeros, for outputs that are
      limited to the size of dst or known to be large enough: the sequences of Items, or 0 exactly if the
      input is too large for the table or a limited output is too small for them. */
  method CompressValidated(src: seq<Byte>, dst: array<Byte>, table: array<nat>, hash: nat -> nat, limited: bool,
                           byU16: bool, acceleration: nat) returns (r: nat, ghost b: Block)
    requires HashOk(src, hash, table.Length) && table[..] == ZeroTable(table.Length)
    requires acceleration >= 1 && (!limited ==> Bound(|src|) <= dst.Length)
    modifies dst, table
    ensures r > 0 ==> r <= dst.Length && Compressed(src, dst[..r], b)
    ensures r > 0 ==> b.seqs == Quoted(Items(src, table.Length, hash, acceleration, byU16))
    ensures r == 0 <==> (byU16 && |src| >= LIMIT_64K)
                        || (limited && !Fit(Items(src, table.Length, hash, acceleration, byU16), |src|, dst.Length))
    ensures !limited ==> r <= Bound(|src|)
  {
    hide Emitted, Room, HashOk, TableBelow, Compressed, ItemsFit, OpAfter, Quoted, Put, ZeroTable, Greedy, Covered;
    b := Block([], [], 0);
    if byU16 && |src| >= LIMIT_64K {
      return 0, b;
    }
    ghost var items := Items(src, table.Length, hash, acceleration, byU16);
    ghost var seqs: seq<Sequence> := [];
    var op: nat, anchor: nat := 0, 0;
    NothingDone(items, dst.Length);
    EmittedNone(src, dst[..]);
    RoomFirst(limited, dst.Length, |src|);
    if |src| >= MIN_LENGTH {
      TableZero(table[..]);
      HashInside(src, hash, table.Length, 0);
      PutIs(table[..], hash(0), 0);
      PutIndex(table, 0, hash(0), byU16, 1);
      var full;
      full, op, anchor, seqs := CompressAll(src, dst, table, hash, limited, byU16, acceleration);
      if full {
        return 0, b;
      }
    }
    EmittedInside(src, dst[..], seqs, op, anchor);
    r := EncodeLast(src, dst, seqs, op, anchor, limited);
    b := Block(seqs, src[anchor..], 0);
  }

  /** The main loop, once the first position is in the table. */
  method CompressAll(src: seq<Byte>, dst: array<Byte>, table: array<nat>, hash: nat -> nat, limited: bool, byU16: bool,
                     acceleration: nat) returns (full: bool, op: nat, anchor: nat, ghost seqs: seq<Sequence>)
    requires HashOk(src, hash, table.Length) && TableBelow(table[..], 1) && (byU16 ==> |src| < LIMIT_64K)
    requires |src| >= MIN_LENGTH && acceleration >= 1 && (!limited ==> Bound(|src|) <= dst.Length)
    modifies dst, table
    ensures var items := Greedy(src, old(table[..]), hash, 0, 1, acceleration, byU16);
      && (full <==> limited && !ItemsFit(items, 0, dst.Length))
      && (!full ==> Written(items, seqs, op, anchor, limited, dst.Length))
    ensures !full ==> Emitted(src, dst[..], seqs, op, anchor) && Room(limited, dst.Length, |src|, op, anchor)
  {
    hide Emitted, Room, Genuine, HashOk, TableBelow, ItemsFit, OpAfter, Quoted, Greedy, Probe, ChainFrom, Covered, Back,
         Written;
    ghost var items := Greedy(src, table[..], hash, 0, 1, acceleration, byU16);
    ghost var done: seq<Item> := [];
    seqs, op, anchor := [], 0, 0;
    NothingDone(items, dst.Length);
    NothingWritten(limited, dst.Length);
    EmittedNone(src, dst[..]);
    RoomFirst(limited, dst.Length, |src|);
    var ip := 1;
    while true
      invariant anchor <= ip && 1 <= ip && ip + MFLIMIT - 1 <= |src|
      invariant Emitted(src, dst[..], seqs, op, anchor) && Room(limited, dst.Length, |src|, op, anchor)
      invariant TableBelow(table[..], ip)
      invariant items == done + Greedy(src, table[..], hash, anchor, ip, acceleration, byU16)
      invariant Written(done, seqs, op, anchor, limited, dst.Length)
      decreases |src| - ip
    {
      ghost var t := table[..];
      GreedyUnfolds(src, t, hash, anchor, ip, acceleration, byU16);
      var found, at, m := FindMatch(src, table, hash, ip, byU16, acceleration);
      if !found {
        NothingDone(done, dst.Length);
        WrittenAt(done, seqs, op, anchor, limited, dst.Length);
        return false, op, anchor, seqs;
      }
      var result, next;
      ghost var q;
      ghost var c;
      WrittenAt(done, seqs, op, anchor, limited, dst.Length);
      result, op, next, q, c := EncodeFrom(src, dst, table, hash, seqs, op, anchor, at, m, limited, byU16);
      ghost var rest := if c.atEnd || c.ip < ip then [] else Greedy(src, c.table, hash, c.ip, c.ip + 1, acceleration, byU16);
      RoundItems(done, c.items, rest, items, c.atEnd || c.ip < ip);
      if result.Full? {
        RoundFails(done, c.items, rest, dst.Length, seqs, anchor, limited);
        return true, op, anchor, seqs;
      }
      RoundWritten(done, c.items, seqs, anchor, limited, dst.Length);
      done := done + c.items;
      seqs, anchor := q, next;
      if result.AtEnd? {
        return false, op, anchor, seqs;
      }
      ip := next + 1;
    }
  }

  lemma RoundItems(done: seq<Item>, some: seq<Item>, rest: seq<Item>, items: seq<Item>, atEnd: bool)
    requires items == done + (if atEnd then some else some + rest) && (atEnd ==> rest == [])
    ensures items == done + some + rest
  {
  }

  lemma NothingWritten(limited: bool, cap: nat)
    ensures Written([], [], 0, 0, limited, cap)
  {
  }

  lemma WrittenAt(done: seq<Item>, seqs: seq<Sequence>, op: nat, anchor: nat, limited: bool, cap: nat)
    requires Written(done, seqs, op, anchor, limited, cap)
    ensures op == OpAfter(done, 0) && (limited ==> ItemsFit(done, 0, cap))
  {
    hide Quoted, OpAfter, Covered, ItemsFit;
  }

  /** The sequences done are written, and every check on the way was passed. */
  ghost predicate Written(done: seq<Item>, seqs: seq<Sequence>, op: nat, anchor: nat, limited: bool, cap: nat) {
    seqs == Quoted(done) && op == OpAfter(done, 0) && anchor == Covered(done) && (limited ==> ItemsFit(done, 0, cap))
  }

  lemma NothingDone(items: seq<Item>, cap: nat)
    ensures [] + items == items && items + [] == items && Quoted([]) == [] && OpAfter([], 0) == 0 && Covered([]) == 0
    ensures ItemsFit([], 0, cap)
  {
  }

  lemma PutIs(t: seq<nat>, h: nat, i: nat)
    requires h < |t|
    ensures Put(t, h, i) == t[h := i]
  {
  }

  lemma RoundWritten(done: seq<Item>, items: seq<Item>, seqs: seq<Sequence>, anchor: nat, limited: bool, cap: nat)
    requires Written(done, seqs, OpAfter(done, 0), anchor, limited, cap)
    requires limited ==> ItemsFit(items, OpAfter(done, 0), cap)
    ensures Written(done + items, seqs + Quoted(items), OpAfter(items, OpAfter(done, 0)), anchor + Covered(items), limited, cap)
  {
    FitJoin(done, items, 0, cap);
    QuotedJoin(done, items);
  }

  lemma RoundFails(done: seq<Item>, some: seq<Item>, rest: seq<Item>, cap: nat, seqs: seq<Sequence>, anchor: nat,
                   limited: bool)
    requires Written(done, seqs, OpAfter(done, 0), anchor, limited, cap) && !ItemsFit(some, OpAfter(done, 0), cap)
    ensures !ItemsFit(done + some + rest, 0, cap)
  {
    assert done + some + rest == done + (some + rest);
    FitJoin(done, some + rest, 0, cap);
    FitJoin(some, rest, OpAfter(done, 0), cap);
  }

  lemma RoomFirst(limited: bool, cap: nat, n: nat)
    requires !limited ==> Bound(n) <= cap
    ensures Room(limited, cap, n, 0, 0)
  {
  }

  /** One round of the main loop after the search. */
  method EncodeFrom(src: seq<Byte>, dst: array<Byte>, table: array<nat>, hash: nat -> nat, ghost seqs0: seq<Sequence>,
                    op0: nat, anchor: nat, at: nat, m0: nat, limited: bool, byU16: bool)
    returns (result: Chained, op: nat, ip: nat, ghost seqs: seq<Sequence>, ghost c: Chain)
    requires HashOk(src, hash, table.Length) && (byU16 ==> |src| < LIMIT_64K)
    requires Emitted(src, dst[..], seqs0, op0, anchor) && Room(limited, dst.Length, |src|, op0, anchor)
    requires anchor <= at && at + MFLIMIT <= |src| && m0 < at && Genuine(src, at - m0, at, at + MINMATCH)
    requires TableBelow(table[..], at + 1)
    modifies dst, table
    ensures var k := Back(src, anchor, at, m0);
      c == ChainFrom(src, old(table[..]), hash, anchor, at - k, m0 - k, false, byU16)
    ensures result.Full? <==> limited && !ItemsFit(c.items, op0, dst.Length)
    ensures !result.Full? ==>
      && result.AtEnd? == c.atEnd && ip == c.ip == anchor + Covered(c.items) && table[..] == c.table
      && seqs == seqs0 + Quoted(c.items) && op == OpAfter(c.items, op0)
    ensures !result.Full? ==> Emitted(src, dst[..], seqs, op, ip) && Room(limited, dst.Length, |src|, op, ip)
    ensures result.Search? ==> at < ip && ip + MFLIMIT <= |src| && TableBelow(table[..], ip + 1)
  {
    hide Emitted, Begun, Room, RoomForMatch, Genuine, Repeats, HashOk, TableBelow, ItemsFit, OpAfter, ChainFrom, LiteralsFit,
         Quoted, Covered;
    var m, ok;
    ip, m := CatchUp(src, anchor, at, m0);
    c := ChainFrom(src, table[..], hash, anchor, ip, m, false, byU16);
    ChainCovers(src, table[..], hash, anchor, ip, m, false, byU16);
    var token := op0;
    ok, op := EncodeLiterals(src, dst, seqs0, token, anchor, ip, limited);
    if !ok {
      FirstFails(src, table[..], hash, anchor, ip, m, byU16, op0, dst.Length);
      return Full, op, ip, seqs0, c;
    }
    TableBelowMore(table[..], at + 1, at + MINMATCH);
    result, op, ip, seqs, c := EncodeChain(src, dst, table, hash, seqs0, token, op, anchor, ip, m, limited, byU16,
                                           at + MINMATCH);
  }

  lemma FirstFails(src: seq<Byte>, t: seq<nat>, hash: nat -> nat, anchor: nat, ip: nat, m: nat, byU16: bool, op: nat,
                   cap: nat)
    requires anchor <= ip && m <= ip && ip + MFLIMIT <= |src| && !LiteralsFit(op, ip - anchor, cap)
    ensures !ItemsFit(ChainFrom(src, t, hash, anchor, ip, m, false, byU16).items, op, cap)
  {
    ChainUnfolds(src, t, hash, anchor, ip, m, false, byU16);
    hide ChainFrom, LiteralsFit, MatchFits;
  }

  /** LZ4_compress_generic: sizes out of range give 0, an empty input the block of one zero token. */
  method CompressGeneric(src: seq<Byte>, dst: array<Byte>, table: array<nat>, hash: nat -> nat, limited: bool,
                         byU16: bool, acceleration: nat) returns (r: nat, ghost b: Block)
    requires HashOk(src, hash, table.Length) && table[..] == ZeroTable(table.Length)
    requires acceleration >= 1 && (!limited && |src| <= MAX_INPUT_SIZE ==> Bound(|src|) <= dst.Length)
    modifies dst, table
    ensures r > 0 ==> r <= dst.Length && Compressed(src, dst[..r], b)
    ensures r > 0 ==> b.seqs == Quoted(Items(src, table.Length, hash, acceleration, byU16))
    ensures r == 0 <==> |src| > MAX_INPUT_SIZE || (byU16 && |src| >= LIMIT_64K)
                        || (limited && !Fit(Items(src, table.Length, hash, acceleration, byU16), |src|, dst.Length))
    ensures !limited ==> r <= Bound(|src|)
  {
    hide HashOk, Compressed, Greedy, Put, ZeroTable;
    b := Block([], [], 0);
    if |src| > MAX_INPUT_SIZE {
      return 0, b;
    }
    if |src| == 0 {
      if limited && dst.Length <= 0 {
        return 0, b;
      }
      dst[0] := 0;
      EmptyBlock(dst[..1]);
      return 1, b;
    }
    r, b := CompressValidated(src, dst, table, hash, limited, byU16, acceleration);
  }

  lemma EmptyBlock(out: seq<Byte>)
    requires out == [0]
    ensures Compressed([], out, Block([], [], 0))
  {
    var b := Block([], [], 0);
    assert ApplyAll([], b.seqs) == Some([]);
    assert ApplyAll([], b.seqs).value + b.tail == [];
    assert EncodeTail([], 0) == [0];
    assert Encode(b) == [0];
  }

  /** LZ4_compressBound. */
  function CompressBound(n: nat): nat {
    if n > MAX_INPUT_SIZE then 0 else Bound(n)
  }

  /** The acceleration that is used for the one asked for. */
  function Accelerated(acceleration: int): nat {
    if acceleration < 1 then 1 else if acceleration > 65537 then 65537 else acceleration
  }

  /** LZ4_compress_fast: the result is the block of the sequences of Items; it is 0 exactly for an input that
      is too large or an output that is smaller than the bound and too small for them. */
  method CompressFast(src: seq<Byte>, dst: array<Byte>, tableSize: nat, hash: nat -> nat, acceleration: int)
    returns (r: nat, ghost b: Block)
    requires HashOk(src, hash, tableSize)
    modifies dst
    ensures r > 0 ==> r <= dst.Length && Compressed(src, dst[..r], b)
    ensures r > 0 ==> b.seqs == Quoted(Items(src, tableSize, hash, Accelerated(acceleration), |src| < LIMIT_64K))
    ensures r == 0 <==>
              || |src| > MAX_INPUT_SIZE
              || (dst.Length < CompressBound(|src|)
                  && !Fit(Items(src, tableSize, hash, Accelerated(acceleration), |src| < LIMIT_64K), |src|, dst.Length))
    ensures r > 0 && dst.Length >= CompressBound(|src|) ==> r <= Bound(|src|)
  {
    hide HashOk, Compressed, Items, Fit;
    var table := new nat[tableSize](_ => 0);
    assert table[..] == ZeroTable(tableSize);
    var acc := if acceleration < 1 then 1 else if acceleration > 65537 then 65537 else acceleration;
    if dst.Length >= CompressBound(|src|) {
      r, b := CompressGeneric(src, dst, table, hash, false, |src| < LIMIT_64K, acc);
    } else {
      r, b := CompressGeneric(src, dst, table, hash, true, |src| < LIMIT_64K, acc);
    }
  }

  // ---- Round trip.

  lemma {:induction false} GoodNonZero(seqs: seq<Sequence>)
    requires Good(seqs)
    ensures NonZero(seqs)
  {
  }

  /** Whatever the compressor wrote, LZ4_decompress_safe gives the input back, for every capacity
      that holds it. */
  lemma RoundTrip(src: seq<Byte>, packed: seq<Byte>, b: Block, out: seq<Byte>, n: int)
    requires Compressed(src, packed, b) && |src| <= |out|
    requires Decompressed(packed, out, n)
    requires |out| == 0 ==> n == if packed == [0] then 0 else -1
    ensures n == |src| && out[..n] == src
  {
    hide Parse, Encode, ApplyAll, EndRules, WrittenAll;
    if |out| > 0 {
      ParseEncode(b);
      GoodNonZero(b.seqs);
      ContentNonZero([], b.seqs);
      WrittenIsApplied([], b.seqs);
      assert Taken(packed, 0, [], |out|);
    } else {
      EmptyContent(packed, b);
    }
  }

  /** Only one block has empty content. */
  lemma EmptyContent(packed: seq<Byte>, b: Block)
    requires Compressed([], packed, b)
    ensures packed == [0]
  {
    if b.seqs != [] {
      MatchStarts([], b.seqs, b.tail);
      assert false;
    }
    assert b == Block([], [], 0);
    EmptyBlock([0]);
  }

  /** Offsets of a compressed block are in 1..65535 and its last bytes are literals. */
  lemma FormatKept(src: seq<Byte>, packed: seq<Byte>, b: Block)
    requires Compressed(src, packed, b)
    ensures Parse(packed, 0) == Some(b)
    ensures forall s | s in b.seqs :: 1 <= s.offset <= DISTANCE_MAX && s.matchLen >= MINMATCH
    ensures b.seqs != [] ==> |b.tail| >= LASTLITERALS && b.seqs[|b.seqs| - 1].matchLen + |b.tail| >= MFLIMIT
  {
    hide Parse, Encode, ApplyAll;
    ParseEncode(b);
  }

  /** Compressing and decompressing. */
  method CompressThenDecompress(src: seq<Byte>, packed: array<Byte>, out: array<Byte>, tableSize: nat, hash: nat -> nat,
                                acceleration: int) returns (r: nat, n: int)
    requires HashOk(src, hash, tableSize) && out != packed && |src| <= out.Length
    modifies packed, out
    ensures r > 0 ==> n == |src| && out[..n] == src
    ensures r == 0 ==> |src| > MAX_INPUT_SIZE || packed.Length < CompressBound(|src|)
  {
    hide HashOk, Compressed, Decompressed;
    ghost var b;
    r, b := CompressFast(src, packed, tableSize, hash, acceleration);
    n := 0;
    if r > 0 {
      var stream := packed[..r];
      n := Decompress(stream, out);
      RoundTrip(src, stream, b, out[..], n);
    }
  }
}
