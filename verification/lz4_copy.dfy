/** The decoder's copies: fixed-size memcpy, and copies that overwrite past their end. */
module Lz4Copy {
  import opened Bytes
  import opened Lz4Format

  /** memcpy from the input. */
  method CopyFrom(dst: array<Byte>, d: nat, src: seq<Byte>, s: nat, n: nat)
    requires d + n <= dst.Length && s + n <= |src|
    modifies dst
    ensures forall k :: 0 <= k < dst.Length ==>
      dst[k] == if d <= k < d + n then src[s + k - d] else old(dst[k])
  {
    var i := 0;
    while i < n
      invariant 0 <= i <= n
      invariant forall k :: 0 <= k < dst.Length ==>
        dst[k] == if d <= k < d + i then src[s + k - d] else old(dst[k])
    {
      dst[d + i] := src[s + i];
      i := i + 1;
    }
  }

  /** memcpy inside the output, between ranges that do not overlap. */
  method CopyWithin(dst: array<Byte>, d: nat, s: nat, n: nat)
    requires d + n <= dst.Length && s + n <= d
    modifies dst
    ensures forall k :: 0 <= k < dst.Length ==>
      dst[k] == if d <= k < d + n then old(dst[s + k - d]) else old(dst[k])
  {
    var i := 0;
    while i < n
      invariant 0 <= i <= n
      invariant forall k :: 0 <= k < dst.Length ==>
        dst[k] == if d <= k < d + i then old(dst[s + k - d]) else old(dst[k])
    {
      dst[d + i] := dst[s + i];
      i := i + 1;
    }
  }

  /** A wild copy from the input (LZ4_wildCopy8 with step 8, LZ4_wildCopy32 with step 32): whole
      steps until e is reached, at least one. */
  method WildCopyFrom(dst: array<Byte>, d0: nat, src: seq<Byte>, s0: nat, e: int, step: nat)
    requires step > 0 && d0 + step <= dst.Length && e + step - 1 <= dst.Length
    requires s0 + step <= |src| && s0 + (e - d0) + step - 1 <= |src|
    modifies dst
    ensures forall k :: 0 <= k < d0 ==> dst[k] == old(dst[k])
    ensures forall k :: d0 <= k < e ==> dst[k] == src[s0 + k - d0]
  {
    CopyFrom(dst, d0, src, s0, step);
    var i := step;
    while d0 + i < e
      invariant step <= i && d0 + i <= dst.Length && s0 + i <= |src|
      invariant forall k :: 0 <= k < d0 ==> dst[k] == old(dst[k])
      invariant forall k :: d0 <= k < d0 + i ==> dst[k] == src[s0 + k - d0]
    {
      CopyFrom(dst, d0 + i, src, s0 + i, step);
      i := i + step;
    }
  }

  /** LZ4_wildCopy8 inside the output, from `dist` back: a step never reads what it writes. */
  method WildCopyWithin(dst: array<Byte>, d0: nat, dist: nat, e: int, step: nat)
    requires 0 < step <= dist <= d0 && d0 + step <= dst.Length && e + step - 1 <= dst.Length
    modifies dst
    ensures forall k :: 0 <= k < d0 ==> dst[k] == old(dst[k])
    ensures d0 <= e ==> Repeats(dst[..], dist, d0, e)
  {
    CopyWithin(dst, d0, d0 - dist, step);
    var i := step;
    while d0 + i < e
      invariant step <= i && d0 + i <= dst.Length
      invariant forall k :: 0 <= k < d0 ==> dst[k] == old(dst[k])
      invariant forall k :: d0 <= k < d0 + i ==> dst[k] == dst[k - dist]
    {
      CopyWithin(dst, d0 + i, d0 + i - dist, step);
      i := i + step;
    }
  }

  // ---- What a match copy leaves.

  ghost predicate Zero(a: seq<Byte>, lo: nat, hi: nat) {
    hi <= |a| && forall k | lo <= k < hi :: a[k] == 0
  }

  /** The bytes from lo to hi repeat those at the offset; an offset of 0 leaves zeros. */
  ghost predicate Matched(a: seq<Byte>, offset: nat, lo: nat, hi: nat) {
    if offset == 0 then Zero(a, lo, hi) else Repeats(a, offset, lo, hi)
  }

  lemma MatchedSame(a: seq<Byte>, b: seq<Byte>, offset: nat, lo: nat, hi: nat)
    requires Matched(a, offset, lo, hi) && |b| >= hi
    requires forall k :: 0 <= k < hi ==> b[k] == a[k]
    ensures Matched(b, offset, lo, hi)
  {
  }

  lemma MatchedShorter(a: seq<Byte>, offset: nat, lo: nat, hi: nat, hi': nat)
    requires Matched(a, offset, lo, hi) && hi' <= hi
    ensures Matched(a, offset, lo, hi')
  {
  }

  // ---- Small offsets.

  /** inc32table and dec64table. */
  function Inc32(offset: nat): nat
    requires offset < 8
  {
    [0, 1, 2, 1, 0, 4, 4, 4][offset]
  }

  function Dec64(offset: nat): int
    requires offset < 8
  {
    [0, 0, 0, -1, -4, 1, 2, 3][offset]
  }

  /** How far back the wild copies read after the first eight bytes of a match with a small
      offset: the smallest multiple of the offset that is at least eight. */
  function Distance(offset: nat): nat
    requires offset < 8
  {
    8 + offset + Dec64(offset) - Inc32(offset)
  }

  lemma DistanceTable()
    ensures Distance(1) == 8 && Distance(2) == 8 && Distance(3) == 9 && Distance(4) == 8
    ensures Distance(5) == 10 && Distance(6) == 12 && Distance(7) == 14 && Distance(0) == 8
  {
  }

  /** Copying from a multiple of the offset back continues a repetition of period `off`. */
  lemma {:induction false} RepeatsExtend(a: seq<Byte>, off: nat, m: nat, op: nat, start: nat, end: nat)
    requires 1 <= off && 1 <= m && off <= op <= start && m * off <= start - op + off
    requires Repeats(a, off, op, start) && start <= end && Repeats(a, m * off, start, end)
    ensures Repeats(a, off, op, end)
    decreases end
  {
    if start < end {
      RepeatsExtend(a, off, m, op, start, end - 1);
      BackBy(a, off, m, op, end - 1);
    }
  }

  /** Going back m periods from i passes only positions where the repetition holds, save the
      first, so a[i - off] is a[i - m * off]. */
  lemma {:induction false} BackBy(a: seq<Byte>, off: nat, m: nat, op: nat, i: nat)
    requires 1 <= off && 1 <= m && off <= op && m * off <= i - op + off && i < |a|
    requires Repeats(a, off, op, i)
    ensures m * off <= i && off <= i && a[i - off] == a[i - m * off]
    decreases m
  {
    if m > 1 {
      assert m * off == (m - 1) * off + off;
      BackBy(a, off, m - 1, op, i);
      var j := i - (m - 1) * off;
      assert op <= j < i && a[j] == a[j - off];
    }
  }

  /** LZ4_wildCopy32 inside the output: two copies of 16 a step, good from 16 back. */
  method WildCopy32Within(dst: array<Byte>, d0: nat, dist: nat, e: int)
    requires 16 <= dist <= d0 && d0 + 32 <= dst.Length && e + 31 <= dst.Length
    modifies dst
    ensures forall k :: 0 <= k < d0 ==> dst[k] == old(dst[k])
    ensures d0 <= e ==> Repeats(dst[..], dist, d0, e)
  {
    CopyWithin(dst, d0, d0 - dist, 16);
    CopyWithin(dst, d0 + 16, d0 + 16 - dist, 16);
    var i := 32;
    while d0 + i < e
      invariant 32 <= i && d0 + i <= dst.Length
      invariant forall k :: 0 <= k < d0 ==> dst[k] == old(dst[k])
      invariant forall k :: d0 <= k < d0 + i ==> dst[k] == dst[k - dist]
    {
      CopyWithin(dst, d0 + i, d0 + i - dist, 16);
      CopyWithin(dst, d0 + i + 16, d0 + i + 16 - dist, 16);
      i := i + 32;
    }
  }

  /** The first eight bytes of a match with an offset below eight: four by four, then four from a
      source moved forward by inc32table. An offset of 0 copies zeros. */
  method SmallStart(dst: array<Byte>, op: nat, offset: nat)
    requires offset < 8 && offset <= op && op + 8 <= dst.Length
    modifies dst
    ensures forall k :: 0 <= k < op ==> dst[k] == old(dst[k])
    ensures forall k :: op + 8 <= k < dst.Length ==> dst[k] == old(dst[k])
    ensures Matched(dst[..], offset, op, op + 8)
  {
    hide Repeats, Zero;
    dst[op], dst[op + 1], dst[op + 2], dst[op + 3] := 0, 0, 0, 0;
    var m := op - offset;
    dst[op] := dst[m];
    dst[op + 1] := dst[m + 1];
    dst[op + 2] := dst[m + 2];
    dst[op + 3] := dst[m + 3];
    ghost var four := dst[..];
    CopyWithin(dst, op + 4, m + Inc32(offset), 4);
    if offset > 0 {
      FourRepeat(old(dst[..]), four, op, offset);
      NextFour(four, dst[..], op, offset);
    } else {
      EightZeros(four, dst[..], op);
    }
  }

  lemma EightZeros(four: seq<Byte>, a: seq<Byte>, op: nat)
    requires op + 8 <= |a| == |four|
    requires four[op] == four[op + 1] == four[op + 2] == four[op + 3] == 0
    requires forall k :: 0 <= k < op + 4 ==> a[k] == four[k]
    requires forall k :: op + 4 <= k < op + 8 ==> a[k] == four[k - 4]
    ensures Zero(a, op, op + 8)
  {
  }

  lemma FourRepeat(a: seq<Byte>, four: seq<Byte>, op: nat, offset: nat)
    requires 1 <= offset < 8 && offset <= op && op + 8 <= |a| && |four| == |a|
    requires forall k :: 0 <= k < op ==> four[k] == a[k]
    requires four[op] == four[op - offset]
    requires four[op + 1] == four[op + 1 - offset]
    requires four[op + 2] == four[op + 2 - offset]
    requires four[op + 3] == four[op + 3 - offset]
    ensures Repeats(four, offset, op, op + 4)
  {
  }

  lemma NextFour(four: seq<Byte>, a: seq<Byte>, op: nat, offset: nat)
    requires 1 <= offset < 8 && offset <= op && op + 8 <= |a| && |four| == |a|
    requires Repeats(four, offset, op, op + 4)
    requires forall k :: 0 <= k < op + 4 ==> a[k] == four[k]
    requires forall k :: op + 4 <= k < op + 8 ==> a[k] == four[op - offset + Inc32(offset) + k - (op + 4)]
    ensures Repeats(a, offset, op, op + 8)
  {
    hide Inc32, Repeats;
    RepeatsSame(four, a, offset, op, op + 4);
    FourTable();
    FourBack(four, a, op, offset, Inc32(offset));
    if offset <= 2 {
      RepeatsExtend(a, offset, if offset == 1 then 4 else 2, op, op + 4, op + 8);
    } else if offset <= 4 {
      RepeatsExtend(a, offset, 2, op, op + 4, op + 8);
    } else {
      RepeatsExtend(a, offset, 1, op, op + 4, op + 8);
    }
  }

  lemma FourTable()
    ensures Inc32(1) == 1 && Inc32(2) == 2 && Inc32(3) == 1 && Inc32(4) == 0
    ensures Inc32(5) == 4 && Inc32(6) == 4 && Inc32(7) == 4
  {
  }

  lemma FourBack(four: seq<Byte>, a: seq<Byte>, op: nat, offset: nat, inc: nat)
    requires 1 <= offset < 8 && offset <= op && op + 8 <= |a| && |four| == |a| && inc <= offset
    requires forall k :: 0 <= k < op + 4 ==> a[k] == four[k]
    requires forall k :: op + 4 <= k < op + 8 ==> a[k] == four[op - offset + inc + k - (op + 4)]
    ensures Repeats(a, 4 + offset - inc, op + 4, op + 8)
  {
  }

  /** The eight bytes at the start of any match, and how far back to read after them. */
  method StartMatch(dst: array<Byte>, op: nat, offset: nat) returns (dist: nat)
    requires offset <= op && op + 8 <= dst.Length
    modifies dst
    ensures forall k :: 0 <= k < op ==> dst[k] == old(dst[k])
    ensures forall k :: op + 8 <= k < dst.Length ==> dst[k] == old(dst[k])
    ensures 8 <= dist <= op + 8
    ensures Matched(dst[..], offset, op, op + 8)
    ensures dist == if offset < 8 then Distance(offset) else offset
  {
    DistanceTable();
    if offset < 8 {
      SmallStart(dst, op, offset);
      dist := 8 + offset + Dec64(offset) - Inc32(offset);
    } else {
      CopyWithin(dst, op, op - offset, 8);
      dist := offset;
    }
  }

  /** Continuing at that distance completes the match. */
  lemma MatchContinues(a: seq<Byte>, offset: nat, dist: nat, op: nat, end: nat)
    requires 1 <= offset <= op && op + 8 <= end <= |a|
    requires dist == if offset < 8 then Distance(offset) else offset
    requires Repeats(a, offset, op, op + 8) && Repeats(a, dist, op + 8, end)
    ensures Repeats(a, offset, op, end)
  {
    hide Repeats, Distance;
    DistanceTable();
    if offset == 1 {
      RepeatsExtend(a, 1, 8, op, op + 8, end);
    } else if offset == 2 {
      RepeatsExtend(a, 2, 4, op, op + 8, end);
    } else if offset == 3 {
      RepeatsExtend(a, 3, 3, op, op + 8, end);
    } else if offset == 4 {
      RepeatsExtend(a, 4, 2, op, op + 8, end);
    } else if offset < 8 {
      assert dist == 2 * offset;
      RepeatsExtend(a, offset, 2, op, op + 8, end);
    } else {
      RepeatsJoin(a, offset, op, op + 8, end);
    }
  }

  lemma RepeatsJoin(a: seq<Byte>, off: nat, lo: nat, mid: nat, hi: nat)
    requires Repeats(a, off, lo, mid) && Repeats(a, off, mid, hi) && lo <= mid <= hi
    ensures Repeats(a, off, lo, hi)
  {
  }

  /** For every offset: the first eight bytes and copies at the distance make the match. */
  lemma MatchCompletes(a: seq<Byte>, offset: nat, dist: nat, op: nat, end: nat)
    requires offset <= op && op + 8 <= end <= |a|
    requires dist == if offset < 8 then Distance(offset) else offset
    requires Matched(a, offset, op, op + 8) && Repeats(a, dist, op + 8, end)
    ensures Matched(a, offset, op, end)
  {
    hide Repeats;
    if offset == 0 {
      DistanceTable();
      ZerosContinue(a, op, end);
    } else {
      MatchContinues(a, offset, dist, op, end);
    }
  }

  lemma {:induction false} ZerosContinue(a: seq<Byte>, op: nat, end: nat)
    requires op + 8 <= end <= |a| && Zero(a, op, op + 8) && Repeats(a, 8, op + 8, end)
    ensures Zero(a, op, end)
    decreases end
  {
    if op + 8 < end {
      ZerosContinue(a, op, end - 1);
      assert a[end - 1] == a[end - 1 - 8];
    }
  }

  /** LZ4_memcpy_using_offset_base. */
  method CopyUsingOffsetBase(dst: array<Byte>, op: nat, end: nat, offset: nat)
    requires offset <= op && op + 16 <= dst.Length && op <= end && end + 7 <= dst.Length
    modifies dst
    ensures forall k :: 0 <= k < op ==> dst[k] == old(dst[k])
    ensures Matched(dst[..], offset, op, end)
  {
    hide Matched, Repeats;
    var dist := StartMatch(dst, op, offset);
    ghost var a := dst[..];
    WildCopyWithin(dst, op + 8, dist, end, 8);
    MatchedSame(a, dst[..], offset, op, op + 8);
    if op + 8 <= end {
      MatchCompletes(dst[..], offset, dist, op, end);
    } else {
      MatchedShorter(dst[..], offset, op, op + 8, end);
    }
  }

  lemma RepeatsSame(a: seq<Byte>, b: seq<Byte>, off: nat, lo: nat, hi: nat)
    requires Repeats(a, off, lo, hi) && |b| >= hi
    requires forall k :: 0 <= k < hi ==> b[k] == a[k]
    ensures Repeats(b, off, lo, hi)
  {
  }

  /** LZ4_memcpy_using_offset: offsets 1, 2 and 4 repeat a pattern of eight bytes. */
  method CopyUsingOffset(dst: array<Byte>, op: nat, end: nat, offset: nat)
    requires offset <= op && op + 16 <= dst.Length && op + MINMATCH <= end && end + 7 <= dst.Length
    modifies dst
    ensures forall k :: 0 <= k < op ==> dst[k] == old(dst[k])
    ensures Matched(dst[..], offset, op, end)
  {
    hide Repeats;
    if offset == 1 || offset == 2 || offset == 4 {
      CopyPattern(dst, op, end, offset);
    } else {
      CopyUsingOffsetBase(dst, op, end, offset);
    }
  }

  method CopyPattern(dst: array<Byte>, op: nat, end: nat, offset: nat)
    requires (offset == 1 || offset == 2 || offset == 4) && offset <= op
    requires op + 16 <= dst.Length && op + MINMATCH <= end && end + 7 <= dst.Length
    modifies dst
    ensures forall k :: 0 <= k < op ==> dst[k] == old(dst[k])
    ensures Repeats(dst[..], offset, op, end)
  {
    hide Pattern, Repeats;
    var v := Pattern(dst[op - offset..op], offset);
    CopyFrom(dst, op, v, 0, 8);
    PatternRepeats(old(dst[..]), dst[..], op, offset);
    ghost var a := dst[..];
    RepeatPattern(dst, op + 8, end, v);
    RepeatsSame(a, dst[..], offset, op, op + 8);
    if op + 8 <= end {
      DistanceTable();
      MatchContinues(dst[..], offset, 8, op, end);
    } else {
      RepeatsShorter(dst[..], offset, op, op + 8, end);
    }
  }

  lemma RepeatsShorter(a: seq<Byte>, off: nat, lo: nat, hi: nat, hi': nat)
    requires Repeats(a, off, lo, hi) && hi' <= hi
    ensures Repeats(a, off, lo, hi')
  {
  }

  /** Eight bytes at a time, always the same eight, until the end is reached. */
  method RepeatPattern(dst: array<Byte>, p0: nat, end: nat, v: seq<Byte>)
    requires |v| == 8 && 8 <= p0 <= dst.Length && end + 7 <= dst.Length
    requires forall k :: p0 - 8 <= k < p0 ==> dst[k] == v[k - (p0 - 8)]
    modifies dst
    ensures forall k :: 0 <= k < p0 ==> dst[k] == old(dst[k])
    ensures p0 <= end ==> Repeats(dst[..], 8, p0, end)
  {
    var p := p0;
    while p < end
      invariant p0 <= p <= dst.Length
      invariant forall k :: 0 <= k < p0 ==> dst[k] == old(dst[k])
      invariant forall k :: p - 8 <= k < p ==> dst[k] == v[k - (p - 8)]
      invariant forall k :: p0 <= k < p ==> dst[k] == dst[k - 8]
    {
      CopyFrom(dst, p, v, 0, 8);
      p := p + 8;
    }
  }

  /** The vector v[8] filled from one, two or four bytes. */
  function Pattern(m: seq<Byte>, offset: nat): (v: seq<Byte>)
    requires |m| == offset && (offset == 1 || offset == 2 || offset == 4)
    ensures |v| == 8
  {
    if offset == 1 then [m[0], m[0], m[0], m[0], m[0], m[0], m[0], m[0]]
    else if offset == 2 then [m[0], m[1], m[0], m[1], m[0], m[1], m[0], m[1]]
    else [m[0], m[1], m[2], m[3], m[0], m[1], m[2], m[3]]
  }

  lemma PatternRepeats(before: seq<Byte>, a: seq<Byte>, op: nat, offset: nat)
    requires (offset == 1 || offset == 2 || offset == 4) && offset <= op && op + 8 <= |a| == |before|
    requires forall k :: 0 <= k < op ==> a[k] == before[k]
    requires forall k :: op <= k < op + 8 ==> a[k] == Pattern(before[op - offset..op], offset)[k - op]
    ensures Repeats(a, offset, op, op + 8)
  {
    var m := before[op - offset..op];
    var v := Pattern(m, offset);
    forall k | op <= k < op + 8 ensures a[k] == a[k - offset] {
      var i := k - op;
      assert a[k] == v[i];
      if i >= offset {
        assert a[k - offset] == v[i - offset];
        PatternPeriod(m, offset, i);
      } else {
        assert a[k - offset] == before[k - offset] == m[i];
      }
    }
  }

  lemma PatternPeriod(m: seq<Byte>, offset: nat, i: nat)
    requires |m| == offset && (offset == 1 || offset == 2 || offset == 4) && offset <= i < 8
    ensures Pattern(m, offset)[i] == Pattern(m, offset)[i - offset]
  {
  }
}
