/** LZ4_decompress_safe: the decoder with its fast loop, shortcut and wild copies. */
module Lz4Decode {
  import opened Bytes
  import opened Lz4Format
  import opened Lz4Copy

  const FASTLOOP_SAFE_DISTANCE := 64

  // ---- What the decoder writes.

  function Zeros(n: nat): (r: seq<Byte>)
    ensures |r| == n
  {
    seq(n, _ => 0)
  }

  /** The output after one more sequence: as the format has it, and zeros for an offset of 0. */
  function Written(out: seq<Byte>, q: Sequence): Option<seq<Byte>> {
    var o := out + q.literals;
    if q.offset > |o| then None
    else if q.offset == 0 then Some(o + Zeros(q.matchLen))
    else Some(Extend(o, q.offset, q.matchLen))
  }

  function WrittenAll(out: seq<Byte>, seqs: seq<Sequence>): Option<seq<Byte>>
    decreases |seqs|
  {
    if seqs == [] then Some(out)
    else
      var o := Written(out, seqs[0]);
      if o.None? then None else WrittenAll(o.value, seqs[1..])
  }

  /** What the decoder makes of a block. */
  function WrittenBlock(b: Block): Option<seq<Byte>> {
    var o := WrittenAll([], b.seqs);
    if o.None? then None else Some(o.value + b.tail)
  }

  predicate NonZero(seqs: seq<Sequence>) {
    forall s | s in seqs :: s.offset > 0
  }

  lemma WrittenLength(out: seq<Byte>, q: Sequence)
    requires Written(out, q).Some?
    ensures |Written(out, q).value| == |out| + |q.literals| + q.matchLen
  {
  }

  /** Without zero offsets it is the content. */
  lemma {:induction false} WrittenIsApplied(out: seq<Byte>, seqs: seq<Sequence>)
    requires NonZero(seqs)
    ensures WrittenAll(out, seqs) == ApplyAll(out, seqs)
    decreases |seqs|
  {
    if seqs != [] {
      assert seqs[0] in seqs;
      assert Written(out, seqs[0]) == Apply(out, seqs[0]);
      if Apply(out, seqs[0]).Some? {
        WrittenIsApplied(Apply(out, seqs[0]).value, seqs[1..]);
      }
    }
  }

  /** A block that has a content has no zero offset. */
  lemma {:induction false} ContentNonZero(out: seq<Byte>, seqs: seq<Sequence>)
    requires ApplyAll(out, seqs).Some?
    ensures NonZero(seqs)
    decreases |seqs|
  {
    if seqs != [] {
      ContentNonZero(Apply(out, seqs[0]).value, seqs[1..]);
      assert seqs == [seqs[0]] + seqs[1..];
    }
  }

  lemma {:induction false} WrittenSnoc(out: seq<Byte>, seqs: seq<Sequence>, q: Sequence)
    requires WrittenAll(out, seqs).Some?
    ensures WrittenAll(out, seqs + [q]) == Written(WrittenAll(out, seqs).value, q)
    decreases |seqs|
  {
    if seqs == [] {
      assert seqs + [q] == [q] && [q][1..] == [];
    } else {
      assert (seqs + [q])[1..] == seqs[1..] + [q];
      WrittenSnoc(Written(out, seqs[0]).value, seqs[1..], q);
    }
  }

  // ---- When decoding must succeed.

  /** A last sequence that the shortcut takes although the block does not end as it should: the
      shortcut copies ahead without a look at the last five bytes. */
  predicate ShortTail(b: Block) {
    b.seqs != [] &&
    var q := b.seqs[|b.seqs| - 1];
    && |b.tail| < LASTLITERALS && |q.literals| <= 14 && q.matchLen <= 18 && q.offset >= 8
    && |q.literals| + |b.tail| >= 14 && |q.literals| + q.matchLen + |b.tail| >= 32
  }

  /** From position i, after output `out`, the input is a whole block that fits the capacity, has
      offsets inside the output, and ends by the rules or by a sequence that the shortcut takes. */
  ghost predicate Taken(src: seq<Byte>, i: nat, out: seq<Byte>, cap: nat) {
    var b := Parse(src, i);
    && b.Some? && (EndRules(b.value) || ShortTail(b.value))
    && var o := WrittenAll(out, b.value.seqs);
       o.Some? && |o.value| + |b.value.tail| <= cap
  }

  /** The shortcut takes both stages of the sequence at i, with the output at `start`. */
  ghost predicate Quick(src: seq<Byte>, i: nat, start: nat, cap: nat) {
    i + 17 < |src| && start + 32 <= cap && ParseStep(src, i).More? &&
    var q := ParseStep(src, i).s;
    |q.literals| <= 14 && q.matchLen <= 18 && 8 <= q.offset <= start + |q.literals|
  }

  lemma {:induction false} ParseLength(src: seq<Byte>, i: nat)
    requires Parse(src, i).Some?
    ensures i + 1 + |Parse(src, i).value.tail| <= |src|
    decreases |src| - i
  {
    StepForward(src, i);
    match ParseStep(src, i)
    case Last(tail, low) => LastLength(src, i);
    case More(q, next) => ParseLength(src, next);
  }

  lemma LastLength(src: seq<Byte>, i: nat)
    requires ParseStep(src, i).Last?
    ensures i + 1 + |ParseStep(src, i).tail| <= |src|
    ensures |ParseStep(src, i).tail| < 15 ==> i + 1 + |ParseStep(src, i).tail| == |src|
  {
    ReadLenForward(src, i + 1);
  }

  /** Short fields take no bytes of their own. */
  lemma ShortSizes(src: seq<Byte>, i: nat)
    requires ParseStep(src, i).More?
    ensures var q, next := ParseStep(src, i).s, ParseStep(src, i).next;
      && i < |src| && (|q.literals| <= 14 <==> src[i] / 16 != 15) && (q.matchLen <= 18 <==> src[i] % 16 != 15)
      && (|q.literals| <= 14 && q.matchLen <= 18 ==> next == i + 3 + |q.literals|)
  {
  }

  /** Every match starts at least twelve bytes before the end of the output, and ends five before. */
  lemma {:induction false} MatchStarts(out: seq<Byte>, seqs: seq<Sequence>, tail: seq<Byte>)
    requires seqs != [] && WrittenAll(out, seqs).Some? && EndRules(Block(seqs, tail, 0))
    ensures |out| + |seqs[0].literals| + seqs[0].matchLen <= |WrittenAll(out, seqs).value|
    ensures |out| + |seqs[0].literals| + MFLIMIT <= |WrittenAll(out, seqs).value| + |tail|
    decreases |seqs|
  {
    var o := Written(out, seqs[0]);
    WrittenLength(out, seqs[0]);
    if |seqs| > 1 {
      assert seqs[1..][|seqs[1..]| - 1] == seqs[|seqs| - 1];
      MatchStarts(o.value, seqs[1..], tail);
    } else {
      assert seqs[1..] == [];
    }
  }

  /** Before a short tail there is room for the shortcut. */
  lemma {:induction false} ShortStarts(out: seq<Byte>, seqs: seq<Sequence>, tail: seq<Byte>)
    requires WrittenAll(out, seqs).Some? && ShortTail(Block(seqs, tail, 0))
    ensures |out| + 32 <= |WrittenAll(out, seqs).value| + |tail|
    decreases |seqs|
  {
    var o := Written(out, seqs[0]);
    WrittenLength(out, seqs[0]);
    if |seqs| > 1 {
      assert seqs[1..][|seqs[1..]| - 1] == seqs[|seqs| - 1];
      ShortStarts(o.value, seqs[1..], tail);
    } else {
      assert seqs[1..] == [];
    }
  }

  /** And enough input. */
  lemma {:induction false} ShortInput(src: seq<Byte>, i: nat)
    requires Parse(src, i).Some? && ShortTail(Parse(src, i).value)
    ensures i + 18 <= |src|
    decreases |src| - i
  {
    hide ParseStep;
    StepForward(src, i);
    var q, next := ParseStep(src, i).s, ParseStep(src, i).next;
    var b, rest := Parse(src, i).value, Parse(src, next).value;
    assert b.seqs == [q] + rest.seqs && b.tail == rest.tail;
    if rest.seqs == [] {
      ShortSizes(src, i);
      LastLength(src, next);
    } else {
      assert b.seqs[|b.seqs| - 1] == rest.seqs[|rest.seqs| - 1];
      ShortInput(src, next);
    }
  }

  /** What every sequence of an acceptable block leaves room for, and that the rest is such a block
      again. */
  lemma TakenMore(src: seq<Byte>, i: nat, out: seq<Byte>, cap: nat)
    requires Taken(src, i, out, cap)
    ensures !ParseStep(src, i).Bad?
    ensures ParseStep(src, i).More? ==>
      var q, next := ParseStep(src, i).s, ParseStep(src, i).next;
      && Written(out, q).Some? && Taken(src, next, Written(out, q).value, cap)
      && |out| + |q.literals| + q.matchLen <= cap
      && (|out| + FASTLOOP_SAFE_DISTANCE <= cap ==> |out| + |q.literals| + q.matchLen + LASTLITERALS <= cap)
      && (Quick(src, i, |out|, cap) ||
           (next + 6 <= |src| && |out| + |q.literals| + q.matchLen + LASTLITERALS <= cap
            && |out| + |q.literals| + MFLIMIT <= cap))
    ensures ParseStep(src, i).Last? ==> |out| + |ParseStep(src, i).tail| <= cap
  {
    hide ParseStep, Written, Taken;
    match ParseStep(src, i)
    case Bad =>
      NotTaken(src, i, out, cap);
    case Last(tail, low) =>
      TakenLast(src, i, out, cap);
    case More(q, next) =>
      TakenNext(src, i, out, cap, q, next);
      if EndRules(Parse(src, i).value) {
        TakenByRules(src, i, out, cap, q, next);
      } else {
        TakenShort(src, i, out, cap, q, next);
      }
  }

  lemma NotTaken(src: seq<Byte>, i: nat, out: seq<Byte>, cap: nat)
    requires ParseStep(src, i).Bad?
    ensures !Taken(src, i, out, cap)
  {
    hide ParseStep;
  }

  lemma TakenLast(src: seq<Byte>, i: nat, out: seq<Byte>, cap: nat)
    requires Taken(src, i, out, cap) && ParseStep(src, i).Last?
    ensures |out| + |ParseStep(src, i).tail| <= cap
  {
    hide ParseStep;
  }

  lemma TakenNext(src: seq<Byte>, i: nat, out: seq<Byte>, cap: nat, q: Sequence, next: nat)
    requires Taken(src, i, out, cap) && ParseStep(src, i) == More(q, next)
    ensures Parse(src, i).Some? && Parse(src, next).Some?
    ensures Written(out, q).Some? && Taken(src, next, Written(out, q).value, cap)
  {
    hide ParseStep, Written;
    var b, rest := Parse(src, i).value, Parse(src, next).value;
    assert b.seqs == [q] + rest.seqs && b.tail == rest.tail;
    assert b.seqs[1..] == rest.seqs;
    if rest.seqs != [] {
      assert b.seqs[|b.seqs| - 1] == rest.seqs[|rest.seqs| - 1];
    }
  }

  lemma TakenByRules(src: seq<Byte>, i: nat, out: seq<Byte>, cap: nat, q: Sequence, next: nat)
    requires Taken(src, i, out, cap) && ParseStep(src, i) == More(q, next) && EndRules(Parse(src, i).value)
    ensures next + 6 <= |src| && |out| + |q.literals| + q.matchLen + LASTLITERALS <= cap
    ensures |out| + |q.literals| + MFLIMIT <= cap
  {
    hide ParseStep, Written;
    var b, rest := Parse(src, i).value, Parse(src, next).value;
    assert b.seqs == [q] + rest.seqs && b.tail == rest.tail;
    assert b.seqs[1..] == rest.seqs;
    MatchStarts(out, b.seqs, b.tail);
    ParseLength(src, next);
  }

  lemma TakenShort(src: seq<Byte>, i: nat, out: seq<Byte>, cap: nat, q: Sequence, next: nat)
    requires Taken(src, i, out, cap) && ParseStep(src, i) == More(q, next) && !EndRules(Parse(src, i).value)
    ensures |out| + |q.literals| + q.matchLen <= cap
    ensures |out| + FASTLOOP_SAFE_DISTANCE <= cap ==> |out| + |q.literals| + q.matchLen + LASTLITERALS <= cap
    ensures Quick(src, i, |out|, cap) ||
            (next + 6 <= |src| && |out| + |q.literals| + q.matchLen + LASTLITERALS <= cap
             && |out| + |q.literals| + MFLIMIT <= cap)
  {
    hide ParseStep;
    var b, rest := Parse(src, i).value, Parse(src, next).value;
    assert b.seqs == [q] + rest.seqs && b.tail == rest.tail;
    assert b.seqs[1..] == rest.seqs;
    WrittenLength(out, q);
    assert WrittenAll(out, b.seqs) == WrittenAll(Written(out, q).value, rest.seqs);
    if rest.seqs == [] {
      assert WrittenAll(Written(out, q).value, rest.seqs) == Written(out, q);
      ShortSizes(src, i);
      LastLength(src, next);
    } else {
      assert b.seqs[|b.seqs| - 1] == rest.seqs[|rest.seqs| - 1];
      ShortStarts(Written(out, q).value, rest.seqs, rest.tail);
      ShortInput(src, next);
    }
  }

  // ---- Lengths.

  function AddLen(n: nat, r: Option<(nat, nat)>): Option<(nat, nat)> {
    if r.None? then None else Some((n + r.value.0, r.value.1))
  }

  /** read_variable_length. */
  method ReadVariableLength(src: seq<Byte>, ip0: nat, ilimit: int, initialCheck: bool)
    returns (error: bool, length: nat, ip: nat)
    requires ilimit < |src| && (initialCheck || ip0 < |src|)
    ensures !error ==> ReadLen(src, ip0) == Some((length, ip)) && ip <= ilimit
    ensures error ==> ReadLen(src, ip0).None? || ReadLen(src, ip0).value.1 > ilimit
  {
    ip, length := ip0, 0;
    ReadLenForward(src, ip0);
    if initialCheck && ip >= ilimit {
      return true, 0, ip;
    }
    while true
      invariant ip0 <= ip < |src|
      invariant ReadLen(src, ip0) == AddLen(length, ReadLen(src, ip))
      decreases |src| - ip
    {
      ReadLenForward(src, ip);
      var s := src[ip];
      ip := ip + 1;
      length := length + s;
      if ip > ilimit {
        return true, 0, ip;
      }
      if s != 255 {
        return false, length, ip;
      }
    }
  }

  // ---- The end of every match: copy with the end of the buffer in view.

  /** From safe_match_copy on: fails exactly when the offset leaves the output or the match would
      reach the last five bytes. */
  method SafeMatchCopy(dst: array<Byte>, op0: nat, offset: nat, length: nat) returns (ok: bool)
    requires op0 + 8 <= dst.Length && length >= MINMATCH
    modifies dst
    ensures ok <==> offset <= op0 && op0 + length + LASTLITERALS <= dst.Length
    ensures forall k :: 0 <= k < op0 ==> dst[k] == old(dst[k])
    ensures ok ==> Matched(dst[..], offset, op0, op0 + length)
  {
    if offset > op0 {
      return false;
    }
    var cpy := op0 + length;
    var dist := StartMatch(dst, op0, offset);
    ghost var first := dst[..];
    var op := op0 + 8;
    if cpy > dst.Length - MFLIMIT {
      if cpy > dst.Length - LASTLITERALS {
        return false;
      }
      CopyToLimit(dst, op, dist, cpy);
    } else {
      CopyWithin(dst, op, op - dist, 8);
      CopyRest(dst, op, dist, cpy, length > 16);
    }
    MatchDone(first, dst[..], offset, dist, op0, cpy);
    ok := true;
  }

  lemma MatchDone(first: seq<Byte>, a: seq<Byte>, offset: nat, dist: nat, op: nat, cpy: nat)
    requires offset <= op && op + 8 <= |a| == |first| && op <= cpy <= |a|
    requires dist == if offset < 8 then Distance(offset) else offset
    requires Matched(first, offset, op, op + 8)
    requires forall k :: 0 <= k < op + 8 ==> a[k] == first[k]
    requires op + 8 <= cpy ==> Repeats(a, dist, op + 8, cpy)
    ensures Matched(a, offset, op, cpy)
  {
    hide Repeats, Matched, Distance;
    MatchedSame(first, a, offset, op, op + 8);
    if op + 8 <= cpy {
      MatchCompletes(a, offset, dist, op, cpy);
    } else {
      MatchedShorter(a, offset, op, op + 8, cpy);
    }
  }

  /** Close to the end of the buffer: wild copies up to seven bytes before it, then bytes. */
  method CopyToLimit(dst: array<Byte>, op0: nat, dist: nat, cpy: nat)
    requires 8 <= dist <= op0 <= dst.Length && cpy <= dst.Length - LASTLITERALS
    modifies dst
    ensures forall k :: 0 <= k < op0 ==> dst[k] == old(dst[k])
    ensures op0 <= cpy ==> Repeats(dst[..], dist, op0, cpy)
  {
    var op := op0;
    var oCopyLimit := dst.Length - 7;
    if op < oCopyLimit {
      WildCopyWithin(dst, op, dist, oCopyLimit, 8);
      op := oCopyLimit;
    }
    while op < cpy
      invariant op0 <= op <= dst.Length
      invariant forall k :: 0 <= k < op0 ==> dst[k] == old(dst[k])
      invariant Repeats(dst[..], dist, op0, op)
    {
      ghost var a := dst[..];
      dst[op] := dst[op - dist];
      RepeatsOne(a, dst[..], dist, op0, op);
      op := op + 1;
    }
    if op0 <= cpy {
      RepeatsShorter(dst[..], dist, op0, op, cpy);
    }
  }

  lemma RepeatsOne(a: seq<Byte>, b: seq<Byte>, dist: nat, lo: nat, hi: nat)
    requires 1 <= dist <= lo <= hi < |a| == |b|
    requires Repeats(a, dist, lo, hi) && b == a[hi := a[hi - dist]]
    ensures Repeats(b, dist, lo, hi + 1)
  {
  }

  /** Away from the end: eight more bytes were copied, wild copies do the rest if there is one. */
  method CopyRest(dst: array<Byte>, op: nat, dist: nat, cpy: nat, more: bool)
    requires 8 <= dist <= op && op + 8 <= dst.Length && cpy + MFLIMIT <= dst.Length
    requires more <==> cpy > op + 8
    requires Repeats(dst[..], dist, op, op + 8)
    modifies dst
    ensures forall k :: 0 <= k < op + 8 ==> dst[k] == old(dst[k])
    ensures op <= cpy ==> Repeats(dst[..], dist, op, cpy)
  {
    ghost var a := dst[..];
    if more {
      WildCopyWithin(dst, op + 8, dist, cpy, 8);
      RepeatsSame(a, dst[..], dist, op, op + 8);
      RepeatsJoin(dst[..], dist, op, op + 8, cpy);
    } else if op <= cpy {
      RepeatsShorter(dst[..], dist, op, op + 8, cpy);
    }
  }


  // ---- One sequence.

  /** Where decoding stands after a sequence: on to the next one, at the end, or in error. */
  datatype Status = Next(ip: nat, op: nat) | Done(op: nat) | Error(ip: nat)

  /** The sequence at i, decoded after `out`, ends at ip in the input and op in the output a. */
  ghost predicate Decoded(src: seq<Byte>, i: nat, out: seq<Byte>, a: seq<Byte>, ip: nat, op: nat) {
    ParseStep(src, i).More? &&
    var q := ParseStep(src, i).s;
    && ParseStep(src, i).next == ip < |src|
    && op == |out| + |q.literals| + q.matchLen <= |a|
    && Written(out, q) == Some(a[..op])
  }

  ghost predicate Finished(src: seq<Byte>, i: nat, out: seq<Byte>, a: seq<Byte>, op: nat) {
    ParseStep(src, i).Last? && op <= |a| && a[..op] == out + ParseStep(src, i).tail
  }

  /** A sequence that was taken left room at the end, or it was taken by the shortcut. */
  ghost predicate Ended(src: seq<Byte>, i: nat, start: nat, cap: nat) {
    ParseStep(src, i).More? &&
    var q := ParseStep(src, i).s;
    || (start + |q.literals| + q.matchLen + LASTLITERALS <= cap && start + |q.literals| + MFLIMIT <= cap)
    || Quick(src, i, start, cap)
  }

  /** What a step of either loop achieves; an error is raised only for blocks that need it. */
  ghost predicate Outcome(src: seq<Byte>, i: nat, out: seq<Byte>, a: seq<Byte>, st: Status) {
    match st
    case Next(ip, op) => Decoded(src, i, out, a, ip, op) && Ended(src, i, |out|, |a|)
    case Done(op) => Finished(src, i, out, a, op)
    case Error(_) => !Taken(src, i, out, |a|)
  }

  /** The literals of the sequence at i are in place and its offset is read next. */
  ghost predicate AtMatch(src: seq<Byte>, i: nat, out: seq<Byte>, lits: seq<Byte>, a: seq<Byte>, ip: nat, op: nat) {
    && i < |src| && ip + 2 < |src| && op == |out| + |lits| <= |a|
    && a[..op] == out + lits
    && ParseStep(src, i) == ParseMatch(src, src[i] % 16, lits, ip)
  }

  /** The offset and length of a match were read. */
  ghost predicate MatchRead(src: seq<Byte>, i: nat, lits: seq<Byte>, offset: nat, length: nat, ip: nat) {
    ParseStep(src, i) == More(Sequence(lits, offset, length), ip) && ip < |src| && length >= MINMATCH
  }

  lemma MatchDecoded(src: seq<Byte>, i: nat, out: seq<Byte>, lits: seq<Byte>, before: seq<Byte>, a: seq<Byte>,
                     op: nat, offset: nat, length: nat, ip: nat)
    requires MatchRead(src, i, lits, offset, length, ip)
    requires op == |out| + |lits| && op + length <= |a| == |before| && before[..op] == out + lits
    requires offset <= op && Matched(a, offset, op, op + length)
    requires forall k :: 0 <= k < op ==> a[k] == before[k]
    ensures Decoded(src, i, out, a, ip, op + length)
  {
    hide ParseStep, Repeats;
    assert a[..op] == before[..op];
    if offset > 0 {
      ExtendUnique(out + lits, offset, length, a);
    } else {
      assert a[..op + length] == (out + lits) + Zeros(length);
    }
  }

  lemma MatchRefused(src: seq<Byte>, i: nat, out: seq<Byte>, lits: seq<Byte>, offset: nat, length: nat, ip: nat,
                     cap: nat)
    requires MatchRead(src, i, lits, offset, length, ip)
    requires offset > |out| + |lits| || |out| + |lits| + length + LASTLITERALS > cap
    requires offset > |out| + |lits| || !Quick(src, i, |out|, cap) || |out| + FASTLOOP_SAFE_DISTANCE <= cap
    ensures !Taken(src, i, out, cap)
  {
    hide ParseStep, Taken, Quick;
    if Taken(src, i, out, cap) {
      TakenMore(src, i, out, cap);
    }
  }

  lemma LengthRefused(src: seq<Byte>, i: nat, out: seq<Byte>, lits: seq<Byte>, a: seq<Byte>, ip: nat, op: nat)
    requires AtMatch(src, i, out, lits, a, ip, op) && src[i] % 16 == 15
    requires var r := ReadField(src, src[i] % 16, ip + 2); r.None? || r.value.1 > |src| - 4
    ensures !Taken(src, i, out, |a|)
  {
    hide ParseStep, Taken, ReadField, Quick;
    if Taken(src, i, out, |a|) {
      TakenMore(src, i, out, |a|);
      LongNotQuick(src, i, |out|, |a|);
    }
  }

  /** Long fields are not for the shortcut. */
  lemma LongNotQuick(src: seq<Byte>, i: nat, start: nat, cap: nat)
    requires i < |src| && (src[i] % 16 == 15 || src[i] / 16 == 15)
    ensures !Quick(src, i, start, cap)
  {
    hide ParseStep;
    if ParseStep(src, i).More? {
      ShortSizes(src, i);
    }
  }

  /** Nor are matches that it leaves to the safe copy. */
  lemma MatchNotQuick(src: seq<Byte>, i: nat, out: seq<Byte>, lits: seq<Byte>, a: seq<Byte>, ip: nat, op: nat)
    requires AtMatch(src, i, out, lits, a, ip, op)
    requires var offset := LittleEndian(src[ip], src[ip + 1]); src[i] % 16 == 15 || offset < 8 || offset > op
    ensures !Quick(src, i, |out|, |a|)
  {
    hide ParseStep, ReadField, LittleEndian;
    if src[i] % 16 == 15 {
      LongNotQuick(src, i, |out|, |a|);
    }
  }

  /** Reading the length of a match, the same in both loops. */
  method MatchLength(src: seq<Byte>, nibble: nat, ip0: nat) returns (error: bool, length: nat, ip: nat)
    requires nibble < 16 && ip0 < |src|
    ensures !error ==> length >= MINMATCH && ReadField(src, nibble, ip0) == Some((length - MINMATCH, ip)) && ip < |src|
    ensures error ==> nibble == 15 && var r := ReadField(src, nibble, ip0); r.None? || r.value.1 > |src| - 4
  {
    error, length, ip := false, nibble, ip0;
    if nibble == 15 {
      var addl;
      error, addl, ip := ReadVariableLength(src, ip0, |src| - LASTLITERALS + 1, false);
      length := length + addl;
    }
    length := length + MINMATCH;
  }

  lemma LengthRead(src: seq<Byte>, i: nat, out: seq<Byte>, lits: seq<Byte>, a: seq<Byte>, ip: nat, op: nat,
                   length: nat, next: nat)
    requires AtMatch(src, i, out, lits, a, ip, op) && length >= MINMATCH && next < |src|
    requires ReadField(src, src[i] % 16, ip + 2) == Some((length - MINMATCH, next))
    ensures MatchRead(src, i, lits, LittleEndian(src[ip], src[ip + 1]), length, next)
  {
    hide ParseStep, ReadField;
  }

  /** From the offset to the end of the match, as the safe loop does it (_copy_match, with the offset
      read in front). */
  method SafeMatch(src: seq<Byte>, dst: array<Byte>, i: nat, ip0: nat, op: nat, ghost out: seq<Byte>,
                   ghost lits: seq<Byte>) returns (st: Status)
    requires AtMatch(src, i, out, lits, dst[..], ip0, op) && op + MFLIMIT <= dst.Length
    requires !Quick(src, i, |out|, dst.Length)
    modifies dst
    ensures Outcome(src, i, out, dst[..], st) && !st.Done?
  {
    hide ParseStep, Taken, Decoded, Ended, Quick, MatchRead, Repeats, LittleEndian, ReadField;
    var offset := LittleEndian(src[ip0], src[ip0 + 1]);
    var error, length, ip := MatchLength(src, src[i] % 16, ip0 + 2);
    if error {
      LengthRefused(src, i, out, lits, dst[..], ip0, op);
      return Error(ip);
    }
    LengthRead(src, i, out, lits, dst[..], ip0, op, length, ip);
    st := SafeMatchAt(src, dst, i, ip, op, offset, length, out, lits);
  }

  /** From safe_match_copy on. */
  method SafeMatchAt(src: seq<Byte>, dst: array<Byte>, i: nat, ip: nat, op: nat, offset: nat, length: nat,
                     ghost out: seq<Byte>, ghost lits: seq<Byte>) returns (st: Status)
    requires MatchRead(src, i, lits, offset, length, ip)
    requires op == |out| + |lits| && op + MFLIMIT <= dst.Length && dst[..op] == out + lits
    requires !Quick(src, i, |out|, dst.Length) || |out| + FASTLOOP_SAFE_DISTANCE <= dst.Length
    modifies dst
    ensures Outcome(src, i, out, dst[..], st) && !st.Done?
  {
    hide ParseStep, Taken, Decoded, Repeats, Matched, Quick, Ended;
    ghost var before := dst[..];
    assert before[..op] == out + lits;
    var ok := SafeMatchCopy(dst, op, offset, length);
    if !ok {
      MatchRefused(src, i, out, lits, offset, length, ip, dst.Length);
      return Error(ip);
    }
    MatchDecoded(src, i, out, lits, before, dst[..], op, offset, length, ip);
    RoomEnded(src, i, |out|, lits, offset, length, ip, dst.Length);
    st := Next(ip, op + length);
  }

  // ---- Literals.

  /** Where the literals of a sequence stand: refused, copied, or left to the careful copy. */
  datatype Literals = Refused(ip: nat) | Copied(ip: nat, length: nat) | Careful(ip: nat, length: nat)

  lemma LiteralsRefused(src: seq<Byte>, i: nat, out: seq<Byte>, cap: nat)
    requires i < |src|
    requires var r := ReadField(src, src[i] / 16, i + 1); r.None? || (r.value.0 >= 15 && r.value.1 > |src| - 15)
    ensures !Taken(src, i, out, cap)
  {
    hide ReadField, ParseMatch;
    assert ParseStep(src, i).Bad?;
    NotTaken(src, i, out, cap);
  }

  lemma LiteralsThere(src: seq<Byte>, i: nat, out: seq<Byte>, before: seq<Byte>, a: seq<Byte>, ip: nat, length: nat)
    requires i < |src| && ReadField(src, src[i] / 16, i + 1) == Some((length, ip)) && ip + length + 2 < |src|
    requires |out| + length <= |a| == |before| && before[..|out|] == out
    requires forall k :: 0 <= k < |out| ==> a[k] == before[k]
    requires forall k :: |out| <= k < |out| + length ==> a[k] == src[ip + k - |out|]
    ensures AtMatch(src, i, out, src[ip..ip + length], a, ip + length, |out| + length)
  {
    hide ReadField, ParseMatch;
    var lits := src[ip..ip + length];
    PrefixIs(out, lits, a, before);
  }

  lemma PrefixIs(out: seq<Byte>, lits: seq<Byte>, a: seq<Byte>, before: seq<Byte>)
    requires |out| + |lits| <= |a| == |before| && before[..|out|] == out
    requires forall k :: 0 <= k < |out| ==> a[k] == before[k]
    requires forall k :: |out| <= k < |out| + |lits| ==> a[k] == lits[k - |out|]
    ensures a[..|out| + |lits|] == out + lits
  {
    var n := |out|;
    forall k | 0 <= k < n + |lits| ensures a[k] == (out + lits)[k] {
      if k < n {
        assert before[k] == before[..n][k];
      }
    }
  }

  lemma TailThere(src: seq<Byte>, i: nat, out: seq<Byte>, before: seq<Byte>, a: seq<Byte>, ip: nat, length: nat)
    requires i < |src| && ReadField(src, src[i] / 16, i + 1) == Some((length, ip)) && ip + length == |src|
    requires |out| + length <= |a| == |before| && before[..|out|] == out
    requires forall k :: 0 <= k < |out| ==> a[k] == before[k]
    requires forall k :: |out| <= k < |out| + length ==> a[k] == src[ip + k - |out|]
    ensures Finished(src, i, out, a, |out| + length)
  {
    hide ReadField, ParseMatch;
    PrefixIs(out, src[ip..], a, before);
  }

  lemma TailRefused(src: seq<Byte>, i: nat, out: seq<Byte>, ip: nat, length: nat, cap: nat)
    requires i < |src| && ReadField(src, src[i] / 16, i + 1) == Some((length, ip))
    requires |out| + length > cap - MFLIMIT || ip + length > |src| - 8
    requires ip + length != |src| || |out| + length > cap
    requires !Quick(src, i, |out|, cap)
    ensures !Taken(src, i, out, cap)
  {
    hide Taken, ReadField, Quick, Written;
    if Taken(src, i, out, cap) {
      TakenMore(src, i, out, cap);
      if ip + length < |src| && ip + length + 2 <= |src| {
        ReadFieldForward(src, src[i] % 16, ip + length + 2);
      }
    }
  }

  lemma ReadFieldForward(src: seq<Byte>, nibble: nat, i: nat)
    ensures ReadField(src, nibble, i).Some? ==> i <= ReadField(src, nibble, i).value.1
  {
    ReadLenForward(src, i);
  }

  /** The literal length, the same in both loops. */
  method LiteralLength(src: seq<Byte>, nibble: nat, ip0: nat) returns (error: bool, length: nat, ip: nat)
    requires nibble < 16
    ensures !error ==> ReadField(src, nibble, ip0) == Some((length, ip)) && (nibble < 15 ==> ip == ip0)
    ensures error ==> var r := ReadField(src, nibble, ip0); r.None? || (r.value.0 >= 15 && r.value.1 > |src| - 15)
  {
    error, length, ip := false, nibble, ip0;
    if nibble == 15 {
      var addl;
      error, addl, ip := ReadVariableLength(src, ip0, |src| - 15, true);
      length := length + addl;
    }
  }

  /** The literals of the fast loop: wild copies of 32, or one copy of 16, or off to the safe loop. */
  method FastLiterals(src: seq<Byte>, dst: array<Byte>, nibble: nat, ip0: nat, op: nat) returns (r: Literals)
    requires nibble < 16 && 0 < ip0 && op + FASTLOOP_SAFE_DISTANCE <= dst.Length
    modifies dst
    ensures forall k :: 0 <= k < op ==> dst[k] == old(dst[k])
    ensures r.Refused? ==> var f := ReadField(src, nibble, ip0); f.None? || (f.value.0 >= 15 && f.value.1 > |src| - 15)
    ensures !r.Refused? ==> ReadField(src, nibble, ip0) == Some((r.length, r.ip))
    ensures r.Careful? ==> nibble == 15 || ip0 > |src| - 17
    ensures r.Copied? ==> r.ip + r.length + 2 < |src| && op + r.length + 32 <= dst.Length
    ensures r.Copied? ==> forall k :: op <= k < op + r.length ==> dst[k] == src[r.ip + k - op]
  {
    hide ReadField;
    var error, length, ip := LiteralLength(src, nibble, ip0);
    if error {
      return Refused(ip);
    }
    NibbleLength(src, nibble, ip0);
    if nibble == 15 {
      if op + length > dst.Length - 32 || ip + length > |src| - 32 {
        return Careful(ip, length);
      }
      WildCopyFrom(dst, op, src, ip, op + length, 32);
    } else {
      if ip > |src| - 17 {
        return Careful(ip, length);
      }
      CopyFrom(dst, op, src, ip, 16);
    }
    r := Copied(ip, length);
  }

  lemma NibbleLength(src: seq<Byte>, nibble: nat, i: nat)
    ensures nibble < 15 ==> ReadField(src, nibble, i) == Some((nibble, i))
  {
  }

  /** From safe_literal_copy on: the literals, and the rest of the sequence unless they are the end. */
  method SafeLiterals(src: seq<Byte>, dst: array<Byte>, i: nat, ip: nat, op: nat, length: nat)
    returns (st: Status)
    requires i < |src| && ReadField(src, src[i] / 16, i + 1) == Some((length, ip)) && op <= dst.Length
    requires !Quick(src, i, op, dst.Length)
    modifies dst
    ensures Outcome(src, i, old(dst[..op]), dst[..], st)
  {
    hide ReadField, Taken, Decoded, AtMatch, Finished, Quick, Ended;
    ghost var before := dst[..];
    ghost var out := dst[..op];
    if op + length > dst.Length - MFLIMIT || ip + length > |src| - (2 + 1 + LASTLITERALS) {
      if ip + length != |src| || op + length > dst.Length {
        TailRefused(src, i, out, ip, length, dst.Length);
        return Error(ip);
      }
      CopyFrom(dst, op, src, ip, length);
      TailThere(src, i, out, before, dst[..], ip, length);
      return Done(op + length);
    }
    WildCopyFrom(dst, op, src, ip, op + length, 8);
    LiteralsThere(src, i, out, before, dst[..], ip, length);
    st := SafeMatch(src, dst, i, ip + length, op + length, out, src[ip..ip + length]);
  }

  // ---- The safe loop's body.

  /** A sequence as the safe loop decodes it: by the shortcut, or step by step. */
  method SafeSequence(src: seq<Byte>, dst: array<Byte>, i: nat, op: nat) returns (st: Status)
    requires i < |src| && op <= dst.Length
    modifies dst
    ensures Outcome(src, i, old(dst[..op]), dst[..], st)
  {
    hide ReadField, Taken, Decoded, Finished, Ended, ParseStep;
    var nibble := src[i] / 16;
    if nibble != 15 && i + 1 < |src| - 16 && op <= dst.Length - 32 {
      st := Shortcut(src, dst, i, op);
      return;
    }
    if nibble == 15 {
      LongNotQuick(src, i, op, dst.Length);
    }
    var error, length, ip := LiteralLength(src, nibble, i + 1);
    if error {
      LiteralsRefused(src, i, dst[..op], dst.Length);
      return Error(ip);
    }
    st := SafeLiterals(src, dst, i, ip, op, length);
  }

  /** Sixteen bytes for the literals, then eighteen for the match unless it overlaps itself or is
      long. */
  method Shortcut(src: seq<Byte>, dst: array<Byte>, i: nat, op0: nat) returns (st: Status)
    requires i + 17 < |src| && src[i] / 16 != 15 && op0 + 32 <= dst.Length
    modifies dst
    ensures Outcome(src, i, old(dst[..op0]), dst[..], st)
  {
    hide ReadField, Taken, Decoded, Finished, AtMatch, ParseStep, MatchRead, Quick, Ended, LittleEndian;
    ghost var out := dst[..op0];
    ghost var before := dst[..];
    var ll := src[i] / 16;
    CopyFrom(dst, op0, src, i + 1, 16);
    NibbleLength(src, ll, i + 1);
    LiteralsThere(src, i, out, before, dst[..], i + 1, ll);
    var op, ip := op0 + ll, i + 1 + ll;
    ghost var lits := src[i + 1..ip];
    var offset := LittleEndian(src[ip], src[ip + 1]);
    var length := src[i] % 16;
    if length != 15 && offset >= 8 && offset <= op {
      NibbleLength(src, length, ip + 2);
      LengthRead(src, i, out, lits, dst[..], ip, op, length + MINMATCH, ip + 2);
      st := ShortMatch(src, dst, i, ip + 2, op, offset, length + MINMATCH, out, lits);
      QuickEnded(src, i, op0, lits, offset, length + MINMATCH, ip + 2, dst.Length);
      return;
    }
    MatchNotQuick(src, i, out, lits, dst[..], ip, op);
    st := SafeMatch(src, dst, i, ip, op, out, lits);
  }

  /** A match of at most 18 bytes, copied as 8 + 8 + 2. */
  method ShortMatch(src: seq<Byte>, dst: array<Byte>, i: nat, ip: nat, op: nat, offset: nat, length: nat,
                    ghost out: seq<Byte>, ghost lits: seq<Byte>) returns (st: Status)
    requires MatchRead(src, i, lits, offset, length, ip) && length <= 18
    requires op == |out| + |lits| && op + 18 <= dst.Length && dst[..op] == out + lits && 8 <= offset <= op
    modifies dst
    ensures Decoded(src, i, out, dst[..], ip, op + length) && st == Next(ip, op + length)
  {
    hide MatchRead, Decoded;
    ghost var before := dst[..];
    assert before[..op] == out + lits;
    CopyWithin(dst, op, op - offset, 8);
    CopyWithin(dst, op + 8, op + 8 - offset, 8);
    CopyWithin(dst, op + 16, op + 16 - offset, 2);
    assert Repeats(dst[..], offset, op, op + length);
    MatchDecoded(src, i, out, lits, before, dst[..], op, offset, length, ip);
    st := Next(ip, op + length);
  }

  lemma QuickEnded(src: seq<Byte>, i: nat, start: nat, lits: seq<Byte>, offset: nat, length: nat, ip: nat, cap: nat)
    requires MatchRead(src, i, lits, offset, length, ip)
    requires i + 17 < |src| && start + 32 <= cap && |lits| <= 14 && length <= 18 && 8 <= offset <= start + |lits|
    ensures Ended(src, i, start, cap)
  {
    hide ParseStep;
  }

  lemma RoomEnded(src: seq<Byte>, i: nat, start: nat, lits: seq<Byte>, offset: nat, length: nat, ip: nat, cap: nat)
    requires MatchRead(src, i, lits, offset, length, ip)
    requires start + |lits| + length + LASTLITERALS <= cap && start + |lits| + MFLIMIT <= cap
    ensures Ended(src, i, start, cap)
  {
    hide ParseStep, Quick;
  }

  // ---- The fast loop's body.

  /** A sequence as the fast loop decodes it; it goes over to the safe loop when the output or the
      input comes within reach of its end. */
  method FastSequence(src: seq<Byte>, dst: array<Byte>, i: nat, op0: nat) returns (st: Status, fast: bool)
    requires i < |src| && op0 + FASTLOOP_SAFE_DISTANCE <= dst.Length
    modifies dst
    ensures Outcome(src, i, old(dst[..op0]), dst[..], st)
    ensures fast ==> st.Next? && st.op + FASTLOOP_SAFE_DISTANCE <= dst.Length
  {
    hide ReadField, Taken, Decoded, Finished, AtMatch, ParseStep, MatchRead, Quick, Ended;
    ghost var out := dst[..op0];
    ghost var before := dst[..];
    var r := FastLiterals(src, dst, src[i] / 16, i + 1, op0);
    fast := false;
    match r
    case Refused(ip) =>
      LiteralsRefused(src, i, out, dst.Length);
      st := Error(ip);
    case Careful(ip, length) =>
      assert dst[..op0] == out;
      CarefulNotQuick(src, i, op0, dst.Length);
      st := SafeLiterals(src, dst, i, ip, op0, length);
    case Copied(ip, length) =>
      LiteralsThere(src, i, out, before, dst[..], ip, length);
      st, fast := FastMatch(src, dst, i, ip + length, op0 + length, out, src[ip..ip + length]);
  }

  lemma CarefulNotQuick(src: seq<Byte>, i: nat, start: nat, cap: nat)
    requires i < |src| && (src[i] / 16 == 15 || i + 1 > |src| - 17)
    ensures !Quick(src, i, start, cap)
  {
    hide ParseStep;
    if src[i] / 16 == 15 {
      LongNotQuick(src, i, start, cap);
    }
  }

  method FastMatch(src: seq<Byte>, dst: array<Byte>, i: nat, ip0: nat, op: nat, ghost out: seq<Byte>,
                   ghost lits: seq<Byte>) returns (st: Status, fast: bool)
    requires AtMatch(src, i, out, lits, dst[..], ip0, op) && op + 32 <= dst.Length
    requires |out| + FASTLOOP_SAFE_DISTANCE <= dst.Length
    modifies dst
    ensures Outcome(src, i, out, dst[..], st)
    ensures fast ==> st.Next? && st.op + FASTLOOP_SAFE_DISTANCE <= dst.Length
  {
    hide ParseStep, Taken, Decoded, MatchRead, LittleEndian, ReadField, Finished, Quick, Ended;
    var offset := LittleEndian(src[ip0], src[ip0 + 1]);
    var error, length, ip := MatchLength(src, src[i] % 16, ip0 + 2);
    fast := false;
    if error {
      LengthRefused(src, i, out, lits, dst[..], ip0, op);
      return Error(ip), false;
    }
    LengthRead(src, i, out, lits, dst[..], ip0, op, length, ip);
    if src[i] % 16 == 15 && offset > op {
      MatchRefused(src, i, out, lits, offset, length, ip, dst.Length);
      return Error(ip), false;
    }
    if op + length >= dst.Length - FASTLOOP_SAFE_DISTANCE {
      st := SafeMatchAt(src, dst, i, ip, op, offset, length, out, lits);
      return;
    }
    if src[i] % 16 != 15 && offset <= op && offset >= 8 {
      ShortNibble(src, src[i] % 16, ip0 + 2);
      st := ShortMatch(src, dst, i, ip, op, offset, length, out, lits);
      RoomEnded(src, i, |out|, lits, offset, length, ip, dst.Length);
      return st, true;
    }
    if offset > op {
      MatchRefused(src, i, out, lits, offset, length, ip, dst.Length);
      return Error(ip), false;
    }
    st := LongMatch(src, dst, i, ip, op, offset, length, out, lits);
    RoomEnded(src, i, |out|, lits, offset, length, ip, dst.Length);
    fast := true;
  }

  lemma ShortNibble(src: seq<Byte>, nibble: nat, i: nat)
    requires nibble < 15
    ensures ReadField(src, nibble, i) == Some((nibble, i))
  {
  }

  /** A match well inside the buffer. */
  method LongMatch(src: seq<Byte>, dst: array<Byte>, i: nat, ip: nat, op: nat, offset: nat, length: nat,
                   ghost out: seq<Byte>, ghost lits: seq<Byte>) returns (st: Status)
    requires MatchRead(src, i, lits, offset, length, ip) && offset <= op
    requires op == |out| + |lits| && op + length + FASTLOOP_SAFE_DISTANCE < dst.Length && dst[..op] == out + lits
    modifies dst
    ensures Decoded(src, i, out, dst[..], ip, op + length) && st == Next(ip, op + length)
  {
    hide MatchRead, Decoded, Repeats, Matched;
    ghost var before := dst[..];
    assert before[..op] == out + lits;
    MatchAtLeast(src, i, lits, offset, length, ip);
    if offset < 16 {
      CopyUsingOffset(dst, op, op + length, offset);
    } else {
      WildCopy32Within(dst, op, offset, op + length);
      RepeatsMatched(dst[..], offset, op, op + length);
    }
    MatchDecoded(src, i, out, lits, before, dst[..], op, offset, length, ip);
    st := Next(ip, op + length);
  }

  lemma RepeatsMatched(a: seq<Byte>, offset: nat, lo: nat, hi: nat)
    requires offset > 0 && Repeats(a, offset, lo, hi)
    ensures Matched(a, offset, lo, hi)
  {
  }

  lemma MatchAtLeast(src: seq<Byte>, i: nat, lits: seq<Byte>, offset: nat, length: nat, ip: nat)
    requires MatchRead(src, i, lits, offset, length, ip)
    ensures length >= MINMATCH
  {
  }

  // ---- The whole decoder.

  /** The last of the sequences read so far left room at the end of the output, or the shortcut took
      it. */
  ghost predicate Trail(seqs: seq<Sequence>, size: nat, cap: nat, ip: nat, op: nat) {
    seqs == [] ||
    var q := seqs[|seqs| - 1];
    || (op + LASTLITERALS <= cap && op + MFLIMIT <= cap + q.matchLen)
    || (|q.literals| <= 14 && q.matchLen <= 18 && q.offset >= 8
        && op + 32 <= cap + |q.literals| + q.matchLen && ip + 14 < size + |q.literals|)
  }

  /** The input up to ip read as sequences, and the output up to op is what they mean. */
  ghost predicate Progress(src: seq<Byte>, seqs: seq<Sequence>, a: seq<Byte>, ip: nat, op: nat) {
    && ip < |src| && op <= |a|
    && Parse(src, 0) == Prepend(seqs, Parse(src, ip))
    && WrittenAll([], seqs) == Some(a[..op])
    && Trail(seqs, |src|, |a|, ip, op)
    && (Taken(src, 0, [], |a|) ==> Taken(src, ip, a[..op], |a|))
  }

  lemma ProgressStart(src: seq<Byte>, a: seq<Byte>)
    requires 0 < |src|
    ensures Progress(src, [], a, 0, 0)
  {
    hide ParseStep;
    var b := Parse(src, 0);
    if b.Some? {
      assert [] + b.value.seqs == b.value.seqs;
    }
  }

  lemma ProgressParse(src: seq<Byte>, seqs: seq<Sequence>, q: Sequence, i: nat, ip: nat)
    requires Parse(src, 0) == Prepend(seqs, Parse(src, i)) && ParseStep(src, i) == More(q, ip)
    ensures Parse(src, 0) == Prepend(seqs + [q], Parse(src, ip))
  {
    hide ParseStep;
    PrependTwice(seqs, [q], Parse(src, ip));
  }

  lemma ProgressTaken(src: seq<Byte>, out: seq<Byte>, a: seq<Byte>, i: nat, ip: nat, op: nat)
    requires Taken(src, i, out, |a|) && Decoded(src, i, out, a, ip, op)
    ensures Taken(src, ip, a[..op], |a|)
  {
    hide ParseStep, Taken, Written, Quick;
    TakenMore(src, i, out, |a|);
  }

  lemma TrailNext(src: seq<Byte>, seqs: seq<Sequence>, i: nat, start: nat, cap: nat, ip: nat, op: nat)
    requires Ended(src, i, start, cap)
    requires ParseStep(src, i).next == ip && op == start + |ParseStep(src, i).s.literals| + ParseStep(src, i).s.matchLen
    ensures Trail(seqs + [ParseStep(src, i).s], |src|, cap, ip, op)
  {
    hide ParseStep;
    ShortSizes(src, i);
  }

  lemma ProgressMore(src: seq<Byte>, seqs: seq<Sequence>, before: seq<Byte>, a: seq<Byte>, i: nat, op0: nat,
                     ip: nat, op: nat)
    requires Progress(src, seqs, before, i, op0) && |a| == |before|
    requires Decoded(src, i, before[..op0], a, ip, op) && Ended(src, i, op0, |a|)
    ensures Progress(src, seqs + [ParseStep(src, i).s], a, ip, op)
  {
    hide ParseStep, Taken, Written, Ended, Trail;
    var q := ParseStep(src, i).s;
    ProgressParse(src, seqs, q, i, ip);
    WrittenSnoc([], seqs, q);
    TrailNext(src, seqs, i, op0, |a|, ip, op);
    if Taken(src, 0, [], |a|) {
      ProgressTaken(src, before[..op0], a, i, ip, op);
    }
  }

  /** What the decoder promises about a result. */
  ghost predicate Decompressed(src: seq<Byte>, a: seq<Byte>, n: int) {
    && (n >= 0 ==>
          && n <= |a| && Parse(src, 0).Some?
          && var b := Parse(src, 0).value;
             && WrittenBlock(b) == Some(a[..n])
             && (NonZero(b.seqs) ==> Content(b) == Some(a[..n]))
             && (n == |a| ==> EndRules(b) || ShortTail(b)))
    && (n < 0 ==> |a| == 0 || !Taken(src, 0, [], |a|))
  }

  lemma ProgressDone(src: seq<Byte>, seqs: seq<Sequence>, before: seq<Byte>, a: seq<Byte>, i: nat, op0: nat, op: nat)
    requires Progress(src, seqs, before, i, op0) && |a| == |before|
    requires Finished(src, i, before[..op0], a, op)
    ensures Decompressed(src, a, op)
  {
    hide ParseStep, Taken, Written, EndRules, ShortTail, Trail;
    var rest := Parse(src, i).value;
    assert rest.seqs == [];
    assert seqs + rest.seqs == seqs;
    var b := Parse(src, 0).value;
    assert WrittenBlock(b) == Some(a[..op]);
    if NonZero(seqs) {
      WrittenIsApplied([], seqs);
    }
    if op == |a| {
      FilledEnd(src, seqs, i, op0, |a|, b);
    }
  }

  /** A full output ends by the rules or by a sequence that the shortcut takes. */
  lemma FilledEnd(src: seq<Byte>, seqs: seq<Sequence>, i: nat, op: nat, cap: nat, b: Block)
    requires ParseStep(src, i).Last? && op + |ParseStep(src, i).tail| == cap && Trail(seqs, |src|, cap, i, op)
    requires b.seqs == seqs && b.tail == ParseStep(src, i).tail
    ensures EndRules(b) || ShortTail(b)
  {
    hide ParseStep;
    LastLength(src, i);
  }

  /** LZ4_decompress_safe. A result n >= 0 means that the input is a block and the first n bytes of the
      output are what it means, with zeros where an offset is 0; when they fill the output, the block
      ends by the rules or by a sequence that the shortcut takes. Every block that ends so, has its
      offsets inside the output and fits is accepted. */
  method Decompress(src: seq<Byte>, dst: array<Byte>) returns (n: int)
    modifies dst
    ensures Decompressed(src, dst[..], n)
    ensures dst.Length == 0 ==> n == if src == [0] then 0 else -1
  {
    hide Taken, Decoded, Finished, Progress, Decompressed, ParseStep, Ended;
    if dst.Length == 0 {
      EmptyOutput(src, dst[..]);
      return if |src| == 1 && src[0] == 0 then 0 else -1;
    }
    if |src| == 0 {
      EmptyInput(dst[..]);
      return -1;
    }
    var ip: nat, op: nat := 0, 0;
    ghost var seqs: seq<Sequence> := [];
    ProgressStart(src, dst[..]);
    ProgressBounds(src, seqs, dst[..], ip, op);
    var fast := dst.Length >= FASTLOOP_SAFE_DISTANCE;
    while fast
      invariant ip < |src| && op <= dst.Length
      invariant fast ==> op + FASTLOOP_SAFE_DISTANCE <= dst.Length
      invariant Progress(src, seqs, dst[..], ip, op)
      decreases |src| - ip, fast
    {
      ghost var before := dst[..];
      var st;
      st, fast := FastSequence(src, dst, ip, op);
      if !st.Next? {
        n := Finish(src, dst, seqs, before, ip, op, st);
        return;
      }
      Advance(src, seqs, before, dst[..], ip, op, st);
      seqs := seqs + [ParseStep(src, ip).s];
      ip, op := st.ip, st.op;
    }
    while true
      invariant ip < |src| && op <= dst.Length
      invariant Progress(src, seqs, dst[..], ip, op)
      decreases |src| - ip
    {
      ghost var before := dst[..];
      var st := SafeSequence(src, dst, ip, op);
      if !st.Next? {
        n := Finish(src, dst, seqs, before, ip, op, st);
        return;
      }
      Advance(src, seqs, before, dst[..], ip, op, st);
      seqs := seqs + [ParseStep(src, ip).s];
      ip, op := st.ip, st.op;
    }
  }

  lemma ProgressBounds(src: seq<Byte>, seqs: seq<Sequence>, a: seq<Byte>, ip: nat, op: nat)
    requires Progress(src, seqs, a, ip, op)
    ensures ip < |src| && op <= |a|
  {
  }

  lemma EmptyOutput(src: seq<Byte>, a: seq<Byte>)
    requires a == []
    ensures Decompressed(src, a, if src == [0] then 0 else -1)
  {
    if src == [0] {
      assert src[0] == 0;
      assert ParseStep(src, 0) == Last([], 0);
      assert a[..0] == [];
      var b := Block([], [], 0);
      assert Parse(src, 0) == Some(b);
      assert ApplyAll([], b.seqs) == Some([]);
      assert ApplyAll([], b.seqs).value + b.tail == [];
    }
  }

  lemma EmptyInput(a: seq<Byte>)
    ensures Decompressed([], a, -1)
  {
    assert ParseStep([], 0).Bad?;
  }

  lemma Advance(src: seq<Byte>, seqs: seq<Sequence>, before: seq<Byte>, a: seq<Byte>, i: nat, op0: nat, st: Status)
    requires Progress(src, seqs, before, i, op0) && |a| == |before|
    requires Outcome(src, i, before[..op0], a, st) && st.Next?
    ensures ParseStep(src, i).More? && i < st.ip < |src| && st.op <= |a|
    ensures Progress(src, seqs + [ParseStep(src, i).s], a, st.ip, st.op)
  {
    hide ParseStep, Progress, Taken, Finished, Ended, Written;
    ProgressBounds(src, seqs, before, i, op0);
    ProgressMore(src, seqs, before, a, i, op0, st.ip, st.op);
    StepForward(src, i);
  }

  /** The end of either loop. */
  method Finish(src: seq<Byte>, dst: array<Byte>, ghost seqs: seq<Sequence>, ghost before: seq<Byte>,
                ip: nat, op: nat, st: Status) returns (n: int)
    requires Progress(src, seqs, before, ip, op) && dst.Length == |before|
    requires Outcome(src, ip, before[..op], dst[..], st) && !st.Next?
    ensures Decompressed(src, dst[..], n)
  {
    hide Taken, Finished, Decoded, Ended, ParseStep, WrittenBlock, Content, EndRules, ShortTail, NonZero;
    match st
    case Done(end) =>
      ProgressDone(src, seqs, before, dst[..], ip, op, end);
      n := end;
    case Error(at) =>
      n := -(at as int) - 1;
  }
}
