/** The LZ4 block format: what a block means, how it is written and how it is read back. */
module Lz4Format {
  import opened Bytes

  const MINMATCH := 4
  const LASTLITERALS := 5
  const MFLIMIT := 12
  const ML_MASK := 15
  const RUN_MASK := 15
  const DISTANCE_MAX := 65535

  /** Literals followed by a copy of matchLen bytes from offset bytes back. */
  datatype Sequence = Sequence(literals: seq<Byte>, offset: nat, matchLen: nat)

  /** Sequences and a last run of literals; low is the unused half of the last token. */
  datatype Block = Block(seqs: seq<Sequence>, tail: seq<Byte>, low: nat)

  predicate SequenceOk(s: Sequence) {
    s.offset <= DISTANCE_MAX && s.matchLen >= MINMATCH
  }

  ghost predicate BlockOk(b: Block) {
    b.low < 16 && forall s | s in b.seqs :: SequenceOk(s)
  }

  // ---- Meaning.

  /** A match copied byte by byte, each byte from `offset` back, so that it may overlap itself. */
  function Extend(out: seq<Byte>, offset: nat, len: nat): (r: seq<Byte>)
    requires 1 <= offset <= |out|
    ensures |r| == |out| + len
    decreases len
  {
    if len == 0 then out else Extend(out + [out[|out| - offset]], offset, len - 1)
  }

  /** The output after one more sequence, if its offset stays inside the output. */
  function Apply(out: seq<Byte>, s: Sequence): Option<seq<Byte>> {
    var o := out + s.literals;
    if 1 <= s.offset <= |o| then Some(Extend(o, s.offset, s.matchLen)) else None
  }

  function ApplyAll(out: seq<Byte>, seqs: seq<Sequence>): Option<seq<Byte>>
    decreases |seqs|
  {
    if seqs == [] then Some(out)
    else
      var o := Apply(out, seqs[0]);
      if o.None? then None else ApplyAll(o.value, seqs[1..])
  }

  /** What a block decodes to. */
  function Content(b: Block): Option<seq<Byte>> {
    var o := ApplyAll([], b.seqs);
    if o.None? then None else Some(o.value + b.tail)
  }

  /** Parsing restrictions of the format: the last five bytes are literals, and the last match
      starts at least twelve bytes before the end. */
  predicate EndRules(b: Block) {
    b.seqs == [] || (|b.tail| >= LASTLITERALS && b.seqs[|b.seqs| - 1].matchLen + |b.tail| >= MFLIMIT)
  }

  // ---- Writing.

  /** The bytes behind a saturated length field. */
  function LenBytes(n: nat): (r: seq<Byte>)
    ensures |r| == n / 255 + 1
  {
    if n < 255 then [n] else [255] + LenBytes(n - 255)
  }

  function Ext(n: nat): (r: seq<Byte>)
    ensures |r| == if n < 15 then 0 else (n - 15) / 255 + 1
  {
    if n < 15 then [] else LenBytes(n - 15)
  }

  function Nibble(n: nat): nat { if n < 15 then n else 15 }

  function EncodeSeq(s: Sequence): seq<Byte>
    requires SequenceOk(s)
  {
    [16 * Nibble(|s.literals|) + Nibble(s.matchLen - MINMATCH)] + Ext(|s.literals|) + s.literals
    + [s.offset % 256, s.offset / 256] + Ext(s.matchLen - MINMATCH)
  }

  function EncodeSeqs(seqs: seq<Sequence>): seq<Byte>
    requires forall s | s in seqs :: SequenceOk(s)
  {
    if seqs == [] then [] else EncodeSeq(seqs[0]) + EncodeSeqs(seqs[1..])
  }

  function EncodeTail(tail: seq<Byte>, low: nat): seq<Byte>
    requires low < 16
  {
    [16 * Nibble(|tail|) + low] + Ext(|tail|) + tail
  }

  function Encode(b: Block): seq<Byte>
    requires BlockOk(b)
  {
    EncodeSeqs(b.seqs) + EncodeTail(b.tail, b.low)
  }

  // ---- Reading.

  /** A length continued over bytes of 255 up to the first smaller one: value and next position. */
  function ReadLen(s: seq<Byte>, i: nat): Option<(nat, nat)>
    decreases |s| - i
  {
    if i >= |s| then None
    else if s[i] < 255 then Some((s[i], i + 1))
    else
      var r := ReadLen(s, i + 1);
      if r.None? then None else Some((255 + r.value.0, r.value.1))
  }

  /** A length field: a nibble, continued when saturated. */
  function ReadField(s: seq<Byte>, nibble: nat, i: nat): Option<(nat, nat)> {
    if nibble < 15 then Some((nibble, i))
    else
      var r := ReadLen(s, i);
      if r.None? then None else Some((15 + r.value.0, r.value.1))
  }

  datatype Step = Bad | Last(tail: seq<Byte>, low: nat) | More(s: Sequence, next: nat)

  /** The sequence that starts with the token at i. */
  function ParseStep(s: seq<Byte>, i: nat): Step {
    if i >= |s| then Bad
    else
      var ll := ReadField(s, s[i] / 16, i + 1);
      if ll.None? then Bad else ParseLiterals(s, s[i] % 16, ll.value.1, ll.value.0)
  }

  function ParseLiterals(s: seq<Byte>, nibble: nat, i: nat, ll: nat): Step {
    if i + ll > |s| then Bad
    else if i + ll == |s| then Last(s[i..], nibble)
    else ParseMatch(s, nibble, s[i..i + ll], i + ll)
  }

  function LittleEndian(lo: Byte, hi: Byte): nat {
    (lo as int) + 256 * (hi as int)
  }

  function ParseMatch(s: seq<Byte>, nibble: nat, literals: seq<Byte>, i: nat): Step {
    if i + 2 > |s| then Bad
    else
      var ml := ReadField(s, nibble, i + 2);
      if ml.None? then Bad
      else More(Sequence(literals, LittleEndian(s[i], s[i + 1]), ml.value.0 + MINMATCH), ml.value.1)
  }

  lemma {:induction false} ReadLenForward(s: seq<Byte>, i: nat)
    ensures ReadLen(s, i).Some? ==> i < ReadLen(s, i).value.1 <= |s|
    decreases |s| - i
  {
    if i < |s| && s[i] == 255 {
      ReadLenForward(s, i + 1);
    }
  }

  lemma StepForward(s: seq<Byte>, i: nat)
    ensures ParseStep(s, i).More? ==> i < ParseStep(s, i).next <= |s|
  {
    if i < |s| {
      ReadLenForward(s, i + 1);
      var ll := ReadField(s, s[i] / 16, i + 1);
      if ll.Some? {
        ReadLenForward(s, ll.value.1 + ll.value.0 + 2);
      }
    }
  }

  function Parse(s: seq<Byte>, i: nat): Option<Block>
    decreases |s| - i
  {
    match ParseStep(s, i)
    case Bad => None
    case Last(tail, low) => Some(Block([], tail, low))
    case More(q, next) =>
      StepForward(s, i);
      Prepend([q], Parse(s, next))
  }

  function Prepend(seqs: seq<Sequence>, b: Option<Block>): Option<Block> {
    if b.None? then None else Some(b.value.(seqs := seqs + b.value.seqs))
  }

  lemma PrependTwice(a: seq<Sequence>, b: seq<Sequence>, c: Option<Block>)
    ensures Prepend(a, Prepend(b, c)) == Prepend(a + b, c)
  {
    if c.Some? {
      assert a + (b + c.value.seqs) == (a + b) + c.value.seqs;
    }
  }

  // ---- Reading back what was written.

  lemma {:induction false} ReadLenBytes(n: nat, pre: seq<Byte>, post: seq<Byte>)
    ensures ReadLen(pre + LenBytes(n) + post, |pre|) == Some((n, |pre| + |LenBytes(n)|))
  {
    var s := pre + LenBytes(n) + post;
    assert s[|pre|] == LenBytes(n)[0];
    if n >= 255 {
      ReadLenBytes(n - 255, pre + [255], post);
      assert s == (pre + [255]) + LenBytes(n - 255) + post;
    }
  }

  lemma ReadExt(n: nat, pre: seq<Byte>, post: seq<Byte>)
    ensures ReadField(pre + Ext(n) + post, Nibble(n), |pre|) == Some((n, |pre| + |Ext(n)|))
  {
    if n >= 15 {
      ReadLenBytes(n - 15, pre, post);
    }
  }

  lemma ParseMatchOf(q: Sequence, h: seq<Byte>, post: seq<Byte>)
    requires SequenceOk(q)
    ensures var ml := q.matchLen - MINMATCH;
            ParseMatch(h + [q.offset % 256, q.offset / 256] + Ext(ml) + post, Nibble(ml), q.literals, |h|)
            == More(q, |h| + 2 + |Ext(ml)|)
  {
    hide Nibble, Ext, ReadField;
    var ml := q.matchLen - MINMATCH;
    var off := [q.offset % 256, q.offset / 256];
    var s := h + off + Ext(ml) + post;
    assert s[|h|] == off[0] && s[|h| + 1] == off[1];
    ReadExt(ml, h + off, post);
  }

  lemma ParseLiteralsOf(q: Sequence, h: seq<Byte>, post: seq<Byte>)
    requires SequenceOk(q)
    ensures var ml := q.matchLen - MINMATCH;
            ParseLiterals(h + (q.literals + [q.offset % 256, q.offset / 256] + Ext(ml) + post), Nibble(ml),
                          |h|, |q.literals|)
            == More(q, |h| + |q.literals| + 2 + |Ext(ml)|)
  {
    hide Nibble, Ext, ParseMatch;
    var ml := q.matchLen - MINMATCH;
    var off := [q.offset % 256, q.offset / 256];
    var rest := off + Ext(ml) + post;
    var s := h + (q.literals + off + Ext(ml) + post);
    assert s == (h + q.literals) + off + Ext(ml) + post;
    assert s[|h|..|h| + |q.literals|] == q.literals;
    ParseMatchOf(q, h + q.literals, post);
  }

  /** A sequence reads back as itself. */
  lemma ParseEncodedSeq(q: Sequence, pre: seq<Byte>, post: seq<Byte>)
    requires SequenceOk(q)
    ensures ParseStep(pre + EncodeSeq(q) + post, |pre|) == More(q, |pre| + |EncodeSeq(q)|)
  {
    hide Ext, ParseLiterals;
    var ll, ml := |q.literals|, q.matchLen - MINMATCH;
    var token := 16 * Nibble(ll) + Nibble(ml);
    var rest := q.literals + [q.offset % 256, q.offset / 256] + Ext(ml) + post;
    var s := pre + EncodeSeq(q) + post;
    assert s == (pre + [token]) + Ext(ll) + rest;
    assert s[|pre|] == token;
    TokenParts(Nibble(ll), Nibble(ml));
    ReadExt(ll, pre + [token], rest);
    var h := pre + [token] + Ext(ll);
    assert s == h + rest;
    ParseLiteralsOf(q, h, post);
  }

  lemma TokenParts(a: nat, b: nat)
    requires a < 16 && b < 16
    ensures (16 * a + b) / 16 == a && (16 * a + b) % 16 == b && 16 * a + b < 256
  {
  }

  lemma ParseEncodedTail(tail: seq<Byte>, low: nat, pre: seq<Byte>)
    requires low < 16
    ensures ParseStep(pre + EncodeTail(tail, low), |pre|) == Last(tail, low)
  {
    var token := 16 * Nibble(|tail|) + low;
    var s := pre + EncodeTail(tail, low);
    assert s[|pre|] == token && token / 16 == Nibble(|tail|) && token % 16 == low;
    assert s == (pre + [token]) + Ext(|tail|) + tail;
    ReadExt(|tail|, pre + [token], tail);
    assert s[|pre| + 1 + |Ext(|tail|)|..] == tail;
  }

  lemma EncodeCons(b: Block)
    requires BlockOk(b) && b.seqs != []
    ensures Encode(b) == EncodeSeq(b.seqs[0]) + Encode(b.(seqs := b.seqs[1..]))
  {
    hide EncodeSeq, EncodeTail;
  }

  lemma {:induction false} ParseEncodedFrom(b: Block, pre: seq<Byte>)
    requires BlockOk(b)
    ensures Parse(pre + Encode(b), |pre|) == Some(b)
    decreases |b.seqs|
  {
    hide EncodeSeq, EncodeTail, ParseStep, Encode;
    var s := pre + Encode(b);
    if b.seqs == [] {
      assert s == pre + EncodeTail(b.tail, b.low) by { EncodeNone(b); }
      ParseEncodedTail(b.tail, b.low, pre);
    } else {
      var q := b.seqs[0];
      var rest := b.(seqs := b.seqs[1..]);
      EncodeCons(b);
      assert s == pre + EncodeSeq(q) + Encode(rest);
      ParseEncodedSeq(q, pre, Encode(rest));
      var pre' := pre + EncodeSeq(q);
      ParseEncodedFrom(rest, pre');
      assert [q] + rest.seqs == b.seqs;
    }
  }

  lemma EncodeNone(b: Block)
    requires BlockOk(b) && b.seqs == []
    ensures Encode(b) == EncodeTail(b.tail, b.low)
  {
  }

  /** Parsing inverts encoding. */
  lemma ParseEncode(b: Block)
    requires BlockOk(b)
    ensures Parse(Encode(b), 0) == Some(b)
  {
    ParseEncodedFrom(b, []);
    assert [] + Encode(b) == Encode(b);
  }

  // ---- Nothing else reads as a block.

  lemma {:induction false} LenExact(s: seq<Byte>, i: nat)
    requires ReadLen(s, i).Some?
    ensures var (v, j) := ReadLen(s, i).value; i < j <= |s| && s[i..j] == LenBytes(v)
    decreases |s| - i
  {
    var (v, j) := ReadLen(s, i).value;
    if s[i] < 255 {
      assert s[i..j] == [s[i]];
    } else {
      LenExact(s, i + 1);
      assert s[i..j] == [s[i]] + s[i + 1..j];
    }
  }

  lemma FieldExact(s: seq<Byte>, nibble: nat, i: nat)
    requires i <= |s| && nibble < 16 && ReadField(s, nibble, i).Some?
    ensures var (v, j) := ReadField(s, nibble, i).value; i <= j <= |s| && nibble == Nibble(v) && s[i..j] == Ext(v)
  {
    if nibble == 15 {
      LenExact(s, i);
    }
  }

  lemma MatchExact(s: seq<Byte>, nibble: nat, literals: seq<Byte>, i: nat)
    requires nibble < 16 && ParseMatch(s, nibble, literals, i).More?
    ensures var (q, next) := (ParseMatch(s, nibble, literals, i).s, ParseMatch(s, nibble, literals, i).next);
      && SequenceOk(q) && q.literals == literals && i + 2 <= next <= |s| && nibble == Nibble(q.matchLen - MINMATCH)
      && s[i..next] == [q.offset % 256, q.offset / 256] + Ext(q.matchLen - MINMATCH)
  {
    hide Nibble, Ext, ReadField;
    FieldExact(s, nibble, i + 2);
    var j := ReadField(s, nibble, i + 2).value.1;
    assert s[i..j] == [s[i], s[i + 1]] + s[i + 2..j];
    OffsetBytes(s[i], s[i + 1]);
  }

  lemma OffsetBytes(lo: Byte, hi: Byte)
    ensures LittleEndian(lo, hi) % 256 == lo && LittleEndian(lo, hi) / 256 == hi && LittleEndian(lo, hi) <= DISTANCE_MAX
  {
  }

  lemma StepExact(s: seq<Byte>, i: nat)
    ensures var t := ParseStep(s, i);
      && (t.More? ==> SequenceOk(t.s) && i < t.next <= |s| && s[i..t.next] == EncodeSeq(t.s))
      && (t.Last? ==> i < |s| && t.low < 16 && s[i..] == EncodeTail(t.tail, t.low))
  {
    hide Nibble, Ext, ReadField, ParseLiterals, EncodeSeq, EncodeTail;
    if i < |s| && ReadField(s, s[i] / 16, i + 1).Some? {
      FieldExact(s, s[i] / 16, i + 1);
      var (ll, j) := ReadField(s, s[i] / 16, i + 1).value;
      LiteralsExact(s, i, j, ll);
    }
  }

  lemma LiteralsExact(s: seq<Byte>, i: nat, j: nat, ll: nat)
    requires i < j <= |s| && s[i] / 16 == Nibble(ll) && s[i + 1..j] == Ext(ll)
    ensures var t := ParseLiterals(s, s[i] % 16, j, ll);
      && (t.More? ==> SequenceOk(t.s) && i < t.next <= |s| && s[i..t.next] == EncodeSeq(t.s))
      && (t.Last? ==> t.low < 16 && s[i..] == EncodeTail(t.tail, t.low))
  {
    hide Nibble, Ext, ParseMatch, EncodeSeq, EncodeTail;
    if j + ll == |s| {
      TailExact(s, i, j, ll);
    } else if j + ll < |s| {
      NeverLast(s, s[i] % 16, s[j..j + ll], j + ll);
      if ParseMatch(s, s[i] % 16, s[j..j + ll], j + ll).More? {
        SeqExact(s, i, j, ll);
      }
    }
  }

  lemma TailExact(s: seq<Byte>, i: nat, j: nat, ll: nat)
    requires i < j <= |s| && j + ll == |s| && s[i] / 16 == Nibble(ll) && s[i + 1..j] == Ext(ll)
    ensures s[i..] == EncodeTail(s[j..], s[i] % 16)
  {
    hide Nibble, Ext;
    TokenBack(s[i]);
    FourParts(s, i, j, |s|, |s|);
  }

  lemma SeqExact(s: seq<Byte>, i: nat, j: nat, ll: nat)
    requires i < j && j + ll < |s| && s[i] / 16 == Nibble(ll) && s[i + 1..j] == Ext(ll)
    requires ParseMatch(s, s[i] % 16, s[j..j + ll], j + ll).More?
    ensures var t := ParseMatch(s, s[i] % 16, s[j..j + ll], j + ll);
      SequenceOk(t.s) && i < t.next <= |s| && s[i..t.next] == EncodeSeq(t.s)
  {
    hide Nibble, Ext, ParseMatch;
    TokenBack(s[i]);
    MatchExact(s, s[i] % 16, s[j..j + ll], j + ll);
    var t := ParseMatch(s, s[i] % 16, s[j..j + ll], j + ll);
    FourParts(s, i, j, j + ll, t.next);
    hide SequenceOk;
    Regrouped([s[i]] + Ext(ll) + s[j..j + ll], [t.s.offset % 256, t.s.offset / 256], Ext(t.s.matchLen - MINMATCH));
  }

  lemma TokenBack(b: Byte)
    ensures b == 16 * (b / 16) + b % 16
  {
  }

  lemma Regrouped(a: seq<Byte>, b: seq<Byte>, c: seq<Byte>)
    ensures a + b + c == a + (b + c)
  {
  }

  lemma NeverLast(s: seq<Byte>, nibble: nat, literals: seq<Byte>, i: nat)
    ensures !ParseMatch(s, nibble, literals, i).Last?
  {
  }

  lemma FourParts(s: seq<Byte>, i: nat, j: nat, k: nat, n: nat)
    requires i < j <= k <= n <= |s|
    ensures s[i..n] == [s[i]] + s[i + 1..j] + s[j..k] + s[k..n]
  {
  }

  lemma {:induction false} ParseExactFrom(s: seq<Byte>, i: nat)
    requires i <= |s| && Parse(s, i).Some?
    ensures BlockOk(Parse(s, i).value) && Encode(Parse(s, i).value) == s[i..]
    decreases |s| - i
  {
    hide EncodeSeq, EncodeTail, ParseStep, Encode;
    StepExact(s, i);
    var t, b := ParseStep(s, i), Parse(s, i).value;
    if t.Last? {
      EncodeNone(b);
    } else {
      ParseExactFrom(s, t.next);
      var rest := Parse(s, t.next).value;
      assert b.seqs == [t.s] + rest.seqs && b.seqs[1..] == rest.seqs;
      EncodeCons(b);
      assert s[i..] == s[i..t.next] + s[t.next..];
    }
  }

  /** A string of bytes reads as a block if and only if it is that block, written. */
  lemma ParseExact(s: seq<Byte>, b: Block)
    ensures Parse(s, 0) == Some(b) <==> BlockOk(b) && Encode(b) == s
  {
    hide Parse, Encode;
    if Parse(s, 0) == Some(b) {
      ParseExactFrom(s, 0);
      assert s[0..] == s;
    }
    if BlockOk(b) && Encode(b) == s {
      ParseEncode(b);
    }
  }

  // ---- Building up meaning and encoding one sequence at a time.

  lemma {:induction false} ApplySnoc(out: seq<Byte>, seqs: seq<Sequence>, q: Sequence)
    ensures ApplyAll(out, seqs + [q]) ==
            var o := ApplyAll(out, seqs); if o.None? then None else Apply(o.value, q)
    decreases |seqs|
  {
    hide Apply;
    if seqs == [] {
      assert seqs + [q] == [q];
      assert [q][1..] == [];
    } else {
      var o := Apply(out, seqs[0]);
      assert (seqs + [q])[1..] == seqs[1..] + [q];
      if o.Some? {
        ApplySnoc(o.value, seqs[1..], q);
      }
    }
  }

  lemma {:induction false} EncodeSnoc(seqs: seq<Sequence>, q: Sequence)
    requires (forall s | s in seqs :: SequenceOk(s)) && SequenceOk(q)
    ensures forall s | s in seqs + [q] :: SequenceOk(s)
    ensures EncodeSeqs(seqs + [q]) == EncodeSeqs(seqs) + EncodeSeq(q)
    decreases |seqs|
  {
    hide EncodeSeq;
    if seqs == [] {
      assert seqs + [q] == [q];
      assert [q][1..] == [];
    } else {
      assert (seqs + [q])[1..] == seqs[1..] + [q];
      EncodeSnoc(seqs[1..], q);
    }
  }

  // ---- Overlapping copies.

  /** Every byte of a[lo..hi) repeats the byte `off` before it. */
  ghost predicate Repeats(a: seq<Byte>, off: nat, lo: nat, hi: nat) {
    off <= lo && hi <= |a| && forall i | lo <= i < hi :: a[i] == a[i - off]
  }

  /** Repeating is all there is to know about a match copy. */
  lemma {:induction false} ExtendUnique(out: seq<Byte>, off: nat, len: nat, a: seq<Byte>)
    requires 1 <= off <= |out| && |out| + len <= |a|
    requires a[..|out|] == out && Repeats(a, off, |out|, |out| + len)
    ensures a[..|out| + len] == Extend(out, off, len)
    decreases len
  {
    if len > 0 {
      var out' := out + [out[|out| - off]];
      assert a[|out|] == a[|out| - off] == out[|out| - off];
      assert a[..|out'|] == out';
      ExtendUnique(out', off, len - 1, a);
    }
  }

  lemma {:induction false} ExtendRepeats(out: seq<Byte>, off: nat, len: nat)
    requires 1 <= off <= |out|
    ensures Extend(out, off, len)[..|out|] == out
    ensures Repeats(Extend(out, off, len), off, |out|, |out| + len)
    decreases len
  {
    if len > 0 {
      var out' := out + [out[|out| - off]];
      ExtendRepeats(out', off, len - 1);
      var r := Extend(out, off, len);
      assert r[..|out'|] == out';
      assert r[|out|] == out'[|out|] && r[|out| - off] == out'[|out| - off];
      assert r[..|out|] == r[..|out'|][..|out|];
    }
  }
}
