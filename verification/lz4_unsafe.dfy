/** LZ4_decompress_unsafe_generic: the plain decoder that trusts its input and knows the output size. */
module Lz4Unsafe {
  import opened Bytes
  import opened Lz4Format
  import opened Lz4Copy
  import opened Lz4Decode

  /** From position i, after output `out`, the input decodes to all of `content`. */
  ghost predicate Remains(src: seq<Byte>, i: nat, out: seq<Byte>, content: seq<Byte>) {
    var b := Parse(src, i);
    && b.Some? && ApplyAll(out, b.value.seqs).Some?
    && content == ApplyAll(out, b.value.seqs).value + b.value.tail
  }

  lemma RemainsMore(src: seq<Byte>, i: nat, out: seq<Byte>, content: seq<Byte>)
    requires Remains(src, i, out, content) && ParseStep(src, i).More?
    ensures var q, next := ParseStep(src, i).s, ParseStep(src, i).next;
      && Apply(out, q).Some? && Parse(src, next).Some?
      && Remains(src, next, Apply(out, q).value, content)
      && |out| + |q.literals| + q.matchLen <= |content|
  {
    hide ParseStep, Apply;
    var q, next := ParseStep(src, i).s, ParseStep(src, i).next;
    var b, rest := Parse(src, i).value, Parse(src, next).value;
    assert b.seqs == [q] + rest.seqs && b.tail == rest.tail;
    assert b.seqs[1..] == rest.seqs;
    ApplyLength(out, q);
    ApplyAllGrows(Apply(out, q).value, rest.seqs);
  }

  lemma ApplyLength(out: seq<Byte>, q: Sequence)
    requires Apply(out, q).Some?
    ensures |Apply(out, q).value| == |out| + |q.literals| + q.matchLen
  {
  }

  lemma {:induction false} ApplyAllGrows(out: seq<Byte>, seqs: seq<Sequence>)
    requires ApplyAll(out, seqs).Some?
    ensures |out| <= |ApplyAll(out, seqs).value|
    decreases |seqs|
  {
    if seqs != [] {
      ApplyLength(out, seqs[0]);
      ApplyAllGrows(Apply(out, seqs[0]).value, seqs[1..]);
    }
  }

  /** The two checks made at a match are the end-of-block rules. */
  lemma ChecksAreRules(src: seq<Byte>, i: nat, out: seq<Byte>, content: seq<Byte>)
    requires Remains(src, i, out, content) && ParseStep(src, i).More?
    ensures var q, next := ParseStep(src, i).s, ParseStep(src, i).next;
      Parse(src, next).Some? &&
      (EndRules(Parse(src, i).value) <==>
         && |out| + |q.literals| + MFLIMIT <= |content|
         && |out| + |q.literals| + q.matchLen + LASTLITERALS <= |content|
         && EndRules(Parse(src, next).value))
  {
    hide ParseStep, Taken, Remains, EndRules;
    var q, next := ParseStep(src, i).s, ParseStep(src, i).next;
    RemainsMore(src, i, out, content);
    assert Parse(src, i).Some? by { RemainsSome(src, i, out, content); }
    if EndRules(Parse(src, i).value) {
      RemainsTaken(src, i, out, content);
      TakenByRules(src, i, out, |content|, q, next);
      RulesOn(src, i);
    } else if |out| + |q.literals| + MFLIMIT <= |content| && |out| + |q.literals| + q.matchLen + LASTLITERALS <= |content|
              && EndRules(Parse(src, next).value) {
      RulesBack(src, i, out, content);
    }
  }

  lemma RemainsTaken(src: seq<Byte>, i: nat, out: seq<Byte>, content: seq<Byte>)
    requires Remains(src, i, out, content) && EndRules(Parse(src, i).value)
    ensures Taken(src, i, out, |content|)
  {
    var b := Parse(src, i).value;
    ContentNonZero(out, b.seqs);
    WrittenIsApplied(out, b.seqs);
  }

  lemma RulesOn(src: seq<Byte>, i: nat)
    requires Parse(src, i).Some? && EndRules(Parse(src, i).value) && ParseStep(src, i).More?
    ensures Parse(src, ParseStep(src, i).next).Some? && EndRules(Parse(src, ParseStep(src, i).next).value)
  {
    hide ParseStep;
    var b, rest := Parse(src, i).value, Parse(src, ParseStep(src, i).next).value;
    assert b.seqs == [ParseStep(src, i).s] + rest.seqs && b.tail == rest.tail;
    if rest.seqs != [] {
      assert b.seqs[|b.seqs| - 1] == rest.seqs[|rest.seqs| - 1];
    }
  }

  lemma RulesBack(src: seq<Byte>, i: nat, out: seq<Byte>, content: seq<Byte>)
    requires Remains(src, i, out, content) && ParseStep(src, i).More?
    requires var q, next := ParseStep(src, i).s, ParseStep(src, i).next;
      && Parse(src, next).Some? && EndRules(Parse(src, next).value)
      && |out| + |q.literals| + MFLIMIT <= |content|
      && |out| + |q.literals| + q.matchLen + LASTLITERALS <= |content|
    ensures EndRules(Parse(src, i).value)
  {
    hide ParseStep, Apply;
    var q, next := ParseStep(src, i).s, ParseStep(src, i).next;
    var b, rest := Parse(src, i).value, Parse(src, next).value;
    assert b.seqs == [q] + rest.seqs && b.tail == rest.tail;
    assert b.seqs[1..] == rest.seqs;
    if rest.seqs == [] {
      ApplyLength(out, q);
      assert ApplyAll(Apply(out, q).value, rest.seqs) == Apply(out, q);
    } else {
      assert b.seqs[|b.seqs| - 1] == rest.seqs[|rest.seqs| - 1];
    }
  }

  lemma RemainsLast(src: seq<Byte>, i: nat, out: seq<Byte>, content: seq<Byte>)
    requires Remains(src, i, out, content) && !ParseStep(src, i).More?
    ensures ParseStep(src, i).Last? && content == out + ParseStep(src, i).tail
    ensures EndRules(Parse(src, i).value)
  {
    hide ParseStep;
  }

  // ---- The decoder.

  /** read_long_length_no_check. */
  method ReadLongLength(src: seq<Byte>, ip0: nat) returns (l: nat, ip: nat)
    requires ReadLen(src, ip0).Some?
    ensures ReadLen(src, ip0) == Some((l, ip))
  {
    ip, l := ip0, 0;
    ReadLenForward(src, ip0);
    var b := 255;
    while b == 255
      invariant b == 255 ==> ip < |src| && ReadLen(src, ip).Some? &&
                             ReadLen(src, ip0) == AddLen(l, ReadLen(src, ip))
      invariant b != 255 ==> ReadLen(src, ip0) == Some((l, ip))
      decreases if b == 255 then |src| - ip + 1 else 0
    {
      ReadLenForward(src, ip);
      b := src[ip];
      ip := ip + 1;
      l := l + b;
      if b == 255 {
        ReadLenForward(src, ip);
      }
    }
  }

  method ReadLength(src: seq<Byte>, nibble: nat, ip0: nat) returns (l: nat, ip: nat)
    requires nibble < 16 && ReadField(src, nibble, ip0).Some?
    ensures ReadField(src, nibble, ip0) == Some((l, ip))
  {
    l, ip := nibble, ip0;
    if l == 15 {
      var more;
      more, ip := ReadLongLength(src, ip0);
      l := l + more;
    }
  }

  /** A match copied byte by byte. */
  method CopyBytes(dst: array<Byte>, op: nat, offset: nat, ml: nat)
    requires 1 <= offset <= op && op + ml <= dst.Length
    modifies dst
    ensures forall k :: 0 <= k < op ==> dst[k] == old(dst[k])
    ensures dst[..op + ml] == Extend(old(dst[..op]), offset, ml)
  {
    ghost var out := dst[..op];
    var u := 0;
    while u < ml
      invariant 0 <= u <= ml
      invariant forall k :: 0 <= k < op ==> dst[k] == old(dst[k])
      invariant forall k :: op <= k < op + u ==> dst[k] == dst[k - offset]
    {
      dst[op + u] := dst[op + u - offset];
      u := u + 1;
    }
    assert dst[..op] == out;
    ExtendUnique(out, offset, ml, dst[..]);
  }

  /** Where a step leaves the input: the sequence starting at the token, its literals copied. */
  ghost predicate Copied(src: seq<Byte>, i: nat, out: seq<Byte>, a: seq<Byte>, ip: nat, op: nat, ll: nat) {
    && i < |src| && ReadField(src, src[i] / 16, i + 1) == Some((ll, ip - ll)) && ll <= ip <= |src|
    && op == |out| + ll <= |a| && a[..op] == out + src[ip - ll..ip]
  }

  /** Decodes a block whose content fills the output exactly: the bytes read, or -1 exactly when the
      end-of-block rules are broken. */
  method DecompressUnsafe(src: seq<Byte>, dst: array<Byte>) returns (n: int)
    requires Parse(src, 0).Some? && Content(Parse(src, 0).value).Some?
    requires |Content(Parse(src, 0).value).value| == dst.Length
    modifies dst
    ensures n == if EndRules(Parse(src, 0).value) then |src| else -1
    ensures n >= 0 ==> Content(Parse(src, 0).value) == Some(dst[..])
  {
    hide ParseStep, EndRules, ReadField, Copied, Remains;
    ghost var content := Content(Parse(src, 0).value).value;
    ghost var rules := EndRules(Parse(src, 0).value);
    var ip: nat, op: nat := 0, 0;
    RemainsStart(src);
    assert dst[..0] == [];
    while true
      invariant op <= dst.Length && Remains(src, ip, dst[..op], content)
      invariant Parse(src, ip).Some? && (rules <==> EndRules(Parse(src, ip).value))
      decreases |src| - ip
    {
      ghost var i := ip;
      ghost var out := dst[..op];
      TokenThere(src, i, out, content);
      var token := src[ip];
      var ll, at := ReadLength(src, token / 16, ip + 1);
      LiteralsFit(src, i, out, content, ll, at);
      ghost var before := dst[..];
      CopyFrom(dst, op, src, at, ll);
      CopiedThere(src, i, out, before, dst[..], at, ll);
      ip, op := at + ll, op + ll;
      if dst.Length - op < MFLIMIT {
        if op == dst.Length {
          EndReached(src, i, out, dst[..], content, ip, op, ll);
          break;
        }
        TooClose(src, i, out, dst[..], content, ip, op, ll);
        return -1;
      }
      var ok;
      ok, ip, op := MatchUnsafe(src, dst, i, ip, op, token % 16, ll, out, content);
      if !ok {
        return -1;
      }
    }
    n := ip;
  }

  lemma RemainsStart(src: seq<Byte>)
    requires Parse(src, 0).Some? && Content(Parse(src, 0).value).Some?
    ensures Remains(src, 0, [], Content(Parse(src, 0).value).value)
  {
  }

  lemma TokenThere(src: seq<Byte>, i: nat, out: seq<Byte>, content: seq<Byte>)
    requires Remains(src, i, out, content)
    ensures i < |src| && ReadField(src, src[i] / 16, i + 1).Some?
  {
    assert !ParseStep(src, i).Bad?;
  }

  lemma LiteralsFit(src: seq<Byte>, i: nat, out: seq<Byte>, content: seq<Byte>, ll: nat, at: nat)
    requires Remains(src, i, out, content)
    requires i < |src| && ReadField(src, src[i] / 16, i + 1) == Some((ll, at))
    ensures at + ll <= |src| && |out| + ll <= |content|
  {
    hide ReadField, Remains;
    assert !ParseStep(src, i).Bad? by { NotBad(src, i, out, content); }
    if ParseStep(src, i).More? {
      RemainsMore(src, i, out, content);
    } else {
      RemainsLast(src, i, out, content);
    }
  }

  lemma NotBad(src: seq<Byte>, i: nat, out: seq<Byte>, content: seq<Byte>)
    requires Remains(src, i, out, content)
    ensures !ParseStep(src, i).Bad?
  {
    hide ParseStep;
  }

  lemma CopiedThere(src: seq<Byte>, i: nat, out: seq<Byte>, before: seq<Byte>, a: seq<Byte>, at: nat, ll: nat)
    requires i < |src| && ReadField(src, src[i] / 16, i + 1) == Some((ll, at)) && at + ll <= |src|
    requires |out| + ll <= |a| == |before| && before[..|out|] == out
    requires forall k :: 0 <= k < |a| ==> a[k] == if |out| <= k < |out| + ll then src[at + k - |out|] else before[k]
    ensures Copied(src, i, out, a, at + ll, |out| + ll, ll)
  {
    hide ReadField;
    PrefixIs(out, src[at..at + ll], a, before);
  }

  /** The output is full exactly after the last literals. */
  lemma EndReached(src: seq<Byte>, i: nat, out: seq<Byte>, a: seq<Byte>, content: seq<Byte>, ip: nat, op: nat, ll: nat)
    requires Remains(src, i, out, content) && Copied(src, i, out, a, ip, op, ll) && op == |content| == |a|
    ensures ip == |src| && a == content && EndRules(Parse(src, i).value)
  {
    hide ReadField, EndRules, Remains, ParseMatch;
    assert !ParseStep(src, i).Bad? by { NotBad(src, i, out, content); }
    assert a == a[..op];
    MatchLenAtLeast(src, src[i] % 16, src[ip - ll..ip], ip);
    if ParseStep(src, i).More? {
      RemainsMore(src, i, out, content);
      assert false;
    } else {
      RemainsLast(src, i, out, content);
      assert src[ip - ll..] == src[ip - ll..ip];
    }
  }

  lemma MatchLenAtLeast(src: seq<Byte>, nibble: nat, lits: seq<Byte>, ip: nat)
    ensures !ParseMatch(src, nibble, lits, ip).Last?
    ensures ParseMatch(src, nibble, lits, ip).More? ==>
      ParseMatch(src, nibble, lits, ip).s.matchLen >= MINMATCH && ParseMatch(src, nibble, lits, ip).s.literals == lits
  {
  }

  lemma TooClose(src: seq<Byte>, i: nat, out: seq<Byte>, a: seq<Byte>, content: seq<Byte>, ip: nat, op: nat, ll: nat)
    requires Remains(src, i, out, content) && Copied(src, i, out, a, ip, op, ll)
    requires op < |content| < op + MFLIMIT
    ensures !EndRules(Parse(src, i).value)
  {
    hide EndRules, Remains;
    AtTheMatch(src, i, out, a, content, ip, op, ll);
    ChecksAreRules(src, i, out, content);
  }

  lemma AtTheMatch(src: seq<Byte>, i: nat, out: seq<Byte>, a: seq<Byte>, content: seq<Byte>, ip: nat, op: nat, ll: nat)
    requires Remains(src, i, out, content) && Copied(src, i, out, a, ip, op, ll) && op < |content|
    ensures ParseStep(src, i).More? && ParseStep(src, i) == ParseMatch(src, src[i] % 16, src[ip - ll..ip], ip)
    ensures ParseStep(src, i).s.literals == src[ip - ll..ip]
  {
    hide ReadField, Remains, ParseMatch;
    assert !ParseStep(src, i).Bad? by { NotBad(src, i, out, content); }
    MatchLenAtLeast(src, src[i] % 16, src[ip - ll..ip], ip);
    if !ParseStep(src, i).More? {
      RemainsLast(src, i, out, content);
    }
  }

  method MatchUnsafe(src: seq<Byte>, dst: array<Byte>, ghost i: nat, ip0: nat, op0: nat, nibble: nat, ghost ll: nat,
                     ghost out: seq<Byte>, ghost content: seq<Byte>) returns (ok: bool, ip: nat, op: nat)
    requires Remains(src, i, out, content) && Copied(src, i, out, dst[..], ip0, op0, ll)
    requires op0 + MFLIMIT <= dst.Length == |content| && i < |src| && nibble == src[i] % 16
    modifies dst
    ensures Parse(src, i).Some?
    ensures !ok ==> !EndRules(Parse(src, i).value)
    ensures ok ==> i < ip && op <= dst.Length && Remains(src, ip, dst[..op], content) && Parse(src, ip).Some?
    ensures ok ==> (EndRules(Parse(src, i).value) <==> EndRules(Parse(src, ip).value))
  {
    hide ParseStep, EndRules, ReadField, Copied, Remains, Apply;
    AtTheMatch(src, i, out, dst[..], content, ip0, op0, ll);
    RemainsMore(src, i, out, content);
    ChecksAreRules(src, i, out, content);
    RemainsSome(src, i, out, content);
    StepForward(src, i);
    ghost var q := ParseStep(src, i).s;
    var offset := LittleEndian(src[ip0], src[ip0 + 1]);
    var ml;
    ml, ip := ReadLength(src, nibble, ip0 + 2);
    ml := ml + MINMATCH;
    assert q.offset == offset && q.matchLen == ml && ParseStep(src, i).next == ip;
    ApplyIs(src, i, out, dst[..], ip0, op0, ll, q);
    if dst.Length - op0 < ml {
      return false, ip, op0;
    }
    if offset > op0 {
      return false, ip, op0;
    }
    CopyBytes(dst, op0, offset, ml);
    op := op0 + ml;
    ok := dst.Length - op >= LASTLITERALS;
  }

  lemma RemainsSome(src: seq<Byte>, i: nat, out: seq<Byte>, content: seq<Byte>)
    requires Remains(src, i, out, content)
    ensures Parse(src, i).Some?
  {
  }

  lemma ApplyIs(src: seq<Byte>, i: nat, out: seq<Byte>, a: seq<Byte>, ip: nat, op: nat, ll: nat, q: Sequence)
    requires Copied(src, i, out, a, ip, op, ll) && q.literals == src[ip - ll..ip] && Apply(out, q).Some?
    ensures 1 <= q.offset <= op && Apply(out, q) == Some(Extend(a[..op], q.offset, q.matchLen))
    ensures |q.literals| == ll && op == |out| + ll
  {
  }

  /** LZ4_decompress_safe, with its fast loop, shortcut and wild copies, and the plain decoder on a block
      whose content fills the output: the plain one accepts it exactly if it keeps the end-of-block
      rules, the other one also if it ends by a sequence that the shortcut takes. What either accepts
      it decodes to the content. */
  lemma DecodersAgree(src: seq<Byte>, safe: seq<Byte>, n: int, plain: seq<Byte>, m: int)
    requires Parse(src, 0).Some? && Content(Parse(src, 0).value).Some?
    requires |safe| == |plain| == |Content(Parse(src, 0).value).value| > 0
    requires Decompressed(src, safe, n)
    requires m == if EndRules(Parse(src, 0).value) then |src| else -1
    requires m >= 0 ==> Content(Parse(src, 0).value) == Some(plain)
    ensures n >= 0 <==> EndRules(Parse(src, 0).value) || ShortTail(Parse(src, 0).value)
    ensures n >= 0 ==> n == |safe| && Content(Parse(src, 0).value) == Some(safe)
    ensures m >= 0 ==> n >= 0 && safe == plain
    ensures n >= 0 && m < 0 <==> ShortTail(Parse(src, 0).value)
  {
    hide Parse, ApplyAll, WrittenAll;
    var b := Parse(src, 0).value;
    ContentNonZero([], b.seqs);
    WrittenIsApplied([], b.seqs);
    if n >= 0 {
      assert safe[..n] == safe;
    }
  }

  /** They differ on a block of eighteen bytes: fourteen literals, a match of eighteen bytes from eight
      back, and no literals behind it. */
  lemma DecodersDiffer(literals: seq<Byte>, safe: seq<Byte>, n: int)
    requires |literals| == 14 && |safe| == 32
    requires Decompressed([0xEE] + literals + [8, 0] + [0], safe, n)
    ensures var b := Parse([0xEE] + literals + [8, 0] + [0], 0);
      b.Some? && !EndRules(b.value) && Content(b.value) == Some(safe) && n == 32
  {
    hide Decompressed, ShortTail, EndRules;
    var b := ShortBlock(literals);
    ShortBlockBytes(literals);
    ParseEncode(b);
    ShortBlockContent(literals);
    DecodersAgree(Encode(b), safe, n, safe, -1);
  }

  function ShortBlock(literals: seq<Byte>): Block { Block([Sequence(literals, 8, 18)], [], 0) }

  lemma ShortBlockBytes(literals: seq<Byte>)
    requires |literals| == 14
    ensures BlockOk(ShortBlock(literals)) && Encode(ShortBlock(literals)) == [0xEE] + literals + [8, 0] + [0]
  {
    var s := Sequence(literals, 8, 18);
    assert EncodeSeq(s) == [0xEE] + literals + [8, 0];
    assert [s][1..] == [];
    assert EncodeSeqs([s]) == EncodeSeq(s);
    assert EncodeTail([], 0) == [0];
  }

  lemma ShortBlockContent(literals: seq<Byte>)
    requires |literals| == 14
    ensures var b := ShortBlock(literals);
      Content(b).Some? && |Content(b).value| == 32 && ShortTail(b) && !EndRules(b)
  {
    var s := Sequence(literals, 8, 18);
    assert [s][1..] == [];
    assert ApplyAll([], [s]) == Apply([], s);
  }
}
