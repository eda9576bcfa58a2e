/** The high-compression mode's hash-chain parser: up to three overlapping matches are weighed against
    each other before the first of them is written. */
module Lz4Hc {
  import opened Bytes
  import opened Lz4Format
  import opened Lz4Copy
  import opened Lz4Decode
  import opened Lz4Greedy
  import opened Lz4Encode
  import opened Lz4HcTables
  import opened Lz4HcLongest
  import opened Lz4HcSearch

  const OPTIMAL_ML := 18

  // ---- Writing a sequence.

  /** Match length bytes, two at a time. */
  method WriteLengthPairs(dst: array<Byte>, op0: nat, n: nat) returns (op: nat)
    requires op0 + n / 255 + 1 <= dst.Length
    modifies dst
    ensures op == op0 + n / 255 + 1
    ensures dst[..op] == old(dst[..op0]) + LenBytes(n)
  {
    hide LenBytes;
    ghost var pre := dst[..op0];
    op := op0;
    var len := n;
    while len >= 510
      invariant 0 <= len && op0 <= op && op + len / 255 + 1 == op0 + n / 255 + 1
      invariant pre + LenBytes(n) == dst[..op] + LenBytes(len)
    {
      ghost var a := dst[..op];
      dst[op], dst[op + 1] := 255, 255;
      op := op + 2;
      LenBytesTwo(len, a);
      len := len - 510;
      assert dst[..op] == a + [255, 255];
    }
    ghost var a := dst[..op];
    LenBytesEnd(len);
    if len >= 255 {
      len := len - 255;
      dst[op] := 255;
      op := op + 1;
      assert dst[..op] == a + [255];
    }
    ghost var a' := dst[..op];
    dst[op] := len;
    op := op + 1;
    assert dst[..op] == a' + [len];
  }

  lemma LenBytesTwo(n: nat, a: seq<Byte>)
    requires n >= 510
    ensures a + LenBytes(n) == (a + [255, 255]) + LenBytes(n - 510)
  {
    assert LenBytes(n) == [255] + LenBytes(n - 255);
    assert LenBytes(n - 255) == [255] + LenBytes(n - 510);
  }

  lemma LenBytesEnd(n: nat)
    requires n < 510
    ensures LenBytes(n) == if n >= 255 then [255] + [n - 255] else [n]
  {
  }

  /** The low half of the token, and the length bytes after op. */
  method WriteMatchPairs(dst: array<Byte>, token: nat, op0: nat, mc: nat, ghost ll: nat) returns (op: nat)
    requires token < op0 && op0 + |Ext(mc)| <= dst.Length && dst[token] == 16 * Nibble(ll)
    modifies dst
    ensures op == op0 + |Ext(mc)|
    ensures dst[..op] == old(dst[..op0])[token := 16 * Nibble(ll) + Nibble(mc)] + Ext(mc)
  {
    ghost var pre: seq<Byte> := dst[..op0];
    ghost var t: Byte := 16 * Nibble(ll) + Nibble(mc);
    op := op0;
    if mc >= ML_MASK {
      dst[token] := dst[token] + ML_MASK;
      assert dst[..op0] == pre[token := t];
      op := WriteLengthPairs(dst, op, mc - ML_MASK);
    } else {
      dst[token] := dst[token] + mc;
      assert dst[..op0] == pre[token := t];
    }
  }

  /** Room outside limited outputs. */
  predicate Roomy(limited: bool, cap: nat, n: nat, op: nat, anchor: nat) {
    limited || Room(limited, cap, n, op, anchor)
  }

  lemma PairsRoom(limited: bool, cap: nat, n: nat, op: nat, ip: nat, mc: nat)
    requires RoomForMatch(limited, cap, n, op, ip) && ip + MINMATCH + mc + LASTLITERALS <= n
    requires limited ==> op + 2 + mc / 255 + (1 + LASTLITERALS) <= cap
    ensures op + 2 + |Ext(mc)| <= cap
    ensures Roomy(limited, cap, n, op + 2 + |Ext(mc)|, ip + MINMATCH + mc)
  {
    hide Ext;
    ExtLenIs(mc);
    if !limited {
      RoomMatch(n, cap, op, ip, mc);
    }
  }

  /** The room asked for by a sequence written at op. */
  predicate SequenceFits(q: Sequence, op: nat, cap: nat) {
    LiteralsFit(op, |q.literals|, cap) && AfterLiterals(op, q) + 2 + MatchCode(q) / 255 + (1 + LASTLITERALS) <= cap
  }

  /** The sequence of a match, with the literals from the anchor on. */
  function SequenceOf(src: seq<Byte>, anchor: nat, f: Found): Sequence
    requires anchor <= f.s <= |src| && f.m <= f.s
  {
    Sequence(src[anchor..f.s], f.s - f.m, f.length)
  }

  /** These sequences mean the beginning of the input, and the last of them has no room behind the others. */
  ghost predicate Refused(src: seq<Byte>, cap: nat, seqs: seq<Sequence>) {
    && seqs != [] && Good(seqs) && (exists n | 0 <= n <= |src| :: ApplyAll([], seqs) == Some(src[..n]))
    && !SequenceFits(seqs[|seqs| - 1], |EncodeSeqs(seqs[..|seqs| - 1])|, cap)
  }

  lemma RefusedBy(src: seq<Byte>, a: seq<Byte>, seqs: seq<Sequence>, op: nat, anchor: nat, f: Found)
    requires Emitted(src, a, seqs, op, anchor) && anchor <= f.s && MatchOk(src, f)
    requires !SequenceFits(SequenceOf(src, anchor, f), op, |a|)
    ensures Refused(src, |a|, seqs + [SequenceOf(src, anchor, f)])
  {
    hide EncodeSeqs, ApplyAll, Repeats, SequenceFits;
    var q := SequenceOf(src, anchor, f);
    ApplySnoc([], seqs, q);
    MatchMeans(src, anchor, f.s, f.s - f.m, f.length);
    assert (seqs + [q])[..|seqs|] == seqs && |a[..op]| == op;
    assert ApplyAll([], seqs + [q]) == Some(src[..End(f)]);
    assert Good(seqs + [q]);
  }

  /** LZ4HC_encodeSequence; fails exactly when a limited output has no room for the sequence. */
  method EncodeSequence(src: seq<Byte>, dst: array<Byte>, ghost seqs: seq<Sequence>, op0: nat, anchor: nat, f: Found,
                        limited: bool) returns (ok: bool, op: nat, ghost q: Sequence)
    requires Emitted(src, dst[..], seqs, op0, anchor) && Roomy(limited, dst.Length, |src|, op0, anchor)
    requires anchor <= f.s && MatchOk(src, f)
    modifies dst
    ensures End(f) <= |src| && q == SequenceOf(src, anchor, f)
    ensures ok <==> (limited ==> SequenceFits(q, op0, dst.Length))
    ensures !ok ==> Refused(src, dst.Length, seqs + [q])
    ensures ok ==> Emitted(src, dst[..], seqs + [q], op, End(f)) && Roomy(limited, dst.Length, |src|, op, End(f))
  {
    hide Begun, RoomForMatch, Room, Emitted, Aimed, Genuine, Ext, EncodeSeq, EncodeSeqs, Refused, LiteralsFit;
    q := SequenceOf(src, anchor, f);
    var ip := f.s;
    ghost var first := dst[..];
    ok, op := EncodeLiterals(src, dst, seqs, op0, anchor, ip, limited);
    if !ok {
      RefusedBy(src, first, seqs, op0, anchor, f);
      return;
    }
    var offset := ip - f.m;
    ghost var at := op;
    BegunInside(src, dst[..], seqs, op0, op, anchor, ip);
    OffsetSmall(src, offset, ip, End(f));
    RoomForOffset(limited, dst.Length, |src|, op, ip);
    ghost var before := dst[..];
    dst[op], dst[op + 1] := offset % 256, offset / 256;
    AimedBy(src, before, dst[..], seqs, op0, op, anchor, ip, offset);
    op := op + 2;
    var mc := f.length - MINMATCH;
    if limited && op + mc / 255 + (1 + LASTLITERALS) > dst.Length {
      RefusedBy(src, first, seqs, op0, anchor, f);
      return false, op, q;
    }
    PairsRoom(limited, dst.Length, |src|, at, ip, mc);
    ghost var aimed := dst[..];
    op := WriteMatchPairs(dst, op0, op, mc, ip - anchor);
    SequenceWritten(src, aimed, dst[..op], seqs, op0, at + 2, anchor, ip, offset, mc);
    EmittedMore(src, aimed, dst[..], seqs, op0, at + 2, op, anchor, ip, offset, mc);
  }

  // ---- Matches and their adjustment.

  function End(f: Found): nat { f.s + f.length }

  /** A match that may be written: long enough, and far enough from the end of the block. */
  ghost predicate MatchOk(src: seq<Byte>, f: Found) {
    f.length >= MINMATCH && f.s + MFLIMIT <= |src| && End(f) + LASTLITERALS <= |src| && f.m < f.s
    && Genuine(src, f.s - f.m, f.s, End(f))
  }

  /** The match without its first c bytes, and with its first n bytes only. */
  function Shift(f: Found, c: nat): Found
    requires c <= f.length
  {
    Found(f.length - c, f.m + c, f.s + c)
  }

  function Trim(f: Found, n: nat): Found { f.(length := n) }

  lemma ShiftOk(src: seq<Byte>, f: Found, c: nat)
    requires MatchOk(src, f) && c + MINMATCH <= f.length && f.s + c + MFLIMIT <= |src|
    ensures MatchOk(src, Shift(f, c)) && End(Shift(f, c)) == End(f)
  {
  }

  lemma TrimOk(src: seq<Byte>, f: Found, n: nat)
    requires MatchOk(src, f) && MINMATCH <= n <= f.length
    ensures MatchOk(src, Trim(f, n))
  {
  }

  lemma UsableOk(src: seq<Byte>, f: Found)
    requires LASTLITERALS <= |src| && Usable(src, f, |src| - LASTLITERALS) && f.length >= MINMATCH && f.s + MFLIMIT <= |src|
    ensures MatchOk(src, f)
  {
  }

  /** The length the first match keeps when the second starts within reach of a plain token. */
  function KeptLength(m1: Found, m2: Found): int {
    var ml := if m1.length > OPTIMAL_ML then OPTIMAL_ML else m1.length;
    if m1.s + ml > m2.s + m2.length - MINMATCH then (m2.s - m1.s) + m2.length - MINMATCH else ml
  }

  /** The second match moved behind what the first one keeps. */
  function Corrected(m1: Found, m2: Found): Found {
    var correction := KeptLength(m1, m2) - (m2.s - m1.s);
    if m2.s - m1.s < OPTIMAL_ML && correction > 0 then Shift(m2, correction) else m2
  }

  /** The first match as it is written when three matches ascend. */
  function First(m1: Found, m2: Found): Found
    requires m1.s <= m2.s && MINMATCH <= m2.length
  {
    if m2.s >= End(m1) then m1
    else if m2.s - m1.s < OPTIMAL_ML then Trim(m1, KeptLength(m1, m2))
    else Trim(m1, m2.s - m1.s)
  }

  function Second(m1: Found, m2: Found): Found {
    if m2.s < End(m1) then Corrected(m1, m2) else m2
  }

  // ---- The parser.

  datatype Label = Main | Search2 | Search3

  /** ip is used at Main only: elsewhere it is where m1 starts. */
  datatype Parser = Parser(at: Label, ip: nat, m0: Found, m1: Found, m2: Found)

  /** With what is written so far, and the position up to which it is. */
  datatype State = State(p: Parser, anchor: nat, seqs: seq<Sequence>)

  /** At the top of the main loop: the next position, or a first match. */
  function AfterMain(p: Parser, f: Found): Parser
    requires p.at == Main
  {
    if f.length < MINMATCH then p.(ip := p.ip + 1) else p.(at := Search2, m0 := f, m1 := f)
  }

  /** At _Search2, with the match of the second search, which has the length of the first if it is no
      better: then the first is written. Otherwise it replaces the first if it starts too close behind. */
  function AfterSearch2(p: Parser, m2: Found): Parser
    requires p.at == Search2
  {
    if m2.length == p.m1.length then Parser(Main, End(p.m1), p.m0, p.m1, p.m2)
    else
      var m1 := if p.m0.s < p.m1.s && m2.s < p.m1.s + p.m0.length then p.m0 else p.m1;
      if m2.s - m1.s < 3 then Parser(Search2, 0, p.m0, m2, m2) else Parser(Search3, 0, p.m0, m1, m2)
  }

  /** What the second match leaves behind the first when it is squeezed out between the first and the
      third: enough for a match to fall back on, or else the third. */
  function Squeezed(m1: Found, m2: Found, m3: Found): Found {
    if m2.s >= End(m1) then m2
    else if m2.length < End(m1) - m2.s + MINMATCH then m3
    else Shift(m2, End(m1) - m2.s)
  }

  /** At _Search3, with the second match corrected and the match of the third search, which has the length
      of the second if it is no better: then both are written. Otherwise it replaces the second, or the
      first is written, as a whole or as three ascending matches leave it. */
  function AfterSearch3(m0: Found, m1: Found, m2: Found, m3: Found): Parser
    requires m1.s <= m2.s && MINMATCH <= m2.length
  {
    if m3.length == m2.length then Parser(Main, End(m2), m1, m1, m2)
    else if m3.s < End(m1) then Parser(Search3, 0, m0, m1, m3)
    else if m3.s < End(m1) + 3 then Parser(Search2, 0, Squeezed(m1, m2, m3), m3, m3)
    else Parser(Search3, 0, m0, Second(m1, m2), m3)
  }

  function WrittenAt3(m1: Found, m2: Found, m3: Found): seq<Found>
    requires m1.s <= m2.s && MINMATCH <= m2.length
  {
    if m3.length == m2.length then [if m2.s < End(m1) then Trim(m1, m2.s - m1.s) else m1, m2]
    else if m3.s < End(m1) then []
    else if m3.s < End(m1) + 3 then [m1]
    else [First(m1, m2)]
  }

  /** The result of a search: a longer match that covers ip, or the known length; and none is longer if
      equal bytes have equal hashes and no candidate is passed over. */
  ghost predicate Searched(src: seq<Byte>, hash: nat -> nat, ip: nat, low: nat, known: nat, maxAttempts: nat, f: Found) {
    && LASTLITERALS <= |src| && Best(src, ip, low, |src| - LASTLITERALS, known, f)
    && (Bytewise(src, hash) && Exhaustive(ip, low, maxAttempts, maxAttempts > 128, false) ==>
          NoneLonger(src, ip, low, |src| - LASTLITERALS, f.length))
  }

  /** The search for a wider match from `back` bytes before the end of another, unless that is too far on. */
  ghost predicate Widened(src: seq<Byte>, hash: nat -> nat, m: Found, back: nat, maxAttempts: nat, f: Found) {
    if End(m) + MFLIMIT <= |src| then End(m) >= back && Searched(src, hash, End(m) - back, m.s, m.length, maxAttempts, f)
    else f == m
  }

  /** The sequences of these matches are appended, and the anchor is behind the last of them. */
  ghost predicate Appended(src: seq<Byte>, s: State, fs: seq<Found>, t: State)
    decreases |fs|
  {
    if fs == [] then t.seqs == s.seqs && t.anchor == s.anchor
    else
      && s.anchor <= fs[0].s <= |src| && fs[0].m <= fs[0].s
      && Appended(src, State(s.p, End(fs[0]), s.seqs + [SequenceOf(src, s.anchor, fs[0])]), fs[1..], t)
  }

  /** One step of the parser, with the match f that its search came back with. */
  ghost predicate Moved(src: seq<Byte>, hash: nat -> nat, maxAttempts: nat, s: State, f: Found, t: State) {
    match s.p.at
    case Main =>
      && Searched(src, hash, s.p.ip, s.p.ip, MINMATCH - 1, maxAttempts, f) && t.p == AfterMain(s.p, f)
      && Appended(src, s, [], t)
    case Search2 =>
      && Widened(src, hash, s.p.m1, 2, maxAttempts, f) && t.p == AfterSearch2(s.p, f)
      && Appended(src, s, if f.length == s.p.m1.length then [s.p.m1] else [], t)
    case Search3 =>
      var m2 := Corrected(s.p.m1, s.p.m2);
      && s.p.m1.s <= m2.s && MINMATCH <= m2.length
      && Widened(src, hash, m2, 3, maxAttempts, f) && t.p == AfterSearch3(s.p.m0, s.p.m1, m2, f)
      && Appended(src, s, WrittenAt3(s.p.m1, m2, f), t)
  }

  /** The parser between two steps. */
  ghost predicate StepTaken(src: seq<Byte>, hash: nat -> nat, maxAttempts: nat, s: State, t: State) {
    && At(src, s.anchor, 0, s.p) && At(src, t.anchor, 0, t.p) && (s.p.at == Main ==> s.p.ip + MFLIMIT <= |src|)
    && exists f :: Moved(src, hash, maxAttempts, s, f, t)
  }

  const NOTHING := Found(0, 0, 0)
  const START := State(Parser(Main, 0, NOTHING, NOTHING, NOTHING), 0, [])

  /** A run of the parser. */
  ghost predicate ParserRun(src: seq<Byte>, hash: nat -> nat, maxAttempts: nat, trace: seq<State>) {
    && |trace| > 0 && trace[0] == START
    && forall k | 0 <= k < |trace| - 1 :: StepTaken(src, hash, maxAttempts, trace[k], trace[k + 1])
  }

  /** At its end, and the block is what it leaves. */
  ghost predicate RunEnds(src: seq<Byte>, s: State, b: Block) {
    && s.p.at == Main && (|src| >= MIN_LENGTH ==> s.p.ip + MFLIMIT > |src|)
    && s.anchor <= |src| && b == Block(s.seqs, src[s.anchor..], 0)
  }

  lemma AppendedNone(src: seq<Byte>, s: State, p: Parser)
    ensures Appended(src, s, [], State(p, s.anchor, s.seqs))
  {
  }

  lemma AppendedOne(src: seq<Byte>, s: State, f: Found, p: Parser)
    requires s.anchor <= f.s && MatchOk(src, f)
    ensures Appended(src, s, [f], State(p, End(f), s.seqs + [SequenceOf(src, s.anchor, f)]))
  {
    assert [f][1..] == [];
  }

  lemma AppendedTwo(src: seq<Byte>, s: State, f: Found, g: Found, p: Parser)
    requires s.anchor <= f.s && MatchOk(src, f) && End(f) <= g.s && MatchOk(src, g)
    ensures Appended(src, s, [f, g],
                     State(p, End(g), s.seqs + [SequenceOf(src, s.anchor, f)] + [SequenceOf(src, End(f), g)]))
  {
    assert [f, g][1..] == [g];
    AppendedOne(src, State(s.p, End(f), s.seqs + [SequenceOf(src, s.anchor, f)]), g, p);
  }

  lemma RunMore(src: seq<Byte>, hash: nat -> nat, maxAttempts: nat, trace: seq<State>, f: Found, t: State)
    requires ParserRun(src, hash, maxAttempts, trace)
    requires var s := trace[|trace| - 1];
      && At(src, s.anchor, 0, s.p) && At(src, t.anchor, 0, t.p) && (s.p.at == Main ==> s.p.ip + MFLIMIT <= |src|)
      && Moved(src, hash, maxAttempts, s, f, t)
    ensures ParserRun(src, hash, maxAttempts, trace + [t])
  {
    hide Moved, At;
  }

  /** At _Search2 a first match is at hand; m0 is the one it replaced, at most two bytes before it. */
  ghost predicate AtSearch2(src: seq<Byte>, anchor: nat, next: int, m0: Found, m1: Found) {
    && MatchOk(src, m0) && MatchOk(src, m1)
    && anchor <= m0.s <= m1.s <= m0.s + 2
    && End(m0) <= End(m1)
    && next + 2 <= End(m1)
  }

  /** At _Search3 there are two: the second reaches further and, once corrected, leaves the first at
      least four bytes. */
  ghost predicate AtSearch3(src: seq<Byte>, anchor: nat, next: int, m1: Found, m2: Found) {
    && MatchOk(src, m1) && MatchOk(src, m2)
    && anchor <= m1.s && End(m1) + MFLIMIT <= |src|
    && m2.length > MINMATCH && m1.s + 2 <= m2.s <= End(m1) + 1
    && (m2.s - m1.s) + m2.length >= 8
    && next + 3 <= End(m2)
  }

  /** The same with the second match corrected. */
  ghost predicate AtCorrected(src: seq<Byte>, anchor: nat, next: int, m1: Found, m2: Found) {
    && MatchOk(src, m1) && MatchOk(src, m2)
    && anchor <= m1.s && End(m1) + MFLIMIT <= |src|
    && m1.s + MINMATCH <= m2.s <= End(m1) + 1
    && (m2.s == End(m1) + 1 ==> m2.length > MINMATCH)
    && next + 3 <= End(m2)
  }

  ghost predicate At(src: seq<Byte>, anchor: nat, next: int, p: Parser) {
    match p.at
    case Main => anchor <= p.ip <= |src| && next <= p.ip
    case Search2 => AtSearch2(src, anchor, next, p.m0, p.m1)
    case Search3 => AtSearch3(src, anchor, next, p.m1, p.m2)
  }

  /** How far the parser has got; it never goes back. */
  function Frontier(p: Parser): int {
    match p.at
    case Main => p.ip
    case Search2 => End(p.m1) - 2
    case Search3 => End(p.m2) - 3
  }

  function Rank(l: Label): nat { if l == Search3 then 0 else 1 }

  predicate Advances(p: Parser, q: Parser) {
    Frontier(q) > Frontier(p) || (Frontier(q) == Frontier(p) && Rank(q.at) < Rank(p.at))
  }

  lemma CorrectedOk(src: seq<Byte>, anchor: nat, next: int, m1: Found, m2: Found)
    requires AtSearch3(src, anchor, next, m1, m2)
    ensures AtCorrected(src, anchor, next, m1, Corrected(m1, m2)) && End(Corrected(m1, m2)) == End(m2)
  {
    hide Genuine;
    var correction := KeptLength(m1, m2) - (m2.s - m1.s);
    if m2.s - m1.s < OPTIMAL_ML && correction > 0 {
      ShiftOk(src, m2, correction);
    }
  }

  /** Three ascending matches: the first is cut to what it keeps, and the next two are a first and a
      second match again. */
  lemma AscendingOk(src: seq<Byte>, anchor: nat, next: int, m1: Found, m2: Found, m3: Found)
    requires AtCorrected(src, anchor, next, m1, m2) && MatchOk(src, m3) && End(m2) + MFLIMIT <= |src|
    requires m2.s <= m3.s && m3.s + 3 <= End(m2) && m3.length > m2.length && m3.s >= End(m1) + 3
    ensures MatchOk(src, First(m1, m2)) && First(m1, m2).s == m1.s && End(First(m1, m2)) <= Second(m1, m2).s
    ensures AtSearch3(src, End(First(m1, m2)), End(m2) - 3, Second(m1, m2), m3)
    ensures End(Second(m1, m2)) == End(m2)
  {
    hide Genuine;
    if m2.s < End(m1) {
      if m2.s - m1.s < OPTIMAL_ML {
        var ml := KeptLength(m1, m2);
        TrimOk(src, m1, ml);
        if ml > m2.s - m1.s {
          ShiftOk(src, m2, ml - (m2.s - m1.s));
        }
      } else {
        TrimOk(src, m1, m2.s - m1.s);
      }
    }
  }

  // ---- The steps of the parser.

  /** What every step keeps: the output so far, and the search never ahead of the parser. */
  ghost predicate Ready(src: seq<Byte>, a: seq<Byte>, seqs: seq<Sequence>, op: nat, anchor: nat, limited: bool,
                        next: int, p: Parser) {
    && Emitted(src, a, seqs, op, anchor) && Roomy(limited, |a|, |src|, op, anchor)
    && At(src, anchor, next, p)
  }

  lemma SearchWindow(src: seq<Byte>, f: Found, back: nat)
    requires MatchOk(src, f) && End(f) + MFLIMIT <= |src| && 2 <= back <= 3
    ensures Window(src, End(f) - back, f.s, |src| - LASTLITERALS, f.length)
  {
  }

  lemma BestOk(src: seq<Byte>, ip: nat, low: nat, known: nat, f: Found)
    requires known >= 3 && ip + MFLIMIT <= |src| && Best(src, ip, low, |src| - LASTLITERALS, known, f)
    ensures f.length == known || (f.length > known && low <= f.s <= ip && MatchOk(src, f))
  {
    hide Genuine;
    if f.length != known {
      UsableOk(src, f);
    }
  }

  /** LZ4HC_InsertAndFindBestMatch at the top of the main loop. */
  method StepMain(ctx: Context, src: seq<Byte>, hash: nat -> nat, ghost anchor: nat, p: Parser, maxAttempts: nat,
                  patternAnalysis: bool) returns (q: Parser, ghost f: Found)
    requires ctx.Ok() && ctx.Tables(hash) && HashOk4(src, hash, ctx.heads.Length) && patternAnalysis == (maxAttempts > 128)
    requires p.at == Main && p.ip + MFLIMIT <= |src| && At(src, anchor, ctx.nextToUpdate - ctx.base, p)
    modifies ctx, ctx.heads, ctx.chain
    ensures ctx.Ok() && ctx.Tables(hash) && At(src, anchor, ctx.nextToUpdate - ctx.base, q) && Advances(p, q)
    ensures Searched(src, hash, p.ip, p.ip, MINMATCH - 1, maxAttempts, f) && q == AfterMain(p, f)
  {
    hide HashOk4, Best, Genuine, TableBelow, DeltasOk, Bytewise, NoneLonger, Exact;
    var high: nat := |src| - LASTLITERALS;
    var m := ctx.GetWiderMatch(src, hash, p.ip, p.ip, high, Found(MINMATCH - 1, 0, 0), maxAttempts, patternAnalysis,
                               false, false);
    f := m;
    BestOk(src, p.ip, p.ip, MINMATCH - 1, f);
    if m.length < MINMATCH {
      q := p.(ip := p.ip + 1);
    } else {
      q := p.(at := Search2, m0 := m, m1 := m);
    }
  }

  /** The second search, from two bytes before the end of the first match. */
  method StepSearch2(ctx: Context, src: seq<Byte>, hash: nat -> nat, ghost anchor: nat, p: Parser, maxAttempts: nat,
                     patternAnalysis: bool) returns (better: bool, q: Parser, ghost f: Found)
    requires ctx.Ok() && ctx.Tables(hash) && HashOk4(src, hash, ctx.heads.Length) && patternAnalysis == (maxAttempts > 128)
    requires p.at == Search2 && At(src, anchor, ctx.nextToUpdate - ctx.base, p)
    modifies ctx, ctx.heads, ctx.chain
    ensures ctx.Ok() && ctx.Tables(hash)
    ensures Widened(src, hash, p.m1, 2, maxAttempts, f) && better == (f.length != p.m1.length)
    ensures better ==> At(src, anchor, ctx.nextToUpdate - ctx.base, q) && Advances(p, q) && q == AfterSearch2(p, f)
    ensures !better ==> ctx.nextToUpdate - ctx.base <= End(p.m1)
  {
    hide HashOk4, Best, Genuine, TableBelow, DeltasOk, Window, Bytewise, NoneLonger, Exact;
    var m0, m1 := p.m0, p.m1;
    var m2 := m1;
    q := p;
    if End(m1) + MFLIMIT <= |src| {
      SearchWindow(src, m1, 2);
      m2 := ctx.GetWiderMatch(src, hash, End(m1) - 2, m1.s, |src| - LASTLITERALS, m1, maxAttempts, patternAnalysis,
                              false, false);
      BestOk(src, End(m1) - 2, m1.s, m1.length, m2);
    }
    f := m2;
    better := m2.length != m1.length;
    if better {
      if m0.s < m1.s && m2.s < m1.s + m0.length {
        m1 := m0;
      }
      if m2.s - m1.s < 3 {
        q := Parser(Search2, 0, m0, m2, m2);
      } else {
        q := Parser(Search3, 0, m0, m1, m2);
      }
    }
  }

  lemma SqueezedOk(src: seq<Byte>, anchor: nat, next: int, m1: Found, m2: Found, m3: Found)
    requires AtCorrected(src, anchor, next, m1, m2) && MatchOk(src, m3) && End(m2) + MFLIMIT <= |src|
    requires m2.s <= m3.s && m3.s + 3 <= End(m2) && m3.length > m2.length && End(m1) <= m3.s <= End(m1) + 2
    ensures AtSearch2(src, End(m1), End(m2) - 3, Squeezed(m1, m2, m3), m3)
  {
    hide Genuine;
    if m2.s < End(m1) && End(m1) - m2.s + MINMATCH <= m2.length {
      ShiftOk(src, m2, End(m1) - m2.s);
    }
  }

  lemma ReplaceOk(src: seq<Byte>, anchor: nat, next: int, m1: Found, m2: Found, m3: Found)
    requires AtCorrected(src, anchor, next, m1, m2) && MatchOk(src, m3)
    requires m2.s <= m3.s < End(m1) && m3.length > m2.length
    ensures AtSearch3(src, anchor, End(m2) - 3, m1, m3)
  {
    hide Genuine;
  }

  /** The first match before the second, when there is no third. */
  lemma BeforeSecondOk(src: seq<Byte>, anchor: nat, next: int, m1: Found, m2: Found)
    requires AtCorrected(src, anchor, next, m1, m2)
    ensures var f := if m2.s < End(m1) then Trim(m1, m2.s - m1.s) else m1;
            MatchOk(src, f) && f.s == m1.s && End(f) <= m2.s
  {
    hide Genuine;
    if m2.s < End(m1) {
      TrimOk(src, m1, m2.s - m1.s);
    }
  }

  /** The third search, from three bytes before the end of the second match. */
  method FindThird(ctx: Context, src: seq<Byte>, hash: nat -> nat, ghost anchor: nat, m1: Found, m2: Found,
                   maxAttempts: nat, patternAnalysis: bool) returns (m3: Found)
    requires ctx.Ok() && ctx.Tables(hash) && HashOk4(src, hash, ctx.heads.Length) && patternAnalysis == (maxAttempts > 128)
    requires AtCorrected(src, anchor, ctx.nextToUpdate - ctx.base, m1, m2)
    modifies ctx, ctx.heads, ctx.chain
    ensures ctx.Ok() && ctx.Tables(hash) && ctx.nextToUpdate - ctx.base <= End(m2) - 3
    ensures Widened(src, hash, m2, 3, maxAttempts, m3)
    ensures m3.length != m2.length ==>
      && m3.length > m2.length && m2.s <= m3.s && m3.s + 3 <= End(m2) && MatchOk(src, m3)
      && End(m2) + MFLIMIT <= |src| && ctx.nextToUpdate - ctx.base == End(m2) - 3
  {
    hide HashOk4, Best, Genuine, TableBelow, DeltasOk, Window, Bytewise, NoneLonger, Exact;
    m3 := m2;
    if End(m2) + MFLIMIT <= |src| {
      SearchWindow(src, m2, 3);
      m3 := ctx.GetWiderMatch(src, hash, End(m2) - 3, m2.s, |src| - LASTLITERALS, m2, maxAttempts, patternAnalysis,
                              false, false);
      BestOk(src, End(m2) - 3, m2.s, m2.length, m3);
    }
  }

  /** From _Search3 to where the parser continues. */
  method StepSearch3(ctx: Context, src: seq<Byte>, hash: nat -> nat, dst: array<Byte>, ghost seqs0: seq<Sequence>,
                     op0: nat, anchor0: nat, p: Parser, maxAttempts: nat, patternAnalysis: bool, limited: bool)
    returns (ok: bool, q: Parser, op: nat, anchor: nat, ghost seqs: seq<Sequence>, ghost f3: Found)
    requires ctx.Ok() && ctx.Tables(hash) && HashOk4(src, hash, ctx.heads.Length) && patternAnalysis == (maxAttempts > 128)
    requires p.at == Search3
    requires Ready(src, dst[..], seqs0, op0, anchor0, limited, ctx.nextToUpdate - ctx.base, p)
    modifies ctx, ctx.heads, ctx.chain, dst
    ensures ctx.Ok() && ctx.Tables(hash) && (!ok ==> limited && Refused(src, dst.Length, seqs))
    ensures ok ==> Ready(src, dst[..], seqs, op, anchor, limited, ctx.nextToUpdate - ctx.base, q) && Advances(p, q)
    ensures ok ==> Moved(src, hash, maxAttempts, State(p, anchor0, seqs0), f3, State(q, anchor, seqs))
  {
    hide HashOk4, Emitted, Roomy, MatchOk, TableBelow, DeltasOk, Exact, Widened, Appended, Refused, SequenceFits;
    ghost var s;
    var m1 := p.m1;
    CorrectedOk(src, anchor0, ctx.nextToUpdate - ctx.base, m1, p.m2);
    var m2 := Corrected(m1, p.m2);
    var m3 := FindThird(ctx, src, hash, anchor0, m1, m2, maxAttempts, patternAnalysis);
    hide Corrected;
    q, anchor, seqs, op, f3 := p, anchor0, seqs0, op0, m3;
    ghost var start := State(p, anchor0, seqs0);
    LongEnough(src, m2);
    if m3.length == m2.length {
      BeforeSecondOk(src, anchor0, 0, m1, m2);
      var f := if m2.s < End(m1) then Trim(m1, m2.s - m1.s) else m1;
      AppendedTwo(src, start, f, m2, Parser(Main, End(m2), m1, m1, m2));
      ok, op, s := EncodeSequence(src, dst, seqs, op, anchor, f, limited);
      seqs, anchor := seqs + [s], End(f);
      if !ok {
        return;
      }
      ok, op, s := EncodeSequence(src, dst, seqs, op, anchor, m2, limited);
      seqs, anchor := seqs + [s], End(m2);
      q := Parser(Main, anchor, m1, m1, m2);
    } else if m3.s < End(m1) {
      ReplaceOk(src, anchor0, 0, m1, m2, m3);
      AppendedNone(src, start, Parser(Search3, 0, p.m0, m1, m3));
      ok, q := true, Parser(Search3, 0, p.m0, m1, m3);
    } else if m3.s < End(m1) + 3 {
      SqueezedOk(src, anchor0, 0, m1, m2, m3);
      AppendedOne(src, start, m1, Parser(Search2, 0, Squeezed(m1, m2, m3), m3, m3));
      ok, op, s := EncodeSequence(src, dst, seqs, op, anchor, m1, limited);
      seqs, anchor := seqs + [s], End(m1);
      q := Parser(Search2, 0, Squeezed(m1, m2, m3), m3, m3);
    } else {
      AscendingOk(src, anchor0, 0, m1, m2, m3);
      var f := First(m1, m2);
      AppendedOne(src, start, f, Parser(Search3, 0, p.m0, Second(m1, m2), m3));
      ok, op, s := EncodeSequence(src, dst, seqs, op, anchor, f, limited);
      seqs, anchor := seqs + [s], End(f);
      q := Parser(Search3, 0, p.m0, Second(m1, m2), m3);
    }
  }

  lemma LongEnough(src: seq<Byte>, f: Found)
    requires MatchOk(src, f)
    ensures f.length >= MINMATCH
  {
  }

  lemma ReadyParts(src: seq<Byte>, a: seq<Byte>, seqs: seq<Sequence>, op: nat, anchor: nat, limited: bool, next: int,
                   p: Parser)
    requires Ready(src, a, seqs, op, anchor, limited, next, p)
    ensures Emitted(src, a, seqs, op, anchor) && Roomy(limited, |a|, |src|, op, anchor) && At(src, anchor, next, p)
    ensures Frontier(p) <= |src| && op <= |a| && anchor <= |src|
  {
  }

  lemma ReadyBy(src: seq<Byte>, a: seq<Byte>, seqs: seq<Sequence>, op: nat, anchor: nat, limited: bool, next: int,
                p: Parser)
    requires Emitted(src, a, seqs, op, anchor) && Roomy(limited, |a|, |src|, op, anchor) && At(src, anchor, next, p)
    ensures Ready(src, a, seqs, op, anchor, limited, next, p)
  {
  }

  lemma AtSearch2Ok(src: seq<Byte>, anchor: nat, next: int, p: Parser)
    requires p.at == Search2 && At(src, anchor, next, p)
    ensures MatchOk(src, p.m1) && anchor <= p.m1.s && End(p.m1) <= |src|
  {
  }

  lemma StartReady(src: seq<Byte>, a: seq<Byte>, limited: bool, p: Parser)
    requires p.at == Main && p.ip == 0 && (!limited ==> Bound(|src|) <= |a|)
    ensures Ready(src, a, [], 0, 0, limited, 0, p)
  {
    EmittedNone(src, a);
  }

  /** One step of the parser from whichever label it is at. */
  method Step(ctx: Context, src: seq<Byte>, hash: nat -> nat, dst: array<Byte>, ghost seqs0: seq<Sequence>,
              op0: nat, anchor0: nat, p: Parser, maxAttempts: nat, patternAnalysis: bool, limited: bool)
    returns (ok: bool, q: Parser, op: nat, anchor: nat, ghost seqs: seq<Sequence>, ghost f: Found)
    requires ctx.Ok() && ctx.Tables(hash) && HashOk4(src, hash, ctx.heads.Length) && patternAnalysis == (maxAttempts > 128)
    requires p.at == Main ==> p.ip + MFLIMIT <= |src|
    requires Ready(src, dst[..], seqs0, op0, anchor0, limited, ctx.nextToUpdate - ctx.base, p)
    modifies ctx, ctx.heads, ctx.chain, dst
    ensures ctx.Ok() && ctx.Tables(hash) && (!ok ==> limited && Refused(src, dst.Length, seqs))
    ensures ok ==> Ready(src, dst[..], seqs, op, anchor, limited, ctx.nextToUpdate - ctx.base, q) && Advances(p, q)
    ensures ok ==> Moved(src, hash, maxAttempts, State(p, anchor0, seqs0), f, State(q, anchor, seqs))
  {
    hide HashOk4, Emitted, Roomy, At, Ready, TableBelow, DeltasOk, Exact, Widened, Searched, Appended, Refused, SequenceFits;
    ReadyParts(src, dst[..], seqs0, op0, anchor0, limited, ctx.nextToUpdate - ctx.base, p);
    ok, op, anchor, seqs := true, op0, anchor0, seqs0;
    if p.at == Main {
      q, f := StepMain(ctx, src, hash, anchor, p, maxAttempts, patternAnalysis);
      AppendedNone(src, State(p, anchor, seqs), q);
      ReadyBy(src, dst[..], seqs, op, anchor, limited, ctx.nextToUpdate - ctx.base, q);
    } else if p.at == Search2 {
      AtSearch2Ok(src, anchor, ctx.nextToUpdate - ctx.base, p);
      var better;
      better, q, f := StepSearch2(ctx, src, hash, anchor, p, maxAttempts, patternAnalysis);
      if better {
        AppendedNone(src, State(p, anchor, seqs), q);
        ReadyBy(src, dst[..], seqs, op, anchor, limited, ctx.nextToUpdate - ctx.base, q);
      } else {
        ghost var s;
        AppendedOne(src, State(p, anchor, seqs), p.m1, Parser(Main, End(p.m1), p.m0, p.m1, p.m2));
        ok, op, s := EncodeSequence(src, dst, seqs, op, anchor, p.m1, limited);
        seqs, anchor := seqs + [s], End(p.m1);
        q := Parser(Main, anchor, p.m0, p.m1, p.m2);
        KeepAt(src, anchor, ctx.nextToUpdate - ctx.base, p.m1, q);
        if ok {
          ReadyBy(src, dst[..], seqs, op, anchor, limited, ctx.nextToUpdate - ctx.base, q);
        }
      }
    } else {
      ok, q, op, anchor, seqs, f := StepSearch3(ctx, src, hash, dst, seqs0, op0, anchor0, p, maxAttempts, patternAnalysis,
                                                limited);
    }
  }

  lemma KeepAt(src: seq<Byte>, anchor: nat, next: int, f: Found, p: Parser)
    requires p.at == Main && p.ip == End(f) && anchor == End(f) && End(f) <= |src| && next <= End(f)
    ensures At(src, anchor, next, p)
  {
  }

  lemma AtZero(src: seq<Byte>, anchor: nat, next: nat, p: Parser)
    requires At(src, anchor, next, p)
    ensures At(src, anchor, 0, p)
  {
    hide MatchOk;
  }

  /** The sequences were refused, or the last literals have no room behind them. */
  ghost predicate TooLarge(src: seq<Byte>, cap: nat, b: Block) {
    Refused(src, cap, b.seqs) || (Compressed(src, BlockBytes(b), b) && |BlockBytes(b)| > cap)
  }

  ghost function BlockBytes(b: Block): seq<Byte> { if BlockOk(b) then Encode(b) else [] }

  /** LZ4HC_compress_hashChain, for outputs that are limited to the size of dst or known to be large
      enough: the sequences are those of a run of the parser, and it fails only if they have no room. */
  method CompressHashChain(ctx: Context, src: seq<Byte>, hash: nat -> nat, dst: array<Byte>, maxAttempts: nat,
                           limited: bool) returns (r: nat, ghost b: Block, ghost trace: seq<State>)
    requires ctx.Ok() && HashOk4(src, hash, ctx.heads.Length) && ctx.nextToUpdate == ctx.base
    requires !limited ==> Bound(|src|) <= dst.Length
    modifies ctx, ctx.heads, ctx.chain, dst
    ensures r > 0 ==> r <= dst.Length && Compressed(src, dst[..r], b)
    ensures r > 0 ==> ParserRun(src, hash, maxAttempts, trace) && RunEnds(src, trace[|trace| - 1], b)
    ensures r == 0 ==> limited && TooLarge(src, dst.Length, b)
    ensures !limited ==> r <= Bound(|src|)
  {
    hide HashOk4, Emitted, Roomy, At, Ready, TableBelow, DeltasOk, Compressed, Moved, Refused, Exact, ParserRun;
    b := Block([], [], 0);
    var patternAnalysis := maxAttempts > 128;
    ghost var seqs: seq<Sequence> := [];
    var op: nat, anchor: nat := 0, 0;
    var none := Found(0, 0, 0);
    var p := Parser(Main, 0, none, none, none);
    trace := [START];
    RunStart(src, hash, maxAttempts);
    StartReady(src, dst[..], limited, p);
    ctx.FreshTables(hash);
    if |src| >= MIN_LENGTH {
      while p.at != Main || p.ip + MFLIMIT <= |src|
        invariant ctx.Ok() && ctx.Tables(hash)
        invariant Ready(src, dst[..], seqs, op, anchor, limited, ctx.nextToUpdate - ctx.base, p)
        invariant ParserRun(src, hash, maxAttempts, trace) && |trace| > 0 && trace[|trace| - 1] == State(p, anchor, seqs)
        decreases |src| - Frontier(p), Rank(p.at)
      {
        var ok, q;
        ghost var f;
        ReadyParts(src, dst[..], seqs, op, anchor, limited, ctx.nextToUpdate - ctx.base, p);
        AtZero(src, anchor, ctx.nextToUpdate - ctx.base, p);
        ok, q, op, anchor, seqs, f := Step(ctx, src, hash, dst, seqs, op, anchor, p, maxAttempts, patternAnalysis, limited);
        if !ok {
          return 0, Block(seqs, [], 0), trace;
        }
        ReadyParts(src, dst[..], seqs, op, anchor, limited, ctx.nextToUpdate - ctx.base, q);
        AtZero(src, anchor, ctx.nextToUpdate - ctx.base, q);
        RunMore(src, hash, maxAttempts, trace, f, State(q, anchor, seqs));
        trace := trace + [State(q, anchor, seqs)];
        p := q;
      }
    }
    ReadyParts(src, dst[..], seqs, op, anchor, limited, ctx.nextToUpdate - ctx.base, p);
    b := Block(seqs, src[anchor..], 0);
    LastLarge(src, dst[..], seqs, op, anchor);
    r := EncodeLast(src, dst, seqs, op, anchor, limited);
  }

  lemma RunStart(src: seq<Byte>, hash: nat -> nat, maxAttempts: nat)
    ensures ParserRun(src, hash, maxAttempts, [START])
  {
  }

  /** The block that the last literals complete, and its size. */
  lemma LastLarge(src: seq<Byte>, a: seq<Byte>, seqs: seq<Sequence>, op: nat, anchor: nat)
    requires Emitted(src, a, seqs, op, anchor)
    ensures op <= |a| && anchor <= |src|
    ensures var b := Block(seqs, src[anchor..], 0);
      Compressed(src, BlockBytes(b), b) && |BlockBytes(b)| == op + (|src| - anchor) + 1 + ExtLen(|src| - anchor)
  {
    hide Ext, EncodeSeqs, ApplyAll;
    var b := Block(seqs, src[anchor..], 0);
    EmittedInside(src, a, seqs, op, anchor);
    ExtLenIs(|src| - anchor);
    var out := a[..op] + [16 * Nibble(|src| - anchor)] + Ext(|src| - anchor) + src[anchor..];
    CompressedBy(src, a, out, seqs, op, anchor);
  }
}
