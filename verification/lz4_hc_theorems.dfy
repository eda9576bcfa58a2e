/** What a run of the high-compression parser leaves as literals: nothing that it could have matched, but for
    four bytes before a match. */
module Lz4HcTheorems {
  import opened Bytes
  import opened Lz4Format
  import opened Lz4Decode
  import opened Lz4Greedy
  import opened Lz4Encode
  import opened Lz4HcLongest
  import opened Lz4HcSearch
  import opened Lz4Hc
  import opened Lz4HcOptimal

  /** The four bytes at i do not occur before, as far back as an offset reaches. */
  ghost predicate Bare(src: seq<Byte>, i: nat) {
    forall j: nat | j < i <= j + DISTANCE_MAX :: !SameFour(src, i, j)
  }

  /** The attempts are enough for every candidate at i. */
  predicate Lasting(i: nat, maxAttempts: nat) { i <= maxAttempts || DISTANCE_MAX <= maxAttempts }

  /** Every position between these, before the end margin, is bare if the attempts last there. */
  ghost predicate Skipped(src: seq<Byte>, lo: int, hi: int, maxAttempts: nat) {
    forall i: nat | lo <= i < hi && i + MFLIMIT <= |src| && Lasting(i, maxAttempts) :: Bare(src, i)
  }

  /** The literals of these sequences, which end at the anchor, are bare but for the last four of each run. */
  ghost predicate Tight(src: seq<Byte>, seqs: seq<Sequence>, anchor: int, maxAttempts: nat)
    decreases |seqs|
  {
    if seqs == [] then anchor == 0
    else
      var q := seqs[|seqs| - 1];
      var p := anchor - q.matchLen;
      && Skipped(src, p - |q.literals|, p - 4, maxAttempts)
      && Tight(src, seqs[..|seqs| - 1], p - |q.literals|, maxAttempts)
  }

  /** And the literals that are not written yet. */
  ghost predicate Sparse(src: seq<Byte>, anchor: nat, p: Parser, maxAttempts: nat) {
    match p.at
    case Main => Skipped(src, anchor, p.ip, maxAttempts)
    case Search2 => Skipped(src, anchor, p.m0.s - 2, maxAttempts)
    case Search3 => Skipped(src, anchor, p.m1.s - 4, maxAttempts)
  }

  ghost predicate Tidy(src: seq<Byte>, s: State, maxAttempts: nat) {
    Tight(src, s.seqs, s.anchor, maxAttempts) && Sparse(src, s.anchor, s.p, maxAttempts)
  }

  /** Where no match is longer than three bytes, no position has the same four. */
  lemma BareBy(src: seq<Byte>, i: nat)
    requires i + MFLIMIT <= |src| && NoneLonger(src, i, i, |src| - LASTLITERALS, MINMATCH - 1)
    ensures Bare(src, i)
  {
    forall j: nat | j < i <= j + DISTANCE_MAX ensures !SameFour(src, i, j) {
      assert NoLonger(src, i, i, |src| - LASTLITERALS, j, MINMATCH - 1);
      assert !Covers(src, i, i, |src| - LASTLITERALS, j, MINMATCH - 1, i, i + MINMATCH);
      FourCover(src, i, j);
    }
  }

  lemma FourCover(src: seq<Byte>, i: nat, j: nat)
    requires i + MFLIMIT <= |src| && j < i
    ensures SameFour(src, i, j) ==> Covers(src, i, i, |src| - LASTLITERALS, j, MINMATCH - 1, i, i + MINMATCH)
  {
  }

  lemma TightMore(src: seq<Byte>, seqs: seq<Sequence>, anchor: nat, f: Found, maxAttempts: nat)
    requires Tight(src, seqs, anchor, maxAttempts) && anchor <= f.s && MatchOk(src, f)
    requires Skipped(src, anchor, f.s - 4, maxAttempts)
    ensures Tight(src, seqs + [SequenceOf(src, anchor, f)], End(f), maxAttempts)
  {
    hide Skipped, Genuine;
    assert (seqs + [SequenceOf(src, anchor, f)])[..|seqs|] == seqs;
  }

  lemma SkippedLess(src: seq<Byte>, lo: int, hi: int, hi': int, maxAttempts: nat)
    requires Skipped(src, lo, hi, maxAttempts) && hi' <= hi
    ensures Skipped(src, lo, hi', maxAttempts)
  {
    hide Bare;
  }

  lemma SkippedNone(src: seq<Byte>, lo: int, hi: int, maxAttempts: nat)
    requires hi <= lo
    ensures Skipped(src, lo, hi, maxAttempts)
  {
  }

  lemma SkippedNext(src: seq<Byte>, lo: nat, hi: nat, maxAttempts: nat)
    requires Skipped(src, lo, hi, maxAttempts) && hi + MFLIMIT <= |src| && (Lasting(hi, maxAttempts) ==> Bare(src, hi))
    ensures Skipped(src, lo, hi + 1, maxAttempts)
  {
    hide Bare;
  }

  // ---- Every step keeps it.

  lemma MainTidy(src: seq<Byte>, hash: nat -> nat, maxAttempts: nat, s: State, f: Found, t: State)
    requires Bytewise(src, hash) && Tidy(src, s, maxAttempts) && Moved(src, hash, maxAttempts, s, f, t)
    requires s.p.at == Main && s.p.ip + MFLIMIT <= |src| && At(src, s.anchor, 0, s.p) && At(src, t.anchor, 0, t.p)
    ensures Tidy(src, t, maxAttempts)
  {
    hide Bytewise, Best, NoneLonger, Skipped, Tight, MatchOk;
    var ip := s.p.ip;
    if f.length < MINMATCH {
      if Lasting(ip, maxAttempts) {
        SearchedNone(src, hash, ip, maxAttempts, f);
        BareBy(src, ip);
      }
      SkippedNext(src, s.anchor, ip, maxAttempts);
    } else {
      SearchedHere(src, hash, ip, maxAttempts, f);
      SkippedLess(src, s.anchor, ip, ip as int - 2, maxAttempts);
    }
  }

  lemma SearchedHere(src: seq<Byte>, hash: nat -> nat, ip: nat, maxAttempts: nat, f: Found)
    requires Searched(src, hash, ip, ip, MINMATCH - 1, maxAttempts, f) && f.length >= MINMATCH
    ensures f.s == ip
  {
    hide NoneLonger, Usable, Bytewise;
  }

  lemma SearchedNone(src: seq<Byte>, hash: nat -> nat, ip: nat, maxAttempts: nat, f: Found)
    requires Searched(src, hash, ip, ip, MINMATCH - 1, maxAttempts, f) && f.length < MINMATCH
    requires Bytewise(src, hash) && Lasting(ip, maxAttempts)
    ensures NoneLonger(src, ip, ip, |src| - LASTLITERALS, MINMATCH - 1)
  {
    hide NoneLonger, Usable, Bytewise;
  }

  lemma Search2Tidy(src: seq<Byte>, hash: nat -> nat, maxAttempts: nat, s: State, f: Found, t: State)
    requires Tidy(src, s, maxAttempts) && Moved(src, hash, maxAttempts, s, f, t)
    requires s.p.at == Search2 && At(src, s.anchor, 0, s.p) && At(src, t.anchor, 0, t.p)
    ensures Tidy(src, t, maxAttempts)
  {
    hide Widened, Skipped, Tight, MatchOk, Appended;
    var m0, m1 := s.p.m0, s.p.m1;
    SkippedLess(src, s.anchor, m0.s - 2, m0.s - 4, maxAttempts);
    SkippedLess(src, s.anchor, m0.s - 2, m1.s - 4, maxAttempts);
    if f.length == m1.length {
      TightOne(src, s, m1, t, maxAttempts);
      SkippedNone(src, t.anchor, t.anchor, maxAttempts);
    } else {
      SameWritten(src, s, t);
    }
  }

  lemma Search3Tidy(src: seq<Byte>, hash: nat -> nat, maxAttempts: nat, s: State, f: Found, t: State)
    requires Tidy(src, s, maxAttempts) && Moved(src, hash, maxAttempts, s, f, t)
    requires s.p.at == Search3 && At(src, s.anchor, 0, s.p) && At(src, t.anchor, 0, t.p)
    ensures Tidy(src, t, maxAttempts)
  {
    hide Widened, Skipped, Tight, MatchOk, Corrected, Appended;
    var m1 := s.p.m1;
    CorrectedOk(src, s.anchor, 0, m1, s.p.m2);
    var m2 := Corrected(m1, s.p.m2);
    if f.length == m2.length {
      BeforeSecondOk(src, s.anchor, 0, m1, m2);
      var g := if m2.s < End(m1) then Trim(m1, m2.s - m1.s) else m1;
      TightTwo(src, s, g, m2, t, maxAttempts);
      SkippedNone(src, t.anchor, t.anchor, maxAttempts);
    } else if f.s < End(m1) {
      SameWritten(src, s, t);
    } else {
      FirstWritten(src, s, m1, m2, t, f, maxAttempts);
    }
  }

  lemma SameWritten(src: seq<Byte>, s: State, t: State)
    requires Appended(src, s, [], t)
    ensures t.seqs == s.seqs && t.anchor == s.anchor
  {
  }

  lemma TightOne(src: seq<Byte>, s: State, f: Found, t: State, maxAttempts: nat)
    requires Tight(src, s.seqs, s.anchor, maxAttempts) && MatchOk(src, f) && Appended(src, s, [f], t)
    requires Skipped(src, s.anchor, f.s - 4, maxAttempts)
    ensures Tight(src, t.seqs, t.anchor, maxAttempts) && t.anchor == End(f)
  {
    hide Skipped, Tight, MatchOk;
    assert [f][1..] == [];
    TightMore(src, s.seqs, s.anchor, f, maxAttempts);
  }

  lemma TightTwo(src: seq<Byte>, s: State, f: Found, g: Found, t: State, maxAttempts: nat)
    requires Tight(src, s.seqs, s.anchor, maxAttempts) && MatchOk(src, f) && MatchOk(src, g) && Appended(src, s, [f, g], t)
    requires Skipped(src, s.anchor, f.s - 4, maxAttempts) && g.s <= End(f) + 4
    ensures Tight(src, t.seqs, t.anchor, maxAttempts) && t.anchor == End(g)
  {
    hide Skipped, Tight, MatchOk;
    assert [f, g][1..] == [g];
    var s1 := State(s.p, End(f), s.seqs + [SequenceOf(src, s.anchor, f)]);
    TightMore(src, s.seqs, s.anchor, f, maxAttempts);
    SkippedNone(src, End(f), g.s - 4, maxAttempts);
    TightOne(src, s1, g, t, maxAttempts);
  }

  /** When the first match is written and the third kept. */
  lemma FirstWritten(src: seq<Byte>, s: State, m1: Found, m2: Found, t: State, f: Found, maxAttempts: nat)
    requires s.p.at == Search3 && s.p.m1 == m1 && Tidy(src, s, maxAttempts) && MatchOk(src, m1)
    requires m1.s <= m2.s && MINMATCH <= m2.length && m2.s <= End(m1) + 1 && f.length != m2.length && End(m1) <= f.s
    requires m2.s < End(m1) ==> m1.s + MINMATCH <= m2.s
    requires t.p == AfterSearch3(s.p.m0, m1, m2, f) && Appended(src, s, WrittenAt3(m1, m2, f), t)
    ensures Tidy(src, t, maxAttempts)
  {
    hide Skipped, Tight, MatchOk, Appended, Genuine;
    if f.s < End(m1) + 3 {
      TightOne(src, s, m1, t, maxAttempts);
      SkippedNone(src, t.anchor, t.p.m0.s - 2, maxAttempts);
    } else {
      FirstLength(src, m1, m2);
      TightOne(src, s, First(m1, m2), t, maxAttempts);
      SkippedNone(src, t.anchor, t.p.m1.s - 4, maxAttempts);
    }
  }

  lemma FirstLength(src: seq<Byte>, m1: Found, m2: Found)
    requires MatchOk(src, m1) && m1.s <= m2.s <= End(m1) + 1 && MINMATCH <= m2.length
    requires m2.s < End(m1) ==> m1.s + MINMATCH <= m2.s
    ensures MatchOk(src, First(m1, m2)) && First(m1, m2).s == m1.s && Second(m1, m2).s <= End(First(m1, m2)) + 4
  {
    hide Genuine;
    if m2.s < End(m1) {
      TrimOk(src, m1, First(m1, m2).length);
    }
  }

  // ---- Whole runs.

  /** Under the run's assumptions each of its states is tidy. */
  lemma {:induction false} RunTidy(src: seq<Byte>, hash: nat -> nat, maxAttempts: nat, trace: seq<State>, k: nat)
    requires ParserRun(src, hash, maxAttempts, trace) && Bytewise(src, hash) && k < |trace|
    ensures Tidy(src, trace[k], maxAttempts)
    decreases k
  {
    hide Bytewise, Tidy, Moved, At;
    if k == 0 {
      StartTidy(src, maxAttempts);
    } else {
      RunTidy(src, hash, maxAttempts, trace, k - 1);
      assert StepTaken(src, hash, maxAttempts, trace[k - 1], trace[k - 1 + 1]);
      NextTidy(src, hash, maxAttempts, trace[k - 1], trace[k]);
    }
  }

  lemma StartTidy(src: seq<Byte>, maxAttempts: nat)
    ensures Tidy(src, START, maxAttempts)
  {
  }

  lemma NextTidy(src: seq<Byte>, hash: nat -> nat, maxAttempts: nat, s: State, t: State)
    requires Bytewise(src, hash) && Tidy(src, s, maxAttempts) && StepTaken(src, hash, maxAttempts, s, t)
    ensures Tidy(src, t, maxAttempts)
  {
    hide Bytewise, Tidy, Moved, At;
    var f :| Moved(src, hash, maxAttempts, s, f, t);
    if s.p.at == Main {
      MainTidy(src, hash, maxAttempts, s, f, t);
    } else if s.p.at == Search2 {
      Search2Tidy(src, hash, maxAttempts, s, f, t);
    } else {
      Search3Tidy(src, hash, maxAttempts, s, f, t);
    }
  }

  /** A position is left as a literal, before the end margin and more than four bytes before a match, only if
      its four bytes do not occur before within reach: at every position where the attempts last. */
  lemma LiteralsAreBare(src: seq<Byte>, hash: nat -> nat, maxAttempts: nat, trace: seq<State>, b: Block)
    requires ParserRun(src, hash, maxAttempts, trace) && RunEnds(src, trace[|trace| - 1], b) && Bytewise(src, hash)
    ensures Tight(src, b.seqs, |src| - |b.tail|, maxAttempts)
    ensures Skipped(src, |src| - |b.tail|, |src|, maxAttempts)
  {
    hide Bytewise, Tight, Bare;
    var s := trace[|trace| - 1];
    RunTidy(src, hash, maxAttempts, trace, |trace| - 1);
    if |src| < MIN_LENGTH {
      forall i: nat | s.anchor <= i < |src| && i + MFLIMIT <= |src| ensures Bare(src, i) {
        BareFirst(src);
      }
    }
  }

  lemma BareFirst(src: seq<Byte>)
    ensures Bare(src, 0)
  {
  }

  // ---- Blocks without sequences.

  lemma {:induction false} ApplyKeeps(out: seq<Byte>, seqs: seq<Sequence>)
    requires ApplyAll(out, seqs).Some?
    ensures |out| <= |ApplyAll(out, seqs).value| && ApplyAll(out, seqs).value[..|out|] == out
    decreases |seqs|
  {
    if seqs != [] {
      var q := seqs[0];
      var o := out + q.literals;
      ExtendRepeats(o, q.offset, q.matchLen);
      var next := Extend(o, q.offset, q.matchLen);
      ApplyKeeps(next, seqs[1..]);
      assert ApplyAll(next, seqs[1..]).value[..|out|] == next[..|o|][..|out|];
    }
  }

  /** The first match of a block repeats what is `offset` before it in the content. */
  lemma FirstRepeats(src: seq<Byte>, b: Block)
    requires Content(b) == Some(src) && b.seqs != []
    ensures var q := b.seqs[0];
      1 <= q.offset <= |q.literals| && Repeats(src, q.offset, |q.literals|, |q.literals| + q.matchLen)
  {
    hide Repeats, Extend;
    var q := b.seqs[0];
    FirstApplied(b.seqs);
    ExtendRepeats(q.literals, q.offset, q.matchLen);
    var next := Extend(q.literals, q.offset, q.matchLen);
    ApplyKeeps(next, b.seqs[1..]);
    hide ApplyAll;
    assert src[..|next|] == ApplyAll([], b.seqs).value[..|next|];
    RepeatsMore(next, src, q.offset, |q.literals|, |next|);
  }

  lemma FirstApplied(seqs: seq<Sequence>)
    requires seqs != [] && ApplyAll([], seqs).Some?
    ensures var q := seqs[0];
      1 <= q.offset <= |q.literals|
      && ApplyAll([], seqs) == ApplyAll(Extend(q.literals, q.offset, q.matchLen), seqs[1..])
  {
    hide Extend;
    assert [] + seqs[0].literals == seqs[0].literals;
  }

  lemma RepeatsMore(a: seq<Byte>, b: seq<Byte>, off: nat, lo: nat, hi: nat)
    requires Repeats(a, off, lo, hi) && |a| <= |b| && b[..|a|] == a
    ensures Repeats(b, off, lo, hi)
  {
    forall i | lo <= i < hi ensures b[i] == b[i - off] {
      assert b[i] == b[..|a|][i] && b[i - off] == b[..|a|][i - off];
    }
  }

  lemma FirstStarts(src: seq<Byte>, b: Block)
    requires Content(b) == Some(src) && b.seqs != [] && EndRules(b) && b.low == 0 && Good(b.seqs)
    ensures |b.seqs[0].literals| + MFLIMIT <= |src|
  {
    hide ApplyAll;
    GoodNonZero(b.seqs);
    WrittenIsApplied([], b.seqs);
    MatchStarts([], b.seqs, b.tail);
  }

  /** A sequence repeats four bytes that are within reach. */
  lemma SequenceRepeats(src: seq<Byte>, out: seq<Byte>, b: Block)
    requires Compressed(src, out, b) && b.seqs != []
    ensures exists i: nat :: i + MFLIMIT <= |src| && !Bare(src, i)
  {
    hide Encode, Content, EndRules;
    var q := b.seqs[0];
    FirstRepeats(src, b);
    FirstStarts(src, b);
    assert Emittable(q);
    var i: nat := |q.literals|;
    RepeatsFour(src, q.offset, i, i + q.matchLen);
    assert !Bare(src, i);
  }

  lemma RepeatsFour(src: seq<Byte>, off: nat, i: nat, end: nat)
    requires Repeats(src, off, i, end) && i + MINMATCH <= end && 1 <= off <= DISTANCE_MAX
    ensures exists j: nat :: j < i <= j + DISTANCE_MAX && SameFour(src, i, j)
  {
    var j: nat := i - off;
    assert SameFour(src, i, j);
  }

  /** Where the attempts last, a block has no sequence exactly if no four bytes before the end margin occur
      before within reach. */
  lemma NoSequence(src: seq<Byte>, hash: nat -> nat, maxAttempts: nat, trace: seq<State>, out: seq<Byte>, b: Block)
    requires ParserRun(src, hash, maxAttempts, trace) && RunEnds(src, trace[|trace| - 1], b) && Bytewise(src, hash)
    requires Compressed(src, out, b) && (|src| <= maxAttempts || DISTANCE_MAX <= maxAttempts)
    ensures b.seqs == [] <==> forall i: nat | i + MFLIMIT <= |src| :: Bare(src, i)
  {
    hide Bytewise, Tight, Bare, Compressed, ParserRun;
    LiteralsAreBare(src, hash, maxAttempts, trace, b);
    if b.seqs == [] {
      NothingWritten(src, out, b, maxAttempts);
    } else {
      SequenceRepeats(src, out, b);
    }
  }

  lemma NothingWritten(src: seq<Byte>, out: seq<Byte>, b: Block, maxAttempts: nat)
    requires Compressed(src, out, b) && b.seqs == []
    ensures |b.tail| == |src|
  {
    assert Content(b) == Some([] + b.tail);
  }

  // ---- At every level.

  /** The optimal parser, too, leaves a block without sequences only if no position where the attempts last has
      the four bytes of an earlier one. */
  lemma NoSequenceOptimal(src: seq<Byte>, hash: nat -> nat, nbSearches: nat, favorDecSpeed: bool, i: nat)
    requires NoMatchBefore(src, hash, |src|, nbSearches, favorDecSpeed) && Bytewise(src, hash) && !favorDecSpeed
    requires i + MFLIMIT <= |src| && Lasting(i, nbSearches)
    ensures Bare(src, i)
  {
    hide Bytewise, NoneLonger, Bare;
    assert NoMatchAt(src, hash, i, nbSearches, favorDecSpeed);
    BareBy(src, i);
  }

  /** At every level an input in which four bytes occur twice, at a position where the attempts last, is not
      stored as literals. */
  lemma NotStored(src: seq<Byte>, hash: nat -> nat, compressionLevel: int, trace: seq<State>, out: seq<Byte>, b: Block, i: nat)
    requires Bytewise(src, hash) && i + MFLIMIT <= |src| && !Bare(src, i) && Compressed(src, out, b)
    requires var (optimal, nbSearches, _) := Level(UsedLevel(compressionLevel));
      && Lasting(i, nbSearches)
      && (!optimal ==> ParserRun(src, hash, nbSearches, trace) && RunEnds(src, trace[|trace| - 1], b))
      && (optimal && b.seqs == [] ==> NoMatchBefore(src, hash, |src|, nbSearches, false))
    ensures b.seqs != []
  {
    hide Bytewise, Tight, Bare, Compressed, ParserRun, NoMatchBefore, UsedLevel, Level;
    var (optimal, nbSearches, _) := Level(UsedLevel(compressionLevel));
    if b.seqs == [] {
      if optimal {
        NoSequenceOptimal(src, hash, nbSearches, false, i);
      } else {
        NothingWritten(src, out, b, nbSearches);
        LiteralsAreBare(src, hash, nbSearches, trace, b);
      }
      assert false;
    }
  }

  /** So an input that begins with five equal bytes is not, at any level. */
  lemma RunNotStored(src: seq<Byte>, hash: nat -> nat, compressionLevel: int, trace: seq<State>, out: seq<Byte>, b: Block)
    requires Bytewise(src, hash) && |src| >= MIN_LENGTH && Compressed(src, out, b)
    requires forall k :: 1 <= k < 5 ==> src[k] == src[0]
    requires var (optimal, nbSearches, _) := Level(UsedLevel(compressionLevel));
      && (!optimal ==> ParserRun(src, hash, nbSearches, trace) && RunEnds(src, trace[|trace| - 1], b))
      && (optimal && b.seqs == [] ==> NoMatchBefore(src, hash, |src|, nbSearches, false))
    ensures b.seqs != []
  {
    hide Bytewise, Compressed, ParserRun, RunEnds, NoMatchBefore, UsedLevel;
    assert src[1] == src[0] && src[2] == src[0] && src[3] == src[0] && src[4] == src[0];
    assert SameFour(src, 1, 0);
    assert !Bare(src, 1);
    NotStored(src, hash, compressionLevel, trace, out, b, 1);
  }
}
