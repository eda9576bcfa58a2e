/** What the sequences of the hash-table compressor are: which positions it looks at, what the table tells it
    there, and how far its matches go. */
module Lz4GreedyTheorems {
  import opened Bytes
  import opened Lz4Format
  import opened Lz4Greedy
  import opened Lz4Encode

  // ---- The search, by position.

  /** From the k-th position looked at to the next one: one byte, then longer and longer strides. */
  function Stride(nb: nat, k: nat): nat { if k == 0 then 1 else (nb + k - 1) / 64 }

  function Position(ip: nat, nb: nat, k: nat): nat {
    if k == 0 then ip else Position(ip, nb, k - 1) + Stride(nb, k - 1)
  }

  /** The search looks at its k-th position if the one behind it is not in the end margin. */
  predicate Looked(n: nat, ip: nat, nb: nat, k: nat) { Position(ip, nb, k + 1) + MFLIMIT <= n + 1 }

  /** The last position with hash h among the first k looked at, or what the table held before. */
  function Latest(t: seq<nat>, hash: nat -> nat, ip: nat, nb: nat, k: nat, h: nat): nat {
    if k == 0 then EntryAt(t, h)
    else if hash(Position(ip, nb, k - 1)) == h then Position(ip, nb, k - 1)
    else Latest(t, hash, ip, nb, k - 1, h)
  }

  /** At the k-th position that entry is near enough and has the same four bytes. */
  predicate HitAt(src: seq<Byte>, t: seq<nat>, hash: nat -> nat, ip: nat, nb: nat, byU16: bool, k: nat) {
    Hit(src, Latest(t, hash, ip, nb, k, hash(Position(ip, nb, k))), Position(ip, nb, k), byU16)
  }

  ghost predicate TableAt(t: seq<nat>, hash: nat -> nat, ip: nat, nb: nat, k: nat, now: seq<nat>) {
    |now| == |t| && forall h: nat | h < |t| :: now[h] == Latest(t, hash, ip, nb, k, h)
  }

  lemma TableStep(t: seq<nat>, hash: nat -> nat, ip: nat, nb: nat, k: nat, now: seq<nat>)
    requires TableAt(t, hash, ip, nb, k, now) && hash(Position(ip, nb, k)) < |t|
    ensures TableAt(t, hash, ip, nb, k + 1, Put(now, hash(Position(ip, nb, k)), Position(ip, nb, k)))
  {
    hide Position;
  }

  lemma {:induction false} PositionAhead(ip: nat, nb: nat, k: nat)
    ensures ip <= Position(ip, nb, k)
  {
    if k > 0 {
      PositionAhead(ip, nb, k - 1);
    }
  }

  /** The i-th position is the first one from the k-th on with a hit, and this is what was found. */
  ghost predicate FirstHit(src: seq<Byte>, t: seq<nat>, hash: nat -> nat, ip: nat, nb: nat, byU16: bool, k: nat, i: nat,
                           r: Probed) {
    && k <= i && Looked(|src|, ip, nb, i) && HitAt(src, t, hash, ip, nb, byU16, i)
    && (forall j: nat | k <= j < i :: !HitAt(src, t, hash, ip, nb, byU16, j))
    && r.ip == Position(ip, nb, i) && r.m == Latest(t, hash, ip, nb, i, hash(r.ip))
  }

  ghost predicate NoHit(src: seq<Byte>, t: seq<nat>, hash: nat -> nat, ip: nat, nb: nat, byU16: bool, k: nat) {
    forall i: nat | k <= i && Looked(|src|, ip, nb, i) :: !HitAt(src, t, hash, ip, nb, byU16, i)
  }

  /** From the k-th position on. */
  lemma {:induction false} SearchFrom(src: seq<Byte>, t: seq<nat>, hash: nat -> nat, ip: nat, nb: nat, byU16: bool, k: nat,
                                      now: seq<nat>)
    requires HashOk(src, hash, |t|) && nb >= 64 && TableAt(t, hash, ip, nb, k, now)
    ensures var r := Probe(src, now, hash, Position(ip, nb, k), Stride(nb, k), nb + k, byU16);
      && (r.found ==> exists i: nat :: FirstHit(src, t, hash, ip, nb, byU16, k, i, r))
      && (!r.found ==> NoHit(src, t, hash, ip, nb, byU16, k))
    decreases |src| - Position(ip, nb, k)
  {
    hide HashOk, Hit, Put, EntryAt, TableAt, Probe, HitAt, Latest, Looked, FirstHit, NoHit, Position;
    var p := Position(ip, nb, k);
    ProbeUnfolds(src, now, hash, p, Stride(nb, k), nb + k, byU16);
    PositionNext(|src|, ip, nb, k);
    if p + Stride(nb, k) > |src| - MFLIMIT + 1 {
      NoneLooked(|src|, ip, nb, k);
      NoHitAtEnd(src, t, hash, ip, nb, byU16, k);
    } else {
      HashInside(src, hash, |t|, p);
      EntryIsLatest(src, t, hash, ip, nb, byU16, k, now);
      var m := EntryAt(now, hash(p));
      if Hit(src, m, p, byU16) {
        HitHere(src, t, hash, ip, nb, byU16, k, Probed(true, p, m, Put(now, hash(p), p)));
      } else {
        TableStep(t, hash, ip, nb, k, now);
        SearchFrom(src, t, hash, ip, nb, byU16, k + 1, Put(now, hash(p), p));
        var r := Probe(src, Put(now, hash(p), p), hash, Position(ip, nb, k + 1), Stride(nb, k + 1), nb + k + 1, byU16);
        HitLater(src, t, hash, ip, nb, byU16, k, k + 1, r);
      }
    }
  }

  lemma PositionNext(n: nat, ip: nat, nb: nat, k: nat)
    ensures Position(ip, nb, k + 1) == Position(ip, nb, k) + Stride(nb, k)
    ensures Looked(n, ip, nb, k) <==> Position(ip, nb, k) + Stride(nb, k) + MFLIMIT <= n + 1
    ensures nb >= 64 ==> Stride(nb, k) >= 1 && Stride(nb, k + 1) == (nb + k) / 64
  {
  }

  lemma NoHitAtEnd(src: seq<Byte>, t: seq<nat>, hash: nat -> nat, ip: nat, nb: nat, byU16: bool, k: nat)
    requires forall i: nat | i >= k :: !Looked(|src|, ip, nb, i)
    ensures NoHit(src, t, hash, ip, nb, byU16, k)
  {
    hide Looked, HitAt;
  }

  lemma HitHere(src: seq<Byte>, t: seq<nat>, hash: nat -> nat, ip: nat, nb: nat, byU16: bool, k: nat, r: Probed)
    requires Looked(|src|, ip, nb, k) && HitAt(src, t, hash, ip, nb, byU16, k)
    requires r.ip == Position(ip, nb, k) && r.m == Latest(t, hash, ip, nb, k, hash(r.ip))
    ensures FirstHit(src, t, hash, ip, nb, byU16, k, k, r)
  {
    hide Looked, HitAt, Position, Latest;
  }

  lemma HitLater(src: seq<Byte>, t: seq<nat>, hash: nat -> nat, ip: nat, nb: nat, byU16: bool, k: nat, next: nat, r: Probed)
    requires next == k + 1 && !HitAt(src, t, hash, ip, nb, byU16, k)
    ensures (exists i: nat :: FirstHit(src, t, hash, ip, nb, byU16, next, i, r))
        ==> exists i: nat :: FirstHit(src, t, hash, ip, nb, byU16, k, i, r)
    ensures NoHit(src, t, hash, ip, nb, byU16, next) ==> NoHit(src, t, hash, ip, nb, byU16, k)
  {
    hide Looked, HitAt, Position, Latest;
    if i: nat :| FirstHit(src, t, hash, ip, nb, byU16, next, i, r) {
      assert FirstHit(src, t, hash, ip, nb, byU16, k, i, r);
    }
  }

  lemma EntryIsLatest(src: seq<Byte>, t: seq<nat>, hash: nat -> nat, ip: nat, nb: nat, byU16: bool, k: nat, now: seq<nat>)
    requires TableAt(t, hash, ip, nb, k, now) && hash(Position(ip, nb, k)) < |t|
    ensures var p := Position(ip, nb, k); var m := EntryAt(now, hash(p));
      m == Latest(t, hash, ip, nb, k, hash(p)) && (Hit(src, m, p, byU16) <==> HitAt(src, t, hash, ip, nb, byU16, k))
  {
    hide Hit, Latest, Position;
  }

  lemma {:induction false} PositionsGrow(ip: nat, nb: nat, k: nat, i: nat)
    requires k <= i
    ensures Position(ip, nb, k) <= Position(ip, nb, i)
    decreases i
  {
    if k < i {
      PositionsGrow(ip, nb, k, i - 1);
    }
  }

  lemma NoneLooked(n: nat, ip: nat, nb: nat, k: nat)
    requires Position(ip, nb, k + 1) > n - MFLIMIT + 1
    ensures forall i: nat | i >= k :: !Looked(n, ip, nb, i)
  {
    forall i: nat | i >= k ensures !Looked(n, ip, nb, i) {
      PositionsGrow(ip, nb, k + 1, i + 1);
    }
  }

  /** The search finds the first position looked at whose table entry is near enough and has the same four
      bytes, and fails exactly if there is none. */
  lemma SearchIs(src: seq<Byte>, t: seq<nat>, hash: nat -> nat, ip: nat, acceleration: nat, byU16: bool)
    requires HashOk(src, hash, |t|) && acceleration >= 1
    ensures var r := Probe(src, t, hash, ip, 1, acceleration * 64, byU16);
      && (r.found ==> exists i: nat :: FirstHit(src, t, hash, ip, acceleration * 64, byU16, 0, i, r))
      && (!r.found <==> NoHit(src, t, hash, ip, acceleration * 64, byU16, 0))
  {
    hide HashOk, Probe, HitAt, Looked, Latest;
    assert TableAt(t, hash, ip, acceleration * 64, 0, t) by {
      forall h: nat | h < |t| ensures t[h] == Latest(t, hash, ip, acceleration * 64, 0, h) {
        LatestFirst(t, hash, ip, acceleration * 64, h);
      }
    }
    SearchFrom(src, t, hash, ip, acceleration * 64, byU16, 0, t);
  }

  lemma LatestFirst(t: seq<nat>, hash: nat -> nat, ip: nat, nb: nat, h: nat)
    ensures Latest(t, hash, ip, nb, 0, h) == EntryAt(t, h)
  {
  }

  /** The table when the search begins: position 0 only, and zeros. */
  function FirstTable(tableSize: nat, hash: nat -> nat): seq<nat> { Put(ZeroTable(tableSize), hash(0), 0) }

  /** An input is stored as literals exactly if at no position looked at the last one before it with the same
      hash, or position 0 when there is none, is near enough and has the same four bytes. */
  lemma NoSequence(src: seq<Byte>, tableSize: nat, hash: nat -> nat, acceleration: nat, byU16: bool)
    requires HashOk(src, hash, tableSize) && acceleration >= 1
    ensures Items(src, tableSize, hash, acceleration, byU16) == [] <==>
            NoHit(src, FirstTable(tableSize, hash), hash, 1, acceleration * 64, byU16, 0)
  {
    hide HashOk, Probe, HitAt, Looked, FirstTable, ChainFrom, Greedy, Back, FirstHit, NoHit, Put, ZeroTable;
    var t := FirstTable(tableSize, hash);
    if |src| <= MFLIMIT {
      PositionFirst(1, acceleration * 64);
      NoneLooked(|src|, 1, acceleration * 64, 0);
      NoHitAtEnd(src, t, hash, 1, acceleration * 64, byU16, 0);
    } else {
      ItemsAre(src, tableSize, hash, acceleration, byU16);
      FirstTableSize(tableSize, hash);
      SearchIs(src, t, hash, 1, acceleration, byU16);
      GreedyUnfolds(src, t, hash, 0, 1, acceleration, byU16);
    }
  }

  lemma PositionFirst(ip: nat, nb: nat)
    ensures Position(ip, nb, 0) == ip && Position(ip, nb, 1) == ip + 1
  {
  }

  lemma FirstTableSize(tableSize: nat, hash: nat -> nat)
    ensures |FirstTable(tableSize, hash)| == tableSize
  {
  }

  /** Every entry of the first table is position 0. */
  lemma FirstEntry(tableSize: nat, hash: nat -> nat, h: nat)
    ensures EntryAt(FirstTable(tableSize, hash), h) == 0
  {
  }

  /** So an input that begins with five equal bytes, and has thirteen at least, is never stored as literals. */
  lemma RunIsFound(src: seq<Byte>, tableSize: nat, hash: nat -> nat, acceleration: nat, byU16: bool)
    requires HashOk(src, hash, tableSize) && acceleration >= 1
    requires |src| >= MIN_LENGTH && forall k :: 1 <= k < 5 ==> src[k] == src[0]
    ensures Items(src, tableSize, hash, acceleration, byU16) != []
  {
    hide HashOk, Items;
    NoSequence(src, tableSize, hash, acceleration, byU16);
    FirstEntry(tableSize, hash, hash(1));
    assert src[1] == src[0] && src[2] == src[1] && src[3] == src[2] && src[4] == src[3];
    PositionFirst(1, acceleration * 64);
    LatestFirst(FirstTable(tableSize, hash), hash, 1, acceleration * 64, hash(1));
    assert Looked(|src|, 1, acceleration * 64, 0);
    assert HitAt(src, FirstTable(tableSize, hash), hash, 1, acceleration * 64, byU16, 0);
  }

  // ---- A run of one byte.

  function Run(x: Byte, n: nat): (r: seq<Byte>)
    ensures |r| == n && forall k :: 0 <= k < n ==> r[k] == x
  {
    seq(n, _ => x)
  }

  /** From the anchor to end the input is z, and not one byte further or before, unless the input begins
      or its last five bytes begin there. */
  ghost predicate RunAt(src: seq<Byte>, anchor: nat, end: nat, z: Byte) {
    && anchor + 5 <= end && end + LASTLITERALS <= |src| && anchor + MIN_LENGTH <= |src|
    && (forall k :: anchor <= k < end ==> src[k] == z)
    && (end + LASTLITERALS == |src| || src[end] != z) && (anchor == 0 || src[anchor - 1] != z)
  }

  lemma RunSequence(src: seq<Byte>, anchor: nat, end: nat, z: Byte)
    requires RunAt(src, anchor, end, z)
    ensures SequenceAt(src, anchor, anchor + 1, anchor) == Sequence([z], 1, end - anchor - 1)
  {
    CommonIs(src, anchor + 5, anchor + 4, |src| - LASTLITERALS, end - anchor - 5);
    assert src[anchor..anchor + 1] == [z];
  }

  lemma RunSearch(src: seq<Byte>, t: seq<nat>, hash: nat -> nat, anchor: nat, end: nat, z: Byte, nb: nat, byU16: bool)
    requires RunAt(src, anchor, end, z) && nb >= 64 && EntryAt(t, hash(anchor + 1)) == anchor
    ensures Probe(src, t, hash, anchor + 1, 1, nb, byU16)
         == Probed(true, anchor + 1, anchor, Put(t, hash(anchor + 1), anchor + 1))
    ensures Back(src, anchor, anchor + 1, anchor) == 0
  {
    hide EntryAt, Put, Probe;
    ProbeUnfolds(src, t, hash, anchor + 1, 1, nb, byU16);
    assert src[anchor] == z && src[anchor + 1] == z && src[anchor + 2] == z && src[anchor + 3] == z && src[anchor + 4] == z;
    assert Hit(src, anchor, anchor + 1, byU16);
  }

  /** One round of the parse over a run whose first position the table knows. */
  lemma RunRound(src: seq<Byte>, t: seq<nat>, hash: nat -> nat, anchor: nat, end: nat, z: Byte, acceleration: nat,
                 byU16: bool)
    requires RunAt(src, anchor, end, z) && acceleration >= 1 && EntryAt(t, hash(anchor + 1)) == anchor
    ensures var t1 := Put(Put(t, hash(anchor + 1), anchor + 1), hash(end - 2), end - 2);
      var g := Greedy(src, t, hash, anchor, anchor + 1, acceleration, byU16);
      var i := Item(Sequence([z], 1, end - anchor - 1), false);
      && (end + MFLIMIT > |src| ==> g == [i])
      && (end + MFLIMIT <= |src| && !Hit(src, EntryAt(t1, hash(end)), end, byU16) ==>
            g == [i] + Greedy(src, Put(t1, hash(end), end), hash, end, end + 1, acceleration, byU16))
  {
    hide EntryAt, Put, Greedy, Probe, ChainFrom, SequenceAt, Back, Hit;
    GreedyUnfolds(src, t, hash, anchor, anchor + 1, acceleration, byU16);
    RunSearch(src, t, hash, anchor, end, z, acceleration * 64, byU16);
    RunSequence(src, anchor, end, z);
    ChainUnfolds(src, Put(t, hash(anchor + 1), anchor + 1), hash, anchor, anchor + 1, anchor, false, byU16);
  }

  /** A run becomes one literal, one match that repeats it, and the last five literals. */
  lemma RunItems(x: Byte, n: nat, tableSize: nat, hash: nat -> nat, acceleration: nat, byU16: bool)
    requires n >= MIN_LENGTH && acceleration >= 1
    ensures Items(Run(x, n), tableSize, hash, acceleration, byU16) == [Item(Sequence([x], 1, n - 6), false)]
  {
    hide FirstTable, EntryAt, Put, Greedy;
    FirstEntry(tableSize, hash, hash(1));
    RunRound(Run(x, n), FirstTable(tableSize, hash), hash, 0, n - LASTLITERALS, x, acceleration, byU16);
    ItemsAre(Run(x, n), tableSize, hash, acceleration, byU16);
  }

  lemma ItemsAre(src: seq<Byte>, tableSize: nat, hash: nat -> nat, acceleration: nat, byU16: bool)
    requires |src| >= MIN_LENGTH && acceleration >= 1
    ensures Items(src, tableSize, hash, acceleration, byU16)
         == Greedy(src, FirstTable(tableSize, hash), hash, 0, 1, acceleration, byU16)
  {
    hide Greedy;
  }

  /** What is written for a run: ten bytes, and one more for every 255 bytes of its length. */
  lemma RunSize(x: Byte, n: nat, out: seq<Byte>, b: Block, tableSize: nat, hash: nat -> nat, acceleration: nat, byU16: bool)
    requires n >= MIN_LENGTH && acceleration >= 1 && Compressed(Run(x, n), out, b)
    requires b.seqs == Quoted(Items(Run(x, n), tableSize, hash, acceleration, byU16))
    ensures |out| == 10 + ExtLen(n - 10)
  {
    hide Items, Ext, Run, ApplyAll, Encode;
    var q := Sequence([x], 1, n - 6);
    RunItems(x, n, tableSize, hash, acceleration, byU16);
    QuotedOne(Item(q, false));
    OneSequence(q, b.tail, b.low);
    ExtLenIs(n - 10);
    ExtLenIs(1);
    ExtLenIs(5);
  }

  lemma OneSequence(q: Sequence, tail: seq<Byte>, low: nat)
    requires SequenceOk(q) && low < 16
    ensures var b := Block([q], tail, low);
      && BlockOk(b)
      && |Encode(b)| == 1 + |Ext(|q.literals|)| + |q.literals| + 2 + |Ext(q.matchLen - MINMATCH)| + 1 + |Ext(|tail|)| + |tail|
      && (Content(b).Some? ==> |Content(b).value| == |q.literals| + q.matchLen + |tail|)
  {
    hide Ext, Nibble;
    NibbleSmall(|q.literals|);
    NibbleSmall(q.matchLen - MINMATCH);
    NibbleSmall(|tail|);
    assert [q][1..] == [];
    assert EncodeSeqs([q]) == EncodeSeq(q) + EncodeSeqs([]);
    assert ApplyAll([], [q]) == Apply([], q);
  }

  lemma ThousandZeros()
    ensures var b := Block([Sequence([0], 1, 994)], Run(0, 5), 0);
      BlockOk(b) && Encode(b) == [0x1F, 0, 1, 0, 0xFF, 0xFF, 0xFF, 0xD2, 0x50, 0, 0, 0, 0, 0]
  {
    var q := Sequence([0], 1, 994);
    assert [q][1..] == [];
    assert EncodeSeqs([q]) == EncodeSeq(q) + EncodeSeqs([]) == EncodeSeq(q);
    assert LenBytes(975) == [255] + LenBytes(720) && LenBytes(720) == [255] + LenBytes(465);
    assert LenBytes(465) == [255] + LenBytes(210);
    assert EncodeSeq(q) == [0x1F, 0, 1, 0, 0xFF, 0xFF, 0xFF, 0xD2];
    assert Run(0, 5) == [0, 0, 0, 0, 0];
  }

  // ---- Two runs.

  /** The second run, too, becomes one literal and one match, if its positions hash alike: the search goes on
      behind the first match, whose end is in the table. */
  lemma TwoRuns(x: Byte, y: Byte, n: nat, m: nat, tableSize: nat, hash: nat -> nat, acceleration: nat, byU16: bool)
    requires x != y && n >= 5 && m >= 13 && acceleration >= 1
    requires hash(n) < tableSize && hash(n + 1) == hash(n)
    ensures Items(Run(x, n) + Run(y, m), tableSize, hash, acceleration, byU16)
         == [Item(Sequence([x], 1, n - 1), false), Item(Sequence([y], 1, m - 6), false)]
  {
    hide EntryAt, Put, Run, Greedy, Hit, ZeroTable, RunAt, Items, FirstTable, Hit;
    var src := Run(x, n) + Run(y, m);
    var t := FirstTable(tableSize, hash);
    ItemsAre(src, tableSize, hash, acceleration, byU16);
    FirstEntry(tableSize, hash, hash(1));
    EntriesEarly(tableSize, hash, n);
    TwoRunsAt(src, x, y, n, m);
    NoHitBehind(src, x, y, n, m, EntryAt(Put(Put(t, hash(1), 1), hash(n - 2), n - 2), hash(n)), byU16);
    RunTwice(src, t, hash, n, n + m - LASTLITERALS, x, y, acceleration, byU16);
  }

  lemma RunTwice(src: seq<Byte>, t: seq<nat>, hash: nat -> nat, n: nat, end: nat, x: Byte, y: Byte, acceleration: nat,
                 byU16: bool)
    requires RunAt(src, 0, n, x) && RunAt(src, n, end, y) && end + LASTLITERALS == |src| && acceleration >= 1
    requires n >= 5 && n + MFLIMIT <= |src| && EntryAt(t, hash(1)) == 0
    requires var t1 := Put(Put(t, hash(1), 1), hash(n - 2), n - 2);
      !Hit(src, EntryAt(t1, hash(n)), n, byU16) && EntryAt(Put(t1, hash(n), n), hash(n + 1)) == n
    ensures Greedy(src, t, hash, 0, 1, acceleration, byU16)
         == [Item(Sequence([x], 1, n - 1), false), Item(Sequence([y], 1, end - n - 1), false)]
  {
    hide EntryAt, Put, Greedy, Hit, RunAt;
    var t1 := Put(Put(t, hash(1), 1), hash(n - 2), n - 2);
    RunRound(src, t, hash, 0, n, x, acceleration, byU16);
    RunRound(src, Put(t1, hash(n), n), hash, n, end, y, acceleration, byU16);
  }

  lemma TwoRunsAt(src: seq<Byte>, x: Byte, y: Byte, n: nat, m: nat)
    requires src == Run(x, n) + Run(y, m) && x != y && n >= 5 && m >= 13
    ensures RunAt(src, 0, n, x) && RunAt(src, n, n + m - LASTLITERALS, y)
  {
    hide Run;
  }

  lemma NoHitBehind(src: seq<Byte>, x: Byte, y: Byte, n: nat, m: nat, e: nat, byU16: bool)
    requires src == Run(x, n) + Run(y, m) && x != y && e < n && m >= 13
    ensures !Hit(src, e, n, byU16)
  {
    hide Run;
    assert src[n] == y && src[e] == x;
  }

  lemma EntriesEarly(tableSize: nat, hash: nat -> nat, n: nat)
    requires n >= 5 && hash(n) < tableSize && hash(n + 1) == hash(n)
    ensures var t1 := Put(Put(FirstTable(tableSize, hash), hash(1), 1), hash(n - 2), n - 2);
      EntryAt(t1, hash(n)) < n && EntryAt(Put(t1, hash(n), n), hash(n + 1)) == n
  {
  }

  // ---- How far matches go.

  /** Every match goes on to the last five bytes or to a difference, and begins at the anchor, at the
      start of what it repeats, or behind a difference. */
  predicate Maximal(src: seq<Byte>, seqs: seq<Sequence>, anchor: nat) {
    seqs == [] || (MaximalAt(src, seqs[0], anchor)
                   && Maximal(src, seqs[1..], anchor + |seqs[0].literals| + seqs[0].matchLen))
  }

  predicate MaximalAt(src: seq<Byte>, q: Sequence, anchor: nat) {
    var p := anchor + |q.literals|;
    var end := p + q.matchLen;
    && end + LASTLITERALS <= |src| && 1 <= q.offset <= p && q.literals == src[anchor..p]
    && (end + LASTLITERALS == |src| || src[end] != src[end - q.offset])
    && (p == anchor || p == q.offset || src[p - 1] != src[p - 1 - q.offset])
  }

  lemma {:induction false} CommonStops(src: seq<Byte>, p: nat, q: nat, limit: nat)
    requires q <= p <= limit <= |src|
    ensures var c := Common(src, p, q, limit); p + c <= limit && (p + c < limit ==> src[p + c] != src[q + c])
    decreases limit - p
  {
    if p < limit && src[p] == src[q] {
      CommonStops(src, p + 1, q + 1, limit);
    }
  }

  lemma {:induction false} BackStops(src: seq<Byte>, anchor: nat, ip: nat, m: nat)
    requires anchor <= ip <= |src| && m <= ip
    ensures var k := Back(src, anchor, ip, m);
      k <= ip - anchor && k <= m && (ip - k == anchor || m == k || src[ip - k - 1] != src[m - k - 1])
    decreases ip
  {
    if ip > anchor && m > 0 && src[ip - 1] == src[m - 1] {
      BackStops(src, anchor, ip - 1, m - 1);
    }
  }

  lemma SequenceMaximal(src: seq<Byte>, anchor: nat, ip: nat, m: nat)
    requires anchor <= ip && m < ip && ip + MFLIMIT <= |src|
    requires ip == anchor || m == 0 || src[ip - 1] != src[m - 1]
    ensures MaximalAt(src, SequenceAt(src, anchor, ip, m), anchor)
  {
    hide Common;
    CommonStops(src, ip + MINMATCH, m + MINMATCH, |src| - LASTLITERALS);
  }

  lemma {:induction false} ChainMaximal(src: seq<Byte>, t: seq<nat>, hash: nat -> nat, anchor: nat, ip: nat, m: nat,
                                        chained: bool, byU16: bool)
    requires anchor <= ip && m < ip && ip + MFLIMIT <= |src|
    requires ip == anchor || m == 0 || src[ip - 1] != src[m - 1]
    ensures Maximal(src, Quoted(ChainFrom(src, t, hash, anchor, ip, m, chained, byU16).items), anchor)
    decreases |src| - ip
  {
    hide Put, EntryAt, ChainFrom, SequenceAt, MaximalAt, Maximal, Hit;
    var q := SequenceAt(src, anchor, ip, m);
    var end := ip + q.matchLen;
    SequenceMaximal(src, anchor, ip, m);
    ChainUnfolds(src, t, hash, anchor, ip, m, chained, byU16);
    MaximalNone(src, end);
    var rest: seq<Item> := [];
    if end < |src| - MFLIMIT + 1 {
      var t1 := Put(t, hash(end - 2), end - 2);
      var m1 := EntryAt(t1, hash(end));
      if Hit(src, m1, end, byU16) {
        rest := ChainFrom(src, Put(t1, hash(end), end), hash, end, end, m1, true, byU16).items;
        ChainMaximal(src, Put(t1, hash(end), end), hash, end, end, m1, true, byU16);
      }
    }
    QuotedOne(Item(q, chained));
    QuotedJoin([Item(q, chained)], rest);
    assert [Item(q, chained)] + [] == [Item(q, chained)];
    MaximalMore(src, q, Quoted(rest), anchor);
  }

  lemma MaximalNone(src: seq<Byte>, anchor: nat)
    ensures Maximal(src, [], anchor)
  {
  }

  lemma MaximalMore(src: seq<Byte>, q: Sequence, rest: seq<Sequence>, anchor: nat)
    requires MaximalAt(src, q, anchor) && Maximal(src, rest, anchor + |q.literals| + q.matchLen)
    ensures Maximal(src, [q] + rest, anchor)
  {
    hide MaximalAt;
    assert ([q] + rest)[1..] == rest;
  }

  lemma {:induction false} MaximalJoin(src: seq<Byte>, a: seq<Item>, b: seq<Item>, anchor: nat)
    requires Maximal(src, Quoted(a), anchor) && Maximal(src, Quoted(b), anchor + Covered(a))
    ensures Maximal(src, Quoted(a + b), anchor)
    decreases |a|
  {
    hide MaximalAt;
    if a == [] {
      assert a + b == b;
    } else {
      assert Quoted(a)[1..] == Quoted(a[1..]) && Quoted(a)[0] == a[0].q;
      assert a + b == [a[0]] + (a[1..] + b);
      QuotedJoin([a[0]], a[1..] + b);
      QuotedOne(a[0]);
      MaximalJoin(src, a[1..], b, anchor + |a[0].q.literals| + a[0].q.matchLen);
      MaximalMore(src, a[0].q, Quoted(a[1..] + b), anchor);
    }
  }

  /** The matches of the whole parse. */
  lemma {:induction false} GreedyMaximal(src: seq<Byte>, t: seq<nat>, hash: nat -> nat, anchor: nat, ip: nat,
                                         acceleration: nat, byU16: bool)
    requires anchor <= ip && acceleration >= 1
    ensures Maximal(src, Quoted(Greedy(src, t, hash, anchor, ip, acceleration, byU16)), anchor)
    decreases |src| + 1 - ip
  {
    hide Probe, ChainFrom, Greedy, Maximal, Back, Covered;
    var s := Probe(src, t, hash, ip, 1, acceleration * 64, byU16);
    GreedyUnfolds(src, t, hash, anchor, ip, acceleration, byU16);
    MaximalNone(src, anchor);
    assert Quoted([]) == [];
    if s.found {
      BackStops(src, anchor, s.ip, s.m);
      var k := Back(src, anchor, s.ip, s.m);
      var c := ChainFrom(src, s.table, hash, anchor, s.ip - k, s.m - k, false, byU16);
      ChainMaximal(src, s.table, hash, anchor, s.ip - k, s.m - k, false, byU16);
      ChainCovers(src, s.table, hash, anchor, s.ip - k, s.m - k, false, byU16);
      if !(c.atEnd || c.ip < ip) {
        GreedyMaximal(src, c.table, hash, c.ip, c.ip + 1, acceleration, byU16);
        MaximalJoin(src, c.items, Greedy(src, c.table, hash, c.ip, c.ip + 1, acceleration, byU16), anchor);
      }
    }
  }

  lemma ItemsMaximal(src: seq<Byte>, tableSize: nat, hash: nat -> nat, acceleration: nat, byU16: bool)
    requires acceleration >= 1
    ensures Maximal(src, Quoted(Items(src, tableSize, hash, acceleration, byU16)), 0)
  {
    hide Greedy, Maximal, Put, ZeroTable;
    MaximalNone(src, 0);
    assert Quoted([]) == [];
    if |src| > MFLIMIT {
      ItemsAre(src, tableSize, hash, acceleration, byU16);
      GreedyMaximal(src, FirstTable(tableSize, hash), hash, 0, 1, acceleration, byU16);
    }
  }
}
