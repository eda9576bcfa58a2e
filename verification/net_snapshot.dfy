/** Snapshots of the replicated entities, and packets that carry the difference between two of them. */
module NetSnapshot {
  import opened Bytes

  const MTU := 1024
  const MAX_ENTITIES := 32
  const MAX_SNAPSHOTS := 256
  const HEADER_SIZE := 8
  const PACKET_HEADER_SIZE := 8

  /** An entity in a snapshot: type, sequence number and its replicated components, back to back. */
  datatype Record = Record(kind: U32, sequence: U32, data: seq<Byte>)

  /** An entity in a packet: without the data when it did not change. */
  datatype Entry = Entry(kind: U32, sequence: U32, diff: bool, data: seq<Byte>)

  // ---- Bytes.

  function HeaderBytes(kind: U32, sequence: U32): (r: seq<Byte>)
    ensures |r| == HEADER_SIZE
  {
    WordBytes(kind) + WordBytes(sequence)
  }

  lemma HeaderBack(kind: U32, sequence: U32, pre: nat, s: seq<Byte>, rest: seq<Byte>)
    requires pre <= |s| && s[pre..] == HeaderBytes(kind, sequence) + rest
    ensures pre + HEADER_SIZE <= |s| && Read32(s, pre) == kind && Read32(s, pre + 4) == sequence
    ensures s[pre + HEADER_SIZE..] == rest
  {
    var h := HeaderBytes(kind, sequence);
    var t := s[pre..];
    forall k | 0 <= k < 8 ensures s[pre + k] == h[k] {
      assert t[k] == h[k];
    }
    assert forall k | 0 <= k < 4 :: s[pre + k] == WordBytes(kind)[k] && s[pre + 4 + k] == WordBytes(sequence)[k];
    WordAt(s, pre, WordBytes(kind));
    WordAt(s, pre + 4, WordBytes(sequence));
    WordBack(kind);
    WordBack(sequence);
    assert s[pre + HEADER_SIZE..] == t[HEADER_SIZE..];
  }

  function RecordBytes(r: Record): seq<Byte> { HeaderBytes(r.kind, r.sequence) + r.data }

  function Flatten(rs: seq<Record>): seq<Byte> {
    if rs == [] then [] else RecordBytes(rs[0]) + Flatten(rs[1..])
  }

  function EntryBytes(e: Entry): seq<Byte> {
    HeaderBytes(e.kind, e.sequence) + [if e.diff then 1 else 0] + e.data
  }

  function Pack(es: seq<Entry>): seq<Byte> {
    if es == [] then [] else EntryBytes(es[0]) + Pack(es[1..])
  }

  lemma {:induction false} FlattenSnoc(rs: seq<Record>, r: Record)
    ensures Flatten(rs + [r]) == Flatten(rs) + RecordBytes(r)
  {
    hide RecordBytes;
    if rs == [] {
      assert rs + [r] == [r] && [r][1..] == [];
    } else {
      assert (rs + [r])[1..] == rs[1..] + [r];
      FlattenSnoc(rs[1..], r);
    }
  }

  /** Every record has a registered type and that type's size. */
  ghost predicate Typed(rs: seq<Record>, sizes: seq<nat>) {
    forall r | r in rs :: RecordTyped(r, sizes)
  }

  predicate RecordTyped(r: Record, sizes: seq<nat>) {
    r.kind < |sizes| && |r.data| == sizes[r.kind]
  }

  // ---- Taking a snapshot.

  /** The entities up to the first invalid one that still fit behind `used` bytes. */
  function Fitting(entities: seq<Option<Record>>, used: nat): (r: seq<Record>) {
    if entities == [] || entities[0].None? then []
    else
      var e := entities[0].value;
      if |e.data| + HEADER_SIZE < MTU - used
      then [e] + Fitting(entities[1..], used + HEADER_SIZE + |e.data|)
      else Fitting(entities[1..], used)
  }

  /** An entity before the first invalid one is taken if and only if it fits behind those taken before it; a
      larger one before it that did not fit is no hindrance. */
  lemma {:induction false} FittingTakes(entities: seq<Option<Record>>, used: nat, k: nat)
    requires k < |entities| && forall i | 0 <= i <= k :: entities[i].Some?
    ensures var before := Fitting(entities[..k], used); var e := entities[k].value;
      Fitting(entities[..k + 1], used)
      == before + if |e.data| + HEADER_SIZE < MTU - used - |Flatten(before)| then [e] else []
    decreases |entities|
  {
    hide RecordBytes, Flatten;
    var first := entities[0].value;
    FlattenNone();
    if k == 0 {
      assert entities[..0] == [] && entities[..1] == [entities[0]] && entities[..1][1..] == [];
    } else {
      assert entities[..k][1..] == entities[1..][..k - 1] && entities[..k + 1][1..] == entities[1..][..k];
      if |first.data| + HEADER_SIZE < MTU - used {
        FittingTakes(entities[1..], used + HEADER_SIZE + |first.data|, k - 1);
        var rest := Fitting(entities[1..][..k - 1], used + HEADER_SIZE + |first.data|);
        FlattenCons(first, rest);
        assert [first] + rest + [entities[k].value] == [first] + (rest + [entities[k].value]);
      } else {
        FittingTakes(entities[1..], used, k - 1);
      }
    }
  }

  lemma FlattenCons(r: Record, rs: seq<Record>)
    ensures |Flatten([r] + rs)| == HEADER_SIZE + |r.data| + |Flatten(rs)|
  {
    assert ([r] + rs)[1..] == rs;
    RecordSize(r);
  }

  /** And nothing behind the first invalid one. */
  lemma {:induction false} FittingStops(entities: seq<Option<Record>>, used: nat, k: nat)
    requires k < |entities| && entities[k].None? && forall i | 0 <= i < k :: entities[i].Some?
    ensures Fitting(entities, used) == Fitting(entities[..k], used)
    decreases |entities|
  {
    if k > 0 {
      var first := entities[0].value;
      assert entities[..k][1..] == entities[1..][..k - 1];
      FittingStops(entities[1..], if |first.data| + HEADER_SIZE < MTU - used then used + HEADER_SIZE + |first.data| else used,
                   k - 1);
    } else {
      assert entities[..0] == [];
    }
  }

  /** snapshot_t. */
  datatype Snapshot = Snapshot(sequence: int, data: seq<Byte>)

  /** The bytes of a snapshot. */
  method TakeSnapshot(entities: seq<Option<Record>>) returns (cur: seq<Byte>)
    ensures cur == Flatten(Fitting(entities, 0)) && |cur| < MTU
  {
    hide Flatten, RecordBytes, HeaderBytes, Fitting;
    cur := [];
    var i := 0;
    ghost var taken: seq<Record> := [];
    assert entities[0..] == entities;
    FlattenNone();
    while i < |entities| && entities[i].Some?
      invariant 0 <= i <= |entities|
      invariant Fitting(entities, 0) == taken + Fitting(entities[i..], |cur|)
      invariant cur == Flatten(taken) && |cur| < MTU
    {
      var e := entities[i].value;
      ghost var used := |cur|;
      FittingNext(entities, i, used);
      if |e.data| + HEADER_SIZE < MTU - |cur| {
        FlattenSnoc(taken, e);
        RecordSize(e);
        cur := cur + HeaderBytes(e.kind, e.sequence) + e.data;
        assert (taken + [e]) + Fitting(entities[i + 1..], |cur|) == taken + ([e] + Fitting(entities[i + 1..], |cur|));
        taken := taken + [e];
      }
      i := i + 1;
    }
    FittingEnd(entities, i, |cur|);
    assert taken + [] == taken;
  }

  lemma FittingNext(entities: seq<Option<Record>>, i: nat, used: nat)
    requires i < |entities| && entities[i].Some?
    ensures var e := entities[i].value;
      Fitting(entities[i..], used) ==
        if |e.data| + HEADER_SIZE < MTU - used then [e] + Fitting(entities[i + 1..], used + HEADER_SIZE + |e.data|)
        else Fitting(entities[i + 1..], used)
  {
    assert entities[i..][1..] == entities[i + 1..];
  }

  lemma FittingEnd(entities: seq<Option<Record>>, i: nat, used: nat)
    requires i <= |entities| && (i < |entities| ==> entities[i].None?)
    ensures Fitting(entities[i..], used) == []
  {
  }

  /** snapshot_entities: the ring slot of the current sequence number is overwritten. */
  method SnapshotEntities(snapshots: array<Snapshot>, sequence: nat, entities: seq<Option<Record>>)
    requires snapshots.Length == MAX_SNAPSHOTS
    modifies snapshots
    ensures snapshots[..] == old(snapshots[..])[sequence % MAX_SNAPSHOTS := Snapshot(sequence, Flatten(Fitting(entities, 0)))]
    ensures |snapshots[sequence % MAX_SNAPSHOTS].data| < MTU
  {
    hide Flatten, Fitting;
    var cur := TakeSnapshot(entities);
    var slot := sequence % MAX_SNAPSHOTS;
    snapshots[slot] := Snapshot(sequence, cur);
    assert snapshots[..] == old(snapshots[..])[slot := Snapshot(sequence, cur)];
  }

  lemma FlattenNone()
    ensures Flatten([]) == []
  {
  }

  lemma RecordSize(e: Record)
    ensures RecordBytes(e) == HeaderBytes(e.kind, e.sequence) + e.data
    ensures |RecordBytes(e)| == HEADER_SIZE + |e.data|
  {
  }

  // ---- The difference.

  /** What is sent for the current snapshot against a baseline that the peer has: both are walked in
      order, the baseline only over entities that are still there. */
  function Delta(cur: seq<Record>, base: seq<Record>): seq<Entry>
    decreases |cur|
  {
    if cur == [] then []
    else
      var c := cur[0];
      if base != [] && base[0].sequence == c.sequence then
        [EntryOf(c, base[0].data != c.data)] + Delta(cur[1..], base[1..])
      else
        [EntryOf(c, true)] + Delta(cur[1..], base)
  }

  function EntryOf(c: Record, diff: bool): Entry {
    Entry(c.kind, c.sequence, diff, if diff then c.data else [])
  }

  /** An entity keeps its type from one snapshot to the next. */
  ghost predicate SameKinds(cur: seq<Record>, base: seq<Record>) {
    forall c, b | c in cur && b in base && c.sequence == b.sequence :: c.kind == b.kind
  }

  /** Data is left out only when the baseline has the same bytes for the entity. */
  lemma {:induction false} LeftOutOnlyIfSame(cur: seq<Record>, base: seq<Record>, i: nat)
    requires i < |cur|
    ensures |Delta(cur, base)| == |cur|
    ensures Delta(cur, base)[i] == EntryOf(cur[i], Delta(cur, base)[i].diff)
    ensures !Delta(cur, base)[i].diff ==> exists b | b in base :: b.sequence == cur[i].sequence && b.data == cur[i].data
    decreases |cur|
  {
    hide EntryOf;
    var c := cur[0];
    var base' := if base != [] && base[0].sequence == c.sequence then base[1..] else base;
    if i > 0 {
      LeftOutOnlyIfSame(cur[1..], base', i - 1);
    } else {
      DeltaSize(cur[1..], base');
      EntryDiff(c);
    }
  }

  lemma EntryDiff(c: Record)
    ensures EntryOf(c, true).diff && !EntryOf(c, false).diff
  {
  }

  lemma {:induction false} DeltaSize(cur: seq<Record>, base: seq<Record>)
    ensures |Delta(cur, base)| == |cur|
    decreases |cur|
  {
    if cur != [] {
      DeltaSize(cur[1..], if base != [] && base[0].sequence == cur[0].sequence then base[1..] else base);
    }
  }

  // ---- The size of a packet.

  /** What packet_send leaves for the entities behind the packet's own header. */
  const PACKET_CAPACITY := MTU - PACKET_HEADER_SIZE

  /** The data that a packet leaves out. */
  function LeftOut(cur: seq<Record>, base: seq<Record>): nat
    decreases |cur|
  {
    if cur == [] then 0
    else if base != [] && base[0].sequence == cur[0].sequence then
      (if base[0].data == cur[0].data then |cur[0].data| else 0) + LeftOut(cur[1..], base[1..])
    else LeftOut(cur[1..], base)
  }

  /** A packet is one byte per entity longer than the snapshot, less the data that it leaves out. */
  lemma {:induction false} PacketSize(cur: seq<Record>, base: seq<Record>)
    ensures |Pack(Delta(cur, base))| + LeftOut(cur, base) == |Flatten(cur)| + |cur|
    decreases |cur|
  {
    if cur != [] {
      PacketSize(cur[1..], if base != [] && base[0].sequence == cur[0].sequence then base[1..] else base);
    }
  }

  lemma {:induction false} NothingLeftOut(cur: seq<Record>)
    ensures LeftOut(cur, []) == 0
  {
    if cur != [] {
      NothingLeftOut(cur[1..]);
    }
  }

  /** The code does not look at the capacity it is given. A packet stays inside it exactly if the
      snapshot, with a byte per entity and without the data left out, does. With no baseline nothing
      is left out; so packets fit whatever the baseline exactly if snapshot size and number of entities
      together do. */
  lemma PacketFits(cur: seq<Record>, base: seq<Record>)
    ensures |Pack(Delta(cur, base))| <= PACKET_CAPACITY <==> |Flatten(cur)| + |cur| <= PACKET_CAPACITY + LeftOut(cur, base)
    ensures |Pack(Delta(cur, []))| <= PACKET_CAPACITY <==> |Flatten(cur)| + |cur| <= PACKET_CAPACITY
    ensures (forall b: seq<Record> :: |Pack(Delta(cur, b))| <= PACKET_CAPACITY) <==> |Flatten(cur)| + |cur| <= PACKET_CAPACITY
  {
    hide Pack, Delta, Flatten, LeftOut;
    PacketSize(cur, base);
    PacketSize(cur, []);
    NothingLeftOut(cur);
    forall b: seq<Record> ensures |Pack(Delta(cur, b))| <= |Flatten(cur)| + |cur| {
      PacketSize(cur, b);
    }
  }

  /** The entities of one type, all of the same size. */
  function Crowd(n: nat, kind: U32, data: seq<Byte>): seq<Option<Record>>
    requires n <= MAX_ENTITIES
  {
    seq(n, i requires 0 <= i < n => Some(Record(kind, i, data)))
  }

  /** Thirty-two entities of twenty-three replicated bytes each: all fit into the snapshot, and the first
      packet is eight bytes longer than its capacity. */
  lemma PacketOverflows(kind: U32, data: seq<Byte>)
    requires |data| == 23
    ensures var cur := Fitting(Crowd(MAX_ENTITIES, kind, data), 0);
      |cur| == MAX_ENTITIES && |Flatten(cur)| == 992 && |Pack(Delta(cur, []))| == PACKET_CAPACITY + 8
  {
    hide Pack, Delta;
    var cur := Fitting(Crowd(MAX_ENTITIES, kind, data), 0);
    CrowdFits(Crowd(MAX_ENTITIES, kind, data), 23, 0);
    PacketSize(cur, []);
    NothingLeftOut(cur);
  }

  lemma {:induction false} CrowdFits(entities: seq<Option<Record>>, size: nat, used: nat)
    requires forall e | e in entities :: e.Some? && |e.value.data| == size
    requires used + |entities| * (HEADER_SIZE + size) < MTU
    ensures |Fitting(entities, used)| == |entities|
    ensures |Flatten(Fitting(entities, used))| == |entities| * (HEADER_SIZE + size)
    decreases |entities|
  {
    if entities != [] {
      assert entities[0] in entities;
      assert |entities| * (HEADER_SIZE + size) == (HEADER_SIZE + size) + |entities[1..]| * (HEADER_SIZE + size);
      Product(|entities[1..]|, HEADER_SIZE + size);
      CrowdFits(entities[1..], size, used + HEADER_SIZE + size);
      RecordSize(entities[0].value);
    }
  }

  lemma Product(a: nat, b: nat)
    ensures a * b >= 0
  {
  }

  /** The cursor stands at the rest of the records. */
  ghost predicate At(s: seq<Byte>, iter: nat, rs: seq<Record>) {
    iter <= |s| && s[iter..] == Flatten(rs)
  }

  lemma AtNext(s: seq<Byte>, iter: nat, rs: seq<Record>)
    requires At(s, iter, rs)
    ensures iter < |s| <==> rs != []
    ensures rs != [] ==>
      var r := rs[0];
      && iter + HEADER_SIZE + |r.data| <= |s|
      && Read32(s, iter) == r.kind && Read32(s, iter + 4) == r.sequence
      && s[iter + HEADER_SIZE..iter + HEADER_SIZE + |r.data|] == r.data
      && s[iter..iter + HEADER_SIZE] == HeaderBytes(r.kind, r.sequence)
      && At(s, iter + HEADER_SIZE + |r.data|, rs[1..])
  {
    hide HeaderBytes, Read32;
    if rs != [] {
      var r := rs[0];
      var rest := Flatten(rs[1..]);
      var t := s[iter..];
      assert t == HeaderBytes(r.kind, r.sequence) + (r.data + rest);
      HeaderBack(r.kind, r.sequence, iter, s, r.data + rest);
      var u := s[iter + HEADER_SIZE..];
      assert u[..|r.data|] == r.data && u[|r.data|..] == rest;
      assert t[..HEADER_SIZE] == HeaderBytes(r.kind, r.sequence);
    }
  }

  lemma DeltaNext(cur: seq<Record>, base: seq<Record>)
    requires cur != []
    ensures base != [] && base[0].sequence == cur[0].sequence ==>
      Delta(cur, base) == [EntryOf(cur[0], base[0].data != cur[0].data)] + Delta(cur[1..], base[1..])
    ensures base == [] || base[0].sequence != cur[0].sequence ==>
      Delta(cur, base) == [EntryOf(cur[0], true)] + Delta(cur[1..], base)
  {
  }

  /** Types of the remaining records, as the loop needs them. */
  lemma KindsNext(cur: seq<Record>, base: seq<Record>, sizes: seq<nat>)
    requires Typed(cur, sizes) && Typed(base, sizes) && SameKinds(cur, base) && cur != []
    ensures RecordTyped(cur[0], sizes) && Typed(cur[1..], sizes) && SameKinds(cur[1..], base)
    ensures base != [] ==> RecordTyped(base[0], sizes) && Typed(base[1..], sizes) && SameKinds(cur[1..], base[1..])
    ensures base != [] && base[0].sequence == cur[0].sequence ==> |base[0].data| == |cur[0].data|
  {
  }

  /** packet_add_entities, after the baseline was chosen. */
  method AddEntities(cur: seq<Byte>, ack: seq<Byte>, sizes: seq<nat>, ghost curs: seq<Record>, ghost acks: seq<Record>)
    returns (packet: seq<Byte>)
    requires cur == Flatten(curs) && ack == Flatten(acks)
    requires Typed(curs, sizes) && Typed(acks, sizes) && SameKinds(curs, acks)
    ensures packet == Pack(Delta(curs, acks))
  {
    hide Pack, Delta, Flatten, Typed, SameKinds, At, HeaderBytes, Read32, EntryBytes;
    var curIter, ackIter := 0, 0;
    packet := [];
    ghost var c, b := curs, acks;
    AtBegin(cur, curs);
    AtBegin(ack, acks);
    PackNone();
    while curIter < |cur|
      invariant 0 <= curIter && 0 <= ackIter
      invariant At(cur, curIter, c) && At(ack, ackIter, b)
      invariant Typed(c, sizes) && Typed(b, sizes) && SameKinds(c, b)
      invariant Pack(Delta(curs, acks)) == packet + Pack(Delta(c, b))
      decreases |cur| - curIter
    {
      AtNext(cur, curIter, c);
      AtNext(ack, ackIter, b);
      KindsNext(c, b, sizes);
      DeltaNext(c, b);
      ghost var r := c[0];
      var kind := Read32(cur, curIter);
      var sequence := Read32(cur, curIter + 4);
      var header := cur[curIter..curIter + HEADER_SIZE];
      curIter := curIter + HEADER_SIZE;
      var size := sizes[kind];
      var diff := true;
      if ackIter < |ack| && Read32(ack, ackIter + 4) == sequence {
        diff := cur[curIter..curIter + size] != ack[ackIter + HEADER_SIZE..ackIter + HEADER_SIZE + size];
        ackIter := ackIter + HEADER_SIZE + size;
        b := b[1..];
      }
      ghost var before := packet;
      packet := packet + header + [if diff then 1 else 0];
      if diff {
        packet := packet + cur[curIter..curIter + size];
      }
      curIter := curIter + size;
      c := c[1..];
      EntryWritten(before, packet, r, diff, Delta(c, b));
    }
    AtNext(cur, curIter, c);
    DeltaNone(b);
    PackNone();
  }

  lemma AtBegin(s: seq<Byte>, rs: seq<Record>)
    requires s == Flatten(rs)
    ensures At(s, 0, rs)
  {
  }

  lemma PackNone()
    ensures Pack([]) == []
  {
  }

  lemma DeltaNone(b: seq<Record>)
    ensures Delta([], b) == []
  {
  }

  lemma EntryWritten(before: seq<Byte>, packet: seq<Byte>, r: Record, diff: bool, rest: seq<Entry>)
    requires packet == before + HeaderBytes(r.kind, r.sequence) + [if diff then 1 else 0] + (if diff then r.data else [])
    ensures before + Pack([EntryOf(r, diff)] + rest) == packet + Pack(rest)
  {
    hide HeaderBytes;
    var e := EntryOf(r, diff);
    assert ([e] + rest)[1..] == rest;
    assert EntryBytes(e) == HeaderBytes(r.kind, r.sequence) + [if diff then 1 else 0] + (if diff then r.data else []);
    assert packet == before + EntryBytes(e);
  }

  // ---- The ring of snapshots.

  /** The ring holds the last 256 snapshots, and no slot passes for an older one. */
  ghost predicate RingOk(ring: seq<Snapshot>, history: seq<seq<Record>>) {
    |ring| == MAX_SNAPSHOTS && forall k | 0 <= k < |history| :: SlotOf(ring, history, k)
  }

  predicate SlotOf(ring: seq<Snapshot>, history: seq<seq<Record>>, k: nat)
    requires |ring| == MAX_SNAPSHOTS && k < |history|
  {
    if k + MAX_SNAPSHOTS >= |history| then ring[k % MAX_SNAPSHOTS] == Snapshot(k, Flatten(history[k]))
    else ring[k % MAX_SNAPSHOTS].sequence != k
  }

  lemma RingStep(ring: seq<Snapshot>, history: seq<seq<Record>>, rs: seq<Record>)
    requires RingOk(ring, history)
    ensures RingOk(ring[|history| % MAX_SNAPSHOTS := Snapshot(|history|, Flatten(rs))], history + [rs])
  {
    hide Flatten;
    var n := |history|;
    var ring' := ring[n % MAX_SNAPSHOTS := Snapshot(n, Flatten(rs))];
    forall k | 0 <= k < n + 1 ensures SlotOf(ring', history + [rs], k) {
      if k < n {
        assert SlotOf(ring, history, k);
      }
    }
  }

  /** The records a packet is compared with: those of the acknowledged snapshot while it is held. */
  ghost function Baseline(history: seq<seq<Record>>, ack: int): seq<Record> {
    if 0 <= ack < |history| && |history| <= ack + MAX_SNAPSHOTS then history[ack] else []
  }

  /** packet_add_entities. */
  method PacketAddEntities(snapshots: array<Snapshot>, sequence: nat, ack: int, sizes: seq<nat>,
                           ghost history: seq<seq<Record>>) returns (packet: seq<Byte>)
    requires RingOk(snapshots[..], history) && |history| == sequence + 1 && -1 <= ack <= sequence
    requires Typed(history[sequence], sizes) && Typed(Baseline(history, ack), sizes)
    requires SameKinds(history[sequence], Baseline(history, ack))
    ensures packet == Pack(Delta(history[sequence], Baseline(history, ack)))
  {
    hide Pack, Delta, Flatten, Typed, SameKinds;
    RingHas(snapshots[..], history, sequence);
    var cur := snapshots[sequence % MAX_SNAPSHOTS].data;
    var base := [];
    FlattenNone();
    if ack >= 0 {
      RingHas(snapshots[..], history, ack);
      var held := snapshots[ack % MAX_SNAPSHOTS];
      if held.sequence == ack {
        base := held.data;
      }
    }
    packet := AddEntities(cur, base, sizes, history[sequence], Baseline(history, ack));
  }

  lemma RingHas(ring: seq<Snapshot>, history: seq<seq<Record>>, k: nat)
    requires RingOk(ring, history) && k < |history|
    ensures SlotOf(ring, history, k)
  {
  }
}
