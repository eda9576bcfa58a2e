/** Reading a packet: the entities a connection replicates. */
module NetReceive {
  import opened Bytes
  import opened NetSnapshot

  /** Whether the local entity of a slot exists, and whether it was marked for removal. */
  datatype Status = Gone | Alive | Leaving

  /** entity_data_t, with the state and the replicated components of the local entity it refers to. */
  datatype Slot = Slot(status: Status, kind: U32, remote: U32, last: int, data: seq<Byte>)

  // ---- Reading, on values.

  function FindRemote(slots: seq<Slot>, sequence: U32, i: nat): (r: nat)
    requires i <= |slots|
    ensures i <= r <= |slots|
    ensures forall k | i <= k < r :: slots[k].remote != sequence
    ensures r < |slots| ==> slots[r].remote == sequence
    decreases |slots| - i
  {
    if i == |slots| || slots[i].remote == sequence then i else FindRemote(slots, sequence, i + 1)
  }

  function FindGone(slots: seq<Slot>, i: nat): (r: nat)
    requires i <= |slots|
    ensures i <= r <= |slots|
    ensures forall k | i <= k < r :: !slots[k].status.Gone?
    ensures r < |slots| ==> slots[r].status.Gone?
    decreases |slots| - i
  {
    if i == |slots| || slots[i].status.Gone? then i else FindGone(slots, i + 1)
  }

  /** An entity of the packet, when its sequence number is known and its local entity exists. */
  function Refresh(slots: seq<Slot>, e: Entry, i: nat, now: int): (r: seq<Slot>)
    requires i < |slots|
    ensures |r| == |slots|
  {
    slots[i := slots[i].(last := now, data := if e.diff then e.data else slots[i].data)]
  }

  /** When it is not: the first slot whose entity is gone gets a new one, configured for its type. */
  function Spawn(slots: seq<Slot>, e: Entry, now: int, configured: U32 -> seq<Byte>): (r: seq<Slot>)
    ensures |r| == |slots|
  {
    var j := FindGone(slots, 0);
    if j == |slots| then slots
    else slots[j := Slot(Alive, e.kind, e.sequence, now, if e.diff then e.data else configured(e.kind))]
  }

  function Receive(slots: seq<Slot>, e: Entry, now: int, configured: U32 -> seq<Byte>): (r: seq<Slot>)
    ensures |r| == |slots|
  {
    var i := FindRemote(slots, e.sequence, 0);
    if i < |slots| && !slots[i].status.Gone? then Refresh(slots, e, i, now)
    else Spawn(if i < |slots| then slots[i := slots[i].(last := now)] else slots, e, now, configured)
  }

  function ReceiveAll(slots: seq<Slot>, es: seq<Entry>, now: int, configured: U32 -> seq<Byte>): (r: seq<Slot>)
    ensures |r| == |slots|
    decreases |es|
  {
    if es == [] then slots else ReceiveAll(Receive(slots, es[0], now, configured), es[1..], now, configured)
  }

  /** Entities that were not in the packet are marked for removal. */
  function Swept(s: Slot, now: int): Slot {
    if !s.status.Gone? && s.last != now then s.(status := Leaving) else s
  }

  function Sweep(slots: seq<Slot>, now: int): (r: seq<Slot>)
    ensures |r| == |slots| && forall k | 0 <= k < |slots| :: r[k] == Swept(slots[k], now)
  {
    seq(|slots|, k requires 0 <= k < |slots| => Swept(slots[k], now))
  }

  // ---- What the slots keep.

  /** A slot whose entity exists is the first with its sequence number. */
  predicate FirstOfName(slots: seq<Slot>, k: nat)
    requires k < |slots|
  {
    forall i | 0 <= i < k :: slots[i].remote != slots[k].remote
  }

  ghost predicate SlotsOk(slots: seq<Slot>) {
    forall k | 0 <= k < |slots| && !slots[k].status.Gone? :: FirstOfName(slots, k)
  }

  lemma FoundIs(slots: seq<Slot>, k: nat)
    requires SlotsOk(slots) && k < |slots| && !slots[k].status.Gone?
    ensures FindRemote(slots, slots[k].remote, 0) == k
  {
    assert FirstOfName(slots, k);
  }

  lemma RefreshOk(slots: seq<Slot>, e: Entry, i: nat, now: int)
    requires SlotsOk(slots) && i < |slots|
    ensures SlotsOk(Refresh(slots, e, i, now))
  {
    var r := Refresh(slots, e, i, now);
    forall k | 0 <= k < |r| && !r[k].status.Gone? ensures FirstOfName(r, k) {
      assert FirstOfName(slots, k);
    }
  }

  lemma SpawnOk(slots: seq<Slot>, e: Entry, now: int, configured: U32 -> seq<Byte>)
    requires SlotsOk(slots) && forall k | 0 <= k < |slots| && !slots[k].status.Gone? :: slots[k].remote != e.sequence
    ensures SlotsOk(Spawn(slots, e, now, configured))
  {
    var r := Spawn(slots, e, now, configured);
    var j := FindGone(slots, 0);
    forall k | 0 <= k < |r| && !r[k].status.Gone? ensures FirstOfName(r, k) {
      if k != j {
        assert FirstOfName(slots, k);
      }
    }
  }

  /** Every packet keeps the slots in order. */
  lemma ReceiveOk(slots: seq<Slot>, e: Entry, now: int, configured: U32 -> seq<Byte>)
    requires SlotsOk(slots)
    ensures SlotsOk(Receive(slots, e, now, configured))
  {
    hide FirstOfName, Refresh, Spawn, SlotsOk;
    var i := FindRemote(slots, e.sequence, 0);
    if i < |slots| && !slots[i].status.Gone? {
      RefreshOk(slots, e, i, now);
    } else {
      var slots1 := if i < |slots| then slots[i := slots[i].(last := now)] else slots;
      NotLive(slots, e.sequence, i);
      Touched(slots, i, now);
      SpawnOk(slots1, e, now, configured);
    }
  }

  lemma NotLive(slots: seq<Slot>, sequence: U32, i: nat)
    requires SlotsOk(slots) && i == FindRemote(slots, sequence, 0) && (i == |slots| || slots[i].status.Gone?)
    ensures forall k | 0 <= k < |slots| && !slots[k].status.Gone? :: slots[k].remote != sequence
  {
    forall k | 0 <= k < |slots| && !slots[k].status.Gone? ensures slots[k].remote != sequence {
      FoundIs(slots, k);
    }
  }

  lemma Touched(slots: seq<Slot>, i: nat, now: int)
    requires SlotsOk(slots)
    ensures i < |slots| ==> SlotsOk(slots[i := slots[i].(last := now)])
  {
    if i < |slots| {
      var r := slots[i := slots[i].(last := now)];
      forall k | 0 <= k < |r| && !r[k].status.Gone? ensures FirstOfName(r, k) {
        assert FirstOfName(slots, k);
      }
    }
  }

  lemma SweepOk(slots: seq<Slot>, now: int)
    requires SlotsOk(slots)
    ensures SlotsOk(Sweep(slots, now))
  {
    var r := Sweep(slots, now);
    forall k | 0 <= k < |r| && !r[k].status.Gone? ensures FirstOfName(r, k) {
      assert FirstOfName(slots, k);
    }
  }

  // ---- Packets from the writer.

  /** Slot k shows a record. */
  predicate Shows(s: Slot, r: Record) {
    s.status.Alive? && s.kind == r.kind && s.remote == r.sequence && s.data == r.data
  }

  ghost predicate Named(slots: seq<Slot>, sequence: U32) {
    exists k :: 0 <= k < |slots| && !slots[k].status.Gone? && slots[k].remote == sequence
  }

  /** Slots in use. */
  function Used(slots: seq<Slot>): nat {
    if slots == [] then 0 else (if slots[0].status.Gone? then 0 else 1) + Used(slots[1..])
  }

  /** Records that need a slot. */
  ghost function Needed(rs: seq<Record>, slots: seq<Slot>): nat {
    if rs == [] then 0 else (if Named(slots, rs[0].sequence) then 0 else 1) + Needed(rs[1..], slots)
  }

  ghost predicate Distinct(rs: seq<Record>) {
    forall i, j | 0 <= i < j < |rs| :: rs[i].sequence != rs[j].sequence
  }

  /** A live slot with the name of a record of the snapshot is not being removed and has its type. */
  ghost predicate Compatible(slots: seq<Slot>, cur: seq<Record>) {
    forall k, c | 0 <= k < |slots| && !slots[k].status.Gone? && c in cur && slots[k].remote == c.sequence ::
      slots[k].status.Alive? && slots[k].kind == c.kind
  }

  /** The receiver has what the baseline says, for the entities still to come. */
  ghost predicate HasBase(slots: seq<Slot>, cur: seq<Record>, base: seq<Record>) {
    forall b, c | b in base && c in cur && b.sequence == c.sequence :: HasData(slots, b)
  }

  ghost predicate HasData(slots: seq<Slot>, b: Record) {
    exists k :: 0 <= k < |slots| && !slots[k].status.Gone? && slots[k].remote == b.sequence && slots[k].data == b.data
  }

  /** Old and new entities together have slots, and none of the new ones is being removed. */
  ghost predicate Room(slots: seq<Slot>, cur: seq<Record>) {
    && SlotsOk(slots) && Distinct(cur) && Compatible(slots, cur)
    && Used(slots) + Needed(cur, slots) <= |slots|
  }

  /** What the receiver must be like for the packet to bring it to the current snapshot: it has room, and
      it has the baseline. */
  ghost predicate Ready(slots: seq<Slot>, cur: seq<Record>, base: seq<Record>) {
    Room(slots, cur) && HasBase(slots, cur, base)
  }

  /** What the receiver has for an entity when its data is left out: what its slot holds, or what a new
      entity of its type starts with. */
  function Had(slots: seq<Slot>, c: Record, configured: U32 -> seq<Byte>): seq<Byte> {
    var i := FindRemote(slots, c.sequence, 0);
    if i < |slots| && !slots[i].status.Gone? then slots[i].data else configured(c.kind)
  }

  /** What the receiver shows for an entity of the packet. */
  function AfterEntry(slots: seq<Slot>, c: Record, diff: bool, configured: U32 -> seq<Byte>): Record {
    if diff then c else c.(data := Had(slots, c, configured))
  }

  /** And for all of them. */
  function Effective(slots: seq<Slot>, cur: seq<Record>, base: seq<Record>, configured: U32 -> seq<Byte>): (r: seq<Record>)
    ensures |r| == |cur|
    decreases |cur|
  {
    if cur == [] then []
    else
      var same := base != [] && base[0].sequence == cur[0].sequence;
      [AfterEntry(slots, cur[0], !same || base[0].data != cur[0].data, configured)]
      + Effective(slots, cur[1..], if same then base[1..] else base, configured)
  }

  /** One entity was taken over, the others were left alone. */
  ghost predicate Took(slots: seq<Slot>, r: seq<Slot>, c: Record, now: int) {
    && |r| == |slots| && SlotsOk(r)
    && (forall k | 0 <= k < |slots| && !slots[k].status.Gone? && slots[k].remote != c.sequence :: r[k] == slots[k])
    && (forall k | 0 <= k < |slots| && !r[k].status.Gone? && r[k].remote != c.sequence :: r[k] == slots[k])
    && Shown(r, c, now)
  }

  ghost predicate Shown(slots: seq<Slot>, c: Record, now: int) {
    exists k :: 0 <= k < |slots| && Shows(slots[k], c) && slots[k].last == now
  }

  lemma {:induction false} UsedUpdate(slots: seq<Slot>, j: nat, s: Slot)
    requires j < |slots|
    ensures Used(slots[j := s]) == Used(slots) - (if slots[j].status.Gone? then 0 else 1) + (if s.status.Gone? then 0 else 1)
    decreases j
  {
    if j == 0 {
      assert slots[0 := s][1..] == slots[1..];
    } else {
      assert slots[j := s][1..] == slots[1..][j - 1 := s];
      UsedUpdate(slots[1..], j - 1, s);
    }
  }

  lemma {:induction false} AllUsed(slots: seq<Slot>)
    requires forall k | 0 <= k < |slots| :: !slots[k].status.Gone?
    ensures Used(slots) == |slots|
  {
    if slots != [] {
      AllUsed(slots[1..]);
    }
  }

  lemma TakeNamed(slots: seq<Slot>, c: Record, diff: bool, k: nat, now: int, configured: U32 -> seq<Byte>)
    requires SlotsOk(slots) && k < |slots| && slots[k].status.Alive? && slots[k].remote == c.sequence
    requires slots[k].kind == c.kind && (diff || slots[k].data == c.data)
    ensures var r := Receive(slots, EntryOf(c, diff), now, configured);
            Took(slots, r, c, now) && Used(r) == Used(slots)
  {
    hide SlotsOk, FirstOfName;
    var e := EntryOf(c, diff);
    FoundIs(slots, k);
    var r := Refresh(slots, e, k, now);
    assert Receive(slots, e, now, configured) == r;
    RefreshOk(slots, e, k, now);
    UsedUpdate(slots, k, r[k]);
    assert Shows(r[k], c) && r[k].last == now;
    forall m | 0 <= m < |slots| && !slots[m].status.Gone? && slots[m].remote != c.sequence ensures r[m] == slots[m] {
    }
  }

  lemma SpawnTakes(slots: seq<Slot>, c: Record, now: int, configured: U32 -> seq<Byte>)
    requires SlotsOk(slots) && !Named(slots, c.sequence) && Used(slots) < |slots|
    ensures var r := Spawn(slots, EntryOf(c, true), now, configured);
            Took(slots, r, c, now) && Used(r) == Used(slots) + 1
  {
    hide SlotsOk, Used, FindGone, Took;
    var e := EntryOf(c, true);
    GoneExists(slots);
    var j := FindGone(slots, 0);
    var s := Slot(Alive, c.kind, c.sequence, now, c.data);
    UsedUpdate(slots, j, s);
    SpawnOk(slots, e, now, configured);
    TookBy(slots, j, s, c, now);
  }

  lemma GoneExists(slots: seq<Slot>)
    requires Used(slots) < |slots|
    ensures FindGone(slots, 0) < |slots|
  {
    if FindGone(slots, 0) == |slots| {
      AllUsed(slots);
    }
  }

  lemma TookBy(slots: seq<Slot>, j: nat, s: Slot, c: Record, now: int)
    requires j < |slots| && slots[j].status.Gone? && SlotsOk(slots[j := s])
    requires Shows(s, c) && s.last == now
    ensures Took(slots, slots[j := s], c, now)
  {
    hide SlotsOk;
    var r := slots[j := s];
    assert Shows(r[j], c) && r[j].last == now;
  }

  /** A slot whose entity is gone may be touched first. */
  lemma TouchGone(slots: seq<Slot>, r: seq<Slot>, i: nat, c: Record, now: int)
    requires i < |slots| && slots[i].status.Gone? && slots[i].remote == c.sequence
    requires Took(slots[i := slots[i].(last := now)], r, c, now)
    ensures Took(slots, r, c, now) && Used(slots[i := slots[i].(last := now)]) == Used(slots)
  {
    hide SlotsOk, Shown, Used;
    UsedUpdate(slots, i, slots[i].(last := now));
  }

  lemma TakeNew(slots: seq<Slot>, c: Record, now: int, configured: U32 -> seq<Byte>)
    requires SlotsOk(slots) && !Named(slots, c.sequence) && Used(slots) < |slots|
    ensures var r := Receive(slots, EntryOf(c, true), now, configured);
            Took(slots, r, c, now) && Used(r) == Used(slots) + 1
  {
    hide SlotsOk, Took, Used, Spawn, FindRemote;
    var e := EntryOf(c, true);
    var i := FindRemote(slots, c.sequence, 0);
    if i < |slots| {
      assert slots[i].status.Gone?;
      var s := slots[i].(last := now);
      UsedUpdate(slots, i, s);
      var slots1 := slots[i := s];
      Touched(slots, i, now);
      SpawnTakes(slots1, c, now, configured);
      TouchGone(slots, Spawn(slots1, e, now, configured), i, c, now);
    } else {
      SpawnTakes(slots, c, now, configured);
    }
  }

  /** One entity of the packet: its slot shows what was sent or, when nothing was, what it had. */
  lemma TakeNext(slots: seq<Slot>, cur: seq<Record>, base: seq<Record>, now: int, configured: U32 -> seq<Byte>)
    requires Room(slots, cur) && cur != []
    ensures Delta(cur, base) != []
    ensures var r := Receive(slots, Delta(cur, base)[0], now, configured);
      && Took(slots, r, Effective(slots, cur, base, configured)[0], now)
      && Used(r) == Used(slots) + if Named(slots, cur[0].sequence) then 0 else 1
  {
    hide SlotsOk, Distinct, Receive, Used, Took, Had;
    var c := cur[0];
    DeltaNext(cur, base);
    var diff := base != [] && base[0].sequence == c.sequence ==> base[0].data != c.data;
    var d := AfterEntry(slots, c, diff, configured);
    assert Effective(slots, cur, base, configured)[0] == d && Delta(cur, base)[0] == EntryOf(c, diff);
    hide Delta, Effective;
    assert c in cur;
    if Named(slots, c.sequence) {
      var k :| 0 <= k < |slots| && !slots[k].status.Gone? && slots[k].remote == c.sequence;
      HadIs(slots, c, k, configured);
      assert EntryOf(c, diff) == EntryOf(d, diff);
      TakeNamed(slots, d, diff, k, now, configured);
    } else {
      NeedOne(cur, slots);
      HadNew(slots, c, configured);
      TakeNew(slots, d, now, configured);
      NewAlike(slots, c, diff, d, now, configured);
    }
  }

  lemma HadIs(slots: seq<Slot>, c: Record, k: nat, configured: U32 -> seq<Byte>)
    requires SlotsOk(slots) && k < |slots| && !slots[k].status.Gone? && slots[k].remote == c.sequence
    ensures Had(slots, c, configured) == slots[k].data
  {
    hide SlotsOk;
    FoundIs(slots, k);
  }

  lemma HadNew(slots: seq<Slot>, c: Record, configured: U32 -> seq<Byte>)
    requires !Named(slots, c.sequence)
    ensures Had(slots, c, configured) == configured(c.kind)
  {
  }

  /** For a new entity it makes no difference whether its initial data was sent. */
  lemma NewAlike(slots: seq<Slot>, c: Record, diff: bool, d: Record, now: int, configured: U32 -> seq<Byte>)
    requires !Named(slots, c.sequence) && d == if diff then c else c.(data := configured(c.kind))
    ensures Receive(slots, EntryOf(c, diff), now, configured) == Receive(slots, EntryOf(d, true), now, configured)
  {
    var i := FindRemote(slots, c.sequence, 0);
    assert i < |slots| ==> slots[i].status.Gone?;
  }

  lemma NeedOne(cur: seq<Record>, slots: seq<Slot>)
    requires cur != [] && !Named(slots, cur[0].sequence)
    ensures Needed(cur, slots) >= 1
  {
  }

  // ---- The rest of the packet.

  lemma {:induction false} NeededSame(rs: seq<Record>, slots: seq<Slot>, r: seq<Slot>, c: Record, now: int)
    requires Took(slots, r, c, now) && forall x | x in rs :: x.sequence != c.sequence
    ensures Needed(rs, r) == Needed(rs, slots)
  {
    hide SlotsOk, Shown;
    if rs != [] {
      NamedSame(slots, r, c, now, rs[0].sequence);
      NeededSame(rs[1..], slots, r, c, now);
    }
  }

  lemma NamedSame(slots: seq<Slot>, r: seq<Slot>, c: Record, now: int, sequence: U32)
    requires Took(slots, r, c, now) && sequence != c.sequence
    ensures Named(r, sequence) <==> Named(slots, sequence)
  {
    hide SlotsOk, Shown;
    if Named(r, sequence) {
      var k :| 0 <= k < |r| && !r[k].status.Gone? && r[k].remote == sequence;
      assert slots[k] == r[k];
    }
    if Named(slots, sequence) {
      var k :| 0 <= k < |slots| && !slots[k].status.Gone? && slots[k].remote == sequence;
      assert slots[k] == r[k];
    }
  }

  lemma CompatibleNext(slots: seq<Slot>, r: seq<Slot>, cur: seq<Record>, c: Record, now: int)
    requires Took(slots, r, c, now) && Compatible(slots, [c] + cur) && forall x | x in cur :: x.sequence != c.sequence
    ensures Compatible(r, cur)
  {
    hide SlotsOk, Shown;
    forall k, x | 0 <= k < |r| && !r[k].status.Gone? && x in cur && r[k].remote == x.sequence
      ensures r[k].status.Alive? && r[k].kind == x.kind
    {
      assert r[k] == slots[k] && x in [c] + cur;
    }
  }

  lemma DistinctNext(rs: seq<Record>)
    requires Distinct(rs) && rs != []
    ensures Distinct(rs[1..]) && forall x | x in rs[1..] :: x.sequence != rs[0].sequence
  {
  }

  ghost function Rest(cur: seq<Record>, base: seq<Record>): seq<Record>
    requires cur != []
  {
    if base != [] && base[0].sequence == cur[0].sequence then base[1..] else base
  }

  lemma RoomNext(slots: seq<Slot>, r: seq<Slot>, cur: seq<Record>, d: Record, now: int)
    requires Room(slots, cur) && cur != [] && Took(slots, r, d, now)
    requires d.sequence == cur[0].sequence && d.kind == cur[0].kind
    requires Used(r) == Used(slots) + if Named(slots, cur[0].sequence) then 0 else 1
    ensures Room(r, cur[1..])
  {
    hide SlotsOk, Compatible, Used, Distinct, Named;
    DistinctNext(cur);
    CompatibleTail(slots, cur, d);
    CompatibleNext(slots, r, cur[1..], d, now);
    NeededSame(cur[1..], slots, r, d, now);
    TookOk(slots, r, d, now);
  }

  lemma CompatibleTail(slots: seq<Slot>, cur: seq<Record>, d: Record)
    requires cur != [] && Compatible(slots, cur) && d.sequence == cur[0].sequence && d.kind == cur[0].kind
    ensures Compatible(slots, [d] + cur[1..])
  {
    forall k, c | 0 <= k < |slots| && !slots[k].status.Gone? && c in [d] + cur[1..] && slots[k].remote == c.sequence
      ensures slots[k].status.Alive? && slots[k].kind == c.kind
    {
      assert cur[0] in cur;
      assert c == d || c in cur;
    }
  }

  /** Taking one entity over leaves what the receiver has for the others. */
  lemma HadSame(slots: seq<Slot>, r: seq<Slot>, d: Record, now: int, x: Record, configured: U32 -> seq<Byte>)
    requires SlotsOk(slots) && Took(slots, r, d, now) && x.sequence != d.sequence
    ensures Had(r, x, configured) == Had(slots, x, configured)
  {
    hide Had, Shown, SlotsOk;
    NamedSame(slots, r, d, now, x.sequence);
    if Named(slots, x.sequence) {
      var k :| 0 <= k < |slots| && !slots[k].status.Gone? && slots[k].remote == x.sequence;
      assert r[k] == slots[k];
      HadIs(slots, x, k, configured);
      HadIs(r, x, k, configured);
    } else {
      HadNew(slots, x, configured);
      HadNew(r, x, configured);
    }
  }

  lemma {:induction false} EffectiveSame(slots: seq<Slot>, r: seq<Slot>, d: Record, now: int, cur: seq<Record>,
                                         base: seq<Record>, configured: U32 -> seq<Byte>)
    requires SlotsOk(slots) && Took(slots, r, d, now) && forall x | x in cur :: x.sequence != d.sequence
    ensures Effective(r, cur, base, configured) == Effective(slots, cur, base, configured)
    decreases |cur|
  {
    hide SlotsOk, Took, Had;
    if cur != [] {
      HadSame(slots, r, d, now, cur[0], configured);
      EffectiveSame(slots, r, d, now, cur[1..], Rest(cur, base), configured);
    }
  }

  /** Names and types are those of the snapshot. */
  lemma {:induction false} EffectiveNames(slots: seq<Slot>, cur: seq<Record>, base: seq<Record>,
                                          configured: U32 -> seq<Byte>, i: nat)
    requires i < |cur|
    ensures var e := Effective(slots, cur, base, configured)[i]; e.sequence == cur[i].sequence && e.kind == cur[i].kind
    decreases |cur|
  {
    hide Had;
    if i > 0 {
      EffectiveNames(slots, cur[1..], Rest(cur, base), configured, i - 1);
    }
  }

  /** With the baseline it is the snapshot itself. */
  lemma {:induction false} EffectiveIsCurrent(slots: seq<Slot>, cur: seq<Record>, base: seq<Record>,
                                              configured: U32 -> seq<Byte>)
    requires SlotsOk(slots) && HasBase(slots, cur, base)
    ensures Effective(slots, cur, base, configured) == cur
    decreases |cur|
  {
    hide SlotsOk, Had;
    if cur != [] {
      var c := cur[0];
      assert c in cur;
      if base != [] && base[0].sequence == c.sequence && base[0].data == c.data {
        assert base[0] in base;
        assert HasData(slots, base[0]);
        var k :| 0 <= k < |slots| && !slots[k].status.Gone? && slots[k].remote == c.sequence && slots[k].data == c.data;
        HadIs(slots, c, k, configured);
      }
      BaseRest(slots, cur, base);
      EffectiveIsCurrent(slots, cur[1..], Rest(cur, base), configured);
    }
  }

  lemma BaseRest(slots: seq<Slot>, cur: seq<Record>, base: seq<Record>)
    requires HasBase(slots, cur, base) && cur != []
    ensures HasBase(slots, cur[1..], Rest(cur, base))
  {
    forall b, c | b in Rest(cur, base) && c in cur[1..] && b.sequence == c.sequence ensures HasData(slots, b) {
      assert b in base && c in cur;
    }
  }

  lemma TookOk(slots: seq<Slot>, r: seq<Slot>, c: Record, now: int)
    requires Took(slots, r, c, now)
    ensures SlotsOk(r) && |r| == |slots|
  {
  }

  /** After the packet: what was taken over is shown, and live slots that the packet does not name are
      the ones there were. */
  ghost predicate Arrived(slots: seq<Slot>, r: seq<Slot>, taken: seq<Record>, cur: seq<Record>, now: int) {
    && |r| == |slots| && SlotsOk(r)
    && (forall c | c in taken + cur :: Shown(r, c, now))
    && (forall k | 0 <= k < |r| && !r[k].status.Gone? && !NameOf(r[k], cur) :: r[k] == slots[k])
    && (forall k | 0 <= k < |r| && !slots[k].status.Gone? && !NameOf(slots[k], cur) :: r[k] == slots[k])
  }

  ghost predicate NameOf(s: Slot, rs: seq<Record>) {
    exists c :: c in rs && c.sequence == s.remote
  }

  lemma ShownSame(slots: seq<Slot>, r: seq<Slot>, c: Record, now: int, p: Record)
    requires Took(slots, r, c, now) && Shown(slots, p, now) && p.sequence != c.sequence
    ensures Shown(r, p, now)
  {
    hide SlotsOk;
    var k :| 0 <= k < |slots| && Shows(slots[k], p) && slots[k].last == now;
    assert r[k] == slots[k];
  }

  lemma TookShown(slots: seq<Slot>, r: seq<Slot>, c: Record, now: int)
    requires Took(slots, r, c, now)
    ensures Shown(r, c, now)
  {
  }

  lemma {:induction false} AllArrive(slots: seq<Slot>, taken: seq<Record>, cur: seq<Record>, base: seq<Record>, now: int,
                                     configured: U32 -> seq<Byte>)
    requires Room(slots, cur) && (forall p | p in taken :: Shown(slots, p, now))
    requires forall p, c | p in taken && c in cur :: p.sequence != c.sequence
    ensures Arrived(slots, ReceiveAll(slots, Delta(cur, base), now, configured), taken,
                    Effective(slots, cur, base, configured), now)
    decreases |cur|
  {
    hide Receive, Took, Shown, NameOf, SlotsOk, Room, Had;
    var e := Effective(slots, cur, base, configured);
    if cur == [] {
      assert taken + e == taken;
      RoomOk(slots, cur);
    } else {
      var d := e[0];
      RoomDistinct(slots, cur);
      RoomOk(slots, cur);
      DeltaNext(cur, base);
      TakeNext(slots, cur, base, now, configured);
      EffectiveNames(slots, cur, base, configured, 0);
      var r := Receive(slots, Delta(cur, base)[0], now, configured);
      RoomNext(slots, r, cur, d, now);
      forall p | p in taken + [d] ensures Shown(r, p, now) {
        if p in taken {
          assert cur[0] in cur;
          ShownSame(slots, r, d, now, p);
        } else {
          TookShown(slots, r, d, now);
        }
      }
      AllArrive(r, taken + [d], cur[1..], Rest(cur, base), now, configured);
      EffectiveSame(slots, r, d, now, cur[1..], Rest(cur, base), configured);
      assert e[1..] == Effective(r, cur[1..], Rest(cur, base), configured);
      assert Delta(cur, base)[1..] == Delta(cur[1..], Rest(cur, base));
      assert (taken + [d]) + e[1..] == taken + e;
      StillThere(slots, r, ReceiveAll(slots, Delta(cur, base), now, configured), e, now);
    }
  }

  lemma RoomOk(slots: seq<Slot>, cur: seq<Record>)
    requires Room(slots, cur)
    ensures SlotsOk(slots)
  {
  }

  lemma RoomDistinct(slots: seq<Slot>, cur: seq<Record>)
    requires Room(slots, cur) && cur != []
    ensures forall x | x in cur[1..] :: x.sequence != cur[0].sequence
  {
    DistinctNext(cur);
  }

  lemma StillThere(slots: seq<Slot>, r: seq<Slot>, z: seq<Slot>, cur: seq<Record>, now: int)
    requires cur != [] && Took(slots, r, cur[0], now) && |z| == |r|
    requires forall k | 0 <= k < |z| && !r[k].status.Gone? && !NameOf(r[k], cur[1..]) :: z[k] == r[k]
    requires forall k | 0 <= k < |z| && !z[k].status.Gone? && !NameOf(z[k], cur[1..]) :: z[k] == r[k]
    ensures forall k | 0 <= k < |z| && !slots[k].status.Gone? && !NameOf(slots[k], cur) :: z[k] == slots[k]
    ensures forall k | 0 <= k < |z| && !z[k].status.Gone? && !NameOf(z[k], cur) :: z[k] == slots[k]
  {
    hide SlotsOk, Shown;
    forall k | 0 <= k < |z| && !z[k].status.Gone? && !NameOf(z[k], cur) ensures z[k] == slots[k] {
      NameFirst(z[k], cur);
      assert z[k] == r[k];
    }
    forall k | 0 <= k < |z| && !slots[k].status.Gone? && !NameOf(slots[k], cur) ensures z[k] == slots[k] {
      assert cur[0] in cur;
      assert r[k] == slots[k];
      NameFirst(r[k], cur);
    }
  }

  lemma NameFirst(s: Slot, cur: seq<Record>)
    requires cur != []
    ensures NameOf(s, cur) <==> s.remote == cur[0].sequence || NameOf(s, cur[1..])
  {
    assert cur == [cur[0]] + cur[1..];
  }

  /** The receiver shows exactly the entities of a snapshot. */
  ghost predicate Replicates(slots: seq<Slot>, cur: seq<Record>) {
    && SlotsOk(slots)
    && (forall c | c in cur :: exists k :: 0 <= k < |slots| && Shows(slots[k], c))
    && (forall k | 0 <= k < |slots| && slots[k].status.Alive? :: exists c :: c in cur && Shows(slots[k], c))
  }

  /** A live slot that is not named by the snapshot although its entity was seen in this frame: an
      earlier packet of the same frame named it. */
  predicate SeenBefore(slots: seq<Slot>, cur: seq<Record>, now: int, k: nat)
    requires k < |slots|
  {
    slots[k].status.Alive? && slots[k].last == now && forall c | c in cur :: c.sequence != slots[k].remote
  }

  ghost predicate NoneSeenBefore(slots: seq<Slot>, cur: seq<Record>, now: int) {
    forall k | 0 <= k < |slots| :: !SeenBefore(slots, cur, now, k)
  }

  /** What a packet made against a baseline does to a receiver with room, whatever it shows: afterwards it
      shows, for every entity of the snapshot, the data that was sent, or what it had when none was;
      live slots that the snapshot does not name are marked for removal unless they were seen in this
      frame already. So it shows exactly the current snapshot if and only if there are none of those, and
      what it had is right wherever data was left out. */
  lemma DeltaApplied(slots: seq<Slot>, cur: seq<Record>, base: seq<Record>, now: int, configured: U32 -> seq<Byte>)
    requires Room(slots, cur)
    ensures var r := Sweep(ReceiveAll(slots, Delta(cur, base), now, configured), now);
      var e := Effective(slots, cur, base, configured);
      && SlotsOk(r)
      && (forall c | c in e :: exists k :: 0 <= k < |r| && Shows(r[k], c))
      && (forall k | 0 <= k < |r| && !slots[k].status.Gone? && !NameOf(slots[k], e) ::
            r[k] == if slots[k].last != now then slots[k].(status := Leaving) else slots[k])
      && (Replicates(r, cur) <==> NoneSeenBefore(slots, cur, now) && e == cur)
  {
    hide Room, SlotsOk, Delta, ReceiveAll, Shown, Effective;
    AllArrive(slots, [], cur, base, now, configured);
    var a := ReceiveAll(slots, Delta(cur, base), now, configured);
    var e := Effective(slots, cur, base, configured);
    assert [] + e == e;
    var r := Sweep(a, now);
    SweepOk(a, now);
    forall c | c in e ensures exists k :: 0 <= k < |r| && Shows(r[k], c) {
      var k := SlotShowing(a, c, now);
      assert r[k] == Swept(a[k], now);
    }
    SameNames(slots, cur, base, configured);
    if NoneSeenBefore(slots, cur, now) {
      AllShown(slots, a, r, cur, e, now);
      if e != cur {
        OtherData(r, cur, e);
      }
    } else {
      var k: nat :| k < |slots| && SeenBefore(slots, cur, now, k);
      assert !NameOf(slots[k], e);
      assert r[k] == slots[k];
    }
  }

  lemma AllShown(slots: seq<Slot>, a: seq<Slot>, r: seq<Slot>, cur: seq<Record>, e: seq<Record>, now: int)
    requires Arrived(slots, a, [], e, now) && r == Sweep(a, now) && NoneSeenBefore(slots, cur, now)
    requires SlotsOk(r) && forall s: Slot :: NameOf(s, e) <==> NameOf(s, cur)
    ensures Replicates(r, e)
  {
    hide SlotsOk, Shown, NameOf;
    assert [] + e == e;
    forall c | c in e ensures exists k :: 0 <= k < |r| && Shows(r[k], c) {
      var k := SlotShowing(a, c, now);
      assert r[k] == Swept(a[k], now);
    }
    forall k | 0 <= k < |r| && r[k].status.Alive? ensures exists c :: c in e && Shows(r[k], c) {
      assert r[k] == Swept(a[k], now);
      assert !SeenBefore(slots, cur, now, k);
      NotSeenNamed(slots, a, cur, e, now, k);
      AliveShows(a, e, k, now);
    }
  }

  lemma NotSeenNamed(slots: seq<Slot>, a: seq<Slot>, cur: seq<Record>, e: seq<Record>, now: int, k: nat)
    requires k < |a| == |slots| && !SeenBefore(slots, cur, now, k) && a[k].status.Alive? && a[k].last == now
    requires !NameOf(a[k], e) ==> a[k] == slots[k]
    requires forall s: Slot :: NameOf(s, e) <==> NameOf(s, cur)
    ensures NameOf(a[k], e)
  {
  }

  lemma SameNames(slots: seq<Slot>, cur: seq<Record>, base: seq<Record>, configured: U32 -> seq<Byte>)
    ensures forall s: Slot :: NameOf(s, Effective(slots, cur, base, configured)) <==> NameOf(s, cur)
    ensures var e := Effective(slots, cur, base, configured);
      |e| == |cur| && forall i | 0 <= i < |cur| :: e[i].sequence == cur[i].sequence && e[i].kind == cur[i].kind
  {
    hide Effective;
    var e := Effective(slots, cur, base, configured);
    forall i | 0 <= i < |cur| ensures e[i].sequence == cur[i].sequence && e[i].kind == cur[i].kind {
      EffectiveNames(slots, cur, base, configured, i);
    }
    forall s: Slot ensures NameOf(s, e) <==> NameOf(s, cur) {
      if NameOf(s, e) {
        var i :| 0 <= i < |e| && e[i].sequence == s.remote;
        assert cur[i] in cur;
      }
      if NameOf(s, cur) {
        var i :| 0 <= i < |cur| && cur[i].sequence == s.remote;
        assert e[i] in e;
      }
    }
  }

  /** A receiver cannot show two different records of one name. */
  lemma OtherData(r: seq<Slot>, cur: seq<Record>, e: seq<Record>)
    requires Replicates(r, e) && |e| == |cur| && e != cur
    requires forall i | 0 <= i < |cur| :: e[i].sequence == cur[i].sequence && e[i].kind == cur[i].kind
    ensures !Replicates(r, cur)
  {
    hide SlotsOk;
    var i :| 0 <= i < |cur| && e[i] != cur[i];
    assert e[i] in e && cur[i] in cur;
    var k :| 0 <= k < |r| && Shows(r[k], e[i]);
    FoundIs(r, k);
    if Replicates(r, cur) {
      var m :| 0 <= m < |r| && Shows(r[m], cur[i]);
      FoundIs(r, m);
    }
  }

  /** The packet that the writer made against a baseline brings a receiver that has the baseline to
      exactly the current snapshot, unless an earlier packet of the same frame named an entity that is
      gone; other entities that are not in it are marked for removal. */
  lemma DeltaRoundTrip(slots: seq<Slot>, cur: seq<Record>, base: seq<Record>, now: int, configured: U32 -> seq<Byte>)
    requires Ready(slots, cur, base)
    ensures var r := Sweep(ReceiveAll(slots, Delta(cur, base), now, configured), now);
      && SlotsOk(r)
      && (forall c | c in cur :: exists k :: 0 <= k < |r| && Shows(r[k], c))
      && (forall k | 0 <= k < |r| && !slots[k].status.Gone? && !NameOf(slots[k], cur) ::
            r[k] == if slots[k].last != now then slots[k].(status := Leaving) else slots[k])
      && (Replicates(r, cur) <==> NoneSeenBefore(slots, cur, now))
  {
    hide Room, HasBase, Delta, ReceiveAll, Shown, Effective, SlotsOk, Replicates, NoneSeenBefore, NameOf, Sweep, Shows;
    RoomOk(slots, cur);
    DeltaApplied(slots, cur, base, now, configured);
    EffectiveIsCurrent(slots, cur, base, configured);
  }

  /** Two packets read in one frame: the second has lost the entity that the first one named, and the
      receiver, which had each baseline, still shows it. */
  lemma TwoPackets(c: Record, last: int, now: int, configured: U32 -> seq<Byte>)
    ensures var slots := [Slot(Alive, c.kind, c.sequence, last, c.data)];
      var r1 := Sweep(ReceiveAll(slots, Delta([c], [c]), now, configured), now);
      var r2 := Sweep(ReceiveAll(r1, Delta([], [c]), now, configured), now);
      && Ready(slots, [c], [c]) && Ready(r1, [], [c])
      && Replicates(r1, [c]) && Shows(r2[0], c) && !Replicates(r2, [])
  {
    var s := Slot(Alive, c.kind, c.sequence, last, c.data);
    var slots := [s];
    OneSlot(s, c);
    var t := s.(last := now);
    assert Delta([c], [c]) == [EntryOf(c, false)] by { assert [c][1..] == []; }
    assert Receive(slots, EntryOf(c, false), now, configured) == [t];
    assert [EntryOf(c, false)][1..] == [];
    assert ReceiveAll(slots, Delta([c], [c]), now, configured) == [t];
    assert Sweep([t], now) == [t];
    OneSlot(t, c);
    assert Delta([], [c]) == [];
    assert ReceiveAll([t], [], now, configured) == [t];
    assert Shows([t][0], c);
    assert Replicates([t], [c]);
    assert [t][0].status.Alive?;
  }

  /** The baseline is needed: a receiver that already shows a later snapshot, in which an entity had changed,
      is told nothing when the entity has changed back, and keeps what it has. */
  lemma AheadOfBaseline(c: Record, between: seq<Byte>, last: int, now: int, configured: U32 -> seq<Byte>)
    requires between != c.data
    ensures var slots := [Slot(Alive, c.kind, c.sequence, last, between)];
      var r := Sweep(ReceiveAll(slots, Delta([c], [c]), now, configured), now);
      Replicates(slots, [c.(data := between)]) && Replicates(r, [c.(data := between)]) && !Replicates(r, [c])
  {
    var s := Slot(Alive, c.kind, c.sequence, last, between);
    var slots, d := [s], c.(data := between);
    OneSlot(s, d);
    var t := s.(last := now);
    assert Delta([c], [c]) == [EntryOf(c, false)] by { assert [c][1..] == []; }
    assert Receive(slots, EntryOf(c, false), now, configured) == [t];
    assert [EntryOf(c, false)][1..] == [];
    assert ReceiveAll(slots, Delta([c], [c]), now, configured) == [t];
    assert Sweep([t], now) == [t];
    OneSlot(t, d);
    assert Shows(slots[0], d) && Shows([t][0], d);
    assert Replicates(slots, [d]) && Replicates([t], [d]);
    assert c in [c];
  }

  lemma OneSlot(s: Slot, c: Record)
    requires Shows(s, c)
    ensures Ready([s], [c], [c]) && Ready([s], [], [c]) && SlotsOk([s])
  {
    assert [c][1..] == [] && [s][1..] == [];
    assert [s][0].remote == c.sequence && HasData([s], c);
    assert Used([s]) == 1;
    assert Named([s], c.sequence);
    assert Needed([c], [s]) == 0 && Needed([], [s]) == 0;
    assert SlotsOk([s]);
  }

  lemma SlotShowing(a: seq<Slot>, c: Record, now: int) returns (k: nat)
    requires Shown(a, c, now)
    ensures k < |a| && Shows(a[k], c) && a[k].last == now
  {
    k :| 0 <= k < |a| && Shows(a[k], c) && a[k].last == now;
  }

  lemma AliveShows(a: seq<Slot>, cur: seq<Record>, k: nat, now: int)
    requires SlotsOk(a) && k < |a| && a[k].status.Alive? && a[k].last == now && NameOf(a[k], cur)
    requires forall c | c in cur :: Shown(a, c, now)
    ensures exists c :: c in cur && Shows(a[k], c)
  {
    hide SlotsOk, Shown;
    var c :| c in cur && c.sequence == a[k].remote;
    var m := SlotShowing(a, c, now);
    FoundIs(a, k);
    FoundIs(a, m);
  }

  // ---- Reading, on the packet and the slots.

  predicate EntryTyped(e: Entry, sizes: seq<nat>) {
    e.kind < |sizes| && |e.data| == if e.diff then sizes[e.kind] else 0
  }

  lemma {:induction false} DeltaTyped(cur: seq<Record>, base: seq<Record>, sizes: seq<nat>)
    requires Typed(cur, sizes)
    ensures forall e | e in Delta(cur, base) :: EntryTyped(e, sizes)
    decreases |cur|
  {
    if cur != [] {
      assert RecordTyped(cur[0], sizes);
      DeltaNext(cur, base);
      DeltaTyped(cur[1..], Rest(cur, base), sizes);
    }
  }

  ghost predicate AtEntry(s: seq<Byte>, iter: nat, es: seq<Entry>) {
    iter <= |s| && s[iter..] == Pack(es)
  }

  lemma EntryNext(s: seq<Byte>, iter: nat, es: seq<Entry>)
    requires AtEntry(s, iter, es)
    ensures iter < |s| <==> es != []
    ensures es != [] ==>
      var e := es[0];
      && iter + HEADER_SIZE + 1 + |e.data| <= |s|
      && Read32(s, iter) == e.kind && Read32(s, iter + 4) == e.sequence
      && (s[iter + HEADER_SIZE] != 0 <==> e.diff)
      && s[iter + HEADER_SIZE + 1..iter + HEADER_SIZE + 1 + |e.data|] == e.data
      && AtEntry(s, iter + HEADER_SIZE + 1 + |e.data|, es[1..])
  {
    hide HeaderBytes, Read32;
    if es != [] {
      var e := es[0];
      var rest := Pack(es[1..]);
      var flag: Byte := if e.diff then 1 else 0;
      var behind := [flag] + e.data + rest;
      assert s[iter..] == HeaderBytes(e.kind, e.sequence) + behind;
      HeaderBack(e.kind, e.sequence, iter, s, behind);
      var u := s[iter + HEADER_SIZE..];
      assert u[0] == flag && u[1..1 + |e.data|] == e.data && u[1 + |e.data|..] == rest;
    }
  }

  /** The slot with a sequence number; it is marked as seen. */
  method Lookup(slots: array<Slot>, sequence: U32, now: int) returns (i: nat)
    modifies slots
    ensures i == FindRemote(old(slots[..]), sequence, 0) <= slots.Length
    ensures slots[..] == old(if i < slots.Length then slots[..][i := slots[i].(last := now)] else slots[..])
  {
    i := 0;
    while i < slots.Length
      invariant i <= slots.Length
      invariant slots[..] == old(slots[..])
      invariant FindRemote(slots[..], sequence, 0) == FindRemote(slots[..], sequence, i)
    {
      if slots[i].remote == sequence {
        slots[i] := slots[i].(last := now);
        assert slots[..] == old(slots[..])[i := old(slots[i]).(last := now)];
        return;
      }
      i := i + 1;
    }
  }

  /** A new local entity, configured and put into the first slot whose entity is gone. */
  method Insert(slots: array<Slot>, kind: U32, sequence: U32, now: int, configured: U32 -> seq<Byte>) returns (j: nat)
    modifies slots
    ensures j == FindGone(old(slots[..]), 0) <= slots.Length
    ensures slots[..] == if j < slots.Length
                         then old(slots[..])[j := Slot(Alive, kind, sequence, now, configured(kind))]
                         else old(slots[..])
  {
    j := 0;
    while j < slots.Length
      invariant j <= slots.Length
      invariant slots[..] == old(slots[..])
      invariant FindGone(slots[..], 0) == FindGone(slots[..], j)
    {
      if slots[j].status.Gone? {
        slots[j] := Slot(Alive, kind, sequence, now, configured(kind));
        assert slots[..] == old(slots[..])[j := Slot(Alive, kind, sequence, now, configured(kind))];
        return;
      }
      j := j + 1;
    }
  }

  /** One entity of a packet: found or made, then its components overwritten when they were sent. */
  method ReadEntity(slots: array<Slot>, e: Entry, now: int, configured: U32 -> seq<Byte>)
    modifies slots
    ensures slots[..] == Receive(old(slots[..]), e, now, configured)
  {
    hide FindRemote, FindGone;
    ghost var before := slots[..];
    var i := Lookup(slots, e.sequence, now);
    var t := i;
    if i == slots.Length || slots[i].status.Gone? {
      t := Insert(slots, e.kind, e.sequence, now, configured);
    }
    if e.diff && t < slots.Length {
      slots[t] := slots[t].(data := e.data);
    }
    assert slots[..] == Receive(before, e, now, configured);
  }

  /** The last pass: entities that were not seen are removed. */
  method RemoveUnseen(slots: array<Slot>, now: int)
    modifies slots
    ensures slots[..] == Sweep(old(slots[..]), now)
  {
    var i := 0;
    while i < slots.Length
      invariant 0 <= i <= slots.Length
      invariant forall k :: 0 <= k < slots.Length ==> slots[k] == if k < i then Swept(old(slots[k]), now) else old(slots[k])
    {
      if !slots[i].status.Gone? && slots[i].last != now {
        slots[i] := slots[i].(status := Leaving);
      }
      i := i + 1;
    }
  }

  /** packet_read_entities: reads exactly the entries that were packed. */
  method ReadEntities(slots: array<Slot>, packet: seq<Byte>, sizes: seq<nat>, now: int, configured: U32 -> seq<Byte>,
                      ghost es: seq<Entry>)
    requires packet == Pack(es) && forall e | e in es :: EntryTyped(e, sizes)
    modifies slots
    ensures slots[..] == Sweep(ReceiveAll(old(slots[..]), es, now, configured), now)
  {
    hide Pack, Receive, Sweep, AtEntry, Read32;
    var iter := 0;
    ghost var rest := es;
    EntryBegin(packet, es);
    while iter < |packet|
      invariant 0 <= iter && AtEntry(packet, iter, rest) && forall e | e in rest :: EntryTyped(e, sizes)
      invariant ReceiveAll(old(slots[..]), es, now, configured) == ReceiveAll(slots[..], rest, now, configured)
      decreases |packet| - iter
    {
      EntryNext(packet, iter, rest);
      assert EntryTyped(rest[0], sizes);
      var kind, sequence := Read32(packet, iter), Read32(packet, iter + 4);
      iter := iter + HEADER_SIZE;
      var diff := packet[iter] != 0;
      iter := iter + 1;
      var data := [];
      if diff {
        data := packet[iter..iter + sizes[kind]];
        iter := iter + sizes[kind];
      }
      assert Entry(kind, sequence, diff, data) == rest[0];
      ReadEntity(slots, Entry(kind, sequence, diff, data), now, configured);
      rest := rest[1..];
    }
    EntryNext(packet, iter, rest);
    RemoveUnseen(slots, now);
  }

  lemma EntryBegin(s: seq<Byte>, es: seq<Entry>)
    requires s == Pack(es)
    ensures AtEntry(s, 0, es)
  {
  }

  /** One packet from the sender's ring to the receiver's slots, bytes included. */
  method Replicate(snapshots: array<Snapshot>, sequence: nat, ack: int, sizes: seq<nat>,
                   ghost history: seq<seq<Record>>, slots: array<Slot>, now: int, configured: U32 -> seq<Byte>)
    requires RingOk(snapshots[..], history) && |history| == sequence + 1 && -1 <= ack <= sequence
    requires Typed(history[sequence], sizes) && Typed(Baseline(history, ack), sizes)
    requires SameKinds(history[sequence], Baseline(history, ack))
    requires Room(slots[..], history[sequence])
    modifies slots
    ensures Replicates(slots[..], history[sequence]) <==>
              && NoneSeenBefore(old(slots[..]), history[sequence], now)
              && Effective(old(slots[..]), history[sequence], Baseline(history, ack), configured) == history[sequence]
  {
    hide RingOk, Typed, SameKinds, Room, Effective, Delta, Pack, Sweep, ReceiveAll, SlotsOk, Shows, Baseline, Replicates, NoneSeenBefore;
    ghost var cur, base := history[sequence], Baseline(history, ack);
    var packet := PacketAddEntities(snapshots, sequence, ack, sizes, history);
    DeltaTyped(cur, base, sizes);
    DeltaApplied(slots[..], cur, base, now, configured);
    ReadEntities(slots, packet, sizes, now, configured, Delta(cur, base));
  }

  /** A receiver that shows exactly the acknowledged snapshot is ready, when the slots suffice. */
  lemma ShowingIsReady(slots: seq<Slot>, cur: seq<Record>, base: seq<Record>)
    requires Replicates(slots, base) && Distinct(cur) && SameKinds(cur, base)
    requires forall k | 0 <= k < |slots| :: !slots[k].status.Leaving?
    requires Used(slots) + Needed(cur, slots) <= |slots|
    ensures Ready(slots, cur, base)
  {
    hide SlotsOk, Distinct;
    forall k, c | 0 <= k < |slots| && !slots[k].status.Gone? && c in cur && slots[k].remote == c.sequence
      ensures slots[k].status.Alive? && slots[k].kind == c.kind
    {
      assert slots[k].status.Alive?;
    }
    forall b | b in base ensures HasData(slots, b) {
      var k :| 0 <= k < |slots| && Shows(slots[k], b);
    }
  }
}
