/** Sequence numbers and acknowledgements of two connected peers, over a network that may lose,
    duplicate and reorder packets: whatever was sent may arrive, any number of times, or never. */
module NetAck {

  /** packet_header_t. */
  datatype Packet = Packet(sequence: int, ack: int)

  /** What one peer keeps for the connection: its frame number, whether it sent its packet of this
      frame, incoming_sequence, ack_sequence, and as history the snapshots it applied and the packets
      it sent. */
  datatype Peer = Peer(sequence: int, sent: bool, incoming: int, ack: int, applied: set<int>, out: set<Packet>)

  function Connected(sequence: nat): Peer { Peer(sequence, false, -1, -1, {}, {}) }

  // ---- The steps of a peer.

  /** packet_send. */
  function Sent(p: Peer): Peer {
    p.(sent := true, out := p.out + {Packet(p.sequence, p.incoming)})
  }

  /** packet_recv, for one packet: not newer than the last one is dropped. */
  function Received(p: Peer, header: Packet): Peer {
    if header.sequence <= p.incoming then p
    else p.(incoming := header.sequence, ack := header.ack, applied := p.applied + {header.sequence})
  }

  /** The end of net_update. */
  function Ticked(p: Peer): Peer {
    p.(sequence := p.sequence + 1, sent := false)
  }

  datatype Action = Send | Receive(header: Packet) | Tick

  /** A peer sends once a frame, then receives, then goes on to the next frame. */
  predicate Enabled(self: Peer, other: Peer, a: Action) {
    match a
    case Send => !self.sent
    case Receive(header) => self.sent && header in other.out
    case Tick => self.sent
  }

  function Step(self: Peer, a: Action): Peer {
    match a
    case Send => Sent(self)
    case Receive(header) => Received(self, header)
    case Tick => Ticked(self)
  }

  // ---- The invariant.

  predicate PacketOk(p: Peer, x: Packet) {
    && 0 <= x.sequence <= p.sequence && (x.sequence == p.sequence ==> p.sent)
    && -1 <= x.ack <= p.incoming && (x.ack == -1 || x.ack in p.applied)
  }

  ghost predicate OutOk(p: Peer) {
    forall x | x in p.out :: PacketOk(p, x)
  }

  /** Later packets acknowledge no less. */
  ghost predicate OutOrdered(p: Peer) {
    forall x, y | x in p.out && y in p.out && x.sequence <= y.sequence ::
      x.ack <= y.ack && (x.sequence == y.sequence ==> x == y)
  }

  /** The last packet taken in from the other peer is where both numbers come from. */
  predicate InOk(p: Peer, other: Peer) {
    && p.sequence >= 0
    && ((p.incoming == -1 && p.ack == -1) || (Packet(p.incoming, p.ack) in other.out && p.incoming in p.applied))
  }

  ghost predicate Inv(a: Peer, b: Peer) {
    && OutOk(a) && OutOk(b) && OutOrdered(a) && OutOrdered(b)
    && InOk(a, b) && InOk(b, a)
  }

  lemma ConnectedInv(m: nat, n: nat)
    ensures Inv(Connected(m), Connected(n))
  {
  }

  lemma SendInv(a: Peer, b: Peer)
    requires Inv(a, b) && !a.sent
    ensures Inv(Sent(a), b)
  {
    var t := Sent(a);
    InBounds(a, b);
    forall x | x in t.out ensures PacketOk(t, x) {
      if x in a.out {
        assert PacketOk(a, x);
      }
    }
    forall x, y | x in t.out && y in t.out && x.sequence <= y.sequence
      ensures x.ack <= y.ack && (x.sequence == y.sequence ==> x == y)
    {
      if x in a.out {
        assert PacketOk(a, x);
      }
      if y in a.out {
        assert PacketOk(a, y);
      }
    }
  }

  lemma InBounds(a: Peer, b: Peer)
    requires InOk(a, b) && OutOk(b)
    ensures -1 <= a.incoming && (a.incoming == -1 || a.incoming in a.applied)
  {
    if a.incoming != -1 {
      assert PacketOk(b, Packet(a.incoming, a.ack));
    }
  }

  lemma ReceiveInv(a: Peer, b: Peer, header: Packet)
    requires Inv(a, b) && header in b.out
    ensures Inv(Received(a, header), b)
    ensures a.incoming <= Received(a, header).incoming && a.ack <= Received(a, header).ack
  {
    var t := Received(a, header);
    assert PacketOk(b, header);
    forall x | x in t.out ensures PacketOk(t, x) {
      assert PacketOk(a, x);
    }
    if a.incoming != -1 {
      assert Packet(a.incoming, a.ack) in b.out;
    }
  }

  lemma TickInv(a: Peer, b: Peer)
    requires Inv(a, b) && a.sent
    ensures Inv(Ticked(a), b)
  {
    var t := Ticked(a);
    forall x | x in t.out ensures PacketOk(t, x) {
      assert PacketOk(a, x);
    }
  }

  lemma InvSwap(a: Peer, b: Peer)
    requires Inv(a, b)
    ensures Inv(b, a)
  {
  }

  // ---- Runs of both peers.

  datatype Move = MoveA(a: Action) | MoveB(b: Action)

  datatype Pair = Pair(a: Peer, b: Peer)

  predicate CanMove(s: Pair, m: Move) {
    match m
    case MoveA(x) => Enabled(s.a, s.b, x)
    case MoveB(x) => Enabled(s.b, s.a, x)
  }

  function Moved(s: Pair, m: Move): Pair {
    match m
    case MoveA(x) => s.(a := Step(s.a, x))
    case MoveB(x) => s.(b := Step(s.b, x))
  }

  ghost predicate Reaches(s: Pair, run: seq<Move>, t: Pair)
    decreases |run|
  {
    if run == [] then s == t else CanMove(s, run[0]) && Reaches(Moved(s, run[0]), run[1..], t)
  }

  lemma StepInv(a: Peer, b: Peer, x: Action)
    requires Inv(a, b) && Enabled(a, b, x)
    ensures Inv(Step(a, x), b)
    ensures var t := Step(a, x); a.incoming <= t.incoming && a.ack <= t.ack && a.applied <= t.applied
  {
    hide Inv, Sent, Received, Ticked;
    match x
    case Send => SendInv(a, b); SentSame(a);
    case Receive(header) => ReceiveInv(a, b, header); ReceivedMore(a, header);
    case Tick => TickInv(a, b); TickedSame(a);
  }

  lemma SentSame(a: Peer)
    ensures Sent(a).incoming == a.incoming && Sent(a).ack == a.ack && Sent(a).applied == a.applied
  {
  }

  lemma ReceivedMore(a: Peer, header: Packet)
    ensures a.applied <= Received(a, header).applied
  {
  }

  lemma TickedSame(a: Peer)
    ensures Ticked(a).incoming == a.incoming && Ticked(a).ack == a.ack && Ticked(a).applied == a.applied
  {
  }

  lemma MoveInv(s: Pair, m: Move)
    requires Inv(s.a, s.b) && CanMove(s, m)
    ensures Inv(Moved(s, m).a, Moved(s, m).b)
    ensures NoLess(s, Moved(s, m))
  {
    hide Inv, Step, Enabled;
    match m
    case MoveA(x) =>
      StepInv(s.a, s.b, x);
    case MoveB(x) =>
      InvSwap(s.a, s.b);
      StepInv(s.b, s.a, x);
      InvSwap(Step(s.b, x), s.a);
  }

  /** Neither side's numbers decrease and nothing that was applied is forgotten. */
  predicate NoLess(s: Pair, t: Pair) {
    && s.a.incoming <= t.a.incoming && s.a.ack <= t.a.ack && s.a.applied <= t.a.applied
    && s.b.incoming <= t.b.incoming && s.b.ack <= t.b.ack && s.b.applied <= t.b.applied
  }

  lemma {:induction false} RunInv(s: Pair, run: seq<Move>, t: Pair)
    requires Inv(s.a, s.b) && Reaches(s, run, t)
    ensures Inv(t.a, t.b) && NoLess(s, t)
    decreases |run|
  {
    hide Inv, CanMove, Moved;
    if run != [] {
      MoveInv(s, run[0]);
      RunInv(Moved(s, run[0]), run[1..], t);
    }
  }

  /** What A was told is never ahead of what B took in, which is never ahead of what A sent; and every
      snapshot A takes for acknowledged was applied by B. */
  ghost predicate AckSafe(a: Peer, b: Peer) {
    a.ack <= b.incoming <= a.sequence && (a.ack == -1 || a.ack in b.applied)
  }

  lemma InvSafe(a: Peer, b: Peer)
    requires Inv(a, b)
    ensures AckSafe(a, b)
  {
    if a.incoming != -1 {
      assert PacketOk(b, Packet(a.incoming, a.ack));
    }
    if b.incoming != -1 {
      assert PacketOk(a, Packet(b.incoming, b.ack));
    }
  }

  /** Two-peer acknowledgement safety, for every run from a fresh connection: at any point, and from
      any point to any later one. */
  lemma RunSafe(m: nat, n: nat, run: seq<Move>, mid: Pair, later: seq<Move>, end: Pair)
    requires Reaches(Pair(Connected(m), Connected(n)), run, mid) && Reaches(mid, later, end)
    ensures AckSafe(end.a, end.b) && AckSafe(end.b, end.a) && NoLess(mid, end)
  {
    hide Inv, AckSafe, NoLess, Reaches;
    ConnectedInv(m, n);
    RunInv(Pair(Connected(m), Connected(n)), run, mid);
    RunInv(mid, later, end);
    InvSafe(end.a, end.b);
    InvSwap(end.a, end.b);
    InvSafe(end.b, end.a);
  }

  /** And it gets ahead: when A's packet of this frame arrives and then B's answer, A knows that B has A's
      snapshot of this frame. */
  lemma Acknowledged(a: Peer, b: Peer)
    requires Inv(a, b) && !a.sent && !b.sent
    ensures var a1 := Sent(a); var mine := Packet(a.sequence, a.incoming);
      var b1 := Received(b, mine); var b2 := Sent(b1); var answer := Packet(b.sequence, a.sequence);
      && mine in a1.out && b1.incoming == a.sequence && answer in b2.out
      && Received(a1, answer).ack == a.sequence && Received(a1, answer).incoming == b.sequence
  {
    NotYet(a, b);
    InvSwap(a, b);
    NotYet(b, a);
  }

  /** What was not sent yet was not taken in. */
  lemma NotYet(a: Peer, b: Peer)
    requires Inv(a, b) && !a.sent
    ensures b.incoming < a.sequence
  {
    if b.incoming != -1 {
      assert PacketOk(a, Packet(b.incoming, b.ack));
    }
  }

  // ---- The connection object.

  /** A packet queue drained in order. */
  function Drained(p: Peer, queue: seq<Packet>): Peer
    decreases |queue|
  {
    if queue == [] then p else Drained(Received(p, queue[0]), queue[1..])
  }

  /** Both numbers are those of the newest packet drained, if it is newer than what came before. */
  ghost predicate Newest(p: Peer, queue: seq<Packet>, q: Peer) {
    && q.incoming >= p.incoming && (forall x | x in queue :: x.sequence <= q.incoming)
    && ((q.incoming == p.incoming && q.ack == p.ack)
        || (q.incoming > p.incoming && Packet(q.incoming, q.ack) in queue && q.incoming in q.applied))
  }

  /** Draining a queue takes in its newest packet and changes nothing else: nothing is dropped that is newer
      than all that came before it. */
  lemma {:induction false} DrainedIs(p: Peer, queue: seq<Packet>)
    ensures Newest(p, queue, Drained(p, queue))
    ensures var q := Drained(p, queue); q.sequence == p.sequence && q.sent == p.sent && q.out == p.out && p.applied <= q.applied
    decreases |queue|
  {
    if queue != [] {
      var header := queue[0];
      var r := Received(p, header);
      DrainedIs(r, queue[1..]);
      NewestFirst(p, queue, r, Drained(r, queue[1..]));
    }
  }

  lemma NewestFirst(p: Peer, queue: seq<Packet>, r: Peer, q: Peer)
    requires queue != [] && r == Received(p, queue[0]) && Newest(r, queue[1..], q) && r.applied <= q.applied
    ensures Newest(p, queue, q)
  {
    assert queue == [queue[0]] + queue[1..];
  }

  /** connection_t and the frame number of its net_t, with the snapshots applied so far as a ghost. */
  class Connection {
    var sequence: int
    var incoming: int
    var ack: int
    ghost var sent: bool
    ghost var applied: set<int>
    ghost var out: set<Packet>

    ghost function State(): Peer
      reads this
    {
      Peer(sequence, sent, incoming, ack, applied, out)
    }

    constructor (sequence: nat)
      ensures State() == Connected(sequence)
    {
      this.sequence, incoming, ack := sequence, -1, -1;
      sent, applied, out := false, {}, {};
    }

    method SendPacket() returns (header: Packet)
      requires !sent
      modifies this
      ensures State() == Sent(old(State())) && header in out
    {
      header := Packet(sequence, incoming);
      sent := true;
      out := out + {header};
    }

    method ReceivePackets(queue: seq<Packet>)
      modifies this
      ensures State() == Drained(old(State()), queue)
    {
      var i := 0;
      assert queue[0..] == queue;
      while i < |queue|
        invariant 0 <= i <= |queue|
        invariant Drained(old(State()), queue) == Drained(State(), queue[i..])
      {
        var header := queue[i];
        assert queue[i..][0] == header && queue[i..][1..] == queue[i + 1..];
        ghost var before := State();
        i := i + 1;
        if header.sequence <= incoming {
          assert State() == Received(before, header);
          continue;
        }
        incoming := header.sequence;
        ack := header.ack;
        applied := applied + {header.sequence};
        assert State() == Received(before, header);
      }
    }

    method EndFrame()
      modifies this
      ensures State() == Ticked(old(State()))
    {
      sequence := sequence + 1;
      sent := false;
    }
  }
}
