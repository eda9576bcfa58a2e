/** What the hash-table compressor decides: the sequences it finds, as a function of the input, the hash
    and the acceleration, and which outputs are too small for them. */
module Lz4Greedy {
  import opened Bytes
  import opened Lz4Format

  // ---- The table.

  function EntryAt(t: seq<nat>, h: nat): nat { if h < |t| then t[h] else 0 }

  function Put(t: seq<nat>, h: nat, i: nat): seq<nat> { if h < |t| then t[h := i] else t }

  function ZeroTable(n: nat): seq<nat> { seq(n, _ => 0) }

  predicate SameFour(src: seq<Byte>, p: nat, q: nat) {
    p + MINMATCH <= |src| && q + MINMATCH <= |src|
    && src[p] == src[q] && src[p + 1] == src[q + 1] && src[p + 2] == src[q + 2] && src[p + 3] == src[q + 3]
  }

  /** The table entry m is a match for ip; with 16-bit indices the distance is not looked at. */
  predicate Hit(src: seq<Byte>, m: nat, ip: nat, byU16: bool) {
    m < ip && (byU16 || ip <= m + DISTANCE_MAX) && SameFour(src, ip, m)
  }

  // ---- The search.

  datatype Probed = Probed(found: bool, ip: nat, m: nat, table: seq<nat>)

  /** Positions further and further apart, until the table names a match or the end margin is reached. */
  function Probe(src: seq<Byte>, t: seq<nat>, hash: nat -> nat, ip: nat, step: nat, nb: nat, byU16: bool): (r: Probed)
    requires step >= 1 && nb >= 64
    ensures r.found ==> ip <= r.ip && r.ip + MFLIMIT <= |src| && r.m < r.ip
    decreases |src| - ip
  {
    if ip + step > |src| - MFLIMIT + 1 then Probed(false, ip, 0, t)
    else
      var m := EntryAt(t, hash(ip));
      if Hit(src, m, ip, byU16) then Probed(true, ip, m, Put(t, hash(ip), ip))
      else Probe(src, Put(t, hash(ip), ip), hash, ip + step, nb / 64, nb + 1, byU16)
  }

  // ---- A match.

  /** How far it extends backwards, to the anchor at most. */
  function Back(src: seq<Byte>, anchor: nat, ip: nat, m: nat): (k: nat)
    requires anchor <= ip <= |src| && m <= ip
    ensures k <= ip - anchor && k <= m
    decreases ip
  {
    if ip > anchor && m > 0 && src[ip - 1] == src[m - 1] then 1 + Back(src, anchor, ip - 1, m - 1) else 0
  }

  /** And forwards, to the limit at most. */
  function Common(src: seq<Byte>, p: nat, q: nat, limit: nat): (c: nat)
    requires q <= p && limit <= |src|
    ensures p <= limit ==> p + c <= limit
    decreases limit - p
  {
    if p < limit && src[p] == src[q] then 1 + Common(src, p + 1, q + 1, limit) else 0
  }

  lemma {:induction false} CommonIs(src: seq<Byte>, p: nat, q: nat, limit: nat, c: nat)
    requires q < p && p + c <= limit <= |src|
    requires forall k :: p <= k < p + c ==> src[k] == src[k - (p - q)]
    requires p + c < limit ==> src[p + c] != src[q + c]
    ensures Common(src, p, q, limit) == c
    decreases c
  {
    if c > 0 {
      assert src[p] == src[p - (p - q)];
      CommonIs(src, p + 1, q + 1, limit, c - 1);
    }
  }

  /** The sequence of a match at ip, extended as far as it goes. */
  function SequenceAt(src: seq<Byte>, anchor: nat, ip: nat, m: nat): (q: Sequence)
    requires anchor <= ip && m <= ip && ip + MFLIMIT <= |src|
    ensures MINMATCH <= q.matchLen && ip + q.matchLen + LASTLITERALS <= |src| && |q.literals| == ip - anchor
  {
    Sequence(src[anchor..ip], ip - m, MINMATCH + Common(src, ip + MINMATCH, m + MINMATCH, |src| - LASTLITERALS))
  }

  // ---- The parse.

  /** A sequence, and whether its match followed the one before at once. */
  datatype Item = Item(q: Sequence, chained: bool)

  function Quoted(items: seq<Item>): seq<Sequence> {
    seq(|items|, i requires 0 <= i < |items| => items[i].q)
  }

  datatype Chain = Chain(items: seq<Item>, atEnd: bool, ip: nat, table: seq<nat>)

  /** A match and those that follow it without a search. */
  function ChainFrom(src: seq<Byte>, t: seq<nat>, hash: nat -> nat, anchor: nat, ip: nat, m: nat, chained: bool,
                     byU16: bool): (r: Chain)
    requires anchor <= ip && m <= ip && ip + MFLIMIT <= |src|
    ensures ip < r.ip <= |src| && r.items != []
    decreases |src| - ip
  {
    var q := SequenceAt(src, anchor, ip, m);
    var end := ip + q.matchLen;
    if end >= |src| - MFLIMIT + 1 then Chain([Item(q, chained)], true, end, t)
    else
      var t1 := Put(t, hash(end - 2), end - 2);
      var m1 := EntryAt(t1, hash(end));
      var t2 := Put(t1, hash(end), end);
      if Hit(src, m1, end, byU16) then
        var r := ChainFrom(src, t2, hash, end, end, m1, true, byU16);
        r.(items := [Item(q, chained)] + r.items)
      else Chain([Item(q, chained)], false, end, t2)
  }

  /** The sequences from ip on, when all before the anchor is written. */
  function Greedy(src: seq<Byte>, t: seq<nat>, hash: nat -> nat, anchor: nat, ip: nat, acceleration: nat, byU16: bool)
    : seq<Item>
    requires anchor <= ip && acceleration >= 1
    decreases |src| + 1 - ip
  {
    var s := Probe(src, t, hash, ip, 1, acceleration * 64, byU16);
    if !s.found then []
    else
      var k := Back(src, anchor, s.ip, s.m);
      var c := ChainFrom(src, s.table, hash, anchor, s.ip - k, s.m - k, false, byU16);
      if c.atEnd || c.ip < ip then c.items
      else c.items + Greedy(src, c.table, hash, c.ip, c.ip + 1, acceleration, byU16)
  }

  /** All sequences of the input. */
  function Items(src: seq<Byte>, tableSize: nat, hash: nat -> nat, acceleration: nat, byU16: bool): seq<Item>
    requires acceleration >= 1
  {
    if |src| <= MFLIMIT then []
    else Greedy(src, Put(ZeroTable(tableSize), hash(0), 0), hash, 0, 1, acceleration, byU16)
  }

  // ---- Outputs of limited size.

  function ExtLen(n: nat): nat { (n + 240) / 255 }

  /** The room asked for before the literals of a sequence are written at op. */
  predicate LiteralsFit(op: nat, ll: nat, cap: nat) { op + 1 + ll + (2 + 1 + LASTLITERALS) + ll / 255 <= cap }

  /** And before its match length, with the offset to be written at op. */
  predicate MatchFits(op: nat, mc: nat, cap: nat) { op + 2 + (1 + LASTLITERALS) + ExtLen(mc) <= cap }

  function AfterLiterals(op: nat, q: Sequence): nat { op + 1 + ExtLen(|q.literals|) + |q.literals| }

  function MatchCode(q: Sequence): nat { if q.matchLen < MINMATCH then 0 else q.matchLen - MINMATCH }

  function After(op: nat, q: Sequence): nat { AfterLiterals(op, q) + 2 + ExtLen(MatchCode(q)) }

  predicate ItemFits(i: Item, op: nat, cap: nat) {
    && (i.chained || LiteralsFit(op, |i.q.literals|, cap))
    && MatchFits(AfterLiterals(op, i.q), MatchCode(i.q), cap)
  }

  /** Every check on the way, from op on. */
  predicate ItemsFit(items: seq<Item>, op: nat, cap: nat) {
    items == [] || (ItemFits(items[0], op, cap) && ItemsFit(items[1..], After(op, items[0].q), cap))
  }

  function OpAfter(items: seq<Item>, op: nat): nat {
    if items == [] then op else OpAfter(items[1..], After(op, items[0].q))
  }

  /** How much of the input the sequences stand for. */
  function Covered(items: seq<Item>): nat {
    if items == [] then 0 else |items[0].q.literals| + items[0].q.matchLen + Covered(items[1..])
  }

  /** And the check before the last literals. */
  predicate Fit(items: seq<Item>, n: nat, cap: nat) {
    var tail := if Covered(items) <= n then n - Covered(items) else 0;
    ItemsFit(items, 0, cap) && OpAfter(items, 0) + tail + 1 + ExtLen(tail) <= cap
  }

  lemma {:induction false} FitJoin(a: seq<Item>, b: seq<Item>, op: nat, cap: nat)
    ensures ItemsFit(a + b, op, cap) <==> ItemsFit(a, op, cap) && ItemsFit(b, OpAfter(a, op), cap)
    ensures OpAfter(a + b, op) == OpAfter(b, OpAfter(a, op))
    ensures Covered(a + b) == Covered(a) + Covered(b)
    decreases |a|
  {
    hide ItemFits, After;
    if a == [] {
      assert a + b == b;
    } else {
      assert (a + b)[0] == a[0] && (a + b)[1..] == a[1..] + b;
      FitJoin(a[1..], b, After(op, a[0].q), cap);
    }
  }

  lemma FitOne(i: Item, op: nat, cap: nat)
    ensures ItemsFit([i], op, cap) <==> ItemFits(i, op, cap)
    ensures OpAfter([i], op) == After(op, i.q) && Covered([i]) == |i.q.literals| + i.q.matchLen
  {
    assert [i][1..] == [];
  }

  lemma QuotedJoin(a: seq<Item>, b: seq<Item>)
    ensures Quoted(a + b) == Quoted(a) + Quoted(b)
  {
  }

  lemma QuotedOne(i: Item)
    ensures Quoted([i]) == [i.q] && Quoted([]) == []
  {
  }

  /** One step of the chain. */
  lemma ChainUnfolds(src: seq<Byte>, t: seq<nat>, hash: nat -> nat, anchor: nat, ip: nat, m: nat, chained: bool, byU16: bool)
    requires anchor <= ip && m <= ip && ip + MFLIMIT <= |src|
    ensures var c := ChainFrom(src, t, hash, anchor, ip, m, chained, byU16);
      var q := SequenceAt(src, anchor, ip, m); var end := ip + q.matchLen;
      && c.items[0] == Item(q, chained)
      && (end >= |src| - MFLIMIT + 1 ==> c == Chain([Item(q, chained)], true, end, t))
      && (end < |src| - MFLIMIT + 1 ==>
            var t1 := Put(t, hash(end - 2), end - 2); var m1 := EntryAt(t1, hash(end)); var t2 := Put(t1, hash(end), end);
            if Hit(src, m1, end, byU16) then
              m1 < end && c == (var r := ChainFrom(src, t2, hash, end, end, m1, true, byU16);
                                r.(items := [Item(q, chained)] + r.items))
            else c == Chain([Item(q, chained)], false, end, t2))
  {
    hide SequenceAt, SameFour;
  }

  /** A chain stands for the input up to its end. */
  lemma {:induction false} ChainCovers(src: seq<Byte>, t: seq<nat>, hash: nat -> nat, anchor: nat, ip: nat, m: nat,
                                       chained: bool, byU16: bool)
    requires anchor <= ip && m <= ip && ip + MFLIMIT <= |src|
    ensures var c := ChainFrom(src, t, hash, anchor, ip, m, chained, byU16); c.ip == anchor + Covered(c.items)
    decreases |src| - ip
  {
    hide Hit, Put, EntryAt, ChainFrom, SequenceAt, Covered;
    var q := SequenceAt(src, anchor, ip, m);
    var end := ip + q.matchLen;
    FitOne(Item(q, chained), 0, 0);
    ChainUnfolds(src, t, hash, anchor, ip, m, chained, byU16);
    if end < |src| - MFLIMIT + 1 {
      var t1 := Put(t, hash(end - 2), end - 2);
      var m1 := EntryAt(t1, hash(end));
      var t2 := Put(t1, hash(end), end);
      if Hit(src, m1, end, byU16) {
        ChainCovers(src, t2, hash, end, end, m1, true, byU16);
        FitJoin([Item(q, chained)], ChainFrom(src, t2, hash, end, end, m1, true, byU16).items, 0, 0);
      }
    }
  }

  /** One position of the search. */
  lemma ProbeUnfolds(src: seq<Byte>, t: seq<nat>, hash: nat -> nat, ip: nat, step: nat, nb: nat, byU16: bool)
    requires step >= 1 && nb >= 64
    ensures Probe(src, t, hash, ip, step, nb, byU16) ==
      if ip + step > |src| - MFLIMIT + 1 then Probed(false, ip, 0, t)
      else
        var m := EntryAt(t, hash(ip));
        if Hit(src, m, ip, byU16) then Probed(true, ip, m, Put(t, hash(ip), ip))
        else Probe(src, Put(t, hash(ip), ip), hash, ip + step, nb / 64, nb + 1, byU16)
  {
    hide Hit;
  }

  /** One round of the parse. */
  lemma GreedyUnfolds(src: seq<Byte>, t: seq<nat>, hash: nat -> nat, anchor: nat, ip: nat, acceleration: nat, byU16: bool)
    requires anchor <= ip && acceleration >= 1
    ensures var s := Probe(src, t, hash, ip, 1, acceleration * 64, byU16);
      var g := Greedy(src, t, hash, anchor, ip, acceleration, byU16);
      && (!s.found ==> g == [])
      && (s.found ==>
            var k := Back(src, anchor, s.ip, s.m);
            var c := ChainFrom(src, s.table, hash, anchor, s.ip - k, s.m - k, false, byU16);
            g == if c.atEnd || c.ip < ip then c.items
                 else c.items + Greedy(src, c.table, hash, c.ip, c.ip + 1, acceleration, byU16))
  {
    hide Probe, ChainFrom, Back;
  }
}
