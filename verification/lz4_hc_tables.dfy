/** The hash table and the chains of the high-compression mode, and what insertion makes of them: every
    inserted position is linked to the one before it with the same hash. */
module Lz4HcTables {
  import opened Bytes
  import opened Lz4Format
  import opened Lz4Encode

  const CHAIN_SIZE := 65536

  /** A hash of the four bytes at a position stays inside the table. */
  ghost predicate HashOk4(src: seq<Byte>, hash: nat -> nat, size: nat) {
    forall p: nat | p + MINMATCH <= |src| :: hash(p) < size
  }

  ghost predicate DeltasOk(chain: seq<nat>) {
    |chain| == CHAIN_SIZE && forall i | 0 <= i < |chain| :: chain[i] <= DISTANCE_MAX
  }

  ghost predicate HashBelow(hash: nat -> nat, size: nat, ip: nat) {
    forall p: nat | p < ip :: hash(p) < size
  }

  /** The distance kept for a position that is delta behind the head of its list. */
  function Capped(delta: int): (d: nat)
    ensures d <= DISTANCE_MAX
  {
    if delta < 0 || delta > DISTANCE_MAX then DISTANCE_MAX else delta
  }

  /** Both tables after inserting the indices from idx to that of ip. */
  ghost function Inserted(heads: seq<nat>, chain: seq<nat>, hash: nat -> nat, base: nat, idx: nat, ip: nat)
    : (seq<nat>, seq<nat>)
    requires |chain| == CHAIN_SIZE && base <= idx && HashBelow(hash, |heads|, ip)
    decreases base + ip - idx
  {
    if idx >= base + ip then (heads, chain)
    else
      var h := hash(idx - base);
      Inserted(heads[h := idx], chain[idx % CHAIN_SIZE := Capped(idx - heads[h])], hash, base, idx + 1, ip)
  }

  lemma HashAt(hash: nat -> nat, size: nat, ip: nat, p: nat)
    requires HashBelow(hash, size, ip) && p < ip
    ensures hash(p) < size
  {
  }

  lemma InsertedStep(heads: seq<nat>, chain: seq<nat>, hash: nat -> nat, base: nat, idx: nat, ip: nat)
    requires |chain| == CHAIN_SIZE && base <= idx < base + ip && HashBelow(hash, |heads|, ip)
    ensures var h := hash(idx - base);
      Inserted(heads, chain, hash, base, idx, ip) ==
        Inserted(heads[h := idx], chain[idx % CHAIN_SIZE := Capped(idx - heads[h])], hash, base, idx + 1, ip)
  {
  }

  lemma InsertedAll(heads: seq<nat>, chain: seq<nat>, hash: nat -> nat, base: nat, idx: nat, ip: nat)
    requires |chain| == CHAIN_SIZE && base <= idx && idx >= base + ip && HashBelow(hash, |heads|, ip)
    ensures Inserted(heads, chain, hash, base, idx, ip) == (heads, chain)
  {
  }

  lemma HashRange(src: seq<Byte>, hash: nat -> nat, size: nat, ip: nat)
    requires HashOk4(src, hash, size) && ip + MINMATCH <= |src|
    ensures HashBelow(hash, size, ip) && hash(ip) < size
  {
  }

  lemma DeltasSize(c: seq<nat>)
    requires DeltasOk(c)
    ensures |c| == CHAIN_SIZE
  {
  }

  lemma TablePut(t: seq<nat>, idx: nat, h: nat)
    requires TableBelow(t, idx) && h < |t|
    ensures TableBelow(t[h := idx], idx + 1)
  {
  }

  lemma DeltasPut(c: seq<nat>, i: nat, d: nat)
    requires DeltasOk(c) && i < |c| && d <= DISTANCE_MAX
    ensures DeltasOk(c[i := d])
  {
  }

  // ---- What the tables say. Positions count from the first byte, which has index base.

  /** A head that is not stale is one of the first n positions and has that hash. */
  ghost predicate HeadsHash(heads: seq<nat>, hash: nat -> nat, base: nat, n: nat) {
    forall h | 0 <= h < |heads| && base <= heads[h] :: heads[h] < base + n && hash(heads[h] - base) == h
  }

  /** None of the first n positions is behind the head of its hash. */
  ghost predicate HeadsLast(heads: seq<nat>, hash: nat -> nat, base: nat, n: nat) {
    forall p: nat | p < n :: hash(p) < |heads| && base + p <= heads[hash(p)]
  }

  /** Every head is the last of the first n positions with its hash, if there is one. */
  ghost predicate HeadsExact(heads: seq<nat>, hash: nat -> nat, base: nat, n: nat) {
    HeadsHash(heads, hash, base, n) && HeadsLast(heads, hash, base, n)
  }

  /** d back from position p is the last position before it with the same hash; a capped distance says
      only that there is none in between. */
  ghost predicate Link(hash: nat -> nat, p: nat, d: nat) {
    && 1 <= d <= DISTANCE_MAX
    && (forall q: nat | q < p < q + d :: hash(q) != hash(p))
    && (d < DISTANCE_MAX && d <= p ==> hash(p - d) == hash(p))
  }

  /** The chain entry of position p. */
  function Entry(chain: seq<nat>, base: nat, p: nat): nat
    requires |chain| == CHAIN_SIZE
  {
    chain[(base + p) % CHAIN_SIZE]
  }

  /** Of the first n positions, all whose entry has not been reused are linked. */
  ghost predicate LinksExact(chain: seq<nat>, hash: nat -> nat, base: nat, n: nat) {
    |chain| == CHAIN_SIZE && forall p: nat | p < n <= p + CHAIN_SIZE :: Link(hash, p, Entry(chain, base, p))
  }

  /** The tables after n positions. */
  ghost predicate Exact(heads: seq<nat>, chain: seq<nat>, hash: nat -> nat, base: nat, n: nat) {
    HeadsExact(heads, hash, base, n) && LinksExact(chain, hash, base, n)
  }

  /** Stale tables link nothing. */
  lemma EmptyExact(heads: seq<nat>, chain: seq<nat>, hash: nat -> nat, base: nat)
    requires TableBelow(heads, base) && |chain| == CHAIN_SIZE
    ensures Exact(heads, chain, hash, base, 0)
  {
  }

  lemma HeadsHashPut(heads: seq<nat>, hash: nat -> nat, base: nat, n: nat)
    requires HeadsHash(heads, hash, base, n) && hash(n) < |heads|
    ensures HeadsHash(heads[hash(n) := base + n], hash, base, n + 1)
  {
    var t := heads[hash(n) := base + n];
    forall h | 0 <= h < |t| && base <= t[h] ensures t[h] < base + n + 1 && hash(t[h] - base) == h {
      if h != hash(n) {
        assert t[h] == heads[h];
      }
    }
  }

  lemma HeadsLastPut(heads: seq<nat>, hash: nat -> nat, base: nat, n: nat)
    requires HeadsLast(heads, hash, base, n) && hash(n) < |heads|
    ensures HeadsLast(heads[hash(n) := base + n], hash, base, n + 1)
  {
    var t := heads[hash(n) := base + n];
    forall p: nat | p < n + 1 ensures hash(p) < |t| && base + p <= t[hash(p)] {
      if p < n {
        assert base + p <= heads[hash(p)];
      }
    }
  }

  lemma HeadsPut(heads: seq<nat>, hash: nat -> nat, base: nat, n: nat)
    requires HeadsExact(heads, hash, base, n) && hash(n) < |heads|
    ensures HeadsExact(heads[hash(n) := base + n], hash, base, n + 1)
  {
    hide HeadsHash, HeadsLast;
    HeadsHashPut(heads, hash, base, n);
    HeadsLastPut(heads, hash, base, n);
  }

  /** The head says where the last position with the same hash is. */
  lemma HeadLink(heads: seq<nat>, hash: nat -> nat, base: nat, n: nat)
    requires HeadsExact(heads, hash, base, n) && hash(n) < |heads| && heads[hash(n)] < base + n
    ensures Link(hash, n, Capped(base + n - heads[hash(n)]))
  {
    hide HeadsHash, HeadsLast;
    var d := Capped(base + n - heads[hash(n)]);
    forall q: nat | q < n < q + d ensures hash(q) != hash(n) {
      HeadNotBefore(heads, hash, base, n, q);
    }
    if base <= heads[hash(n)] {
      HeadHash(heads, hash, base, n, hash(n));
    }
  }

  lemma HeadNotBefore(heads: seq<nat>, hash: nat -> nat, base: nat, n: nat, p: nat)
    requires HeadsLast(heads, hash, base, n) && p < n
    ensures hash(p) < |heads| && base + p <= heads[hash(p)]
  {
  }

  lemma HeadHash(heads: seq<nat>, hash: nat -> nat, base: nat, n: nat, h: nat)
    requires HeadsHash(heads, hash, base, n) && h < |heads| && base <= heads[h]
    ensures heads[h] < base + n && hash(heads[h] - base) == h
  {
  }

  lemma OtherSlot(base: nat, p: nat, n: nat)
    requires p < n < p + CHAIN_SIZE
    ensures (base + p) % CHAIN_SIZE != (base + n) % CHAIN_SIZE
  {
  }

  lemma LinksPut(chain: seq<nat>, hash: nat -> nat, base: nat, n: nat, d: nat)
    requires LinksExact(chain, hash, base, n) && Link(hash, n, d)
    ensures LinksExact(chain[(base + n) % CHAIN_SIZE := d], hash, base, n + 1)
  {
    hide Link;
    var c := chain[(base + n) % CHAIN_SIZE := d];
    forall p: nat | p < n + 1 <= p + CHAIN_SIZE ensures Link(hash, p, Entry(c, base, p)) {
      if p < n {
        OtherSlot(base, p, n);
        assert Entry(c, base, p) == Entry(chain, base, p);
      }
    }
  }

  lemma PutExact(heads: seq<nat>, chain: seq<nat>, hash: nat -> nat, base: nat, n: nat)
    requires Exact(heads, chain, hash, base, n) && TableBelow(heads, base + n) && hash(n) < |heads|
    requires |chain| == CHAIN_SIZE
    ensures Exact(heads[hash(n) := base + n], chain[(base + n) % CHAIN_SIZE := Capped(base + n - heads[hash(n)])],
                  hash, base, n + 1)
  {
    hide HeadsExact, LinksExact, TableBelow, Link, Capped;
    TableEntry(heads, base + n, hash(n));
    HeadsPut(heads, hash, base, n);
    HeadLink(heads, hash, base, n);
    LinksPut(chain, hash, base, n, Capped(base + n - heads[hash(n)]));
  }

  /** Insertion links what it inserts. */
  lemma {:induction false} InsertedExact(heads: seq<nat>, chain: seq<nat>, hash: nat -> nat, base: nat, n: nat, ip: nat)
    requires Exact(heads, chain, hash, base, n) && TableBelow(heads, base + n) && n <= ip
    requires |chain| == CHAIN_SIZE && HashBelow(hash, |heads|, ip)
    ensures var (h, c) := Inserted(heads, chain, hash, base, base + n, ip); Exact(h, c, hash, base, ip)
    decreases ip - n
  {
    hide Exact, TableBelow, HashBelow, Inserted, Capped;
    if n == ip {
      InsertedAll(heads, chain, hash, base, base + n, ip);
    } else {
      HashAt(hash, |heads|, ip, n);
      InsertedStep(heads, chain, hash, base, base + n, ip);
      PutExact(heads, chain, hash, base, n);
      TablePut(heads, base + n, hash(n));
      InsertedExact(heads[hash(n) := base + n],
                    chain[(base + n) % CHAIN_SIZE := Capped(base + n - heads[hash(n)])], hash, base, n + 1, ip);
    }
  }
}
