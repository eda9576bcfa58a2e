/** Segregated free lists threaded through the free blocks, and the two bitmap levels over them. */
module TlsfLists {
  import opened TlsfIndex
  import opened TlsfLayout

  const BINS := 800

  /** An unsigned int by its bits. */
  type Bits = s: seq<bool> | |s| == 32 witness seq(32, _ => false)

  predicate AnyBit(w: Bits) {
    exists i :: 0 <= i < 32 && w[i]
  }

  /** The allocator's control structure with the memory it manages. The lists are numbered row by
      row: blocks[fl][sl] is heads[32 * fl + sl]. */
  datatype Control = Control(mem: Mem, fl: Bits, sl: seq<Bits>, heads: seq<int>)

  ghost predicate Shape(c: Control) {
    |c.sl| == FL_COUNT && |c.heads| == BINS
  }

  /** Age of the list entries: a list runs from younger to older blocks. */
  type Ranks = map<int, nat>

  function Rank(r: Ranks, x: int): nat {
    if x in r then r[x] else 0
  }

  predicate Listed(l: Layout, out: set<int>, x: int) {
    x in l && l[x].free && x !in out
  }

  ghost predicate NextOk(m: Mem, l: Layout, rank: Ranks, out: set<int>, nullb: int, x: int)
    requires x in l
  {
    var nx := Load(m, x + 16);
    nx == nullb || (Listed(l, out, nx) && Bin(l[nx].size) == Bin(l[x].size) && Load(m, nx + 24) == x
                    && Rank(rank, nx) < Rank(rank, x))
  }

  ghost predicate PrevOk(m: Mem, heads: seq<int>, l: Layout, out: set<int>, nullb: int, x: int)
    requires x in l && |heads| == BINS && 0 <= Bin(l[x].size) < BINS
  {
    var pv := Load(m, x + 24);
    if pv == nullb then heads[Bin(l[x].size)] == x
    else Listed(l, out, pv) && Bin(l[pv].size) == Bin(l[x].size) && Load(m, pv + 16) == x
  }

  ghost predicate LinkOk(m: Mem, heads: seq<int>, l: Layout, rank: Ranks, out: set<int>, nullb: int, x: int)
    requires x in l && |heads| == BINS
  {
    0 <= Bin(l[x].size) < BINS && NextOk(m, l, rank, out, nullb, x) && PrevOk(m, heads, l, out, nullb, x)
  }

  ghost predicate HeadOk(m: Mem, heads: seq<int>, l: Layout, out: set<int>, nullb: int, k: int)
    requires |heads| == BINS && 0 <= k < BINS
  {
    var h := heads[k];
    h == nullb || (Listed(l, out, h) && Bin(l[h].size) == k && Load(m, h + 24) == nullb)
  }

  ghost predicate Links(m: Mem, heads: seq<int>, l: Layout, rank: Ranks, out: set<int>, nullb: int) {
    && |heads| == BINS
    && (forall x | Listed(l, out, x) :: LinkOk(m, heads, l, rank, out, nullb, x))
    && (forall k | 0 <= k < BINS :: HeadOk(m, heads, l, out, nullb, k))
  }

  ghost predicate Bitmaps(c: Control, nullb: int) {
    && Shape(c)
    && (forall f, s | 0 <= f < FL_COUNT && 0 <= s < SL_COUNT :: c.sl[f][s] <==> c.heads[SL_COUNT * f + s] != nullb)
    && (forall f | 0 <= f < 32 :: c.fl[f] <==> f < FL_COUNT && AnyBit(c.sl[f]))
  }

  // ---- Insertion.

  /** insert_free_block. */
  function Inserted(c: Control, nullb: int, b: int, fl: int, sl: int): Control
    requires |c.sl| == FL_COUNT && |c.heads| == BINS && 0 <= fl < FL_COUNT && 0 <= sl < SL_COUNT
  {
    var k := SL_COUNT * fl + sl;
    Control(InsertMem(c.mem, nullb, b, c.heads[k]),
            c.fl[fl := true], c.sl[fl := c.sl[fl][sl := true]], c.heads[k := b])
  }

  function InsertMem(m: Mem, nullb: int, b: int, cur: int): Mem {
    m[b + 16 := cur][b + 24 := nullb][cur + 24 := b]
  }

  ghost predicate LinkApart(x: int, y: int) {
    x + 16 != y + 16 && x + 16 != y + 24 && x + 24 != y + 16 && x + 24 != y + 24
  }

  lemma BlocksApart(l: Layout, pools: map<int, int>, nullb: int, x: int, y: int)
    requires Tiled(l, pools, nullb) && x in l && l[x].free
    requires (y in l && l[y].free && x != y) || y == nullb
    ensures LinkApart(x, y) && x != nullb
  {
    hide ChainOk, InPool, Aligned, Chained, PoolsOk, NoOverlap, BlocksOk;
    Local(l, pools, nullb, x);
    if y != nullb {
      Local(l, pools, nullb, y);
      FieldsApart(l, x, y);
      FieldsApart(l, y, x);
    }
  }

  lemma InsertLinks(m: Mem, heads: seq<int>, l: Layout, pools: map<int, int>, rank: Ranks, clock: nat,
                    out: set<int>, nullb: int, b: int)
    requires Tiled(l, pools, nullb) && Links(m, heads, l, rank, out, nullb)
    requires b in l && l[b].free && b in out
    requires forall x :: Rank(rank, x) < clock
    requires 0 <= Bin(l[b].size) < BINS
    ensures var k := Bin(l[b].size);
            Links(InsertMem(m, nullb, b, heads[k]), heads[k := b], l, rank[b := clock], out - {b}, nullb)
  {
    hide Bin, LinkOk, HeadOk, Tiled, LinkApart, InsertMem;
    var k := Bin(l[b].size);
    var cur := heads[k];
    var m' := InsertMem(m, nullb, b, cur);
    var heads' := heads[k := b];
    var out' := out - {b};
    assert HeadOk(m, heads, l, out, nullb, k);
    assert cur != b && (cur == nullb || (cur in l && l[cur].free)) by { HeadListed(m, heads, l, out, nullb, k); BlocksApart(l, pools, nullb, b, nullb); }
    BlocksApart(l, pools, nullb, b, cur);
    forall x | Listed(l, out - {b}, x)
      ensures LinkOk(m', heads[k := b], l, rank[b := clock], out - {b}, nullb, x)
    {
      if x == b {
        InsertedSelf(m, heads, l, rank, clock, out, nullb, b);
      } else {
        assert LinkOk(m, heads, l, rank, out, nullb, x);
        BlocksApart(l, pools, nullb, x, b);
        if x != cur { BlocksApart(l, pools, nullb, x, cur); }
        InsertedOther(m, heads, l, pools, rank, clock, out, nullb, b, x);
      }
    }
    forall j | 0 <= j < BINS ensures HeadOk(m', heads', l, out', nullb, j) {
      assert HeadOk(m, heads, l, out, nullb, j);
      var h := heads[j];
      if j != k && h != nullb {
        assert h in l && l[h].free && h != b by { HeadListed(m, heads, l, out, nullb, j); }
        BlocksApart(l, pools, nullb, h, b);
        if h != cur { BlocksApart(l, pools, nullb, h, cur); }
      }
      InsertedHead(m, heads, l, out, nullb, b, j);
    }
  }

  lemma HeadListed(m: Mem, heads: seq<int>, l: Layout, out: set<int>, nullb: int, k: int)
    requires |heads| == BINS && 0 <= k < BINS && HeadOk(m, heads, l, out, nullb, k)
    ensures heads[k] == nullb || (Listed(l, out, heads[k]) && Bin(l[heads[k]].size) == k)
  {
  }

  lemma InsertedSelf(m: Mem, heads: seq<int>, l: Layout, rank: Ranks, clock: nat,
                     out: set<int>, nullb: int, b: int)
    requires b in l && l[b].free && b in out && |heads| == BINS && 0 <= Bin(l[b].size) < BINS
    requires forall x :: Rank(rank, x) < clock
    requires HeadOk(m, heads, l, out, nullb, Bin(l[b].size)) && LinkApart(b, heads[Bin(l[b].size)])
    ensures var k := Bin(l[b].size);
            LinkOk(InsertMem(m, nullb, b, heads[k]), heads[k := b], l, rank[b := clock], out - {b}, nullb, b)
  {
    hide Bin;
    var cur := heads[Bin(l[b].size)];
    assert Rank(rank, cur) < clock;
  }

  lemma InsertedOther(m: Mem, heads: seq<int>, l: Layout, pools: map<int, int>, rank: Ranks, clock: nat,
                      out: set<int>, nullb: int, b: int, x: int)
    requires b in l && l[b].free && b in out && |heads| == BINS && 0 <= Bin(l[b].size) < BINS
    requires x != b && Listed(l, out, x) && LinkOk(m, heads, l, rank, out, nullb, x) && x != nullb
    requires Tiled(l, pools, nullb)
    requires var cur := heads[Bin(l[b].size)];
      && HeadOk(m, heads, l, out, nullb, Bin(l[b].size))
      && LinkApart(x, b) && (x == cur || LinkApart(x, cur)) && LinkApart(b, cur) && b != cur
    ensures var k := Bin(l[b].size);
            LinkOk(InsertMem(m, nullb, b, heads[k]), heads[k := b], l, rank[b := clock], out - {b}, nullb, x)
  {
    hide Bin, Tiled, NextOk, PrevOk, InsertMem, LinkApart;
    InsertedNext(m, heads, l, pools, rank, clock, out, nullb, b, x);
    InsertedPrev(m, heads, l, pools, rank, clock, out, nullb, b, x);
  }

  lemma InsertedNext(m: Mem, heads: seq<int>, l: Layout, pools: map<int, int>, rank: Ranks, clock: nat,
                     out: set<int>, nullb: int, b: int, x: int)
    requires b in l && l[b].free && b in out && |heads| == BINS && 0 <= Bin(l[b].size) < BINS
    requires x != b && Listed(l, out, x) && LinkOk(m, heads, l, rank, out, nullb, x) && x != nullb
    requires Tiled(l, pools, nullb)
    requires var cur := heads[Bin(l[b].size)];
      && HeadOk(m, heads, l, out, nullb, Bin(l[b].size))
      && LinkApart(x, b) && (x == cur || LinkApart(x, cur)) && LinkApart(b, cur) && b != cur
    ensures NextOk(InsertMem(m, nullb, b, heads[Bin(l[b].size)]), l, rank[b := clock], out - {b}, nullb, x)
  {
    hide Bin, Tiled;
    var cur := heads[Bin(l[b].size)];
    var nx := Load(m, x + 16);
    if nx != nullb {
      BlocksApart(l, pools, nullb, nx, b);
      if nx != cur { BlocksApart(l, pools, nullb, nx, cur); }
    }
  }

  lemma InsertedPrev(m: Mem, heads: seq<int>, l: Layout, pools: map<int, int>, rank: Ranks, clock: nat,
                     out: set<int>, nullb: int, b: int, x: int)
    requires b in l && l[b].free && b in out && |heads| == BINS && 0 <= Bin(l[b].size) < BINS
    requires x != b && Listed(l, out, x) && LinkOk(m, heads, l, rank, out, nullb, x) && x != nullb
    requires Tiled(l, pools, nullb)
    requires var cur := heads[Bin(l[b].size)];
      && HeadOk(m, heads, l, out, nullb, Bin(l[b].size))
      && LinkApart(x, b) && (x == cur || LinkApart(x, cur)) && LinkApart(b, cur) && b != cur
    ensures var k := Bin(l[b].size);
            PrevOk(InsertMem(m, nullb, b, heads[k]), heads[k := b], l, out - {b}, nullb, x)
  {
    hide Bin, Tiled;
    var cur := heads[Bin(l[b].size)];
    var pv := Load(m, x + 24);
    if pv != nullb {
      BlocksApart(l, pools, nullb, pv, b);
      if pv != cur { BlocksApart(l, pools, nullb, pv, cur); }
    }
    BlocksApart(l, pools, nullb, b, nullb);
  }

  lemma InsertedHead(m: Mem, heads: seq<int>, l: Layout, out: set<int>, nullb: int, b: int, j: int)
    requires b in l && l[b].free && b in out && |heads| == BINS && 0 <= Bin(l[b].size) < BINS
    requires 0 <= j < BINS && HeadOk(m, heads, l, out, nullb, j)
    requires HeadOk(m, heads, l, out, nullb, Bin(l[b].size))
    requires LinkApart(b, heads[Bin(l[b].size)])
    requires j != Bin(l[b].size) && heads[j] != nullb ==>
               && LinkApart(heads[j], b)
               && (heads[j] == heads[Bin(l[b].size)] || LinkApart(heads[j], heads[Bin(l[b].size)]))
    ensures var k := Bin(l[b].size);
            HeadOk(InsertMem(m, nullb, b, heads[k]), heads[k := b], l, out - {b}, nullb, j)
  {
    hide Bin;
  }

  // ---- Removal.

  /** remove_free_block. */
  function Removed(c: Control, b: int, fl: int, sl: int, nullb: int): Control
    requires |c.sl| == FL_COUNT && |c.heads| == BINS && 0 <= fl < FL_COUNT && 0 <= sl < SL_COUNT
  {
    var k := SL_COUNT * fl + sl;
    var m' := RemoveMem(c.mem, b);
    if c.heads[k] != b then c.(mem := m')
    else
      var next := Load(c.mem, b + 16);
      if next != nullb then c.(mem := m', heads := c.heads[k := next])
      else
        var row := c.sl[fl][sl := false];
        Control(m', if AnyBit(row) then c.fl else c.fl[fl := false], c.sl[fl := row], c.heads[k := next])
  }

  function RemoveMem(m: Mem, b: int): Mem {
    var prev := Load(m, b + 24);
    var next := Load(m, b + 16);
    m[next + 24 := prev][prev + 16 := next]
  }

  function RemoveHeads(m: Mem, heads: seq<int>, b: int, k: int): seq<int>
    requires |heads| == BINS && 0 <= k < BINS
  {
    if heads[k] == b then heads[k := Load(m, b + 16)] else heads
  }

  lemma RemoveLinks(m: Mem, heads: seq<int>, l: Layout, pools: map<int, int>, rank: Ranks,
                    out: set<int>, nullb: int, b: int)
    requires Tiled(l, pools, nullb) && Links(m, heads, l, rank, out, nullb) && Listed(l, out, b)
    ensures var k := Bin(l[b].size);
            0 <= k < BINS
            && Links(RemoveMem(m, b), RemoveHeads(m, heads, b, k), l, rank, out + {b}, nullb)
  {
    hide Bin, LinkOk, HeadOk, Tiled, LinkApart, RemoveMem, RemoveHeads;
    var k := Bin(l[b].size);
    assert 0 <= k < BINS by { LinkBin(m, heads, l, rank, out, nullb, b); }
    var m' := RemoveMem(m, b);
    var heads' := RemoveHeads(m, heads, b, k);
    var out' := out + {b};
    assert |heads'| == BINS by { RemoveHeadsLength(m, heads, b, k); }
    assert LinkOk(m, heads, l, rank, out, nullb, b);
    forall x | Listed(l, out', x)
      ensures LinkOk(m', heads', l, rank, out', nullb, x)
    {
      assert LinkOk(m, heads, l, rank, out, nullb, x);
      RemovedOther(m, heads, l, pools, rank, out, nullb, b, k, x);
    }
    assert HeadOk(m, heads, l, out, nullb, k);
    forall j | 0 <= j < BINS ensures HeadOk(m', heads', l, out', nullb, j) {
      assert HeadOk(m, heads, l, out, nullb, j);
      RemovedHead(m, heads, l, pools, rank, out, nullb, b, k, j);
    }
  }

  lemma LinkBin(m: Mem, heads: seq<int>, l: Layout, rank: Ranks, out: set<int>, nullb: int, b: int)
    requires Links(m, heads, l, rank, out, nullb) && Listed(l, out, b)
    ensures 0 <= Bin(l[b].size) < BINS
  {
    assert LinkOk(m, heads, l, rank, out, nullb, b);
  }

  lemma RemoveHeadsLength(m: Mem, heads: seq<int>, b: int, k: int)
    requires |heads| == BINS && 0 <= k < BINS
    ensures |RemoveHeads(m, heads, b, k)| == BINS
  {
  }

  ghost predicate Node(l: Layout, nullb: int, u: int) {
    u == nullb || (u in l && l[u].free)
  }

  /** What the link fields of a free block read after the removal of b. */
  lemma RemoveReads(m: Mem, l: Layout, pools: map<int, int>, nullb: int, b: int, u: int)
    requires Tiled(l, pools, nullb) && u in l && l[u].free
    requires Node(l, nullb, Load(m, b + 16)) && Node(l, nullb, Load(m, b + 24))
    ensures u != nullb
    ensures Load(RemoveMem(m, b), u + 16) ==
            if u == Load(m, b + 24) then Load(m, b + 16) else Load(m, u + 16)
    ensures Load(RemoveMem(m, b), u + 24) ==
            if u == Load(m, b + 16) then Load(m, b + 24) else Load(m, u + 24)
  {
    hide Tiled;
    var nx := Load(m, b + 16);
    var pv := Load(m, b + 24);
    BlocksApart(l, pools, nullb, u, nullb);
    if u != nx { BlocksApart(l, pools, nullb, u, nx); }
    if u != pv { BlocksApart(l, pools, nullb, u, pv); }
  }

  lemma RemovedOther(m: Mem, heads: seq<int>, l: Layout, pools: map<int, int>, rank: Ranks,
                     out: set<int>, nullb: int, b: int, k: int, x: int)
    requires Tiled(l, pools, nullb) && |heads| == BINS && Listed(l, out, b) && 0 <= k < BINS
    requires k == Bin(l[b].size)
    requires LinkOk(m, heads, l, rank, out, nullb, b)
    requires x != b && Listed(l, out, x) && LinkOk(m, heads, l, rank, out, nullb, x)
    ensures LinkOk(RemoveMem(m, b), RemoveHeads(m, heads, b, k), l, rank, out + {b}, nullb, x)
  {
    hide Bin, Tiled, LinkApart, RemoveMem, Load, NextOk, PrevOk;
    RemovedNext(m, heads, l, pools, rank, out, nullb, b, x);
    RemovedPrev(m, heads, l, pools, rank, out, nullb, b, k, x);
  }

  lemma RemovedNext(m: Mem, heads: seq<int>, l: Layout, pools: map<int, int>, rank: Ranks,
                    out: set<int>, nullb: int, b: int, x: int)
    requires Tiled(l, pools, nullb) && |heads| == BINS && Listed(l, out, b)
    requires LinkOk(m, heads, l, rank, out, nullb, b)
    requires x != b && Listed(l, out, x) && LinkOk(m, heads, l, rank, out, nullb, x)
    ensures NextOk(RemoveMem(m, b), l, rank, out + {b}, nullb, x)
  {
    hide Bin, Tiled, LinkApart, RemoveMem, Load;
    var y := Load(m, x + 16);
    RemoveReads(m, l, pools, nullb, b, b);
    RemoveReads(m, l, pools, nullb, b, x);
    if Load(m, b + 16) != nullb { RemoveReads(m, l, pools, nullb, b, Load(m, b + 16)); }
    if y != nullb { RemoveReads(m, l, pools, nullb, b, y); }
  }

  lemma RemovedPrev(m: Mem, heads: seq<int>, l: Layout, pools: map<int, int>, rank: Ranks,
                    out: set<int>, nullb: int, b: int, k: int, x: int)
    requires Tiled(l, pools, nullb) && |heads| == BINS && Listed(l, out, b) && 0 <= k < BINS
    requires k == Bin(l[b].size)
    requires LinkOk(m, heads, l, rank, out, nullb, b)
    requires x != b && Listed(l, out, x) && LinkOk(m, heads, l, rank, out, nullb, x)
    ensures PrevOk(RemoveMem(m, b), RemoveHeads(m, heads, b, k), l, out + {b}, nullb, x)
  {
    hide Bin, Tiled, LinkApart, RemoveMem, Load;
    var z := Load(m, x + 24);
    RemoveReads(m, l, pools, nullb, b, b);
    RemoveReads(m, l, pools, nullb, b, x);
    if Load(m, b + 24) != nullb { RemoveReads(m, l, pools, nullb, b, Load(m, b + 24)); }
    if z != nullb { RemoveReads(m, l, pools, nullb, b, z); }
  }

  lemma RemovedHead(m: Mem, heads: seq<int>, l: Layout, pools: map<int, int>, rank: Ranks,
                    out: set<int>, nullb: int, b: int, k: int, j: int)
    requires Tiled(l, pools, nullb) && |heads| == BINS && Listed(l, out, b) && 0 <= k < BINS
    requires k == Bin(l[b].size)
    requires LinkOk(m, heads, l, rank, out, nullb, b)
    requires 0 <= j < BINS && HeadOk(m, heads, l, out, nullb, j)
    requires HeadOk(m, heads, l, out, nullb, k)
    ensures HeadOk(RemoveMem(m, b), RemoveHeads(m, heads, b, k), l, out + {b}, nullb, j)
  {
    hide Bin, Tiled, RemoveMem, Load;
    var h := heads[j];
    RemoveReads(m, l, pools, nullb, b, b);
    if Load(m, b + 16) != nullb { RemoveReads(m, l, pools, nullb, b, Load(m, b + 16)); }
    if h != nullb { RemoveReads(m, l, pools, nullb, b, h); }
  }

  // ---- Bitmaps.

  lemma InsertBitmaps(c: Control, nullb: int, b: int, fl: int, sl: int)
    requires Bitmaps(c, nullb) && 0 <= fl < FL_COUNT && 0 <= sl < SL_COUNT && b != nullb
    ensures Bitmaps(Inserted(c, nullb, b, fl, sl), nullb)
  {
    hide AnyBit, InsertMem;
    var c' := Inserted(c, nullb, b, fl, sl);
    assert AnyBit(c'.sl[fl]) by { BitSet(c'.sl[fl], sl); }
    forall f, s | 0 <= f < FL_COUNT && 0 <= s < SL_COUNT
      ensures c'.sl[f][s] <==> c'.heads[SL_COUNT * f + s] != nullb
    {
      BinUnique(fl, sl, f, s);
    }
  }

  lemma BitSet(w: Bits, i: int)
    requires 0 <= i < 32 && w[i]
    ensures AnyBit(w)
  {
  }

  lemma BinUnique(fl: int, sl: int, f: int, s: int)
    requires 0 <= sl < SL_COUNT && 0 <= s < SL_COUNT
    ensures SL_COUNT * fl + sl == SL_COUNT * f + s <==> fl == f && sl == s
  {
  }

  lemma RemoveBitmaps(c: Control, nullb: int, b: int, fl: int, sl: int)
    requires Bitmaps(c, nullb) && 0 <= fl < FL_COUNT && 0 <= sl < SL_COUNT && b != nullb
    ensures Bitmaps(Removed(c, b, fl, sl, nullb), nullb)
  {
    hide AnyBit, RemoveMem;
    var c' := Removed(c, b, fl, sl, nullb);
    var k := SL_COUNT * fl + sl;
    if c.heads[k] == b {
      BitSet(c.sl[fl], sl);
    }
    forall f, s | 0 <= f < FL_COUNT && 0 <= s < SL_COUNT
      ensures c'.sl[f][s] <==> c'.heads[SL_COUNT * f + s] != nullb
    {
      BinUnique(fl, sl, f, s);
    }
  }

  // ---- Layout changes that do not concern the lists.

  ghost predicate SameListed(m: Mem, m': Mem, l: Layout, l': Layout, out: set<int>, out': set<int>) {
    && (forall x :: Listed(l, out, x) <==> Listed(l', out', x))
    && (forall x | Listed(l, out, x) ::
          && x in l' && l'[x].size == l[x].size
          && Load(m', x + 16) == Load(m, x + 16) && Load(m', x + 24) == Load(m, x + 24))
  }

  lemma LinksFrame(m: Mem, m': Mem, heads: seq<int>, l: Layout, l': Layout, rank: Ranks,
                   out: set<int>, out': set<int>, nullb: int)
    requires Links(m, heads, l, rank, out, nullb)
    requires SameListed(m, m', l, l', out, out')
    ensures Links(m', heads, l', rank, out', nullb)
  {
    hide Bin, Load, LinkOk, HeadOk;
    forall x | Listed(l', out', x) ensures LinkOk(m', heads, l', rank, out', nullb, x) {
      assert LinkOk(m, heads, l, rank, out, nullb, x);
      LinkFrame(m, m', heads, l, l', rank, out, out', nullb, x);
    }
    forall k | 0 <= k < BINS ensures HeadOk(m', heads, l', out', nullb, k) {
      assert HeadOk(m, heads, l, out, nullb, k);
      HeadFrame(m, m', heads, l, l', out, out', nullb, k);
    }
  }

  lemma LinkFrame(m: Mem, m': Mem, heads: seq<int>, l: Layout, l': Layout, rank: Ranks,
                  out: set<int>, out': set<int>, nullb: int, x: int)
    requires |heads| == BINS && Listed(l, out, x) && Listed(l', out', x)
    requires LinkOk(m, heads, l, rank, out, nullb, x)
    requires SameListed(m, m', l, l', out, out')
    ensures LinkOk(m', heads, l', rank, out', nullb, x)
  {
    hide Bin, Load;
  }

  lemma HeadFrame(m: Mem, m': Mem, heads: seq<int>, l: Layout, l': Layout,
                  out: set<int>, out': set<int>, nullb: int, k: int)
    requires |heads| == BINS && 0 <= k < BINS && HeadOk(m, heads, l, out, nullb, k)
    requires SameListed(m, m', l, l', out, out')
    ensures HeadOk(m', heads, l', out', nullb, k)
  {
    hide Bin, Load;
  }
}
