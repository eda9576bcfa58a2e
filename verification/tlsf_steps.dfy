/** The elementary steps of the allocator keep its invariant: one lemma per step, each over the
    complete state before and after. */
module TlsfSteps {
  import opened TlsfIndex
  import opened TlsfLayout
  import opened TlsfLists

  /** Control structure and memory, together with what they mean. */
  datatype Heap = Heap(c: Control, l: Layout, pools: map<int, int>, rank: Ranks, clock: nat)

  /** out: free blocks held back from the lists; loose: blocks that may have a free neighbour. */
  ghost predicate Inv(h: Heap, nullb: int, out: set<int>, loose: set<int>) {
    && Tiled(h.l, h.pools, nullb)
    && Headers(h.c.mem, h.l)
    && Coalesced(h.l, loose)
    && Bitmaps(h.c, nullb)
    && Links(h.c.mem, h.c.heads, h.l, h.rank, out, nullb)
    && RanksBelow(h.rank, h.clock)
    && (forall b | b in out :: b in h.l && h.l[b].free)
  }

  ghost predicate RanksBelow(rank: Ranks, clock: nat) {
    forall x :: Rank(rank, x) < clock
  }

  // ---- Used payloads are out of reach.

  lemma PayloadApart(l: Layout, x: int, y: int, a: int)
    requires NoOverlap(l) && x in l && y in l && x != y
    requires y + 8 <= a <= Nxt(l, y) + 8
    ensures !(x + START_OFFSET <= a < x + START_OFFSET + l[x].size)
  {
  }

  /** All words written belong to the region of one block y (or to block_null, or are size words). */
  ghost predicate Within(l: Layout, nullb: int, y: int, w: set<int>)
    requires y in l
  {
    forall a | a in w :: y + 8 <= a <= Nxt(l, y) + 8 || nullb + 16 <= a < nullb + 32
  }

  lemma KeptStep(m: Mem, m': Mem, l: Layout, pools: map<int, int>, nullb: int, y: int, w: set<int>)
    requires Tiled(l, pools, nullb) && y in l && SameExcept(m, m', w) && Within(l, nullb, y, w)
    ensures Kept(m, m', l, y)
  {
    hide BlocksOk, Aligned, Chained, PoolsOk, NoOverlap;
    forall x | Used(l, x) && x != y
      ensures KeptRange(m, m', x + START_OFFSET, x + START_OFFSET + l[x].size)
    {
      forall a | x + START_OFFSET <= a < x + START_OFFSET + l[x].size ensures Load(m', a) == Load(m, a) {
        if a in w && y + 8 <= a <= Nxt(l, y) + 8 {
          PayloadApart(l, x, y, a);
        }
      }
    }
  }

  lemma KeptTwice(m0: Mem, m1: Mem, m2: Mem, l: Layout, but: int)
    requires Kept(m0, m1, l, but) && Kept(m1, m2, l, but)
    ensures Kept(m0, m2, l, but)
  {
    forall x | Used(l, x) && x != but
      ensures KeptRange(m0, m2, x + START_OFFSET, x + START_OFFSET + l[x].size)
    {
      assert KeptRange(m0, m1, x + START_OFFSET, x + START_OFFSET + l[x].size);
      assert KeptRange(m1, m2, x + START_OFFSET, x + START_OFFSET + l[x].size);
    }
  }

  // ---- Link writes leave headers alone.

  lemma LinkWriteHeaders(m: Mem, m': Mem, l: Layout, pools: map<int, int>, nullb: int, y: int)
    requires Tiled(l, pools, nullb) && Headers(m, l) && Node(l, nullb, y)
    requires SameExcept(m, m', {y + 16, y + 24})
    ensures Headers(m', l)
  {
    hide HeaderOk, Tiled, HeaderUntouched, SameExcept;
    forall x | x in l ensures HeaderOk(m', l, x) {
      assert HeaderOk(m, l, x);
      assert HeaderUntouched(l, x, {y + 16, y + 24}) by { LinkWriteApart(l, pools, nullb, y, x); }
      HeaderSame(m, m', l, l, {y + 16, y + 24}, x);
    }
  }

  lemma LinkWriteApart(l: Layout, pools: map<int, int>, nullb: int, y: int, x: int)
    requires Tiled(l, pools, nullb) && Node(l, nullb, y) && x in l
    ensures HeaderUntouched(l, x, {y + 16, y + 24})
  {
    hide InPool, Aligned, BlocksOk, Chained, PoolsOk, NoOverlap, NullApart;
    Local(l, pools, nullb, x);
    if PrevFree(l, x) {
      Local(l, pools, nullb, l[x].prev);
    }
    if y != nullb {
      Local(l, pools, nullb, y);
      if x != y {
        FieldsApart(l, y, x);
        Ordered(l, x, y);
      }
      if PrevFree(l, x) && l[x].prev != y {
        FieldsApart(l, l[x].prev, y);
      }
    }
  }

  // ---- List steps.

  function Fl(size: nat): int { MappingInsert(size).0 }
  function Sl(size: nat): int { MappingInsert(size).1 }

  function RemoveStep(h: Heap, nullb: int, b: int): Heap
    requires b in h.l && Shape(h.c) && h.l[b].size < BLOCK_SIZE_MAX
  {
    MappingInRange(h.l[b].size);
    h.(c := Removed(h.c, b, Fl(h.l[b].size), Sl(h.l[b].size), nullb))
  }

  function InsertStep(h: Heap, nullb: int, b: int): Heap
    requires b in h.l && Shape(h.c) && h.l[b].size < BLOCK_SIZE_MAX
  {
    MappingInRange(h.l[b].size);
    h.(c := Inserted(h.c, nullb, b, Fl(h.l[b].size), Sl(h.l[b].size)),
       rank := h.rank[b := h.clock], clock := h.clock + 1)
  }

  lemma RemoveStepInv(h: Heap, nullb: int, out: set<int>, loose: set<int>, b: int)
    requires Inv(h, nullb, out, loose) && Listed(h.l, out, b)
    ensures h.l[b].size < BLOCK_SIZE_MAX && Shape(h.c)
    ensures Inv(RemoveStep(h, nullb, b), nullb, out + {b}, loose)
    ensures Kept(h.c.mem, RemoveStep(h, nullb, b).c.mem, h.l, NONE)
  {
    hide Headers, Tiled, Coalesced, Bitmaps, Links, RanksBelow, MappingInsert, Kept, RemoveMem, Removed;
    assert h.l[b].size < BLOCK_SIZE_MAX by { SizeBelow(h, nullb, b); }
    MappingInRange(h.l[b].size);
    assert Shape(h.c) by { ShapeOf(h.c, nullb); }
    var h' := RemoveStep(h, nullb, b);
    RemoveLinks(h.c.mem, h.c.heads, h.l, h.pools, h.rank, out, nullb, b);
    assert b != nullb by { BlocksApart(h.l, h.pools, nullb, b, nullb); }
    RemoveBitmaps(h.c, nullb, b, Fl(h.l[b].size), Sl(h.l[b].size));
    assert h'.c.mem == RemoveMem(h.c.mem, b)
           && h'.c.heads == RemoveHeads(h.c.mem, h.c.heads, b, Bin(h.l[b].size)) by {
      RemovedParts(h.c, nullb, b, h.l[b].size);
    }
    RemoveTouches(h, nullb, out, loose, b);
  }

  lemma ShapeOf(c: Control, nullb: int)
    requires Bitmaps(c, nullb)
    ensures Shape(c)
  {
  }

  lemma SizeBelow(h: Heap, nullb: int, b: int)
    requires Tiled(h.l, h.pools, nullb) && b in h.l && (h.l[b].free || h.l[b].size != 0)
    ensures BLOCK_SIZE_MIN <= h.l[b].size < BLOCK_SIZE_MAX
  {
    Local(h.l, h.pools, nullb, b);
  }

  lemma RemovedParts(c: Control, nullb: int, b: int, size: nat)
    requires Shape(c) && size < BLOCK_SIZE_MAX && 0 <= Bin(size) < BINS
    requires 0 <= Fl(size) < FL_COUNT && 0 <= Sl(size) < SL_COUNT
    ensures var c' := Removed(c, b, Fl(size), Sl(size), nullb);
            c'.mem == RemoveMem(c.mem, b) && c'.heads == RemoveHeads(c.mem, c.heads, b, Bin(size))
  {
    hide MappingInsert, RemoveMem, AnyBit;
  }

  /** Both words written by a removal are links of free blocks or of block_null. */
  lemma RemoveTouches(h: Heap, nullb: int, out: set<int>, loose: set<int>, b: int)
    requires Inv(h, nullb, out, loose) && Listed(h.l, out, b)
    ensures Headers(RemoveMem(h.c.mem, b), h.l)
    ensures Kept(h.c.mem, RemoveMem(h.c.mem, b), h.l, NONE)
  {
    hide Headers, Tiled, Coalesced, Bitmaps, RanksBelow, Bin, Kept, LinkOk, HeadOk;
    var m := h.c.mem;
    var next := Load(m, b + 16);
    var prev := Load(m, b + 24);
    assert LinkOk(m, h.c.heads, h.l, h.rank, out, nullb, b);
    assert Node(h.l, nullb, next) && Node(h.l, nullb, prev) by { LinkNodes(m, h.c.heads, h.l, h.rank, out, nullb, b); }
    var m1 := m[next + 24 := prev];
    var m2 := m1[prev + 16 := next];
    WriteLink(m, m1, h.l, h.pools, nullb, next, next + 24);
    WriteLink(m1, m2, h.l, h.pools, nullb, prev, prev + 16);
    KeptTwice(m, m1, m2, h.l, NONE);
  }

  lemma LinkNodes(m: Mem, heads: seq<int>, l: Layout, rank: Ranks, out: set<int>, nullb: int, b: int)
    requires b in l && |heads| == BINS && LinkOk(m, heads, l, rank, out, nullb, b)
    ensures Node(l, nullb, Load(m, b + 16)) && Node(l, nullb, Load(m, b + 24))
  {
    hide Bin;
  }

  lemma WriteLink(m: Mem, m': Mem, l: Layout, pools: map<int, int>, nullb: int, y: int, a: int)
    requires Tiled(l, pools, nullb) && Headers(m, l) && Node(l, nullb, y)
    requires a == y + 16 || a == y + 24
    requires SameExcept(m, m', {a})
    ensures Headers(m', l) && Kept(m, m', l, NONE)
  {
    hide Headers, Tiled, Kept, HeaderOk;
    LinkWriteHeaders(m, m', l, pools, nullb, y);
    LinkWriteKept(m, m', l, pools, nullb, y, a);
  }

  lemma LinkWriteKept(m: Mem, m': Mem, l: Layout, pools: map<int, int>, nullb: int, y: int, a: int)
    requires Tiled(l, pools, nullb) && Node(l, nullb, y)
    requires a == y + 16 || a == y + 24
    requires SameExcept(m, m', {a})
    ensures Kept(m, m', l, NONE)
  {
    hide Tiled;
    forall x | Used(l, x) && x != NONE
      ensures KeptRange(m, m', x + START_OFFSET, x + START_OFFSET + l[x].size)
    {
      assert !(x + START_OFFSET <= a < x + START_OFFSET + l[x].size) by {
        LinkOutside(l, pools, nullb, y, x);
      }
    }
  }

  lemma LinkOutside(l: Layout, pools: map<int, int>, nullb: int, y: int, x: int)
    requires Tiled(l, pools, nullb) && Node(l, nullb, y) && Used(l, x)
    ensures !(x + START_OFFSET <= y + 16 < x + START_OFFSET + l[x].size)
    ensures !(x + START_OFFSET <= y + 24 < x + START_OFFSET + l[x].size)
  {
    hide BlocksOk, Aligned, Chained, PoolsOk, NoOverlap, InPool, ChainOk, NullApart;
    Local(l, pools, nullb, x);
    if y != nullb {
      Local(l, pools, nullb, y);
      Ordered(l, x, y);
    }
  }

  lemma InsertStepInv(h: Heap, nullb: int, out: set<int>, loose: set<int>, b: int)
    requires Inv(h, nullb, out, loose) && b in out
    ensures b in h.l && h.l[b].size < BLOCK_SIZE_MAX && Shape(h.c)
    ensures Inv(InsertStep(h, nullb, b), nullb, out - {b}, loose)
    ensures Kept(h.c.mem, InsertStep(h, nullb, b).c.mem, h.l, NONE)
  {
    hide Headers, Tiled, Coalesced, Bitmaps, Links, RanksBelow, MappingInsert, Kept, InsertMem, Inserted, Bin;
    assert h.l[b].size < BLOCK_SIZE_MAX by { SizeBelow(h, nullb, b); }
    MappingInRange(h.l[b].size);
    assert Shape(h.c) by { ShapeOf(h.c, nullb); }
    var h' := InsertStep(h, nullb, b);
    assert RanksBelow(h'.rank, h'.clock) by { RanksGrow(h.rank, h.clock, b); }
    assert forall x :: Rank(h.rank, x) < h.clock by { RanksUse(h.rank, h.clock); }
    InsertLinks(h.c.mem, h.c.heads, h.l, h.pools, h.rank, h.clock, out, nullb, b);
    assert b != nullb by { BlocksApart(h.l, h.pools, nullb, b, nullb); }
    InsertBitmaps(h.c, nullb, b, Fl(h.l[b].size), Sl(h.l[b].size));
    assert h'.c.mem == InsertMem(h.c.mem, nullb, b, h.c.heads[Bin(h.l[b].size)])
           && h'.c.heads == h.c.heads[Bin(h.l[b].size) := b] by {
      InsertedParts(h.c, nullb, b, h.l[b].size);
    }
    InsertTouches(h, nullb, out, loose, b);
  }

  lemma RanksGrow(rank: Ranks, clock: nat, b: int)
    requires RanksBelow(rank, clock)
    ensures RanksBelow(rank[b := clock], clock + 1)
  {
    var rank' := rank[b := clock];
    forall x ensures Rank(rank', x) < clock + 1 {
      assert Rank(rank, x) < clock;
    }
  }

  lemma RanksUse(rank: Ranks, clock: nat)
    requires RanksBelow(rank, clock)
    ensures forall x :: Rank(rank, x) < clock
  {
  }

  lemma InsertedParts(c: Control, nullb: int, b: int, size: nat)
    requires Shape(c) && size < BLOCK_SIZE_MAX && 0 <= Bin(size) < BINS
    requires 0 <= Fl(size) < FL_COUNT && 0 <= Sl(size) < SL_COUNT
    ensures var c' := Inserted(c, nullb, b, Fl(size), Sl(size));
            && c'.mem == InsertMem(c.mem, nullb, b, c.heads[Bin(size)])
            && c'.heads == c.heads[Bin(size) := b]
  {
    hide MappingInsert, InsertMem;
  }

  lemma InsertTouches(h: Heap, nullb: int, out: set<int>, loose: set<int>, b: int)
    requires Inv(h, nullb, out, loose) && b in out && 0 <= Bin(h.l[b].size) < BINS
    ensures var m' := InsertMem(h.c.mem, nullb, b, h.c.heads[Bin(h.l[b].size)]);
            Headers(m', h.l) && Kept(h.c.mem, m', h.l, NONE)
  {
    hide Headers, Tiled, Coalesced, Bitmaps, RanksBelow, Bin, Kept, LinkOk, HeadOk;
    var m := h.c.mem;
    var k := Bin(h.l[b].size);
    var cur := h.c.heads[k];
    assert HeadOk(m, h.c.heads, h.l, out, nullb, k);
    assert Node(h.l, nullb, cur) by { HeadListed(m, h.c.heads, h.l, out, nullb, k); }
    var m1 := m[b + 16 := cur];
    var m2 := m1[b + 24 := nullb];
    var m3 := m2[cur + 24 := b];
    WriteLink(m, m1, h.l, h.pools, nullb, b, b + 16);
    WriteLink(m1, m2, h.l, h.pools, nullb, b, b + 24);
    WriteLink(m2, m3, h.l, h.pools, nullb, cur, cur + 24);
    KeptTwice(m, m1, m2, h.l, NONE);
    KeptTwice(m, m2, m3, h.l, NONE);
  }

  // ---- Header steps, as the source performs them on the size words in memory.

  function NextAddr(m: Mem, b: int): int {
    b + OVERHEAD + BlockSize(Load(m, b + 8))
  }

  /** block_mark_as_free. */
  function MarkFreeMem(m: Mem, b: int): Mem {
    var next := NextAddr(m, b);
    var m1 := m[next := b];
    var m2 := m1[next + 8 := SetPrevFree(Load(m1, next + 8))];
    m2[b + 8 := SetFree(Load(m2, b + 8))]
  }

  /** block_mark_as_used. */
  function MarkUsedMem(m: Mem, b: int): Mem {
    var next := NextAddr(m, b);
    var m1 := m[next + 8 := SetPrevUsed(Load(m, next + 8))];
    m1[b + 8 := SetUsed(Load(m1, b + 8))]
  }

  /** block_split. */
  function SplitMem(m: Mem, b: int, size: nat): Mem
    requires size + OVERHEAD <= BlockSize(Load(m, b + 8))
  {
    var r := b + OVERHEAD + size;
    var remain := BlockSize(Load(m, b + 8)) - (size + OVERHEAD);
    var m1 := m[r + 8 := SetSize(Load(m, r + 8), remain)];
    var m2 := m1[b + 8 := SetSize(Load(m1, b + 8), size)];
    MarkFreeMem(m2, r)
  }

  /** block_absorb. */
  function AbsorbMem(m: Mem, p: int, b: int): Mem {
    var m1 := m[p + 8 := Load(m, p + 8) + (BlockSize(Load(m, b + 8)) + OVERHEAD)];
    m1[NextAddr(m1, p) := p]
  }

  lemma HeaderRead(h: Heap, nullb: int, b: int)
    requires Tiled(h.l, h.pools, nullb) && Headers(h.c.mem, h.l) && b in h.l
    ensures Load(h.c.mem, b + 8) == SizeWord(h.l[b].size, h.l[b].free, PrevFree(h.l, b))
    ensures BlockSize(Load(h.c.mem, b + 8)) == h.l[b].size
    ensures IsFree(Load(h.c.mem, b + 8)) == h.l[b].free
    ensures IsPrevFree(Load(h.c.mem, b + 8)) == PrevFree(h.l, b)
    ensures PrevFree(h.l, b) ==> Load(h.c.mem, b) == h.l[b].prev
    ensures NextAddr(h.c.mem, b) == Nxt(h.l, b)
    ensures h.l[b].size % 8 == 0 && b % 8 == 0 && b > NONE
  {
    hide Tiled, Flags, ChainOk, InPool;
    Local(h.l, h.pools, nullb, b);
    assert HeaderOk(h.c.mem, h.l, b);
    SizeWordParts(h.l[b].size, h.l[b].free, PrevFree(h.l, b));
  }

  function MarkFreeStep(h: Heap, b: int): Heap
    requires b in h.l
  {
    h.(c := h.c.(mem := MarkFreeMem(h.c.mem, b)), l := WithFree(h.l, b, true))
  }

  function MarkUsedStep(h: Heap, b: int): Heap
    requires b in h.l
  {
    h.(c := h.c.(mem := MarkUsedMem(h.c.mem, b)), l := WithFree(h.l, b, false))
  }

  lemma SuccessorOf(l: Layout, pools: map<int, int>, nullb: int, b: int)
    requires Tiled(l, pools, nullb) && b in l && l[b].size != 0
    ensures Nxt(l, b) in l && b + HEADER_SIZE <= Nxt(l, b) && l[Nxt(l, b)].prev == b
  {
    Local(l, pools, nullb, b);
  }

  lemma MarkFreeStepInv(h: Heap, nullb: int, out: set<int>, loose: set<int>, b: int)
    requires Inv(h, nullb, out, loose) && Used(h.l, b)
    ensures Inv(MarkFreeStep(h, b), nullb, out + {b}, loose + {b})
    ensures Kept(h.c.mem, MarkFreeStep(h, b).c.mem, h.l, b)
  {
    hide Headers, Tiled, Coalesced, Bitmaps, Links, RanksBelow, Kept, MarkFreeMem, SameExcept;
    var m := h.c.mem;
    var m' := MarkFreeMem(m, b);
    var n := Nxt(h.l, b);
    SuccessorOf(h.l, h.pools, nullb, b);
    assert SameExcept(m, m', {b + 8, n, n + 8})
           && Load(m', b + 8) == SizeWord(h.l[b].size, true, PrevFree(h.l, b))
           && Load(m', n + 8) == SizeWord(h.l[n].size, h.l[n].free, true)
           && Load(m', n) == b by {
      MarkFreeWords(h, nullb, b);
    }
    SetFreeHeaders(m, m', h.l, h.pools, nullb, b, true);
    WithFreeTiled(h.l, h.pools, nullb, b, true);
    assert Coalesced(WithFree(h.l, b, true), loose + {b}) by { FreeCoalesced(h.l, loose, b); }
    assert SameListed(m, m', h.l, WithFree(h.l, b, true), out, out + {b}) by {
      HeaderWritesLinks(h.l, h.pools, nullb, b, m, m', {b + 8, n, n + 8}, out);
    }
    LinksFrame(m, m', h.c.heads, h.l, WithFree(h.l, b, true), h.rank, out, out + {b}, nullb);
    BitmapsMem(h.c, m', nullb);
    assert Within(h.l, nullb, b, {b + 8, n, n + 8});
    KeptStep(m, m', h.l, h.pools, nullb, b, {b + 8, n, n + 8});
  }

  lemma BitmapsMem(c: Control, m': Mem, nullb: int)
    requires Bitmaps(c, nullb)
    ensures Bitmaps(c.(mem := m'), nullb)
  {
    hide AnyBit;
  }

  lemma MarkFreeWords(h: Heap, nullb: int, b: int)
    requires Tiled(h.l, h.pools, nullb) && Headers(h.c.mem, h.l) && Used(h.l, b)
    requires Nxt(h.l, b) in h.l && b + HEADER_SIZE <= Nxt(h.l, b)
    ensures var m := h.c.mem; var m' := MarkFreeMem(m, b); var n := Nxt(h.l, b);
           && SameExcept(m, m', {b + 8, n, n + 8})
           && Load(m', b + 8) == SizeWord(h.l[b].size, true, PrevFree(h.l, b))
           && Load(m', n + 8) == SizeWord(h.l[n].size, h.l[n].free, true)
           && Load(m', n) == b
  {
    hide Tiled, Headers, SetFree, SetPrevFree, BlockSize, SizeWord;
    HeaderRead(h, nullb, b);
    HeaderRead(h, nullb, Nxt(h.l, b));
    SizeWordParts(h.l[b].size, h.l[b].free, PrevFree(h.l, b));
    var n := Nxt(h.l, b);
    SizeWordParts(h.l[n].size, h.l[n].free, PrevFree(h.l, n));
  }

  lemma FreeCoalesced(l: Layout, loose: set<int>, b: int)
    requires Coalesced(l, loose) && b in l
    ensures Coalesced(WithFree(l, b, true), loose + {b})
  {
  }

  /** Writing words of block b, which is not in a list, leaves every list link as it is. */
  lemma HeaderWritesLinks(l: Layout, pools: map<int, int>, nullb: int, b: int, m: Mem, m': Mem, w: set<int>, out: set<int>)
    requires Tiled(l, pools, nullb) && b in l && l[b].size != 0 && !Listed(l, out, b)
    requires SameExcept(m, m', w) && forall a | a in w :: b + 8 <= a <= Nxt(l, b) + 8
    ensures SameListed(m, m', l, WithFree(l, b, true), out, out + {b})
    ensures b in out ==> SameListed(m, m', l, WithFree(l, b, false), out, out - {b})
  {
    hide Tiled;
    forall x | Listed(l, out, x)
      ensures Load(m', x + 16) == Load(m, x + 16) && Load(m', x + 24) == Load(m, x + 24)
    {
      LinksOutside(l, pools, nullb, b, x);
    }
  }

  lemma LinksOutside(l: Layout, pools: map<int, int>, nullb: int, b: int, x: int)
    requires Tiled(l, pools, nullb) && b in l && x in l && x != b && l[x].free
    ensures x + 24 < b + 8 || Nxt(l, b) + 8 < x + 16
  {
    hide BlocksOk, Aligned, Chained, PoolsOk, NoOverlap, InPool, ChainOk, NullApart;
    Local(l, pools, nullb, x);
    Ordered(l, x, b);
  }

  lemma MarkUsedStepInv(h: Heap, nullb: int, out: set<int>, loose: set<int>, b: int)
    requires Inv(h, nullb, out, loose) && b in out
    ensures b in h.l && Inv(MarkUsedStep(h, b), nullb, out - {b}, loose - {b})
    ensures Kept(h.c.mem, MarkUsedStep(h, b).c.mem, h.l, NONE)
  {
    hide Headers, Tiled, Coalesced, Bitmaps, Links, RanksBelow, Kept, MarkUsedMem, SameExcept;
    var m := h.c.mem;
    var m' := MarkUsedMem(m, b);
    assert h.l[b].size != 0 by { SizeBelow(h, nullb, b); }
    var n := Nxt(h.l, b);
    SuccessorOf(h.l, h.pools, nullb, b);
    assert SameExcept(m, m', {b + 8, n, n + 8})
           && Load(m', b + 8) == SizeWord(h.l[b].size, false, PrevFree(h.l, b))
           && Load(m', n + 8) == SizeWord(h.l[n].size, h.l[n].free, false) by {
      MarkUsedWords(h, nullb, b);
    }
    SetFreeHeaders(m, m', h.l, h.pools, nullb, b, false);
    WithFreeTiled(h.l, h.pools, nullb, b, false);
    assert Coalesced(WithFree(h.l, b, false), loose - {b}) by { UsedCoalesced(h.l, loose, b); }
    assert SameListed(m, m', h.l, WithFree(h.l, b, false), out, out - {b}) by {
      HeaderWritesLinks(h.l, h.pools, nullb, b, m, m', {b + 8, n, n + 8}, out);
    }
    LinksFrame(m, m', h.c.heads, h.l, WithFree(h.l, b, false), h.rank, out, out - {b}, nullb);
    BitmapsMem(h.c, m', nullb);
    assert Within(h.l, nullb, b, {b + 8, n, n + 8});
    KeptStep(m, m', h.l, h.pools, nullb, b, {b + 8, n, n + 8});
    KeptFree(m, m', h.l, b);
  }

  lemma KeptFree(m: Mem, m': Mem, l: Layout, b: int)
    requires Kept(m, m', l, b) && b in l && l[b].free
    ensures Kept(m, m', l, NONE)
  {
    hide KeptRange;
  }

  lemma MarkUsedWords(h: Heap, nullb: int, b: int)
    requires Tiled(h.l, h.pools, nullb) && Headers(h.c.mem, h.l) && b in h.l
    requires Nxt(h.l, b) in h.l && b + HEADER_SIZE <= Nxt(h.l, b)
    ensures var m := h.c.mem; var m' := MarkUsedMem(m, b); var n := Nxt(h.l, b);
           && SameExcept(m, m', {b + 8, n, n + 8})
           && Load(m', b + 8) == SizeWord(h.l[b].size, false, PrevFree(h.l, b))
           && Load(m', n + 8) == SizeWord(h.l[n].size, h.l[n].free, false)
  {
    hide Tiled, Headers, SetUsed, SetPrevUsed, BlockSize, SizeWord;
    HeaderRead(h, nullb, b);
    HeaderRead(h, nullb, Nxt(h.l, b));
    SizeWordParts(h.l[b].size, h.l[b].free, PrevFree(h.l, b));
    var n := Nxt(h.l, b);
    SizeWordParts(h.l[n].size, h.l[n].free, PrevFree(h.l, n));
  }

  lemma UsedCoalesced(l: Layout, loose: set<int>, b: int)
    requires Coalesced(l, loose) && b in l
    ensures Coalesced(WithFree(l, b, false), loose - {b})
  {
    assert forall x | x in l && PrevFree(WithFree(l, b, false), x) :: PrevFree(l, x);
  }

  // ---- Splitting.

  /** block_split, followed by what every caller does to the header of the remaining block: a
      remainder of a free block learns its predecessor, one of a used block that it has none. */
  function SplitFixMem(m: Mem, b: int, size: nat, free: bool): Mem
    requires size + OVERHEAD <= BlockSize(Load(m, b + 8))
  {
    var r := b + OVERHEAD + size;
    var m1 := SplitMem(m, b, size);
    if free then
      var m2 := m1[r := b];
      m2[r + 8 := SetPrevFree(Load(m2, r + 8))]
    else m1[r + 8 := SetPrevUsed(Load(m1, r + 8))]
  }

  ghost predicate CanSplit(l: Layout, b: int, size: nat)
    requires b in l
  {
    size % 8 == 0 && BLOCK_SIZE_MIN <= size && size + HEADER_SIZE <= l[b].size
  }

  ghost function SplitStep(h: Heap, b: int, size: nat): Heap
    requires b in h.l && size + OVERHEAD <= h.l[b].size && Nxt(h.l, b) in h.l
    requires size + OVERHEAD <= BlockSize(Load(h.c.mem, b + 8))
  {
    h.(c := h.c.(mem := SplitFixMem(h.c.mem, b, size, h.l[b].free)), l := SplitAt(h.l, b, size))
  }

  lemma SplitWords(h: Heap, nullb: int, b: int, size: nat)
    requires Tiled(h.l, h.pools, nullb) && Headers(h.c.mem, h.l) && b in h.l
    requires size % 8 == 0 && size + HEADER_SIZE <= h.l[b].size && (h.l[b].free ==> BLOCK_SIZE_MIN <= size)
    requires Nxt(h.l, b) in h.l && b + OVERHEAD + size !in h.l
    ensures BlockSize(Load(h.c.mem, b + 8)) == h.l[b].size
    ensures var m := h.c.mem; var m' := SplitFixMem(m, b, size, h.l[b].free);
      var r := b + OVERHEAD + size; var n := Nxt(h.l, b);
      && SameExcept(m, m', {b + 8, r, r + 8, n, n + 8})
      && Load(m', b + 8) == SizeWord(size, h.l[b].free, PrevFree(h.l, b))
      && Load(m', r + 8) == SizeWord(h.l[b].size - size - OVERHEAD, true, h.l[b].free)
      && (if h.l[b].free then Load(m', r) == b else size > 0 ==> Load(m', r) == Load(m, r))
      && Load(m', n + 8) == SizeWord(h.l[n].size, h.l[n].free, true)
      && Load(m', n) == r
  {
    hide Tiled, Headers, SetUsed, SetPrevUsed, SetPrevFree, SetFree, SetSize, BlockSize, SizeWord;
    var n := Nxt(h.l, b);
    var remain := h.l[b].size - size - OVERHEAD;
    HeaderRead(h, nullb, b);
    HeaderRead(h, nullb, n);
    SizeWordParts(h.l[n].size, h.l[n].free, PrevFree(h.l, n));
    SetSizeWord(h.l[b].size, h.l[b].free, PrevFree(h.l, b), size);
    assert remain % 8 == 0 by { DiffAligned(h.l[b].size, size, b); }
    StaleSizeWord(Load(h.c.mem, b + OVERHEAD + size + 8), remain);
    StaleBlockSize(Load(h.c.mem, b + OVERHEAD + size + 8), remain);
  }

  lemma StaleBlockSize(w: int, size: nat)
    requires size % 8 == 0
    ensures BlockSize(SetSize(w, size)) == size
  {
    assert 0 <= Flags(w) < 4;
    hide Flags;
    FlagsOf(size, Flags(w));
  }

  /** Splitting a detached or a used block; the remainder is free and not in a list yet. */
  lemma SplitStepInv(h: Heap, nullb: int, out: set<int>, loose: set<int>, b: int, size: nat)
    requires Inv(h, nullb, out, loose) && b in h.l && h.l[b].size != 0 && !Listed(h.l, out, b)
    requires CanSplit(h.l, b, size)
    ensures Nxt(h.l, b) in h.l && BlockSize(Load(h.c.mem, b + 8)) == h.l[b].size
    ensures b + OVERHEAD + size !in h.l
    ensures var r := b + OVERHEAD + size;
            && Inv(SplitStep(h, b, size), nullb, out + {r}, loose + {r})
            && (h.l[b].free && (b !in loose || !h.l[Nxt(h.l, b)].free) ==> Inv(SplitStep(h, b, size), nullb, out + {r}, loose + {b}))
            && Kept(h.c.mem, SplitStep(h, b, size).c.mem, h.l, b)
            && (!h.l[b].free ==> KeptRange(h.c.mem, SplitStep(h, b, size).c.mem, b + START_OFFSET, b + START_OFFSET + size))
  {
    hide Headers, Tiled, Coalesced, Bitmaps, Links, RanksBelow, Kept, SplitFixMem, SameExcept, SizeWord, SplitAt,
         BlockSize, KeptRange;
    var m := h.c.mem;
    var r := b + OVERHEAD + size;
    SuccessorOf(h.l, h.pools, nullb, b);
    SplitTiled(h.l, h.pools, nullb, b, size);
    SplitWords(h, nullb, b, size);
    var h' := SplitStep(h, b, size);
    var m' := h'.c.mem;
    var n := Nxt(h.l, b);
    SplitHeaders(m, m', h.l, h.pools, nullb, b, size);
    SplitCoalesced(h.l, h.pools, nullb, loose, b, size);
    assert SameListed(m, m', h.l, h'.l, out, out + {r}) by {
      SplitLinks(h.l, h.pools, nullb, b, size, m, m', {b + 8, r, r + 8, n, n + 8}, out);
    }
    LinksFrame(m, m', h.c.heads, h.l, h'.l, h.rank, out, out + {r}, nullb);
    BitmapsMem(h.c, m', nullb);
    assert forall x | x in out + {r} :: x in h'.l && h'.l[x].free by { SplitOut(h.l, out, b, size); }
    assert Within(h.l, nullb, b, {b + 8, r, r + 8, n, n + 8});
    KeptStep(m, m', h.l, h.pools, nullb, b, {b + 8, r, r + 8, n, n + 8});
    if !h.l[b].free {
      assert KeptRange(m, m', b + START_OFFSET, b + START_OFFSET + size) by {
        SplitKept(m, m', b, r, n, size);
      }
    }
  }

  lemma SplitKept(m: Mem, m': Mem, b: int, r: int, n: int, size: nat)
    requires SameExcept(m, m', {b + 8, r, r + 8, n, n + 8}) && r == b + OVERHEAD + size && r < n
    requires Load(m', r) == Load(m, r) && n >= b + START_OFFSET + size
    ensures KeptRange(m, m', b + START_OFFSET, b + START_OFFSET + size)
  {
  }

  lemma SplitOut(l: Layout, out: set<int>, b: int, size: nat)
    requires b in l && size + OVERHEAD <= l[b].size && Nxt(l, b) in l && b != Nxt(l, b)
    requires forall x | x in out :: x in l && l[x].free
    ensures forall x | x in out + {b + OVERHEAD + size} :: x in SplitAt(l, b, size) && SplitAt(l, b, size)[x].free
  {
  }

  lemma SplitCoalesced(l: Layout, pools: map<int, int>, nullb: int, loose: set<int>, b: int, size: nat)
    requires Tiled(l, pools, nullb) && Coalesced(l, loose) && b in l && CanSplit(l, b, size) && Nxt(l, b) in l
    requires b + OVERHEAD + size !in l
    ensures Coalesced(SplitAt(l, b, size), loose + {b + OVERHEAD + size})
    ensures l[b].free && (b !in loose || !l[Nxt(l, b)].free) ==> Coalesced(SplitAt(l, b, size), loose + {b})
  {
    hide Tiled;
    var r := b + OVERHEAD + size;
    var l' := SplitAt(l, b, size);
    SuccessorOf(l, pools, nullb, b);
    Local(l, pools, nullb, b);
    forall x | x in l' && l'[x].free && PrevFree(l', x)
      ensures x in loose + {r} || l'[x].prev in loose + {r}
      ensures l[b].free && (b !in loose || !l[Nxt(l, b)].free) ==> x in loose + {b} || l'[x].prev in loose + {b}
    {
      if x == r {
      } else if x == Nxt(l, b) {
        assert l'[x].prev == r;
        if l[b].free { assert PrevFree(l, x); }
      } else {
        Local(l, pools, nullb, x);
        assert PrevFree(l, x);
      }
    }
  }

  lemma SplitLinks(l: Layout, pools: map<int, int>, nullb: int, b: int, size: nat,
                   m: Mem, m': Mem, w: set<int>, out: set<int>)
    requires Tiled(l, pools, nullb) && b in l && l[b].size != 0 && !Listed(l, out, b)
    requires CanSplit(l, b, size) && Nxt(l, b) in l && b + OVERHEAD + size !in l
    requires SameExcept(m, m', w) && forall a | a in w :: b + 8 <= a <= Nxt(l, b) + 8
    ensures SameListed(m, m', l, SplitAt(l, b, size), out, out + {b + OVERHEAD + size})
  {
    hide Tiled;
    SuccessorOf(l, pools, nullb, b);
    forall x | Listed(l, out, x)
      ensures Load(m', x + 16) == Load(m, x + 16) && Load(m', x + 24) == Load(m, x + 24)
    {
      LinksOutside(l, pools, nullb, b, x);
    }
  }

  // ---- Merging.

  function MergeStep(h: Heap, b: int): Heap
    requires b in h.l && Nxt(h.l, b) in h.l && Nxt(h.l, Nxt(h.l, b)) in h.l
  {
    h.(c := h.c.(mem := AbsorbMem(h.c.mem, b, Nxt(h.l, b))), l := MergeNext(h.l, b))
  }

  /** Growing a used block over its detached successor, as realloc does. */
  function GrowStep(h: Heap, b: int): Heap
    requires b in h.l && Nxt(h.l, b) in h.l && Nxt(h.l, Nxt(h.l, b)) in h.l
  {
    h.(c := h.c.(mem := MarkUsedMem(AbsorbMem(h.c.mem, b, Nxt(h.l, b)), b)), l := MergeNext(h.l, b))
  }

  /** Two neighbours never add up to more than their pool. */
  lemma MergeSize(l: Layout, pools: map<int, int>, nullb: int, b: int)
    requires Tiled(l, pools, nullb) && b in l && l[b].size != 0 && Nxt(l, b) in l && l[Nxt(l, b)].size != 0
    ensures l[b].size + l[Nxt(l, b)].size + OVERHEAD < BLOCK_SIZE_MAX
    ensures Nxt(l, Nxt(l, b)) in l
  {
    hide BlocksOk, Aligned, NoOverlap, NullApart, Chained;
    var n := Nxt(l, b);
    Local(l, pools, nullb, b);
    Local(l, pools, nullb, n);
    Local(l, pools, nullb, Nxt(l, n));
    assert PoolOk(l, l[b].pool, pools[l[b].pool]);
  }

  lemma AbsorbWords(h: Heap, nullb: int, b: int)
    requires Tiled(h.l, h.pools, nullb) && Headers(h.c.mem, h.l) && b in h.l
    requires h.l[b].size != 0 && Nxt(h.l, b) in h.l && h.l[Nxt(h.l, b)].free && Nxt(h.l, Nxt(h.l, b)) in h.l
    ensures var m := h.c.mem; var n := Nxt(h.l, b); var nn := Nxt(h.l, n); var m' := AbsorbMem(m, b, n);
      && SameExcept(m, m', {b + 8, nn})
      && Load(m', b + 8) == SizeWord(h.l[b].size + h.l[n].size + OVERHEAD, h.l[b].free, PrevFree(h.l, b))
      && Load(m', nn) == b
      && Load(m', nn + 8) == SizeWord(h.l[nn].size, h.l[nn].free, true)
      && (h.l[b].size + h.l[n].size + OVERHEAD) % 8 == 0 && NextAddr(m', b) == nn && b + 8 < nn
  {
    hide Tiled, Headers, BlockSize;
    var n := Nxt(h.l, b);
    SuccessorOf(h.l, h.pools, nullb, b);
    assert h.l[n].size != 0 by { SizeBelow(h, nullb, n); }
    SuccessorOf(h.l, h.pools, nullb, n);
    HeaderRead(h, nullb, b);
    HeaderRead(h, nullb, n);
    HeaderRead(h, nullb, Nxt(h.l, n));
    SumAligned(h.l[b].size, h.l[n].size);
    SizeWordParts(h.l[b].size + h.l[n].size + OVERHEAD, h.l[b].free, PrevFree(h.l, b));
  }

  lemma GrowWords(h: Heap, nullb: int, b: int)
    requires Tiled(h.l, h.pools, nullb) && Headers(h.c.mem, h.l) && Used(h.l, b)
    requires Nxt(h.l, b) in h.l && h.l[Nxt(h.l, b)].free && Nxt(h.l, Nxt(h.l, b)) in h.l
    ensures var m := h.c.mem; var n := Nxt(h.l, b); var nn := Nxt(h.l, n);
      var m' := MarkUsedMem(AbsorbMem(m, b, n), b);
      && SameExcept(m, m', {b + 8, nn, nn + 8})
      && Load(m', b + 8) == SizeWord(h.l[b].size + h.l[n].size + OVERHEAD, false, PrevFree(h.l, b))
      && Load(m', nn + 8) == SizeWord(h.l[nn].size, h.l[nn].free, false)
  {
    hide Tiled, Headers, BlockSize, AbsorbMem, SetUsed, SetPrevUsed, SizeWord, NextAddr;
    AbsorbWords(h, nullb, b);
    var n := Nxt(h.l, b);
    var nn := Nxt(h.l, n);
    HeaderRead(h, nullb, nn);
    SizeWordParts(h.l[b].size + h.l[n].size + OVERHEAD, false, PrevFree(h.l, b));
    SizeWordParts(h.l[nn].size, h.l[nn].free, true);
  }

  lemma MergeStepInv(h: Heap, nullb: int, out: set<int>, loose: set<int>, b: int)
    requires Inv(h, nullb, out, loose) && b in out && Nxt(h.l, b) in out
    ensures Nxt(h.l, Nxt(h.l, b)) in h.l
    ensures Inv(MergeStep(h, b), nullb, out - {Nxt(h.l, b)}, loose - {Nxt(h.l, b)} + {b})
    ensures Kept(h.c.mem, MergeStep(h, b).c.mem, h.l, NONE)
  {
    hide Headers, Tiled, Coalesced, Bitmaps, Links, RanksBelow, Kept, AbsorbMem, SameExcept, SizeWord, MergeNext;
    var m := h.c.mem;
    var n := Nxt(h.l, b);
    SizeBelow(h, nullb, b);
    SizeBelow(h, nullb, n);
    MergeSize(h.l, h.pools, nullb, b);
    MergeTiled(h.l, h.pools, nullb, b);
    AbsorbWords(h, nullb, b);
    var h' := MergeStep(h, b);
    var m' := h'.c.mem;
    var nn := Nxt(h.l, n);
    assert SameExcept(m, m', {b + 8, nn, nn + 8}) by { SameMore(m, m', b + 8, nn, nn + 8); }
    MergeHeaders(m, m', h.l, h.pools, nullb, b, true);
    assert WithFree(h'.l, b, true) == h'.l by { MergeShape(h.l, b); }
    assert Coalesced(h'.l, loose - {n} + {b}) by { MergeCoalesced(h.l, h.pools, nullb, loose, b); }
    MergeFrame(h, h', nullb, out, b, m', {b + 8, nn, nn + 8});
    KeptFree(m, m', h.l, b);
  }

  lemma SameMore(m: Mem, m': Mem, a: int, b: int, c: int)
    requires SameExcept(m, m', {a, b})
    ensures SameExcept(m, m', {a, b, c})
  {
  }

  lemma MergeShape(l: Layout, b: int)
    requires b in l && Nxt(l, b) in l && Nxt(l, Nxt(l, b)) in l && b != Nxt(l, b) && b != Nxt(l, Nxt(l, b))
    ensures var l' := MergeNext(l, b); b in l' && WithFree(l', b, l[b].free) == l'
  {
  }

  lemma MergeCoalesced(l: Layout, pools: map<int, int>, nullb: int, loose: set<int>, b: int)
    requires Tiled(l, pools, nullb) && Coalesced(l, loose) && b in l && l[b].size != 0
    requires Nxt(l, b) in l && l[Nxt(l, b)].size != 0 && Nxt(l, Nxt(l, b)) in l
    ensures l[b].free ==> Coalesced(MergeNext(l, b), loose - {Nxt(l, b)} + {b})
    ensures !l[b].free ==> Coalesced(MergeNext(l, b), loose)
  {
    hide Tiled;
    var l' := MergeNext(l, b);
    SuccessorOf(l, pools, nullb, b);
    SuccessorOf(l, pools, nullb, Nxt(l, b));
    forall x | x in l' && l'[x].free && PrevFree(l', x)
      ensures x in loose || l'[x].prev in loose || (l[b].free && (x == b || l'[x].prev == b))
      ensures x != Nxt(l, b) && l'[x].prev != Nxt(l, b)
    {
      if x != Nxt(l, Nxt(l, b)) {
        Local(l, pools, nullb, x);
        assert PrevFree(l, x);
      }
    }
  }

  /** What merging leaves alone: lists, bitmaps, ranks and the payloads of other used blocks. */
  lemma MergeFrame(h: Heap, h': Heap, nullb: int, out: set<int>, b: int, m': Mem, w: set<int>)
    requires Tiled(h.l, h.pools, nullb) && Bitmaps(h.c, nullb) && RanksBelow(h.rank, h.clock)
    requires Links(h.c.mem, h.c.heads, h.l, h.rank, out, nullb)
    requires forall x | x in out :: x in h.l && h.l[x].free
    requires b in h.l && h.l[b].size != 0 && !Listed(h.l, out, b) && Nxt(h.l, b) in out && Nxt(h.l, Nxt(h.l, b)) in h.l
    requires h' == h.(c := h.c.(mem := m'), l := MergeNext(h.l, b)) && SameExcept(h.c.mem, m', w)
    requires w == {b + 8, Nxt(h.l, Nxt(h.l, b)), Nxt(h.l, Nxt(h.l, b)) + 8}
    ensures Bitmaps(h'.c, nullb)
    ensures Links(m', h.c.heads, h'.l, h.rank, out - {Nxt(h.l, b)}, nullb)
    ensures forall x | x in out - {Nxt(h.l, b)} :: x in h'.l && h'.l[x].free
    ensures Kept(h.c.mem, m', h.l, b)
    ensures KeptRange(h.c.mem, m', b + START_OFFSET, b + START_OFFSET + h.l[b].size)
  {
    hide Tiled, Headers, Coalesced, Bitmaps, Links, RanksBelow, Kept, SameExcept, MergeNext;
    var n := Nxt(h.l, b);
    SuccessorOf(h.l, h.pools, nullb, b);
    SizeBelow(h, nullb, n);
    SuccessorOf(h.l, h.pools, nullb, n);
    BitmapsMem(h.c, m', nullb);
    assert SameListed(h.c.mem, m', h.l, h'.l, out, out - {n}) by {
      MergeLinks(h.l, h.pools, nullb, b, h.c.mem, m', w, out);
    }
    LinksFrame(h.c.mem, m', h.c.heads, h.l, h'.l, h.rank, out, out - {n}, nullb);
    assert forall x | x in out - {n} :: x in h'.l && h'.l[x].free by { MergeOut(h.l, out, b); }
    MergeKept(h.c.mem, m', h.l, h.pools, nullb, b, w);
  }

  lemma MergeOut(l: Layout, out: set<int>, b: int)
    requires b in l && Nxt(l, b) in l && Nxt(l, Nxt(l, b)) in l
    requires forall x | x in out :: x in l && l[x].free
    ensures forall x | x in out - {Nxt(l, b)} :: x in MergeNext(l, b) && MergeNext(l, b)[x].free
  {
  }

  lemma MergeLinks(l: Layout, pools: map<int, int>, nullb: int, b: int,
                   m: Mem, m': Mem, w: set<int>, out: set<int>)
    requires Tiled(l, pools, nullb) && b in l && l[b].size != 0 && !Listed(l, out, b)
    requires Nxt(l, b) in out && Nxt(l, b) in l && l[Nxt(l, b)].free && Nxt(l, Nxt(l, b)) in l
    requires SameExcept(m, m', w)
    requires w == {b + 8, Nxt(l, Nxt(l, b)), Nxt(l, Nxt(l, b)) + 8}
    ensures SameListed(m, m', l, MergeNext(l, b), out, out - {Nxt(l, b)})
  {
    hide Tiled;
    var n := Nxt(l, b);
    assert l[n].size != 0 by { Local(l, pools, nullb, n); }
    SuccessorOf(l, pools, nullb, b);
    SuccessorOf(l, pools, nullb, n);
    forall x | Listed(l, out, x)
      ensures Load(m', x + 16) == Load(m, x + 16) && Load(m', x + 24) == Load(m, x + 24)
    {
      LinksOutside(l, pools, nullb, b, x);
      LinksOutside(l, pools, nullb, n, x);
    }
  }

  lemma MergeKept(m: Mem, m': Mem, l: Layout, pools: map<int, int>, nullb: int, b: int, w: set<int>)
    requires Tiled(l, pools, nullb) && b in l && l[b].size != 0 && SameExcept(m, m', w)
    requires Nxt(l, b) in l && l[Nxt(l, b)].free && Nxt(l, Nxt(l, b)) in l
    requires w == {b + 8, Nxt(l, Nxt(l, b)), Nxt(l, Nxt(l, b)) + 8}
    ensures Kept(m, m', l, b)
    ensures KeptRange(m, m', b + START_OFFSET, b + START_OFFSET + l[b].size)
  {
    hide BlocksOk, Aligned, Chained, PoolsOk, NoOverlap, NullApart, BlockOk, ChainOk, InPool;
    var n := Nxt(l, b);
    var nn := Nxt(l, n);
    SuccessorOf(l, pools, nullb, b);
    assert l[n].size != 0 && n + HEADER_SIZE <= nn by { MergedSizes(l, pools, nullb, n); }
    forall x | Used(l, x) && x != b
      ensures KeptRange(m, m', x + START_OFFSET, x + START_OFFSET + l[x].size)
    {
      forall a | x + START_OFFSET <= a < x + START_OFFSET + l[x].size ensures Load(m', a) == Load(m, a) {
        if a == b + 8 { PayloadApart(l, x, b, a); }
        if a == nn || a == nn + 8 { PayloadApart(l, x, n, a); }
      }
    }
  }

  lemma MergedSizes(l: Layout, pools: map<int, int>, nullb: int, n: int)
    requires Tiled(l, pools, nullb) && n in l && l[n].free
    ensures l[n].size != 0 && n + HEADER_SIZE <= Nxt(l, n)
  {
    Local(l, pools, nullb, n);
  }

  lemma GrowStepInv(h: Heap, nullb: int, out: set<int>, loose: set<int>, b: int)
    requires Inv(h, nullb, out, loose) && Used(h.l, b) && Nxt(h.l, b) in out
    ensures Nxt(h.l, Nxt(h.l, b)) in h.l
    ensures Inv(GrowStep(h, b), nullb, out - {Nxt(h.l, b)}, loose)
    ensures Kept(h.c.mem, GrowStep(h, b).c.mem, h.l, NONE)
  {
    hide Headers, Tiled, Coalesced, Bitmaps, Links, RanksBelow, Kept, AbsorbMem, MarkUsedMem, SameExcept, SizeWord,
         MergeNext, KeptRange;
    var m := h.c.mem;
    var n := Nxt(h.l, b);
    SizeBelow(h, nullb, n);
    SizeBelow(h, nullb, b);
    MergeSize(h.l, h.pools, nullb, b);
    MergeTiled(h.l, h.pools, nullb, b);
    GrowWords(h, nullb, b);
    var h' := GrowStep(h, b);
    var m' := h'.c.mem;
    var nn := Nxt(h.l, n);
    MergeHeaders(m, m', h.l, h.pools, nullb, b, false);
    assert WithFree(h'.l, b, false) == h'.l by { MergeShape(h.l, b); }
    assert Coalesced(h'.l, loose) by { MergeCoalesced(h.l, h.pools, nullb, loose, b); }
    MergeFrame(h, h', nullb, out, b, m', {b + 8, nn, nn + 8});
    assert Kept(m, m', h.l, NONE) by { KeptBoth(m, m', h.l, b); }
  }

  lemma KeptBoth(m: Mem, m': Mem, l: Layout, b: int)
    requires b in l && Kept(m, m', l, b) && KeptRange(m, m', b + START_OFFSET, b + START_OFFSET + l[b].size)
    ensures Kept(m, m', l, NONE)
  {
    hide KeptRange;
  }

  /** Once neither neighbour is free a block needs no special tolerance. */
  lemma Settle(h: Heap, nullb: int, out: set<int>, b: int)
    requires Inv(h, nullb, out, {b})
    requires b in h.l && !PrevFree(h.l, b)
    requires h.l[b].size != 0 && Nxt(h.l, b) in h.l && !h.l[Nxt(h.l, b)].free
    ensures Inv(h, nullb, out, {})
  {
    hide Headers, Tiled, Bitmaps, Links, RanksBelow;
    Local(h.l, h.pools, nullb, b);
    forall x | x in h.l && h.l[x].free && PrevFree(h.l, x) ensures false {
      Local(h.l, h.pools, nullb, x);
    }
  }

  // ---- A new pool.

  /** The words tlsf_add_pool writes besides inserting the block. */
  function PoolMem(m: Mem, start: int, bytes: nat): Mem {
    var e := start + OVERHEAD + bytes;
    m[start + 8 := SetPrevUsed(SetFree(SetSize(Load(m, start + 8), bytes)))]
     [e := start]
     [e + 8 := SetPrevFree(SetUsed(SetSize(Load(m, e + 8), 0)))]
  }

  function PoolStep(h: Heap, start: int, bytes: nat): Heap {
    h.(c := h.c.(mem := PoolMem(h.c.mem, start, bytes)), l := WithPool(h.l, start, bytes),
       pools := h.pools[start := start + OVERHEAD + bytes])
  }

  lemma PoolStepInv(h: Heap, nullb: int, start: int, bytes: nat)
    requires Inv(h, nullb, {}, {}) && RoomFor(h.l, nullb, start, bytes)
    ensures Inv(PoolStep(h, start, bytes), nullb, {start}, {})
    ensures Kept(h.c.mem, PoolMem(h.c.mem, start, bytes), h.l, NONE)
  {
    hide Headers, Tiled, Coalesced, Bitmaps, Links, RanksBelow, Kept, SameExcept, RoomFor, PoolMem, SizeWord;
    var m := h.c.mem;
    var h' := PoolStep(h, start, bytes);
    var m' := h'.c.mem;
    var e := start + OVERHEAD + bytes;
    AddPoolTiled(h.l, h.pools, nullb, start, bytes);
    assert SameExcept(m, m', {start + 8, e, e + 8})
      && Load(m', start + 8) == SizeWord(bytes, true, false)
      && Load(m', e + 8) == SizeWord(0, false, true)
      && Load(m', e) == start by {
      PoolWords(h.l, nullb, m, start, bytes);
    }
    AddPoolHeaders(m, m', h.l, h.pools, nullb, start, bytes);
    assert Coalesced(h'.l, {}) by { PoolCoalesced(h.l, h.pools, nullb, start, bytes); }
    BitmapsMem(h.c, m', nullb);
    assert SameListed(m, m', h.l, h'.l, {}, {start}) by { PoolLinks(h.l, h.pools, nullb, start, bytes, m, m'); }
    LinksFrame(m, m', h.c.heads, h.l, h'.l, h.rank, {}, {start}, nullb);
    PoolKept(m, m', h.l, nullb, start, bytes);
    assert start in h'.l && h'.l[start].free by { PoolFirst(h.l, nullb, start, bytes); }
  }

  lemma PoolFirst(l: Layout, nullb: int, start: int, bytes: nat)
    requires RoomFor(l, nullb, start, bytes)
    ensures var l' := WithPool(l, start, bytes); start in l' && l'[start].free && start !in l
  {
  }

  lemma PoolWords(l: Layout, nullb: int, m: Mem, start: int, bytes: nat)
    requires RoomFor(l, nullb, start, bytes)
    ensures var e := start + OVERHEAD + bytes; var m' := PoolMem(m, start, bytes);
      && SameExcept(m, m', {start + 8, e, e + 8})
      && Load(m', start + 8) == SizeWord(bytes, true, false)
      && Load(m', e + 8) == SizeWord(0, false, true)
      && Load(m', e) == start
  {
    hide Flags;
    var w := Load(m, start + 8);
    StaleSizeWord(w, bytes);
    StaleUsedWord(Load(m, start + OVERHEAD + bytes + 8));
  }

  lemma StaleUsedWord(w: int)
    ensures SetPrevFree(SetUsed(SetSize(w, 0))) == SizeWord(0, false, true)
  {
    assert 0 <= Flags(w) < 4;
    hide Flags;
    FlagsOf(0, 0);
    FlagsOf(0, 1);
    FlagsOf(0, 2);
    FlagsOf(0, 3);
  }

  lemma PoolCoalesced(l: Layout, pools: map<int, int>, nullb: int, start: int, bytes: nat)
    requires Tiled(l, pools, nullb) && Coalesced(l, {}) && RoomFor(l, nullb, start, bytes)
    ensures Coalesced(WithPool(l, start, bytes), {})
  {
    hide Tiled;
    var l' := WithPool(l, start, bytes);
    NoneFree(l, pools, nullb);
    forall x | x in l' && l'[x].free && PrevFree(l', x) ensures false {
      if x in l {
        Local(l, pools, nullb, x);
      }
    }
  }

  lemma PoolLinks(l: Layout, pools: map<int, int>, nullb: int, start: int, bytes: nat, m: Mem, m': Mem)
    requires Tiled(l, pools, nullb) && RoomFor(l, nullb, start, bytes)
    requires var e := start + OVERHEAD + bytes; SameExcept(m, m', {start + 8, e, e + 8})
    ensures SameListed(m, m', l, WithPool(l, start, bytes), {}, {start})
  {
    hide Tiled;
    forall x | Listed(l, {}, x)
      ensures Load(m', x + 16) == Load(m, x + 16) && Load(m', x + 24) == Load(m, x + 24)
    {
      Local(l, pools, nullb, x);
    }
  }

  lemma PoolKept(m: Mem, m': Mem, l: Layout, nullb: int, start: int, bytes: nat)
    requires RoomFor(l, nullb, start, bytes)
    requires var e := start + OVERHEAD + bytes; SameExcept(m, m', {start + 8, e, e + 8})
    ensures Kept(m, m', l, NONE)
  {
    forall x | Used(l, x) && x != NONE
      ensures KeptRange(m, m', x + START_OFFSET, x + START_OFFSET + l[x].size)
    {
    }
  }

  // ---- A pool that is given back.

  ghost function DropStep(h: Heap, start: int): Heap
    requires start in h.l
  {
    h.(l := WithoutPool(h.l, start), pools := h.pools - {start})
  }

  lemma DropHeaders(m: Mem, l: Layout, pools: map<int, int>, nullb: int, start: int)
    requires Tiled(l, pools, nullb) && Headers(m, l) && WholePool(l, pools, start)
    ensures Headers(m, WithoutPool(l, start))
  {
    hide Tiled, ChainOk, InPool, PrevFree;
    var l' := WithoutPool(l, start);
    forall x | x in l' ensures HeaderOk(m, l', x) {
      assert HeaderOk(m, l, x);
      DropLocal(l, pools, nullb, start, x);
    }
  }

  lemma DropCoalesced(l: Layout, pools: map<int, int>, nullb: int, start: int)
    requires Tiled(l, pools, nullb) && Coalesced(l, {}) && WholePool(l, pools, start)
    ensures Coalesced(WithoutPool(l, start), {})
  {
    hide Tiled, ChainOk, InPool, PrevFree;
    var l' := WithoutPool(l, start);
    forall x | x in l' && l'[x].free ensures !PrevFree(l', x) {
      DropLocal(l, pools, nullb, start, x);
    }
  }

  lemma DropListed(m: Mem, l: Layout, pools: map<int, int>, nullb: int, start: int)
    requires Tiled(l, pools, nullb) && WholePool(l, pools, start)
    ensures SameListed(m, m, l, WithoutPool(l, start), {start}, {})
  {
    hide Tiled;
    assert PoolOk(l, start, pools[start]) && InPool(l, pools, pools[start]) && BlockOk(pools[start], l[pools[start]]) by {
      DropSentinel(l, pools, nullb, start);
    }
  }

  lemma DropSentinel(l: Layout, pools: map<int, int>, nullb: int, start: int)
    requires Tiled(l, pools, nullb) && WholePool(l, pools, start)
    ensures pools[start] in l && PoolOk(l, start, pools[start]) && InPool(l, pools, pools[start])
    ensures BlockOk(pools[start], l[pools[start]])
  {
    hide BlocksOk, Aligned, NoOverlap, Chained, NullApart;
    assert PoolOk(l, start, pools[start]);
    Local(l, pools, nullb, pools[start]);
  }

  /** Once its one block is off the lists, a pool can go. */
  lemma DropStepInv(h: Heap, nullb: int, start: int)
    requires Inv(h, nullb, {start}, {}) && WholePool(h.l, h.pools, start)
    ensures Inv(DropStep(h, start), nullb, {}, {})
    ensures Kept(h.c.mem, h.c.mem, h.l, NONE)
  {
    hide Headers, Tiled, Coalesced, Bitmaps, Links, RanksBelow, WholePool, SameListed;
    var m, l' := h.c.mem, WithoutPool(h.l, start);
    DropPoolTiled(h.l, h.pools, nullb, start);
    DropHeaders(m, h.l, h.pools, nullb, start);
    DropCoalesced(h.l, h.pools, nullb, start);
    DropListed(m, h.l, h.pools, nullb, start);
    LinksFrame(m, m, h.c.heads, h.l, l', h.rank, {start}, {}, nullb);
  }
}
