/** What the allocator's invariant means for whole pools, whole lists and pairs of calls, and why
    the library's own integrity checks never fail. */
module TlsfTheorems {
  import opened TlsfIndex
  import opened TlsfLayout
  import opened TlsfLists
  import opened TlsfSteps
  import opened Tlsf

  // ---- Pools.

  /** The blocks of a pool from b up to the sentinel, in the order tlsf_walk_pool visits them. */
  ghost function Walk(h: Heap, nullb: int, b: int): seq<int>
    requires Inv(h, nullb, {}, {}) && b in h.l
    decreases TWO64 - b
  {
    if h.l[b].size == 0 then []
    else
      WalkStep(h, nullb, b);
      [b] + Walk(h, nullb, Nxt(h.l, b))
  }

  lemma WalkStep(h: Heap, nullb: int, b: int)
    requires Inv(h, nullb, {}, {}) && b in h.l && h.l[b].size != 0
    ensures Nxt(h.l, b) in h.l && b < Nxt(h.l, b) && b < TWO64 && Nxt(h.l, b) < TWO64
    ensures h.l[Nxt(h.l, b)].pool == h.l[b].pool && h.l[b].pool in h.pools
  {
    hide Headers, Links, Bitmaps, RanksBelow, Coalesced, Tiled;
    Local(h.l, h.pools, nullb, b);
    Local(h.l, h.pools, nullb, Nxt(h.l, b));
  }

  /** Size plus header word of every block. */
  ghost function Bytes(l: Layout, bs: seq<int>): int {
    if bs == [] then 0
    else (if bs[0] in l then l[bs[0]].size + OVERHEAD else 0) + Bytes(l, bs[1..])
  }

  /** From any block on, the blocks fill the pool exactly up to its sentinel. */
  lemma {:induction false} WalkTiles(h: Heap, nullb: int, b: int)
    requires Inv(h, nullb, {}, {}) && b in h.l
    ensures forall x | x in Walk(h, nullb, b) :: x in h.l && h.l[x].pool == h.l[b].pool
    ensures h.l[b].pool in h.pools && Bytes(h.l, Walk(h, nullb, b)) == h.pools[h.l[b].pool] - b
    decreases TWO64 - b
  {
    hide Inv;
    PoolEnd(h, nullb, b);
    if h.l[b].size != 0 {
      WalkStep(h, nullb, b);
      var n := Nxt(h.l, b);
      WalkTiles(h, nullb, n);
      assert Walk(h, nullb, b)[1..] == Walk(h, nullb, n);
    }
  }

  lemma PoolEnd(h: Heap, nullb: int, b: int)
    requires Inv(h, nullb, {}, {}) && b in h.l
    ensures h.l[b].pool in h.pools && h.l[b].pool <= b <= h.pools[h.l[b].pool]
    ensures h.l[b].size == 0 <==> b == h.pools[h.l[b].pool]
  {
    hide Headers, Links, Bitmaps, RanksBelow, Coalesced, Tiled;
    Local(h.l, h.pools, nullb, b);
  }

  lemma PoolStart(h: Heap, nullb: int, s: int)
    requires Inv(h, nullb, {}, {}) && s in h.pools
    ensures s in h.l && h.l[s].pool == s && h.l[s].prev == NONE && h.pools[s] in h.l && s < h.pools[s]
  {
    hide Headers, Links, Bitmaps, RanksBelow, Coalesced, BlocksOk, Chained, Aligned, NoOverlap, NullApart;
    assert PoolOk(h.l, s, h.pools[s]);
    assert InPool(h.l, h.pools, s);
  }

  /** In every state, the block sizes of a pool and their header words add up to the pool. */
  lemma PoolAccounting(h: Heap, nullb: int, s: int)
    requires Inv(h, nullb, {}, {}) && s in h.pools
    ensures s in h.l && (forall x | x in Walk(h, nullb, s) :: x in h.l)
    ensures Bytes(h.l, Walk(h, nullb, s)) == h.pools[s] - s
  {
    hide Inv;
    PoolStart(h, nullb, s);
    WalkTiles(h, nullb, s);
  }

  /** With nothing in use, a pool is again the one free block it started as. */
  lemma NothingLive(h: Heap, nullb: int, s: int)
    requires Inv(h, nullb, {}, {}) && s in h.pools
    requires forall b | Used(h.l, b) :: h.l[b].pool != s
    ensures s in h.l && h.l[s] == Blk(h.pools[s] - s - OVERHEAD, true, NONE, s)
    ensures Walk(h, nullb, s) == [s] && WholePool(h.l, h.pools, s)
  {
    hide Headers, Links, Bitmaps, RanksBelow, Tiled;
    PoolStart(h, nullb, s);
    PoolEnd(h, nullb, s);
    WalkStep(h, nullb, s);
    var n := Nxt(h.l, s);
    PoolEnd(h, nullb, n);
    NextOf(h, nullb, {}, {}, s);
    assert !Used(h.l, s) && !Used(h.l, n);
    assert PrevFree(h.l, n);
    assert Walk(h, nullb, n) == [];
  }

  /** Live allocations never share a byte. */
  lemma LiveDisjoint(h: Heap, nullb: int, x: int, y: int, a: int)
    requires Inv(h, nullb, {}, {}) && Used(h.l, x) && Used(h.l, y)
    requires x + START_OFFSET <= a < x + START_OFFSET + h.l[x].size
    requires y + START_OFFSET <= a < y + START_OFFSET + h.l[y].size
    ensures x == y
  {
    hide Headers, Links, Bitmaps, RanksBelow, Coalesced;
    if x != y {
      Ordered(h.l, x, y);
      Ordered(h.l, y, x);
    }
  }

  // ---- Lists.

  /** A free list from x to its end. */
  ghost function ListFrom(h: Heap, nullb: int, x: int): seq<int>
    requires Inv(h, nullb, {}, {}) && (x == nullb || Listed(h.l, {}, x))
    decreases if x == nullb then 0 else Rank(h.rank, x) + 1
  {
    if x == nullb then []
    else
      ListStep(h, nullb, x);
      [x] + ListFrom(h, nullb, Load(h.c.mem, x + 16))
  }

  lemma ListStep(h: Heap, nullb: int, x: int)
    requires Inv(h, nullb, {}, {}) && Listed(h.l, {}, x)
    ensures x != nullb && |h.c.heads| == BINS && 0 <= Bin(h.l[x].size) < BINS
    ensures var nx := Load(h.c.mem, x + 16);
      nx == nullb || (Listed(h.l, {}, nx) && Bin(h.l[nx].size) == Bin(h.l[x].size)
                      && Rank(h.rank, nx) < Rank(h.rank, x))
    ensures var pv := Load(h.c.mem, x + 24);
      if pv == nullb then h.c.heads[Bin(h.l[x].size)] == x
      else Listed(h.l, {}, pv) && Bin(h.l[pv].size) == Bin(h.l[x].size) && Load(h.c.mem, pv + 16) == x
           && Rank(h.rank, x) < Rank(h.rank, pv) < h.clock
  {
    hide Headers, Bitmaps, Coalesced, Tiled, Bin;
    BlocksApart(h.l, h.pools, nullb, x, nullb);
    assert LinkOk(h.c.mem, h.c.heads, h.l, h.rank, {}, nullb, x);
    var pv := Load(h.c.mem, x + 24);
    if pv != nullb {
      assert LinkOk(h.c.mem, h.c.heads, h.l, h.rank, {}, nullb, pv);
      assert Rank(h.rank, pv) < h.clock;
    }
  }

  lemma {:induction false} ListMembers(h: Heap, nullb: int, x: int, k: int)
    requires Inv(h, nullb, {}, {})
    requires x == nullb || (Listed(h.l, {}, x) && Bin(h.l[x].size) == k)
    ensures forall y | y in ListFrom(h, nullb, x) :: Listed(h.l, {}, y) && Bin(h.l[y].size) == k
    decreases if x == nullb then 0 else Rank(h.rank, x) + 1
  {
    hide Inv, Bin;
    if x != nullb {
      ListStep(h, nullb, x);
      ListMembers(h, nullb, Load(h.c.mem, x + 16), k);
    }
  }

  lemma HeadOf(h: Heap, nullb: int, k: int)
    requires Inv(h, nullb, {}, {}) && 0 <= k < BINS
    ensures |h.c.heads| == BINS
    ensures h.c.heads[k] == nullb || (Listed(h.l, {}, h.c.heads[k]) && Bin(h.l[h.c.heads[k]].size) == k)
  {
    hide Headers, Bitmaps, Coalesced, Tiled, Bin, RanksBelow, LinkOk;
    assert HeadOk(h.c.mem, h.c.heads, h.l, {}, nullb, k);
  }

  /** A listed block is on every list suffix that starts at or before it; going back along the
      prev links ends at the head. */
  lemma {:induction false} ReachedFromHead(h: Heap, nullb: int, x: int)
    requires Inv(h, nullb, {}, {}) && Listed(h.l, {}, x)
    ensures |h.c.heads| == BINS && 0 <= Bin(h.l[x].size) < BINS
    ensures var hd := h.c.heads[Bin(h.l[x].size)];
            && (hd == nullb || Listed(h.l, {}, hd))
            && (forall y | y in ListFrom(h, nullb, x) :: y in ListFrom(h, nullb, hd))
    decreases h.clock - Rank(h.rank, x)
  {
    hide Inv, Bin;
    ListStep(h, nullb, x);
    HeadOf(h, nullb, Bin(h.l[x].size));
    var pv := Load(h.c.mem, x + 24);
    if pv != nullb {
      ListStep(h, nullb, pv);
      ReachedFromHead(h, nullb, pv);
      assert ListFrom(h, nullb, pv) == [pv] + ListFrom(h, nullb, x);
    }
  }

  /** The blocks on list k are exactly the free blocks whose size maps to k. */
  lemma ListsExact(h: Heap, nullb: int, k: int, x: int)
    requires Inv(h, nullb, {}, {}) && 0 <= k < BINS
    ensures |h.c.heads| == BINS && (h.c.heads[k] == nullb || Listed(h.l, {}, h.c.heads[k]))
    ensures x in ListFrom(h, nullb, h.c.heads[k]) <==> x in h.l && h.l[x].free && Bin(h.l[x].size) == k
  {
    hide Inv, Bin;
    HeadOf(h, nullb, k);
    ListMembers(h, nullb, h.c.heads[k], k);
    if x in h.l && h.l[x].free && Bin(h.l[x].size) == k {
      ListStep(h, nullb, x);
      assert x in ListFrom(h, nullb, x);
      ReachedFromHead(h, nullb, x);
    }
  }

  // ---- Free undoes malloc and memalign.

  /** Freeing what malloc just carved out of block b restores the layout. */
  lemma FreeUndoesMalloc(h: Heap, nullb: int, b: int, size: nat)
    requires Inv(h, nullb, {}, {}) && b in h.l && h.l[b].free && BLOCK_SIZE_MIN <= size
    ensures Nxt(h.l, b) in h.l
    ensures FreeReady(Carved(h.l, b, size), b) && Freed(Carved(h.l, b, size), b) == h.l
  {
    hide Headers, Links, Bitmaps, RanksBelow, Tiled;
    SizeOf(h, nullb, {}, {}, b);
    NextOf(h, nullb, {}, {}, b);
    NoBlockInside(h, nullb, {}, {}, b, size);
    Local(h.l, h.pools, nullb, b);
    if h.l[b].size >= HEADER_SIZE + size {
      CarvedFreed(h.l, b, size);
    } else {
      assert Freed(Carved(h.l, b, size), b) == h.l;
    }
  }

  lemma CarvedFreed(l: Layout, b: int, size: nat)
    requires b in l && l[b].free && Nxt(l, b) in l && !l[Nxt(l, b)].free && l[Nxt(l, b)].prev == b
    requires !PrevFree(l, b) && NONE < b && NONE !in l && BLOCK_SIZE_MIN <= size && l[b].size >= HEADER_SIZE + size
    requires b + OVERHEAD + size !in l && l[b].prev < b
    ensures FreeReady(Carved(l, b, size), b) && Freed(Carved(l, b, size), b) == l
  {
    assert Freed(Carved(l, b, size), b) == l;
  }

  /** The layout tlsf_memalign leaves: a leading gap cut off, then the block carved. */
  ghost function AlignedCarved(l: Layout, b: int, gap: nat, size: nat): Layout
    requires b in l && Nxt(l, b) in l && l[b].size >= HEADER_SIZE + gap && gap >= HEADER_SIZE
  {
    Carved(SplitAt(l, b, gap - OVERHEAD), b + gap, size)
  }

  ghost predicate AlignedRoundTrip(l: Layout, b: int, gap: nat, size: nat)
    requires b in l && l[b].size >= HEADER_SIZE + gap && gap >= HEADER_SIZE
  {
    && Nxt(l, b) in l
    && var l' := AlignedCarved(l, b, gap, size);
       FreeReady(l', b + gap) && Freed(l', b + gap) == l
  }

  /** Freeing an aligned allocation joins it with its gap and its tail again. */
  lemma FreeUndoesMemalign(h: Heap, nullb: int, b: int, gap: nat, size: nat)
    requires Inv(h, nullb, {}, {}) && b in h.l && h.l[b].free && BLOCK_SIZE_MIN <= size
    requires HEADER_SIZE <= gap && h.l[b].size >= HEADER_SIZE + gap
    ensures AlignedRoundTrip(h.l, b, gap, size)
  {
    hide Headers, Links, Bitmaps, RanksBelow, Tiled;
    SizeOf(h, nullb, {}, {}, b);
    NextOf(h, nullb, {}, {}, b);
    NoBlockInside(h, nullb, {}, {}, b, gap - OVERHEAD);
    NoBlockInside(h, nullb, {}, {}, b, gap + size);
    if h.l[b].size - gap >= HEADER_SIZE + size {
      AlignedFreedTail(h.l, b, gap, size);
    } else {
      AlignedFreed(h.l, b, gap, size);
    }
  }

  lemma AlignedFreed(l: Layout, b: int, gap: nat, size: nat)
    requires b in l && l[b].free && Nxt(l, b) in l && !l[Nxt(l, b)].free && l[Nxt(l, b)].prev == b
    requires NONE < b && NONE !in l && BLOCK_SIZE_MIN <= size && b + gap !in l
    requires HEADER_SIZE <= gap && l[b].size >= HEADER_SIZE + gap && l[b].size - gap < HEADER_SIZE + size
    ensures AlignedRoundTrip(l, b, gap, size)
  {
    assert Freed(AlignedCarved(l, b, gap, size), b + gap) == l;
  }

  lemma AlignedFreedTail(l: Layout, b: int, gap: nat, size: nat)
    requires b in l && l[b].free && Nxt(l, b) in l && !l[Nxt(l, b)].free && l[Nxt(l, b)].prev == b
    requires NONE < b && NONE !in l && BLOCK_SIZE_MIN <= size && b + gap !in l && b + gap + OVERHEAD + size !in l
    requires HEADER_SIZE <= gap && l[b].size - gap >= HEADER_SIZE + size
    ensures AlignedRoundTrip(l, b, gap, size)
  {
    assert Freed(AlignedCarved(l, b, gap, size), b + gap) == l;
  }

  // ---- The top alignment.

  /** At alignment 2^63 the size searched for has wrapped, so that any block may be found: the address is
      aligned exactly if the block needs no gap or is large enough to be split behind it, and the block
      holds the request exactly if it was large enough for it there. */
  lemma TopAlignment(l: Layout, l': Layout, b: int, align: U64, adjust: U64, p: int)
    requires 2 * align == TWO64 && Placed(l, l', b, align, adjust, p)
    requires 0 < b + START_OFFSET && b + START_OFFSET + l[b].size <= TWO64
    ensures var gap := AlignGap(b + START_OFFSET, align); var split := gap != 0 && l[b].size >= HEADER_SIZE + gap;
      && p >= 0 && (Multiple(p, align) <==> gap == 0 || split)
      && p - START_OFFSET in l'
      && (l'[p - START_OFFSET].size >= adjust <==> l[b].size - (if split then gap else 0) >= adjust)
  {
    hide AlignUp, Multiple, AlignedSize, SplitAt;
    var q := b + START_OFFSET;
    GapOfTop(q, align);
    TopMultiples(p, align);
    PlacedSize(l, l', b, align, adjust, p);
  }

  lemma GapOfTop(q: U64, align: U64)
    requires 2 * align == TWO64 && 0 < q
    ensures var gap := AlignGap(q, align);
      && (gap == 0 <==> q == align)
      && (q + gap <= TWO64 && gap > 0 ==> q + gap == align || q + gap == TWO64)
  {
    hide AlignUp;
    TopAlign(q, align);
    var a := AlignUp(q, align);
    var gap := Wrap(a - q);
    if 0 < gap < HEADER_SIZE {
      TopAlign(Wrap(a + align), align);
      GapUnfold(q, align, a, gap);
    }
  }

  lemma PlacedSize(l: Layout, l': Layout, b: int, align: U64, adjust: U64, p: int)
    requires align > 0 && Placed(l, l', b, align, adjust, p)
    ensures var gap := AlignGap(b + START_OFFSET, align); var split := gap != 0 && l[b].size >= HEADER_SIZE + gap;
      && p - START_OFFSET in l'
      && (l'[p - START_OFFSET].size >= adjust <==> l[b].size - (if split then gap else 0) >= adjust)
      && p == b + START_OFFSET + (if split then gap else 0)
  {
    hide AlignGap, AlignedSize;
  }

  /** The only multiples are 0, 2^63 and 2^64. */
  lemma TopMultiples(q: nat, align: U64)
    requires 2 * align == TWO64 && q <= TWO64
    ensures Multiple(q, align) <==> q == 0 || q == align || q == TWO64
  {
  }

  // ---- The oversized realloc.

  /** A realloc request that the size adjustment refuses (its adjusted size is 0) trims the block
      to nothing. Only a block too small to be split survives that; any other is left as a used
      block of size zero in the middle of its pool, which ends every later walk there. */
  lemma OversizedReallocBreaks(h: Heap, nullb: int, b: int, size: U64)
    requires Inv(h, nullb, {}, {}) && Used(h.l, b) && size != 0 && AdjustRequestSize(size, ALIGN_SIZE) == 0
    requires b + START_OFFSET != NONE
    ensures Nxt(h.l, b) in h.l
    ensures h.l[b].size >= HEADER_SIZE ==> !Tiled(SplitAt(h.l, b, 0), h.pools, nullb)
    ensures h.l[b].size < HEADER_SIZE <==> Trimmed(h.l, b, 0) == h.l
    ensures ReallocSafe(h.l, b + START_OFFSET, size) <==> Trimmed(h.l, b, 0) == h.l
  {
    hide AdjustRequestSize, Headers, Links, Bitmaps, RanksBelow, Coalesced, Tiled;
    NextOf(h, nullb, {}, {}, b);
    Local(h.l, h.pools, nullb, b);
    if h.l[b].size >= HEADER_SIZE {
      EmptyUsedBlock(h.l, h.pools, nullb, b);
    }
  }

  /** What tlsf_realloc leaves there: wherever block b is still a block, its header says size 0, so that it
      reads as the end of its pool; the pool cannot be tiled beyond it any more. */
  lemma CutShort(m: Mem, l: Layout, pools: map<int, int>, nullb: int, b: int)
    requires BlockSize(Load(m, b + 8)) == 0 && Tiled(l, pools, nullb) && Headers(m, l) && b in l
    ensures l[b].size == 0 && l[b].pool in pools && pools[l[b].pool] == b
    ensures forall x | x in l && l[x].pool == l[b].pool :: x <= b
  {
    hide Headers, Tiled, BlockSize, SizeWord;
    Local(l, pools, nullb, b);
    assert HeaderOk(m, l, b) by { HeaderAt(m, l, b); }
    SizeWordParts(l[b].size, l[b].free, PrevFree(l, b));
    forall x | x in l && l[x].pool == l[b].pool ensures x <= b {
      Local(l, pools, nullb, x);
    }
  }

  lemma HeaderAt(m: Mem, l: Layout, b: int)
    requires Headers(m, l) && b in l
    ensures HeaderOk(m, l, b)
  {
  }

  lemma EmptyUsedBlock(l: Layout, pools: map<int, int>, nullb: int, b: int)
    requires b in l && l[b].size >= HEADER_SIZE && Nxt(l, b) in l && InPool(l, pools, b)
    ensures SplitAt(l, b, 0) != l && !Tiled(SplitAt(l, b, 0), pools, nullb)
  {
    hide Tiled;
    var l' := SplitAt(l, b, 0);
    assert l'[b].size == 0 && l'[b].pool == l[b].pool;
    if Tiled(l', pools, nullb) {
      Local(l', pools, nullb, b);
    }
  }

  /** The sizes whose adjustment is refused, for a pointer that needs one. */
  lemma RefusedSizes(size: U64)
    requires size != 0
    ensures AdjustRequestSize(size, ALIGN_SIZE) == 0 <==> BLOCK_SIZE_MAX - ALIGN_SIZE < size <= TWO64 - ALIGN_SIZE
  {
    if size <= TWO64 - ALIGN_SIZE {
      if BLOCK_SIZE_MAX - ALIGN_SIZE < size && AlignUp(size, ALIGN_SIZE) < BLOCK_SIZE_MAX {
        BelowTop(AlignUp(size, ALIGN_SIZE), BLOCK_SIZE_MAX / 8);
      }
    } else {
      AdjustWrapped(size);
    }
  }

  lemma BelowTop(x: nat, q: nat)
    requires Multiple(x, 8) && x < 8 * q
    ensures x + 8 <= 8 * q
  {
    MultipleTimes(q, 8);
    MultipleBelow(x, 8 * q);
  }

  // ---- When a request fails.

  /** Then every free block is smaller than the request with its rounding term; and if some free block is
      at least that large, it does not fail. */
  lemma FailsOnlyWithout(l: Layout, adjust: nat, x: int)
    requires adjust > 0 && NoRoom(l, adjust) && x in l && l[x].free
    ensures l[x].size < adjust + SearchRound(adjust)
  {
    hide Bin, SearchBin, SearchRound;
    SearchMisses(adjust, l[x].size);
  }

  /** The block that is chosen is large enough, and no list of smaller blocks would have served. */
  lemma ChosenFits(l: Layout, b: int, size: nat, x: int)
    requires Chosen(l, b, size) && Multiple(size, ALIGN_SIZE) && x in l && l[x].free && l[x].size < BLOCK_SIZE_MAX
    ensures l[b].size >= size
    ensures Bin(l[x].size) < Bin(l[b].size) ==> l[x].size < size + SearchRound(size)
  {
    hide Bin, SearchBin, SearchRound, Multiple;
    GoodFit(size, l[b].size);
    if Bin(l[x].size) < Bin(l[b].size) {
      SearchMisses(size, l[x].size);
    }
  }
}
