/** The library's own integrity checks, run over every list and every pool: they never find
    anything to report. */
module TlsfCheck {
  import opened TlsfIndex
  import opened TlsfLayout
  import opened TlsfLists
  import opened TlsfSteps
  import opened Tlsf
  import opened TlsfTheorems

  function Insist(condition: bool): int { if condition then 0 else 1 }

  /** The checks of one list entry. */
  method CheckEntry(a: Allocator, block: int, i: int, j: int) returns (failures: int)
    requires a.Valid() && Listed(a.layout, {}, block)
    requires Bin(a.layout[block].size) == SL_COUNT * i + j && 0 <= i < FL_COUNT && 0 <= j < SL_COUNT
    ensures failures == 0
  {
    hide Inv, Load, BlockSize, IsFree, IsPrevFree, NextAddr, MappingInsert, Bin;
    EntryFacts(a.State(), a.nullb, block);
    BinIndices(a.layout[block].size, i, j);
    var w := Load(a.mem, block + 8);
    var next := NextAddr(a.mem, block);
    failures := Insist(IsFree(w)) + Insist(!IsPrevFree(w));
    failures := failures + Insist(!IsFree(Load(a.mem, next + 8)));
    failures := failures + Insist(IsPrevFree(Load(a.mem, next + 8)));
    failures := failures + Insist(BlockSize(w) >= BLOCK_SIZE_MIN);
    failures := failures + Insist(MappingInsert(BlockSize(w)) == (i, j));
  }

  lemma EntryFacts(h: Heap, nullb: int, b: int)
    requires Inv(h, nullb, {}, {}) && Listed(h.l, {}, b)
    ensures var w := Load(h.c.mem, b + 8); var next := NextAddr(h.c.mem, b);
      && IsFree(w) && !IsPrevFree(w) && BlockSize(w) == h.l[b].size >= BLOCK_SIZE_MIN
      && !IsFree(Load(h.c.mem, next + 8)) && IsPrevFree(Load(h.c.mem, next + 8))
  {
    hide Headers, Links, Bitmaps, RanksBelow, Tiled, Flags, BlockSize, IsFree, IsPrevFree;
    ReadSize(h, nullb, {}, {}, b);
    SizeOf(h, nullb, {}, {}, b);
    NextOf(h, nullb, {}, {}, b);
    ReadSize(h, nullb, {}, {}, Nxt(h.l, b));
  }

  /** tlsf_check. */
  method Check(a: Allocator) returns (status: int)
    requires a.Valid()
    ensures status == 0
  {
    hide Inv, Load, Bin, AnyBit, Bitmaps;
    HeadsNonNull(a.State(), a.nullb);
    status := 0;
    var i := 0;
    while i < FL_COUNT
      invariant 0 <= i <= FL_COUNT && status == 0
    {
      var j := 0;
      while j < SL_COUNT
        invariant 0 <= j <= SL_COUNT && status == 0
      {
        var flMap := a.flBitmap[i];
        var slMap := a.slBitmap[i][j];
        var block := a.heads[SL_COUNT * i + j];
        RowFacts(a.Ctl(), a.nullb, i, j);
        if !flMap { status := status - Insist(!slMap); }
        if !slMap {
          status := status - Insist(block == a.nullb);
        } else {
          status := status - Insist(AnyBit(a.slBitmap[i])) - Insist(block != a.nullb);
          HeadOf(a.State(), a.nullb, SL_COUNT * i + j);
          while block != a.nullb
            invariant block == a.nullb
              || (Listed(a.layout, {}, block) && Bin(a.layout[block].size) == SL_COUNT * i + j)
            invariant status == 0
            decreases if block == a.nullb then 0 else Rank(a.rank, block) + 1
          {
            ListStep(a.State(), a.nullb, block);
            var failures := CheckEntry(a, block, i, j);
            status := status - failures;
            block := Load(a.mem, block + 16);
          }
        }
        j := j + 1;
      }
      i := i + 1;
    }
  }

  lemma RowFacts(c: Control, nullb: int, i: int, j: int)
    requires Bitmaps(c, nullb) && 0 <= i < FL_COUNT && 0 <= j < SL_COUNT
    ensures Shape(c) && (c.sl[i][j] <==> c.heads[SL_COUNT * i + j] != nullb)
    ensures c.sl[i][j] ==> c.fl[i] && AnyBit(c.sl[i])
  {
  }

  /** tlsf_check_pool: tlsf_walk_pool with the integrity walker. The blocks it visits are those of
      Walk, whose sizes fill the pool. */
  method CheckPool(a: Allocator, pool: int) returns (status: int)
    requires a.Valid() && pool - OVERHEAD in a.pools
    ensures status == 0
  {
    hide Inv, Load, BlockSize, IsFree, IsPrevFree, NextAddr;
    var block := pool - OVERHEAD;
    PoolStart(a.State(), a.nullb, block);
    FirstFlags(a.State(), a.nullb, block);
    var prevStatus := false;
    status := 0;
    ReadSize(a.State(), a.nullb, {}, {}, block);
    while BlockSize(Load(a.mem, block + 8)) != 0
      invariant block in a.layout && status == 0 && prevStatus == PrevFree(a.layout, block)
      invariant BlockSize(Load(a.mem, block + 8)) == a.layout[block].size
      decreases TWO64 - block
    {
      ReadSize(a.State(), a.nullb, {}, {}, block);
      WalkStep(a.State(), a.nullb, block);
      NextOf(a.State(), a.nullb, {}, {}, block);
      var w := Load(a.mem, block + 8);
      status := status - Insist(prevStatus == IsPrevFree(w));
      prevStatus := IsFree(w);
      block := NextAddr(a.mem, block);
      ReadSize(a.State(), a.nullb, {}, {}, block);
    }
  }

  lemma FirstFlags(h: Heap, nullb: int, s: int)
    requires Inv(h, nullb, {}, {}) && s in h.l && h.l[s].prev == NONE
    ensures !PrevFree(h.l, s)
  {
    NonePayload(h, nullb);
  }
}
