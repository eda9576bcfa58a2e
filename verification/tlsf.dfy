/** The allocator: the control structure's methods, each proved against the state it must leave. */
module Tlsf {
  import opened TlsfIndex
  import opened TlsfLayout
  import opened TlsfLists
  import opened TlsfSteps

  // ---- Searching the bitmaps.

  /** w & (~0U << s). */
  function MaskFrom(w: Bits, s: int): Bits {
    seq(32, i requires 0 <= i < 32 => i >= s && w[i])
  }

  /** Index of the lowest set bit, -1 for zero. */
  function Ffs(w: Bits): (r: int)
    ensures -1 <= r < 32
    ensures r == -1 <==> !AnyBit(w)
    ensures r >= 0 ==> w[r] && forall i :: 0 <= i < r ==> !w[i]
  {
    FfsFrom(w, 0)
  }

  function FfsFrom(w: Bits, k: nat): (r: int)
    requires k <= 32 && forall i :: 0 <= i < k ==> !w[i]
    ensures -1 <= r < 32
    ensures r == -1 <==> !AnyBit(w)
    ensures r >= 0 ==> w[r] && forall i :: 0 <= i < r ==> !w[i]
    decreases 32 - k
  {
    if k == 32 then -1 else if w[k] then k else FfsFrom(w, k + 1)
  }

  class Allocator {
    const nullb: int
    var mem: Mem
    var flBitmap: Bits
    var slBitmap: seq<Bits>
    var heads: seq<int>
    ghost var layout: Layout
    ghost var pools: map<int, int>
    ghost var rank: Ranks
    ghost var clock: nat

    function Ctl(): Control
      reads this
    {
      Control(mem, flBitmap, slBitmap, heads)
    }

    ghost function State(): Heap
      reads this
    {
      Heap(Ctl(), layout, pools, rank, clock)
    }

    ghost predicate Valid()
      reads this
    {
      nullb > NONE && Inv(State(), nullb, {}, {})
    }

    /** tlsf_create on memory with arbitrary contents. */
    constructor (address: int, contents: Mem)
      requires address > NONE
      ensures Valid() && nullb == address && layout == map[] && pools == map[]
    {
      nullb := address;
      mem := contents[address + 16 := address][address + 24 := address];
      flBitmap := seq(32, _ => false);
      slBitmap, heads := [], [];
      layout, pools, rank, clock := map[], map[], map[], 1;
      new;
      var zero: Bits := seq(32, _ => false);
      var i := 0;
      while i < FL_COUNT
        invariant 0 <= i <= FL_COUNT && |slBitmap| == i && |heads| == SL_COUNT * i
        invariant forall f :: 0 <= f < i ==> slBitmap[f] == zero
        invariant forall k :: 0 <= k < |heads| ==> heads[k] == nullb
        invariant nullb == address && layout == map[] && pools == map[] && rank == map[] && clock == 1 && flBitmap == zero
      {
        slBitmap := slBitmap + [zero];
        var j := 0;
        while j < SL_COUNT
          invariant 0 <= j <= SL_COUNT && |slBitmap| == i + 1 && |heads| == SL_COUNT * i + j
          invariant forall f :: 0 <= f <= i ==> slBitmap[f] == zero
          invariant forall k :: 0 <= k < |heads| ==> heads[k] == nullb
          invariant nullb == address && layout == map[] && pools == map[] && rank == map[] && clock == 1 && flBitmap == zero
        {
          heads := heads + [nullb];
          j := j + 1;
        }
        i := i + 1;
      }
    }

    // ---- Free lists.

    method RemoveFreeBlock(b: int, fl: int, sl: int)
      requires Shape(Ctl()) && 0 <= fl < FL_COUNT && 0 <= sl < SL_COUNT
      modifies this`mem, this`flBitmap, this`slBitmap, this`heads
      ensures Ctl() == Removed(old(Ctl()), b, fl, sl, nullb)
    {
      var prev := Load(mem, b + 24);
      var next := Load(mem, b + 16);
      mem := mem[next + 24 := prev];
      mem := mem[prev + 16 := next];
      if heads[SL_COUNT * fl + sl] == b {
        heads := heads[SL_COUNT * fl + sl := next];
        if next == nullb {
          slBitmap := slBitmap[fl := slBitmap[fl][sl := false]];
          if !AnyBit(slBitmap[fl]) {
            flBitmap := flBitmap[fl := false];
          }
        }
      }
    }

    method InsertFreeBlock(b: int, fl: int, sl: int)
      requires Shape(Ctl()) && 0 <= fl < FL_COUNT && 0 <= sl < SL_COUNT
      modifies this`mem, this`flBitmap, this`slBitmap, this`heads
      ensures Ctl() == Inserted(old(Ctl()), nullb, b, fl, sl)
    {
      var current := heads[SL_COUNT * fl + sl];
      mem := mem[b + 16 := current];
      mem := mem[b + 24 := nullb];
      mem := mem[current + 24 := b];
      heads := heads[SL_COUNT * fl + sl := b];
      flBitmap := flBitmap[fl := true];
      slBitmap := slBitmap[fl := slBitmap[fl][sl := true]];
    }

    method BlockRemove(b: int, ghost out: set<int>, ghost loose: set<int>)
      requires Inv(State(), nullb, out, loose) && Listed(layout, out, b)
      modifies this`mem, this`flBitmap, this`slBitmap, this`heads
      ensures old(layout)[b].size < BLOCK_SIZE_MAX && Shape(old(Ctl()))
      ensures State() == RemoveStep(old(State()), nullb, b)
      ensures Inv(State(), nullb, out + {b}, loose)
      ensures Kept(old(mem), mem, layout, NONE)
    {
      hide Inv, Kept, MappingInsert, Removed, Load, BlockSize;
      RemoveStepInv(State(), nullb, out, loose, b);
      ReadSize(State(), nullb, out, loose, b);
      var size := BlockSize(Load(mem, b + 8));
      MappingInRange(size);
      var m := MappingInsert(size);
      RemoveFreeBlock(b, m.0, m.1);
    }

    method BlockInsert(b: int, ghost out: set<int>, ghost loose: set<int>)
      requires Inv(State(), nullb, out, loose) && b in out
      modifies this`mem, this`flBitmap, this`slBitmap, this`heads, this`rank, this`clock
      ensures b in old(layout) && old(layout)[b].size < BLOCK_SIZE_MAX && Shape(old(Ctl()))
      ensures State() == InsertStep(old(State()), nullb, b)
      ensures Inv(State(), nullb, out - {b}, loose)
      ensures Kept(old(mem), mem, layout, NONE)
    {
      hide Inv, Kept, MappingInsert, Inserted, Load, BlockSize;
      InsertStepInv(State(), nullb, out, loose, b);
      ReadSize(State(), nullb, out, loose, b);
      var size := BlockSize(Load(mem, b + 8));
      MappingInRange(size);
      var m := MappingInsert(size);
      InsertFreeBlock(b, m.0, m.1);
      rank := rank[b := clock];
      clock := clock + 1;
    }
  
    /** The first non-empty list at or after (fl, sl), by two masked bit scans. */
    method SearchSuitableBlock(fl0: int, sl0: int) returns (block: int, fl: int, sl: int)
      requires Bitmaps(Ctl(), nullb) && 0 <= fl0 < FL_COUNT && 0 <= sl0 < SL_COUNT
      requires forall k :: 0 <= k < BINS ==> heads[k] != NONE
      ensures block == NONE ==> forall k :: SL_COUNT * fl0 + sl0 <= k < BINS ==> heads[k] == nullb
      ensures block != NONE ==>
        && 0 <= fl < FL_COUNT && 0 <= sl < SL_COUNT && SL_COUNT * fl0 + sl0 <= SL_COUNT * fl + sl
        && block == heads[SL_COUNT * fl + sl] != nullb
        && forall k :: SL_COUNT * fl0 + sl0 <= k < SL_COUNT * fl + sl ==> heads[k] == nullb
    {
      hide AnyBit, FfsFrom;
      fl, sl := fl0, sl0;
      var slMap := MaskFrom(slBitmap[fl], sl);
      if Ffs(slMap) == -1 {
        RowEmpty(Ctl(), nullb, fl, sl);
        var flMap := MaskFrom(flBitmap, fl + 1);
        MaskedBits(flBitmap, fl + 1);
        if Ffs(flMap) == -1 {
          RowsEmpty(Ctl(), nullb, fl, FL_COUNT);
          return NONE, fl, sl;
        }
        fl := Ffs(flMap);
        RowsEmpty(Ctl(), nullb, fl0, fl);
        slMap := slBitmap[fl];
        RowPrefix(Ctl(), nullb, fl, 0, Ffs(slMap));
      } else {
        MaskedBits(slBitmap[fl], sl);
        RowPrefix(Ctl(), nullb, fl, sl, Ffs(slMap));
      }
      sl := Ffs(slMap);
      block := heads[SL_COUNT * fl + sl];
    }

    /** block_locate_free: a free block that is large enough, taken off its list. */
    method BlockLocateFree(size: nat) returns (block: int)
      requires Valid() && Multiple(size, ALIGN_SIZE)
      modifies this`mem, this`flBitmap, this`slBitmap, this`heads
      ensures block == NONE ==> State() == old(State()) && NoRoom(layout, size)
      ensures block != NONE ==> Chosen(layout, block, size)
      ensures block != NONE ==>
        && size > 0 && block in layout && layout[block].free && layout[block].size >= size
        && Inv(State(), nullb, {block}, {}) && Kept(old(mem), mem, layout, NONE)
    {
      hide Inv, Kept, MappingInsert, SearchRound, Removed, Bitmaps, Load, Ffs, MaskFrom, Chosen;
      block := NONE;
      var fl, sl := 0, 0;
      if size != 0 {
        var m := MappingSearch(size);
        fl, sl := m.0, m.1;
        MappingInRange(size + SearchRound(size));
        if fl < FL_COUNT {
          HeadsNonNull(State(), nullb);
          block, fl, sl := SearchSuitableBlock(fl, sl);
        }
        if block == NONE {
          NothingFits(State(), nullb, size);
        }
      }
      if block != NONE {
        FoundBlock(State(), nullb, size, fl, sl);
        FirstFit(State(), nullb, size, fl, sl);
        RemoveStepInv(State(), nullb, {}, {}, block);
        assert {} + {block} == {block};
        RemoveFreeBlock(block, fl, sl);
      }
    }

    // ---- Headers.

    method BlockMarkAsFree(b: int)
      modifies this`mem
      ensures mem == MarkFreeMem(old(mem), b)
    {
      var next := NextAddr(mem, b);
      mem := mem[next := b];
      mem := mem[next + 8 := SetPrevFree(Load(mem, next + 8))];
      mem := mem[b + 8 := SetFree(Load(mem, b + 8))];
    }

    method BlockMarkAsUsed(b: int)
      modifies this`mem
      ensures mem == MarkUsedMem(old(mem), b)
    {
      var next := NextAddr(mem, b);
      mem := mem[next + 8 := SetPrevUsed(Load(mem, next + 8))];
      mem := mem[b + 8 := SetUsed(Load(mem, b + 8))];
    }

    method BlockSplit(b: int, size: nat) returns (remaining: int)
      requires size + OVERHEAD <= BlockSize(Load(mem, b + 8))
      modifies this`mem
      ensures mem == SplitMem(old(mem), b, size) && remaining == b + OVERHEAD + size
    {
      hide Load, SetSize, BlockSize, Flags, MarkFreeMem;
      remaining := b + START_OFFSET + (size - OVERHEAD);
      var remainSize := BlockSize(Load(mem, b + 8)) - (size + OVERHEAD);
      mem := mem[remaining + 8 := SetSize(Load(mem, remaining + 8), remainSize)];
      mem := mem[b + 8 := SetSize(Load(mem, b + 8), size)];
      BlockMarkAsFree(remaining);
    }

    method BlockAbsorb(p: int, b: int)
      modifies this`mem
      ensures mem == AbsorbMem(old(mem), p, b)
    {
      mem := mem[p + 8 := Load(mem, p + 8) + (BlockSize(Load(mem, b + 8)) + OVERHEAD)];
      mem := mem[NextAddr(mem, p) := p];
    }

    /** block_merge_prev on a detached free block. */
    method BlockMergePrev(b: int) returns (block: int)
      requires b in layout && Inv(State(), nullb, {b}, {b})
      modifies this
      ensures pools == old(pools)
      ensures block == if PrevFree(old(layout), b) then old(layout)[b].prev else b
      ensures block in layout && block in old(layout) && (block != b ==> Nxt(old(layout), block) == b)
      ensures block != b ==> Nxt(old(layout), b) in old(layout)
      ensures layout == if block == b then old(layout) else MergeNext(old(layout), block)
      ensures Inv(State(), nullb, {block}, {block})
      ensures Kept(old(mem), mem, old(layout), NONE)
    {
      hide Inv, Kept, IsPrevFree, Load, BlockSize, AbsorbMem, RemoveStep, NextAddr, KeptRange;
      ReadSize(State(), nullb, {b}, {b}, b);
      block := b;
      if IsPrevFree(Load(mem, b + 8)) {
        var prev := Load(mem, b);
        PrevOf(State(), nullb, {b}, {b}, b);
        BlockRemove(prev, {b}, {b});
        BlockAbsorb(prev, b);
        ghost var h := RemoveStep(old(State()), nullb, prev);
        MergeStepInv(h, nullb, {b} + {prev}, {b}, prev);
        layout := MergeNext(layout, prev);
        block := prev;
        assert {b} + {prev} - {b} == {prev} && {b} - {b} + {prev} == {prev};
        assert Kept(old(mem), mem, old(layout), NONE) by { KeptTwice(old(mem), h.c.mem, mem, old(layout), NONE); }
      } else {
        assert Kept(old(mem), mem, old(layout), NONE) by { KeptRefl(mem, layout, NONE); }
      }
    }

    /** block_merge_next: takes a free successor off its list and adds its storage to b. What the
        result means for the layout depends on b, so the callers say it. */
    method BlockMergeNext(b: int, ghost out: set<int>, ghost loose: set<int>)
      requires b in layout && layout[b].size != 0 && Inv(State(), nullb, out, loose)
      requires Nxt(layout, b) !in out
      modifies this`mem, this`flBitmap, this`slBitmap, this`heads
      ensures Nxt(layout, b) in layout
      ensures !layout[Nxt(layout, b)].free ==> Ctl() == old(Ctl())
      ensures layout[Nxt(layout, b)].free ==>
        var n := Nxt(layout, b);
        && layout[n].size < BLOCK_SIZE_MAX && Shape(old(Ctl()))
        && var h := RemoveStep(old(State()), nullb, n);
           && Ctl() == h.c.(mem := AbsorbMem(h.c.mem, b, n))
           && Inv(h, nullb, out + {n}, loose) && Kept(old(mem), h.c.mem, layout, NONE)
    {
      hide Inv, Kept, IsFree, Load, BlockSize, AbsorbMem, RemoveStep, NextAddr, KeptRange;
      ReadSize(State(), nullb, out, loose, b);
      NextOf(State(), nullb, out, loose, b);
      var next := NextAddr(mem, b);
      ReadSize(State(), nullb, out, loose, next);
      if IsFree(Load(mem, next + 8)) {
        BlockRemove(next, out, loose);
        BlockAbsorb(b, next);
      }
    }

    /** block_merge_next on a detached free block. */
    method MergeDetached(b: int)
      requires b in layout && layout[b].free && Inv(State(), nullb, {b}, {b})
      modifies this
      ensures pools == old(pools) && Nxt(old(layout), b) in old(layout)
      ensures old(layout)[Nxt(old(layout), b)].free ==> Nxt(old(layout), Nxt(old(layout), b)) in old(layout)
      ensures layout == MergedNext(old(layout), b)
      ensures Inv(State(), nullb, {b}, {b})
      ensures Kept(old(mem), mem, old(layout), NONE)
    {
      hide Inv, Kept, IsFree, Load, BlockSize, AbsorbMem, Removed, NextAddr, KeptRange, MappingInsert;
      SizeOf(State(), nullb, {b}, {b}, b);
      NextOf(State(), nullb, {b}, {b}, b);
      BlockMergeNext(b, {b}, {b});
      ghost var n := Nxt(layout, b);
      if layout[n].free {
        ghost var h := RemoveStep(old(State()), nullb, n);
        MergeStepInv(h, nullb, {b} + {n}, {b}, b);
        layout := MergeNext(layout, b);
        assert {b} + {n} - {n} == {b} && {b} - {n} + {b} == {b};
        assert Kept(old(mem), mem, old(layout), NONE) by { KeptTwice(old(mem), h.c.mem, mem, old(layout), NONE); }
      } else {
        assert Kept(old(mem), mem, old(layout), NONE) by { KeptRefl(mem, layout, NONE); }
      }
    }

    /** block_trim_free: the tail a detached block does not need goes back to the lists. */
    method BlockTrimFree(b: int, size: nat)
      requires b in layout && layout[b].free && Inv(State(), nullb, {b}, {b})
      requires Nxt(layout, b) in layout && !layout[Nxt(layout, b)].free
      requires size % 8 == 0 && BLOCK_SIZE_MIN <= size
      modifies this
      ensures pools == old(pools) && layout == Trimmed(old(layout), b, size)
      ensures old(layout)[b].size >= HEADER_SIZE + size ==> b + OVERHEAD + size !in old(layout)
      ensures Inv(State(), nullb, {b}, {b})
      ensures Kept(old(mem), mem, old(layout), b)
    {
      hide Inv, Kept, Load, BlockSize, SplitMem, SetPrevFree, KeptRange, InsertStep;
      ReadSize(State(), nullb, {b}, {b}, b);
      SizeOf(State(), nullb, {b}, {b}, b);
      NextOf(State(), nullb, {b}, {b}, b);
      NoBlockInside(State(), nullb, {b}, {b}, b, size);
      if BlockSize(Load(mem, b + 8)) >= HEADER_SIZE + size {
        ghost var h := State();
        SplitStepInv(h, nullb, {b}, {b}, b, size);
        var remaining := BlockSplit(b, size);
        mem := mem[remaining := b];
        mem := mem[remaining + 8 := SetPrevFree(Load(mem, remaining + 8))];
        layout := SplitAt(layout, b, size);
        assert State() == SplitStep(h, b, size);
        assert {b} + {b} == {b};
        BlockInsert(remaining, {b} + {remaining}, {b});
        assert {b} + {remaining} - {remaining} == {b};
        SplitUsed(old(layout), b, size);
        assert Kept(old(mem), mem, old(layout), b) by {
          KeptWeaken(SplitStep(h, b, size).c.mem, mem, layout, b);
          KeptThrough(old(mem), SplitStep(h, b, size).c.mem, mem, old(layout), layout, b);
        }
      } else {
        assert Kept(old(mem), mem, old(layout), b) by { KeptRefl(mem, layout, b); }
      }
    }

    /** block_trim_free_leading: the first `gap` bytes of a detached block become a block of their
        own, which goes back to the lists. */
    method BlockTrimFreeLeading(b: int, gap: nat) returns (block: int)
      requires b in layout && layout[b].free && Inv(State(), nullb, {b}, {})
      requires Nxt(layout, b) in layout && !layout[Nxt(layout, b)].free
      requires gap % 8 == 0 && HEADER_SIZE <= gap
      modifies this
      ensures pools == old(pools)
      ensures var split := old(layout)[b].size >= HEADER_SIZE + gap;
        && block == (if split then b + gap else b)
        && (split ==> block !in old(layout))
        && layout == (if split then SplitAt(old(layout), b, gap - OVERHEAD) else old(layout))
      ensures block in layout && layout[block].free && Inv(State(), nullb, {block}, {block})
      ensures Nxt(layout, block) in layout && !layout[Nxt(layout, block)].free
      ensures Kept(old(mem), mem, old(layout), b)
    {
      hide Inv, Kept, Load, BlockSize, SplitMem, SetPrevFree, KeptRange, InsertStep;
      ReadSize(State(), nullb, {b}, {}, b);
      SizeOf(State(), nullb, {b}, {}, b);
      NextOf(State(), nullb, {b}, {}, b);
      block := b;
      if BlockSize(Load(mem, b + 8)) >= HEADER_SIZE + gap {
        ghost var h := State();
        ghost var size := gap - OVERHEAD;
        SplitStepInv(h, nullb, {b}, {}, b, size);
        block := BlockSplit(b, gap - OVERHEAD);
        mem := mem[block + 8 := SetPrevFree(Load(mem, block + 8))];
        mem := mem[block := b];
        layout := SplitAt(layout, b, size);
        assert State() == SplitStep(h, b, size) by { LinkCommutes(old(mem), b, size); }
        assert {} + {block} == {block};
        BlockInsert(b, {b} + {block}, {block});
        assert {b} + {block} - {b} == {block};
        SplitUsed(old(layout), b, size);
        assert Kept(old(mem), mem, old(layout), b) by {
          KeptWeaken(SplitStep(h, b, size).c.mem, mem, layout, b);
          KeptThrough(old(mem), SplitStep(h, b, size).c.mem, mem, old(layout), layout, b);
        }
      } else {
        LooseMore(State(), nullb, {b}, b);
        assert Kept(old(mem), mem, old(layout), b) by { KeptRefl(mem, layout, b); }
      }
    }

    /** block_prepare_used: trims the block and hands out its payload. */
    method BlockPrepareUsed(b: int, size: nat) returns (p: int)
      requires b in layout && layout[b].free && Inv(State(), nullb, {b}, {b}) && nullb > NONE
      requires Nxt(layout, b) in layout && !layout[Nxt(layout, b)].free
      requires size % 8 == 0 && BLOCK_SIZE_MIN <= size
      modifies this
      ensures Valid() && pools == old(pools) && p == b + START_OFFSET
      ensures layout == Carved(old(layout), b, size)
      ensures Kept(old(mem), mem, old(layout), b) && UsedSame(old(layout), layout, b) && Used(layout, b)
      ensures layout[b].size == if old(layout)[b].size >= HEADER_SIZE + size then size else old(layout)[b].size
    {
      hide Inv, Kept, KeptRange, MarkUsedMem, UsedSame, SplitAt;
      SizeOf(State(), nullb, {b}, {b}, b);
      NextOf(State(), nullb, {b}, {b}, b);
      BlockTrimFree(b, size);
      CarvedFacts(old(layout), b, size);
      MarkUsedStepInv(State(), nullb, {b}, {b}, b);
      ghost var h := State();
      BlockMarkAsUsed(b);
      layout := WithFree(layout, b, false);
      assert {b} - {b} == {};
      assert State() == MarkUsedStep(h, b);
      KeptWeaken(h.c.mem, mem, h.l, b);
      KeptThrough(old(mem), h.c.mem, mem, old(layout), h.l, b);
      p := b + START_OFFSET;
    }

    // ---- The interface.

    /** tlsf_malloc. */
    method Malloc(size: U64) returns (p: int)
      requires Valid()
      modifies this
      ensures Valid() && pools == old(pools)
      ensures p == NONE ==> State() == old(State()) && NoRoom(layout, AdjustRequestSize(size, ALIGN_SIZE))
      ensures p != NONE ==> Allocated(old(layout), layout, p - START_OFFSET, AdjustRequestSize(size, ALIGN_SIZE))
      ensures p != NONE ==>
        && layout == Carved(old(layout), p - START_OFFSET, AdjustRequestSize(size, ALIGN_SIZE))
        && Chosen(old(layout), p - START_OFFSET, AdjustRequestSize(size, ALIGN_SIZE))
      ensures Kept(old(mem), mem, old(layout), NONE)
    {
      hide Inv, Kept, KeptRange, Carved, UsedSame, AdjustRequestSize, Bin, SearchBin, SearchRound, NoRoom, Chosen;
      var adjust := AdjustRequestSize(size, ALIGN_SIZE);
      AdjustedSize(size);
      var block := BlockLocateFree(adjust);
      p := NONE;
      if block == NONE {
        KeptRefl(mem, layout, NONE);
      } else {
        ghost var m1 := mem;
        Located(State(), nullb, block);
        p := BlockPrepareUsed(block, adjust);
        assert Kept(old(mem), mem, old(layout), NONE) by {
          KeptFree(m1, mem, old(layout), block);
          KeptTwice(old(mem), m1, mem, old(layout), NONE);
        }
      }
    }

    /** tlsf_memalign. */
    method Memalign(align: U64, size: U64) returns (p: int)
      requires Valid() && IsPow2(align)
      modifies this
      ensures Valid() && pools == old(pools)
      ensures p == NONE ==>
        State() == old(State()) && NoRoom(layout, AlignedSize(AdjustRequestSize(size, ALIGN_SIZE), align))
      ensures p != NONE && align < TWO63 ==>
        && p > 0 && Multiple(p, align)
        && AllocatedAt(old(layout), layout, p - START_OFFSET, AdjustRequestSize(size, ALIGN_SIZE))
      ensures p != NONE ==> exists b: int :: Placed(old(layout), layout, b, align, AdjustRequestSize(size, ALIGN_SIZE), p)
      ensures Kept(old(mem), mem, old(layout), NONE)
    {
      hide Inv, Kept, KeptRange, Carved, UsedSame, AdjustRequestSize, Bin, SearchBin, SearchRound, AlignGap, AlignedSize,
           Multiple, SplitAt, Placed, NoRoom, Chosen;
      var adjust := AdjustRequestSize(size, ALIGN_SIZE);
      AdjustedSize(size);
      var alignedSize := AlignedSize(adjust, align);
      AlignedSizeFacts(adjust, align);
      var block := BlockLocateFree(alignedSize);
      p := NONE;
      if block == NONE {
        KeptRefl(mem, layout, NONE);
      } else {
        ghost var h := State();
        Located(h, nullb, block);
        PayloadBounds(h, nullb, block);
        SizeOf(h, nullb, {block}, {}, block);
        var gap := AlignGap(block + START_OFFSET, align);
        GapFacts(block + START_OFFSET, align, adjust, layout[block].size);
        ghost var first := block;
        if gap != 0 {
          block := BlockTrimFreeLeading(block, gap);
        } else {
          KeptRefl(mem, layout, first);
        }
        ghost var h1 := State();
        LeadingUsed(h.l, h1.l, first, gap, block);
        p := BlockPrepareUsed(block, adjust);
        PlacedBy(h.l, h1.l, layout, first, align, adjust, gap, block, p);
        assert Kept(old(mem), mem, old(layout), NONE) by {
          KeptFree(h.c.mem, h1.c.mem, h.l, first);
          KeptFree(h1.c.mem, mem, h1.l, block);
          KeptThrough(h.c.mem, h1.c.mem, mem, h.l, h1.l, NONE);
          KeptTwice(old(mem), h.c.mem, mem, h.l, NONE);
        }
        assert align < TWO63 ==> AllocatedAt(h.l, layout, block, adjust) by {
          MemalignUsed(h.l, h1.l, layout, block);
        }
      }
    }

    /** tlsf_free. */
    method Free(p: int)
      requires Valid() && (p != NONE ==> Used(layout, p - START_OFFSET))
      modifies this
      ensures Valid() && pools == old(pools)
      ensures p == NONE ==> State() == old(State())
      ensures p != NONE ==> IsFreed(old(layout), layout, p - START_OFFSET)
      ensures Kept(old(mem), mem, old(layout), p - START_OFFSET)
    {
      hide Inv, Kept, KeptRange, MarkFreeMem, Freed, MergeNext, UsedSame;
      if p == NONE {
        KeptRefl(mem, layout, p - START_OFFSET);
      } else {
        var block := p - START_OFFSET;
        ghost var b := block;
        ghost var h0 := State();
        FreeContextHolds(h0, nullb, b);
        FreedIs(h0, nullb, b);
        MarkFreeStepInv(h0, nullb, {}, {}, b);
        BlockMarkAsFree(block);
        layout := WithFree(layout, b, true);
        assert State() == MarkFreeStep(h0, b);
        assert {} + {b} == {b};
        ghost var h1 := State();
        block := BlockMergePrev(block);
        ghost var h2 := State();
        MemberFree(h2, nullb, {block}, {block}, block);
        MergeDetached(block);
        ghost var h3 := State();
        Settle(h3, nullb, {block}, block);
        BlockInsert(block, {block}, {});
        assert {block} - {block} == {};
        assert Kept(old(mem), mem, old(layout), b) by {
          KeptChain(h0, h1, h2, h3, mem, nullb, b, block);
        }
      }
    }

    /** block_trim_used: the tail a used block does not need is merged with a free successor and
        goes back to the lists. */
    method BlockTrimUsed(b: int, size: nat)
      requires Valid() && Used(layout, b) && size % 8 == 0
      requires size >= BLOCK_SIZE_MIN || layout[b].size < HEADER_SIZE + size
      modifies this
      ensures Valid() && pools == old(pools)
      ensures ResizedTo(old(layout), layout, b, if old(layout)[b].size >= HEADER_SIZE + size then size else old(layout)[b].size)
      ensures Kept(old(mem), mem, old(layout), b)
      ensures KeptRange(old(mem), mem, b + START_OFFSET, b + START_OFFSET + layout[b].size)
      ensures old(layout)[b].size < HEADER_SIZE + size ==> State() == old(State())
    {
      hide Inv, Kept, KeptRange, SplitMem, SetPrevUsed, UsedSame, Load, BlockSize, SplitAt, MergedNext;
      ReadSize(State(), nullb, {}, {}, b);
      if BlockSize(Load(mem, b + 8)) >= HEADER_SIZE + size {
        ghost var h0 := State();
        TrimUsedFacts(h0, nullb, b, size);
        SplitStepInv(h0, nullb, {}, {}, b, size);
        var remaining := BlockSplit(b, size);
        mem := mem[remaining + 8 := SetPrevUsed(Load(mem, remaining + 8))];
        layout := SplitAt(layout, b, size);
        assert State() == SplitStep(h0, b, size);
        assert {} + {remaining} == {remaining};
        ghost var h1 := State();
        MergeDetached(remaining);
        ghost var h2 := State();
        Settle(h2, nullb, {remaining}, remaining);
        BlockInsert(remaining, {remaining}, {});
        assert {remaining} - {remaining} == {};
        TrimUsedKept(h0, h1, h2, mem, b, size);
      } else {
        KeptRefl(mem, layout, b);
        RangeRefl(mem, b + START_OFFSET, b + START_OFFSET + layout[b].size);
        SameRefl(layout, b);
      }
    }

    /** block_trim_used on a block of at least a header, told to keep nothing: what tlsf_realloc does with
        a refused request. The words come out as the source writes them: the block is left with size
        0, like the sentinel that ends a pool. */
    method TrimToNothing(b: int)
      requires Valid() && Used(layout, b) && layout[b].size >= HEADER_SIZE
      modifies this`mem, this`flBitmap, this`slBitmap, this`heads
      ensures BlockSize(Load(mem, b + 8)) == 0 && !IsFree(Load(mem, b + 8))
    {
      hide Inv, Load, BlockSize, IsFree, SplitMem, SetPrevUsed, MappingInsert, Removed, Inserted, NextAddr, AbsorbMem,
           RemoveMem, InsertMem, SizeWord, NoLink, HeadNodes, SplitFixMem, Node;
      ghost var h, n := State(), Nxt(layout, b);
      NothingWords(h, nullb, b);
      BoundsThere(h, nullb, b);
      SplitFixIs(mem, b);
      var remaining := BlockSplit(b, 0);
      mem := mem[remaining + 8 := SetPrevUsed(Load(mem, remaining + 8))];
      assert mem == SplitFixMem(h.c.mem, b, 0, false);
      var next := NextAddr(mem, remaining);
      if IsFree(Load(mem, next + 8)) {
        ghost var c1 := Ctl();
        var nextSize := BlockSize(Load(mem, next + 8));
        MappingInRange(nextSize);
        var m := MappingInsert(nextSize);
        RemovedNothing(layout, c1, nullb, n, m.0, m.1, b + 8);
        RemovedNothing(layout, c1, nullb, n, m.0, m.1, b + 16);
        RemovedNothing(layout, c1, nullb, n, m.0, m.1, n + 8);
        RemoveFreeBlock(next, m.0, m.1);
        AbsorbedNothing(mem, b, n, layout[b].size - OVERHEAD, layout[n].size);
        BlockAbsorb(remaining, next);
      }
      var size := BlockSize(Load(mem, remaining + 8));
      MappingInRange(size);
      var m := MappingInsert(size);
      InsertedNothing(layout, Ctl(), nullb, b, m.0, m.1);
      InsertFreeBlock(remaining, m.0, m.1);
      SizeWordParts(0, false, PrevFree(layout, b));
    }

    /** A client stores into its allocation. */
    method Store(b: int, a: int, v: int)
      requires Valid() && Used(layout, b)
      requires b + START_OFFSET <= a < b + START_OFFSET + layout[b].size
      modifies this`mem
      ensures Valid() && mem == old(mem)[a := v]
      ensures Kept(old(mem), mem, layout, b)
    {
      hide Inv, Kept;
      StoreInv(State(), nullb, b, a, v);
      mem := mem[a := v];
    }

    /** memcpy between two live allocations, word by word; its callers copy whole words
        (MoveCopiesBlock). */
    method CopyPayload(dst: int, src: int, words: nat)
      requires Valid() && Used(layout, dst) && Used(layout, src) && dst != src
      requires 8 * words <= layout[dst].size && 8 * words <= layout[src].size
      modifies this`mem
      ensures Valid() && Kept(old(mem), mem, layout, dst)
      ensures Copied(old(mem), mem, src, dst, words)
    {
      hide Inv, Kept, Load;
      KeptRefl(mem, layout, dst);
      var i := 0;
      while i < words
        invariant 0 <= i <= words && Valid()
        invariant Kept(old(mem), mem, layout, dst)
        invariant Copied(old(mem), mem, src, dst, i)
      {
        PayloadsApart(State(), nullb, src, dst, old(mem), i);
        ghost var m1 := mem;
        CopyStep(old(mem), mem, src, dst, i);
        Store(dst, dst + START_OFFSET + 8 * i, Load(mem, src + START_OFFSET + 8 * i));
        KeptTwice(old(mem), m1, mem, layout, dst);
        i := i + 1;
      }
    }

    /** tlsf_realloc, moving: allocate, copy, release. */
    method ReallocMove(p: int, size: U64) returns (r: int)
      requires Valid() && Used(layout, p - START_OFFSET)
      requires AdjustRequestSize(size, ALIGN_SIZE) > layout[p - START_OFFSET].size
      modifies this
      ensures Valid() && pools == old(pools)
      ensures r == NONE ==> State() == old(State()) && NoRoom(layout, AdjustRequestSize(size, ALIGN_SIZE))
      ensures r != NONE ==>
        Moved(old(layout), layout, old(mem), mem, p - START_OFFSET, r - START_OFFSET, size)
      ensures Kept(old(mem), mem, old(layout), p - START_OFFSET)
    {
      hide Inv, Kept, KeptRange, AdjustRequestSize, UsedSame, Freed, FreeReady, Released, Carved, Bin, SearchBin, SearchRound, NoRoom, Chosen;
      ghost var b := p - START_OFFSET;
      var curSize := BlockSize(Load(mem, p - START_OFFSET + 8));
      ReadSize(State(), nullb, {}, {}, b);
      SizeOf(State(), nullb, {}, {}, b);
      NonePayload(State(), nullb);
      r := Malloc(size);
      if r == NONE {
        KeptRefl(mem, layout, b);
      } else {
        ghost var nb := r - START_OFFSET;
        ghost var l1, m1 := layout, mem;
        var minSize := if curSize < size then curSize else size;
        MovedFacts(State(), nullb, old(layout), b, nb, size);
        MoveCopiesBlock(curSize, size);
        CopyPayload(r - START_OFFSET, p - START_OFFSET, minSize / 8);
        ghost var m2 := mem;
        Free(p);
        MovedAll(old(layout), l1, layout, old(mem), m1, m2, mem, b, nb, size);
      }
    }

    /** tlsf_realloc, in place: absorb a free successor if more room is needed, then trim. */
    method ReallocInPlace(b: int, adjust: nat)
      requires Valid() && Used(layout, b) && Nxt(layout, b) in layout && adjust % 8 == 0
      requires adjust >= BLOCK_SIZE_MIN || layout[b].size < HEADER_SIZE + adjust
      requires adjust > layout[b].size ==>
        layout[Nxt(layout, b)].free && adjust <= layout[b].size + layout[Nxt(layout, b)].size + OVERHEAD
      modifies this
      ensures Valid() && pools == old(pools)
      ensures Used(layout, b) && adjust <= layout[b].size == Cut(Grown(old(layout), b, adjust), adjust)
      ensures UsedSame(old(layout), layout, b)
      ensures Kept(old(mem), mem, old(layout), b)
      ensures KeptRange(old(mem), mem, b + START_OFFSET, b + START_OFFSET + Min(old(layout)[b].size, layout[b].size))
      ensures adjust <= old(layout)[b].size < HEADER_SIZE + adjust ==> State() == old(State())
    {
      hide Inv, Kept, KeptRange, UsedSame, AbsorbMem, MarkUsedMem, Removed, MappingInsert, MergeNext;
      ReadSize(State(), nullb, {}, {}, b);
      SizeOf(State(), nullb, {}, {}, b);
      ghost var h0 := State();
      NonePayload(h0, nullb);
      var curSize := BlockSize(Load(mem, b + 8));
      if adjust > curSize {
        NextOf(h0, nullb, {}, {}, b);
        BlockMergeNext(b, {}, {});
        ghost var n := Nxt(layout, b);
        ghost var h1 := RemoveStep(h0, nullb, n);
        assert {} + {n} == {n};
        GrowStepInv(h1, nullb, {n}, {}, b);
        BlockMarkAsUsed(b);
        layout := MergeNext(layout, b);
        assert {n} - {n} == {};
        GrownFacts(h0.l, b);
        KeptTwice(h0.c.mem, h1.c.mem, mem, h0.l, NONE);
      } else {
        KeptRefl(mem, layout, NONE);
        SameRefl(layout, b);
      }
      ghost var h2 := State();
      BlockTrimUsed(b, adjust);
      ghost var h3 := State();
      InPlaceKept(h0, h2, h3, nullb, b);
    }

    /** tlsf_realloc. A request that the size adjustment refuses ends in an in-place trim to nothing: a block
        smaller than a header survives it unchanged, and is returned as if it were large enough; any
        other is left with size 0 in the middle of its pool, where every walk takes it for the end. */
    method Realloc(p: int, size: U64) returns (r: int)
      requires Valid() && (p != NONE ==> Used(layout, p - START_OFFSET))
      modifies this
      ensures var b := p - START_OFFSET;
        if ReallocSafe(old(layout), p, size) then
          Valid() && pools == old(pools) && Reallocated(old(State()), State(), p, size, r) && Kept(old(mem), mem, old(layout), b)
        else r == p && BlockSize(Load(mem, b + 8)) == 0 && !IsFree(Load(mem, b + 8))
      ensures p != NONE && size != 0 && AdjustRequestSize(size, ALIGN_SIZE) == 0 && ReallocSafe(old(layout), p, size)
              ==> r == p && State() == old(State())
    {
      hide Inv, Kept, KeptRange, AdjustRequestSize, UsedSame, IsFreed, Carved, NoRoom, Chosen, Moved, Allocated, Resized, ResizedTo, BlockSize, Load, IsFree, Flags, NextAddr,
           Cut, Grown;
      ghost var b := p - START_OFFSET;
      r := NONE;
      if p != NONE && size == 0 {
        Free(p);
      } else if p == NONE {
        NonePayload(State(), nullb);
        r := Malloc(size);
        KeptWeaken(old(mem), mem, old(layout), b);
      } else {
        ReadSize(State(), nullb, {}, {}, b);
        NextOf(State(), nullb, {}, {}, b);
        var block := p - START_OFFSET;
        var next := NextAddr(mem, block);
        ReadSize(State(), nullb, {}, {}, next);
        var curSize := BlockSize(Load(mem, block + 8));
        var combined := curSize + BlockSize(Load(mem, next + 8)) + OVERHEAD;
        var adjust := AdjustRequestSize(size, ALIGN_SIZE);
        AdjustedSize(size);
        if adjust > curSize && (!IsFree(Load(mem, next + 8)) || adjust > combined) {
          r := ReallocMove(p, size);
          MovedApart(old(layout), layout, old(mem), mem, b, r - START_OFFSET, size, r);
        } else {
          r := p;
          if adjust == 0 && curSize >= HEADER_SIZE {
            TrimToNothing(block);
          } else {
            ReallocInPlace(block, adjust);
            ResizedIs(old(layout), layout, old(mem), mem, b, adjust);
          }
        }
      }
    }

    /** The header of a pool's only block: free, with no free predecessor. */
    method InitFreeHeader(b: int, size: nat)
      modifies this`mem
      ensures mem == old(mem)[b + 8 := SetPrevUsed(SetFree(SetSize(Load(old(mem), b + 8), size)))]
    {
      hide SetSize, SetFree, SetPrevUsed;
      mem := mem[b + 8 := SetSize(Load(mem, b + 8), size)];
      mem := mem[b + 8 := SetFree(Load(mem, b + 8))];
      mem := mem[b + 8 := SetPrevUsed(Load(mem, b + 8))];
    }

    /** The zero-size sentinel behind it. */
    method InitSentinel(b: int, next: int)
      modifies this`mem
      ensures mem == old(mem)[next := b][next + 8 := SetPrevFree(SetUsed(SetSize(Load(old(mem), next + 8), 0)))]
    {
      hide SetSize, SetUsed, SetPrevFree;
      mem := mem[next := b];
      mem := mem[next + 8 := SetSize(Load(mem, next + 8), 0)];
      mem := mem[next + 8 := SetUsed(Load(mem, next + 8))];
      mem := mem[next + 8 := SetPrevFree(Load(mem, next + 8))];
    }

    /** tlsf_add_pool. The memory handed over must be unused and not exactly as large as the
        largest block size, for which no list exists. */
    method AddPool(address: U64, bytes: U64) returns (pool: int)
      requires Valid() && Unclaimed(layout, nullb, address, bytes)
      requires PoolBytes(bytes) != BLOCK_SIZE_MAX
      modifies this
      ensures Valid()
      ensures var usable := address % ALIGN_SIZE == 0 && BLOCK_SIZE_MIN <= PoolBytes(bytes) < BLOCK_SIZE_MAX;
        && pool == (if usable then address else NONE)
        && layout == (if usable then WithPool(old(layout), address - OVERHEAD, PoolBytes(bytes)) else old(layout))
        && pools == (if usable then old(pools)[address - OVERHEAD := address + PoolBytes(bytes)] else old(pools))
      ensures Kept(old(mem), mem, old(layout), NONE)
    {
      hide Inv, Kept, KeptRange, PoolBytes, RoomFor, WithPool;
      var poolBytes := PoolBytes(bytes);
      if address % ALIGN_SIZE != 0 || poolBytes < BLOCK_SIZE_MIN || poolBytes > BLOCK_SIZE_MAX {
        KeptRefl(mem, layout, NONE);
        return NONE;
      }
      RoomFromUnclaimed(State(), nullb, address, bytes);
      AddPoolBlock(address - OVERHEAD, poolBytes);
      pool := address;
    }

    /** The part of tlsf_add_pool behind its argument checks. */
    method AddPoolBlock(block: int, poolBytes: nat)
      requires Valid() && RoomFor(layout, nullb, block, poolBytes) && poolBytes % 8 == 0
      modifies this
      ensures Valid() && layout == WithPool(old(layout), block, poolBytes)
      ensures pools == old(pools)[block := block + OVERHEAD + poolBytes]
      ensures Kept(old(mem), mem, old(layout), NONE)
    {
      hide Inv, Kept, KeptRange, Load, BlockSize, Flags, SetSize, SetFree, SetUsed, SetPrevFree, SetPrevUsed,
           MappingInsert, InsertMem, RoomFor, NextAddr, WithPool, PoolMem;
      ghost var h := State();
      PoolStepInv(h, nullb, block, poolBytes);
      ghost var h1 := PoolStep(h, block, poolBytes);
      assert block in h1.l && h1.l[block].size == poolBytes by { PoolEntry(h.l, block, poolBytes); }
      InsertStepInv(h1, nullb, {block}, {}, block);
      assert {block} - {block} == {};

      InitFreeHeader(block, poolBytes);
      ghost var mA := mem;
      assert BlockSize(Load(mem, block + 8)) == poolBytes by { NewSizeWord(old(mem), mem, block, poolBytes); }
      assert Shape(Ctl()) by { HeadsNonNull(h, nullb); }
      var size := BlockSize(Load(mem, block + 8));
      MappingInRange(size);
      var m := MappingInsert(size);
      ghost var cur := heads[SL_COUNT * m.0 + m.1];
      assert cur == h1.c.heads[Bin(poolBytes)];
      CurApart(h, nullb, Bin(poolBytes), block, poolBytes);
      InsertFreeBlock(block, m.0, m.1);
      NextAfterInsert(mA, nullb, block, cur, poolBytes);
      var next := NextAddr(mem, block);
      InitSentinel(block, next);
      layout := WithPool(layout, block, poolBytes);
      pools := pools[block := block + OVERHEAD + poolBytes];
      rank := rank[block := clock];
      clock := clock + 1;
      assert mem == InsertMem(h1.c.mem, nullb, block, cur) by {
        PoolCommutes(old(mem), nullb, block, cur, poolBytes);
      }
      assert State() == InsertStep(h1, nullb, block);
      KeptAfterPool(h, h1, mem, nullb, block, poolBytes);
    }

    /** tlsf_remove_pool: the pool must be one free block and its sentinel, as the source asserts. */
    method RemovePool(pool: int)
      requires Valid() && WholePool(layout, pools, pool - OVERHEAD)
      modifies this
      ensures Valid() && layout == WithoutPool(old(layout), pool - OVERHEAD)
      ensures pools == old(pools) - {pool - OVERHEAD} && Kept(old(mem), mem, old(layout), NONE)
    {
      hide Inv, Kept, MappingInsert, Removed, Load, BlockSize;
      var block := pool - OVERHEAD;
      ghost var h := State();
      RemoveStepInv(h, nullb, {}, {}, block);
      assert {} + {block} == {block};
      DropStepInv(RemoveStep(h, nullb, block), nullb, block);
      ReadSize(h, nullb, {}, {}, block);
      var size := BlockSize(Load(mem, block + 8));
      MappingInRange(size);
      var m := MappingInsert(size);
      RemoveFreeBlock(block, m.0, m.1);
      layout := WithoutPool(layout, block);
      pools := pools - {block};
      assert State() == DropStep(RemoveStep(h, nullb, block), block);
    }
  }

  /** Memory that neither a pool nor the control structure uses. */
  ghost predicate Unclaimed(l: Layout, nullb: int, address: U64, bytes: U64) {
    && address > OVERHEAD && address + bytes <= TWO64
    && (nullb + HEADER_SIZE <= address || address + bytes <= nullb)
    && (forall b | b in l :: b + START_OFFSET + l[b].size <= address || address + bytes <= b + OVERHEAD)
  }

  // ---- Words that the lists do not touch.

  /** a is not a link word of a free block or of block_null. */
  ghost predicate NoLink(l: Layout, nullb: int, a: int) {
    a != nullb + 16 && a != nullb + 24 && forall x | x in l && l[x].free :: a != x + 16 && a != x + 24
  }

  ghost predicate HeadNodes(heads: seq<int>, l: Layout, nullb: int) {
    |heads| == BINS && forall k | 0 <= k < BINS :: Node(l, nullb, heads[k])
  }

  /** Nothing between two headers is one, nor is a size word. */
  lemma RegionNoLink(h: Heap, nullb: int, b: int, a: int)
    requires Inv(h, nullb, {}, {}) && Used(h.l, b) && b + 8 <= a < Nxt(h.l, b)
    ensures NoLink(h.l, nullb, a)
  {
    hide Inv;
    NullBeyond(h, nullb, b, a);
    forall x | x in h.l && h.l[x].free ensures a != x + 16 && a != x + 24 {
      LinksBeyond(h, nullb, b, a, x);
    }
  }

  lemma NullBeyond(h: Heap, nullb: int, b: int, a: int)
    requires Inv(h, nullb, {}, {}) && Used(h.l, b) && b + 8 <= a < Nxt(h.l, b)
    ensures a != nullb + 16 && a != nullb + 24
  {
    hide Headers, Links, Bitmaps, RanksBelow, Coalesced, Tiled, BlockOk, ChainOk, InPool;
    Local(h.l, h.pools, nullb, b);
  }

  lemma LinksBeyond(h: Heap, nullb: int, b: int, a: int, x: int)
    requires Inv(h, nullb, {}, {}) && Used(h.l, b) && b + 8 <= a < Nxt(h.l, b) && x in h.l && h.l[x].free
    ensures a != x + 16 && a != x + 24
  {
    hide Headers, Links, Bitmaps, RanksBelow, Coalesced, ChainOk, InPool, NoOverlap;
    Local(h.l, h.pools, nullb, b);
    Local(h.l, h.pools, nullb, x);
    Ordered(h.l, x, b);
  }

  lemma SizeNoLink(h: Heap, nullb: int, n: int)
    requires Inv(h, nullb, {}, {}) && n in h.l
    ensures NoLink(h.l, nullb, n + 8)
  {
    hide Headers, Links, Bitmaps, RanksBelow, Coalesced;
    Local(h.l, h.pools, nullb, n);
    forall x | x in h.l && h.l[x].free ensures n + 8 != x + 16 && n + 8 != x + 24 {
      Local(h.l, h.pools, nullb, x);
      if x != n {
        FieldsApart(h.l, x, n);
      }
    }
  }

  lemma HeadsAreNodes(h: Heap, nullb: int)
    requires Inv(h, nullb, {}, {})
    ensures HeadNodes(h.c.heads, h.l, nullb) && Shape(h.c)
  {
    hide Headers, RanksBelow, Coalesced, Tiled, Bin, LinkOk;
    forall k | 0 <= k < BINS ensures Node(h.l, nullb, h.c.heads[k]) {
      assert HeadOk(h.c.mem, h.c.heads, h.l, {}, nullb, k);
    }
  }

  lemma FreeLinks(h: Heap, nullb: int, n: int)
    requires Inv(h, nullb, {}, {}) && n in h.l && h.l[n].free
    ensures Node(h.l, nullb, Load(h.c.mem, n + 16)) && Node(h.l, nullb, Load(h.c.mem, n + 24))
  {
    hide Headers, RanksBelow, Coalesced, Tiled, Bin, LinkOk, Bitmaps;
    assert Listed(h.l, {}, n);
    LinkNodes(h.c.mem, h.c.heads, h.l, h.rank, {}, nullb, n);
  }

  /** The words after the split of a used block at 0. */
  lemma NothingWords(h: Heap, nullb: int, b: int)
    requires Inv(h, nullb, {}, {}) && Used(h.l, b) && h.l[b].size >= HEADER_SIZE
    ensures Nxt(h.l, b) in h.l && OVERHEAD <= BlockSize(Load(h.c.mem, b + 8)) && BlockSize(Load(h.c.mem, b + 8)) == h.l[b].size
    ensures var n := Nxt(h.l, b); var m' := SplitFixMem(h.c.mem, b, 0, false);
      && Load(m', b + 8) == SizeWord(0, false, PrevFree(h.l, b))
      && BlockSize(Load(m', b + 16)) == h.l[b].size - OVERHEAD && NextAddr(m', b + 8) == n
      && IsFree(Load(m', n + 8)) == h.l[n].free && BlockSize(Load(m', n + 8)) == h.l[n].size
      && Load(m', n + 16) == Load(h.c.mem, n + 16) && Load(m', n + 24) == Load(h.c.mem, n + 24)
  {
    hide Links, Bitmaps, RanksBelow, Coalesced, Tiled, Headers, SplitFixMem, SizeWord, BlockSize, IsFree, HeaderOk;
    ReadSize(h, nullb, {}, {}, b);
    NextOf(h, nullb, {}, {}, b);
    NotInside(h, nullb, b);
    SplitWords(h, nullb, b, 0);
    var n := Nxt(h.l, b);
    ReadSize(h, nullb, {}, {}, n);
    SizeWordParts(h.l[n].size, h.l[n].free, true);
    assert (h.l[b].size - OVERHEAD) % 8 == 0;
    SizeWordParts(h.l[b].size - OVERHEAD, true, false);
  }

  lemma NotInside(h: Heap, nullb: int, b: int)
    requires Inv(h, nullb, {}, {}) && Used(h.l, b) && h.l[b].size >= HEADER_SIZE
    ensures b + OVERHEAD !in h.l
  {
    hide Headers, Links, Coalesced, Bitmaps, RanksBelow;
    if b + OVERHEAD in h.l {
      Local(h.l, h.pools, nullb, b + OVERHEAD);
      Local(h.l, h.pools, nullb, b);
    }
  }

  /** The sizes that are mapped to lists are in range. */
  lemma BoundsThere(h: Heap, nullb: int, b: int)
    requires Inv(h, nullb, {}, {}) && Used(h.l, b) && h.l[b].size >= HEADER_SIZE
    ensures Nxt(h.l, b) in h.l && b + HEADER_SIZE < Nxt(h.l, b) && HeadNodes(h.c.heads, h.l, nullb) && Shape(h.c)
    ensures NoLink(h.l, nullb, b + 8) && NoLink(h.l, nullb, b + 16) && NoLink(h.l, nullb, Nxt(h.l, b) + 8)
    ensures h.l[b].size % 8 == 0 && h.l[Nxt(h.l, b)].size % 8 == 0
    ensures h.l[Nxt(h.l, b)].size < BLOCK_SIZE_MAX && h.l[b].size < BLOCK_SIZE_MAX
    ensures h.l[Nxt(h.l, b)].free ==> h.l[b].size + h.l[Nxt(h.l, b)].size < BLOCK_SIZE_MAX
    ensures h.l[Nxt(h.l, b)].free ==>
      Node(h.l, nullb, Load(h.c.mem, Nxt(h.l, b) + 16)) && Node(h.l, nullb, Load(h.c.mem, Nxt(h.l, b) + 24))
  {
    hide Inv, NoLink, HeadNodes, Node, Load, BlockSize, IsFree, IsPrevFree, NextAddr, PrevFree, Shape;
    HeadsAreNodes(h, nullb);
    NextOf(h, nullb, {}, {}, b);
    var n := Nxt(h.l, b);
    RegionNoLink(h, nullb, b, b + 8);
    RegionNoLink(h, nullb, b, b + 16);
    SizeNoLink(h, nullb, n);
    ReadSize(h, nullb, {}, {}, b);
    ReadSize(h, nullb, {}, {}, n);
    SizesThere(h, nullb, b, n);
    if h.l[n].free {
      FreeLinks(h, nullb, n);
    }
  }

  lemma SizesThere(h: Heap, nullb: int, b: int, n: int)
    requires Inv(h, nullb, {}, {}) && Used(h.l, b) && n in h.l && n == Nxt(h.l, b)
    ensures h.l[n].size < BLOCK_SIZE_MAX && h.l[b].size < BLOCK_SIZE_MAX && b < n
    ensures h.l[n].free ==> h.l[b].size + h.l[n].size < BLOCK_SIZE_MAX
  {
    hide Headers, Links, Coalesced, Bitmaps, RanksBelow, Tiled;
    SizeOf(h, nullb, {}, {}, b);
    Local(h.l, h.pools, nullb, n);
    if h.l[n].free {
      NextOf(h, nullb, {}, {}, n);
      PoolHolds(h.l, h.pools, nullb, b, n);
    }
  }

  lemma PoolHolds(l: Layout, pools: map<int, int>, nullb: int, b: int, n: int)
    requires Tiled(l, pools, nullb) && b in l && l[b].size != 0 && n in l && n == Nxt(l, b) && l[n].size != 0
    ensures l[b].size + l[n].size < BLOCK_SIZE_MAX
  {
    hide BlocksOk, Aligned, NoOverlap, NullApart;
    Local(l, pools, nullb, b);
    Local(l, pools, nullb, n);
    Local(l, pools, nullb, Nxt(l, n));
    assert PoolOk(l, l[b].pool, pools[l[b].pool]);
  }

  lemma SplitFixIs(m: Mem, b: int)
    requires OVERHEAD <= BlockSize(Load(m, b + 8))
    ensures var m1 := SplitMem(m, b, 0);
      SplitFixMem(m, b, 0, false) == m1[b + OVERHEAD + 8 := SetPrevUsed(Load(m1, b + OVERHEAD + 8))]
  {
    hide SplitMem, SetPrevUsed, BlockSize, Load;
  }

  /** Taking n off its list writes links only. */
  lemma RemovedNothing(l: Layout, c: Control, nullb: int, n: int, fl: int, sl: int, a: int)
    requires Shape(c) && 0 <= fl < FL_COUNT && 0 <= sl < SL_COUNT && HeadNodes(c.heads, l, nullb)
    requires Node(l, nullb, Load(c.mem, n + 16)) && Node(l, nullb, Load(c.mem, n + 24)) && NoLink(l, nullb, a)
    ensures var c' := Removed(c, n, fl, sl, nullb);
      Shape(c') && HeadNodes(c'.heads, l, nullb) && Load(c'.mem, a) == Load(c.mem, a)
  {
    hide AnyBit;
  }

  lemma AbsorbedNothing(m: Mem, b: int, n: int, sr: nat, sn: nat)
    requires BlockSize(Load(m, b + 16)) == sr && BlockSize(Load(m, n + 8)) == sn && sn % 8 == 0
    ensures var m' := AbsorbMem(m, b + 8, n);
      Load(m', b + 8) == Load(m, b + 8) && BlockSize(Load(m', b + 16)) == sr + sn + OVERHEAD
  {
    SizeMore(Load(m, b + 16), sn + OVERHEAD);
    hide BlockSize;
  }

  lemma SizeMore(w: int, k: nat)
    requires k % 8 == 0
    ensures BlockSize(w + k) == BlockSize(w) + k
  {
    assert (w + k) % 4 == w % 4;
  }

  /** So does putting a block on one. */
  lemma InsertedNothing(l: Layout, c: Control, nullb: int, b: int, fl: int, sl: int)
    requires Shape(c) && 0 <= fl < FL_COUNT && 0 <= sl < SL_COUNT && HeadNodes(c.heads, l, nullb)
    requires NoLink(l, nullb, b + 8)
    ensures Load(Inserted(c, nullb, b + 8, fl, sl).mem, b + 8) == Load(c.mem, b + 8)
  {
  }

  /** The block can serve the size where it stands: it is large enough, or it is with its free successor. */
  ghost predicate InPlace(l: Layout, b: int, adjust: nat)
    requires b in l
  {
    adjust <= l[b].size
    || (Nxt(l, b) in l && l[Nxt(l, b)].free && adjust <= l[b].size + l[Nxt(l, b)].size + OVERHEAD)
  }

  /** What tlsf_realloc promises for a pointer p and a size, with result r. */
  ghost predicate Reallocated(h: Heap, h': Heap, p: int, size: U64, r: int) {
    var b := p - START_OFFSET;
    var adjust := AdjustRequestSize(size, ALIGN_SIZE);
    if p != NONE && size == 0 then r == NONE && IsFreed(h.l, h'.l, b)
    else if p != NONE && b in h.l && InPlace(h.l, b, adjust) then
      r == p && Resized(h.l, h'.l, h.c.mem, h'.c.mem, b, adjust)
    else if r == NONE then h' == h && NoRoom(h.l, adjust)
    else if p == NONE then Given(h.l, h'.l, r - START_OFFSET, adjust)
    else r != p && Moved(h.l, h'.l, h.c.mem, h'.c.mem, b, r - START_OFFSET, size)
  }

  /** What tlsf_malloc does with the block it chose. */
  ghost predicate Given(l: Layout, l': Layout, b: int, adjust: nat) {
    Allocated(l, l', b, adjust) && l' == Carved(l, b, adjust) && Chosen(l, b, adjust)
  }

  function Min(a: nat, b: nat): nat { if a < b then a else b }

  /** The request is not refused, or the block is smaller than a header. */
  ghost predicate ReallocSafe(l: Layout, p: int, size: U64) {
    p != NONE && size != 0 && p - START_OFFSET in l ==>
      AdjustRequestSize(size, ALIGN_SIZE) != 0 || l[p - START_OFFSET].size < HEADER_SIZE
  }

  /** A block of size s is cut to the adjusted size when the rest can be a block. */
  function Cut(s: nat, adjust: nat): nat { if s >= HEADER_SIZE + adjust then adjust else s }

  /** The size of block b before the cut: with its successor if it has to grow. */
  ghost function Grown(l: Layout, b: int, adjust: nat): nat
    requires b in l
  {
    if adjust <= l[b].size || Nxt(l, b) !in l then l[b].size else l[b].size + l[Nxt(l, b)].size + OVERHEAD
  }

  /** Block b stays where it is, cut to the adjusted size, and keeps its contents up to the smaller
      size; the other used blocks are as before. */
  ghost predicate Resized(l: Layout, l': Layout, m: Mem, m': Mem, b: int, adjust: nat) {
    && Used(l, b) && Used(l', b) && adjust <= l'[b].size == Cut(Grown(l, b, adjust), adjust) && UsedSame(l, l', b)
    && KeptRange(m, m', b + START_OFFSET, b + START_OFFSET + Min(l[b].size, l'[b].size))
  }

  ghost predicate Copied(m: Mem, m': Mem, src: int, dst: int, words: nat) {
    forall i :: 0 <= i < words ==> Load(m', dst + START_OFFSET + 8 * i) == Load(m, src + START_OFFSET + 8 * i)
  }

  /** The contents of b, which are the smaller of its old and the requested size, are now in nb; b is released,
      nb is new, every other used block is as before. */
  ghost predicate Moved(l: Layout, l': Layout, m: Mem, m': Mem, b: int, nb: int, size: U64) {
    && nb in l && Nxt(l, nb) in l && Used(l, b) && !Used(l, nb) && nb != b && !Used(l', b) && Used(l', nb)
    && AdjustRequestSize(size, ALIGN_SIZE) != 0
    && AdjustRequestSize(size, ALIGN_SIZE) <= l'[nb].size < AdjustRequestSize(size, ALIGN_SIZE) + HEADER_SIZE
    && l[b].size < size && l[b].size % 8 == 0 && Copied(m, m', b, nb, l[b].size / 8)
    && (forall x | x != b && x != nb :: Used(l, x) <==> Used(l', x))
    && (forall x | x != b && x != nb && Used(l, x) :: l'[x].size == l[x].size)
    && Given(l, Carved(l, nb, AdjustRequestSize(size, ALIGN_SIZE)), nb, AdjustRequestSize(size, ALIGN_SIZE))
    && IsFreed(Carved(l, nb, AdjustRequestSize(size, ALIGN_SIZE)), l', b)
  }

  /** Block b is in use with the given size, the other used blocks are as before. */
  ghost predicate ResizedTo(l: Layout, l': Layout, b: int, size: nat) {
    Used(l', b) && l'[b].size == size && UsedSame(l, l', b)
  }

  /** The neighbours tlsf_free looks at exist. */
  ghost predicate FreeReady(l: Layout, b: int) {
    && b in l && Nxt(l, b) in l && b < Nxt(l, b)
    && (l[Nxt(l, b)].free ==> Nxt(l, Nxt(l, b)) in l && Nxt(l, b) < Nxt(l, Nxt(l, b)))
    && (PrevFree(l, b) ==> Nxt(l, l[b].prev) == b && l[b].prev < b)
  }

  /** Where the free block begins that freeing b leaves, and where it ends. */
  ghost function FreedFrom(l: Layout, b: int): int
    requires b in l
  {
    if PrevFree(l, b) then l[b].prev else b
  }

  ghost function FreedTo(l: Layout, b: int): int
    requires FreeReady(l, b)
  {
    if l[Nxt(l, b)].free then Nxt(l, Nxt(l, b)) else Nxt(l, b)
  }

  /** The layout after freeing b: one free block over b and whichever neighbours were free. */
  ghost function Freed(l: Layout, b: int): Layout
    requires FreeReady(l, b)
  {
    var p := FreedFrom(l, b);
    var e := FreedTo(l, b);
    (l - {b, Nxt(l, b)})[p := Blk(e - p - OVERHEAD, true, l[p].prev, l[p].pool)][e := l[e].(prev := p)]
  }

  ghost predicate IsFreed(l: Layout, l': Layout, b: int) {
    FreeReady(l, b) && l' == Freed(l, b) && Released(l, l', b)
  }

  /** Block b is no longer in use; every other used block is as before. */
  ghost predicate Released(l: Layout, l': Layout, b: int) {
    !Used(l', b) && UsedSame(l, l', b)
  }

  /** No block can serve the adjusted size: it is out of range, or every free block is in a list before
      the one that the search for it starts from. */
  ghost predicate NoRoom(l: Layout, adjust: nat) {
    adjust == 0 || forall x | x in l && l[x].free :: Bin(l[x].size) < SearchBin(adjust)
  }

  /** A free block of the first list, from where the search for the size starts, that has any. */
  ghost predicate Chosen(l: Layout, b: int, size: nat) {
    && b in l && l[b].free && SearchBin(size) <= Bin(l[b].size)
    && forall x | x in l && l[x].free && SearchBin(size) <= Bin(l[x].size) :: Bin(l[b].size) <= Bin(l[x].size)
  }

  /** Block b, free before, is handed out; it holds the adjusted size without a whole spare block,
      and the other used blocks are as before. */
  ghost predicate Allocated(l: Layout, l': Layout, b: int, adjust: nat) {
    && adjust != 0 && b in l && l[b].free && Nxt(l, b) in l
    && Used(l', b) && adjust <= l'[b].size < adjust + HEADER_SIZE
    && UsedSame(l, l', b)
  }

  // ---- Layouts after a call.

  ghost function MergedNext(l: Layout, b: int): Layout
    requires b in l && Nxt(l, b) in l
    requires l[Nxt(l, b)].free ==> Nxt(l, Nxt(l, b)) in l
  {
    if l[Nxt(l, b)].free then MergeNext(l, b) else l
  }

  ghost function Trimmed(l: Layout, b: int, size: nat): Layout
    requires b in l && Nxt(l, b) in l
  {
    if l[b].size >= HEADER_SIZE + size then SplitAt(l, b, size) else l
  }

  ghost function Carved(l: Layout, b: int, size: nat): Layout
    requires b in l && Nxt(l, b) in l
  {
    WithFree(Trimmed(l, b, size), b, false)
  }

  /** The used blocks other than b are the same blocks, of the same sizes. */
  ghost predicate UsedSame(l: Layout, l': Layout, b: int) {
    && (forall x | x != b :: Used(l, x) <==> Used(l', x))
    && (forall x | x != b && Used(l, x) :: l'[x].size == l[x].size)
  }

  lemma ReadSize(h: Heap, nullb: int, out: set<int>, loose: set<int>, b: int)
    requires Inv(h, nullb, out, loose) && b in h.l
    ensures BlockSize(Load(h.c.mem, b + 8)) == h.l[b].size
    ensures IsFree(Load(h.c.mem, b + 8)) == h.l[b].free
    ensures IsPrevFree(Load(h.c.mem, b + 8)) == PrevFree(h.l, b)
    ensures PrevFree(h.l, b) ==> Load(h.c.mem, b) == h.l[b].prev
    ensures NextAddr(h.c.mem, b) == Nxt(h.l, b)
    ensures h.l[b].size % 8 == 0 && b % 8 == 0 && b > NONE
    ensures Shape(h.c)
  {
    hide Tiled, Headers, Links, Coalesced, Flags, AnyBit;
    HeaderRead(h, nullb, b);
  }

  // ---- What the bitmaps say about the lists.

  lemma MaskedBits(w: Bits, s: int)
    ensures forall i :: 0 <= i < 32 ==> MaskFrom(w, s)[i] == (i >= s && w[i])
    ensures !AnyBit(MaskFrom(w, s)) ==> forall i :: s <= i < 32 && 0 <= i ==> !w[i]
  {
    if !AnyBit(MaskFrom(w, s)) {
      forall i | s <= i < 32 && 0 <= i ensures !w[i] {
        assert !MaskFrom(w, s)[i];
      }
    }
  }

  lemma RowEmpty(c: Control, nullb: int, fl: int, sl: int)
    requires Bitmaps(c, nullb) && 0 <= fl < FL_COUNT && 0 <= sl <= SL_COUNT
    requires !AnyBit(MaskFrom(c.sl[fl], sl))
    ensures forall k :: SL_COUNT * fl + sl <= k < SL_COUNT * (fl + 1) ==> c.heads[k] == nullb
  {
    forall k | SL_COUNT * fl + sl <= k < SL_COUNT * (fl + 1) ensures c.heads[k] == nullb {
      var s := k - SL_COUNT * fl;
      assert !MaskFrom(c.sl[fl], sl)[s];
      assert !c.sl[fl][s];
    }
  }

  lemma RowsEmpty(c: Control, nullb: int, fl: int, end: int)
    requires Bitmaps(c, nullb) && 0 <= fl < end <= FL_COUNT
    requires forall f :: fl < f < end ==> !c.fl[f]
    ensures forall k :: SL_COUNT * (fl + 1) <= k < SL_COUNT * end ==> c.heads[k] == nullb
  {
    forall k | SL_COUNT * (fl + 1) <= k < SL_COUNT * end ensures c.heads[k] == nullb {
      var f := k / SL_COUNT;
      var s := k % SL_COUNT;
      assert k == SL_COUNT * f + s;
      assert !c.fl[f];
      assert !c.sl[f][s];
    }
  }

  lemma RowPrefix(c: Control, nullb: int, fl: int, sl0: int, sl: int)
    requires Bitmaps(c, nullb) && 0 <= fl < FL_COUNT && 0 <= sl0 <= sl < SL_COUNT && c.sl[fl][sl]
    requires forall i :: sl0 <= i < sl ==> !c.sl[fl][i]
    ensures forall k :: SL_COUNT * fl + sl0 <= k < SL_COUNT * fl + sl ==> c.heads[k] == nullb
    ensures c.heads[SL_COUNT * fl + sl] != nullb
  {
    forall k | SL_COUNT * fl + sl0 <= k < SL_COUNT * fl + sl ensures c.heads[k] == nullb {
      assert !c.sl[fl][k - SL_COUNT * fl];
    }
  }

  lemma HeadsNonNull(h: Heap, nullb: int)
    requires Inv(h, nullb, {}, {}) && nullb > NONE
    ensures Bitmaps(h.c, nullb) && Shape(h.c)
    ensures forall k :: 0 <= k < BINS ==> h.c.heads[k] != NONE
  {
    hide Tiled, Headers, Coalesced, RanksBelow, AnyBit, LinkOk, Bin;
    NoneFree(h.l, h.pools, nullb);
    forall k | 0 <= k < BINS ensures h.c.heads[k] != NONE {
      assert HeadOk(h.c.mem, h.c.heads, h.l, {}, nullb, k);
    }
  }

  /** Empty lists from the searched one on mean that no free block is that large. */
  lemma NothingFits(h: Heap, nullb: int, size: nat)
    requires Inv(h, nullb, {}, {})
    requires forall k :: 0 <= k < BINS && SearchBin(size) <= k ==> h.c.heads[k] == nullb
    ensures forall x | x in h.l && h.l[x].free :: Bin(h.l[x].size) < SearchBin(size)
  {
    hide Inv, Bin, SearchBin;
    forall x | x in h.l && h.l[x].free ensures Bin(h.l[x].size) < SearchBin(size) {
      HeadNonEmpty(h, nullb, x);
    }
  }

  /** The list of every free block is not empty. */
  lemma {:induction false} HeadNonEmpty(h: Heap, nullb: int, x: int)
    requires Inv(h, nullb, {}, {}) && x in h.l && h.l[x].free
    ensures |h.c.heads| == BINS && 0 <= Bin(h.l[x].size) < BINS && h.c.heads[Bin(h.l[x].size)] != nullb
    decreases h.clock - Rank(h.rank, x)
  {
    hide Tiled, Headers, Coalesced, Bitmaps, Bin, HeadOk;
    assert LinkOk(h.c.mem, h.c.heads, h.l, h.rank, {}, nullb, x);
    var pv := Load(h.c.mem, x + 24);
    assert Rank(h.rank, x) < h.clock;
    if pv == nullb {
      BlocksApart(h.l, h.pools, nullb, x, nullb);
    } else {
      assert LinkOk(h.c.mem, h.c.heads, h.l, h.rank, {}, nullb, pv);
      assert Rank(h.rank, pv) < h.clock;
      assert x != nullb by { BlocksApart(h.l, h.pools, nullb, x, nullb); }
      HeadNonEmpty(h, nullb, pv);
    }
  }

  lemma FoundBlock(h: Heap, nullb: int, size: nat, fl: int, sl: int)
    requires Inv(h, nullb, {}, {}) && Shape(h.c) && Multiple(size, ALIGN_SIZE)
    requires 0 <= fl < FL_COUNT && 0 <= sl < SL_COUNT && SearchBin(size) <= SL_COUNT * fl + sl
    requires h.c.heads[SL_COUNT * fl + sl] != nullb
    ensures var b := h.c.heads[SL_COUNT * fl + sl];
            && Listed(h.l, {}, b) && h.l[b].size >= size && MappingInsert(h.l[b].size) == (fl, sl)
  {
    hide Tiled, Headers, Coalesced, RanksBelow, AnyBit, LinkOk, Bin, SearchBin;
    var k := SL_COUNT * fl + sl;
    var b := h.c.heads[k];
    assert HeadOk(h.c.mem, h.c.heads, h.l, {}, nullb, k);
    GoodFit(size, h.l[b].size);
    BinIndices(h.l[b].size, fl, sl);
  }

  /** With all lists in between empty it is the best there is. */
  lemma FirstFit(h: Heap, nullb: int, size: nat, fl: int, sl: int)
    requires Inv(h, nullb, {}, {}) && Shape(h.c)
    requires 0 <= fl < FL_COUNT && 0 <= sl < SL_COUNT && SearchBin(size) <= SL_COUNT * fl + sl
    requires h.c.heads[SL_COUNT * fl + sl] != nullb
    requires forall k :: SearchBin(size) <= k < SL_COUNT * fl + sl && 0 <= k ==> h.c.heads[k] == nullb
    ensures Chosen(h.l, h.c.heads[SL_COUNT * fl + sl], size)
  {
    hide Tiled, Headers, Coalesced, RanksBelow, AnyBit, LinkOk, Bin, SearchBin;
    var k := SL_COUNT * fl + sl;
    var b := h.c.heads[k];
    assert HeadOk(h.c.mem, h.c.heads, h.l, {}, nullb, k);
    hide Inv;
    forall x | x in h.l && h.l[x].free && SearchBin(size) <= Bin(h.l[x].size) ensures k <= Bin(h.l[x].size) {
      HeadNonEmpty(h, nullb, x);
    }
  }

  lemma BinIndices(size: nat, fl: int, sl: int)
    requires Bin(size) == SL_COUNT * fl + sl && 0 <= fl < FL_COUNT && 0 <= sl < SL_COUNT
    ensures MappingInsert(size) == (fl, sl)
  {
    hide MappingInsert;
    MappingInRange(size);
    BinUnique(MappingInsert(size).0, MappingInsert(size).1, fl, sl);
  }

  lemma KeptRefl(m: Mem, l: Layout, but: int)
    ensures Kept(m, m, l, but)
  {
  }

  lemma PrevOf(h: Heap, nullb: int, out: set<int>, loose: set<int>, b: int)
    requires Inv(h, nullb, out, loose) && b in h.l && PrevFree(h.l, b) && out == {b}
    ensures var p := h.l[b].prev; Listed(h.l, out, p) && p != b && Nxt(h.l, p) == b
    ensures h.l[b].size != 0 ==> Nxt(h.l, b) in h.l
  {
    hide Headers, Links, Coalesced, Bitmaps, RanksBelow;
    Local(h.l, h.pools, nullb, b);
    Local(h.l, h.pools, nullb, h.l[b].prev);
  }

  lemma NextOf(h: Heap, nullb: int, out: set<int>, loose: set<int>, b: int)
    requires Inv(h, nullb, out, loose) && b in h.l && h.l[b].size != 0
    ensures Nxt(h.l, b) in h.l && Nxt(h.l, b) != b && b > NONE && NONE !in h.l
    ensures h.l[Nxt(h.l, b)].prev == b
    ensures h.l[Nxt(h.l, b)].free ==> Nxt(h.l, Nxt(h.l, b)) in h.l
  {
    hide Headers, Links, Coalesced, Bitmaps, RanksBelow, Tiled;
    SuccessorOf(h.l, h.pools, nullb, b);
    if h.l[Nxt(h.l, b)].free {
      MergedSizes(h.l, h.pools, nullb, Nxt(h.l, b));
      SuccessorOf(h.l, h.pools, nullb, Nxt(h.l, b));
    }
    assert b > NONE by { Local(h.l, h.pools, nullb, b); }
    NoneFree(h.l, h.pools, nullb);
  }

  lemma SizeOf(h: Heap, nullb: int, out: set<int>, loose: set<int>, b: int)
    requires Inv(h, nullb, out, loose) && b in h.l && (h.l[b].free || h.l[b].size != 0)
    ensures BLOCK_SIZE_MIN <= h.l[b].size < BLOCK_SIZE_MAX && h.l[b].size % 8 == 0
  {
    hide Headers, Links, Coalesced, Bitmaps, RanksBelow;
    Local(h.l, h.pools, nullb, b);
  }

  lemma NoBlockInside(h: Heap, nullb: int, out: set<int>, loose: set<int>, b: int, size: nat)
    requires Inv(h, nullb, out, loose) && b in h.l
    requires size >= BLOCK_SIZE_MIN
    ensures size < h.l[b].size ==> b + OVERHEAD + size !in h.l
  {
    hide Headers, Links, Coalesced, Bitmaps, RanksBelow;
  }

  lemma LooseMore(h: Heap, nullb: int, out: set<int>, b: int)
    requires Inv(h, nullb, out, {})
    ensures Inv(h, nullb, out, {b})
  {
    hide Headers, Links, Tiled, Bitmaps, RanksBelow;
  }

  lemma SplitUsed(l: Layout, b: int, size: nat)
    requires b in l && size + OVERHEAD <= l[b].size && Nxt(l, b) in l && b + OVERHEAD + size !in l
    requires Nxt(l, b) != b
    ensures UsedSame(l, SplitAt(l, b, size), b)
  {
  }

  lemma KeptThrough(m0: Mem, m1: Mem, m2: Mem, l: Layout, l': Layout, b: int)
    requires Kept(m0, m1, l, b) && Kept(m1, m2, l', b) && UsedSame(l, l', b)
    ensures Kept(m0, m2, l, b)
  {
    forall x | Used(l, x) && x != b
      ensures KeptRange(m0, m2, x + START_OFFSET, x + START_OFFSET + l[x].size)
    {
      assert KeptRange(m0, m1, x + START_OFFSET, x + START_OFFSET + l[x].size);
      assert KeptRange(m1, m2, x + START_OFFSET, x + START_OFFSET + l'[x].size);
    }
  }

  lemma KeptWeaken(m: Mem, m': Mem, l: Layout, b: int)
    requires Kept(m, m', l, NONE) && NONE !in l
    ensures Kept(m, m', l, b)
  {
    hide KeptRange;
  }

  lemma LinkCommutes(m: Mem, b: int, size: nat)
    requires size + OVERHEAD <= BlockSize(Load(m, b + 8))
    ensures var r := b + OVERHEAD + size; var m1 := SplitMem(m, b, size);
            m1[r + 8 := SetPrevFree(Load(m1, r + 8))][r := b] == SplitFixMem(m, b, size, true)
  {
    hide SplitMem, SetPrevFree;
  }

  lemma CarvedFacts(l: Layout, b: int, size: nat)
    requires b in l && l[b].free && Nxt(l, b) in l && Nxt(l, b) != b && NONE < b && NONE !in l
    requires BLOCK_SIZE_MIN <= size && BLOCK_SIZE_MIN <= l[b].size
    requires l[b].size >= HEADER_SIZE + size ==> b + OVERHEAD + size !in l
    ensures var t := Trimmed(l, b, size);
      && UsedSame(l, t, b) && b in t && t[b].free && NONE !in t
      && t[b].size == (if l[b].size >= HEADER_SIZE + size then size else l[b].size)
    ensures var l' := Carved(l, b, size);
      && UsedSame(l, l', b) && Used(l', b)
      && l'[b].size == (if l[b].size >= HEADER_SIZE + size then size else l[b].size)
  {
  }

  lemma AdjustedSize(size: U64)
    ensures var r := AdjustRequestSize(size, ALIGN_SIZE);
            r % 8 == 0 && Multiple(r, ALIGN_SIZE) && (r == 0 || r >= BLOCK_SIZE_MIN)
  {
    hide AdjustRequestSize, Multiple;
    AdjustCovers(size);
    MultipleMod8(AdjustRequestSize(size, ALIGN_SIZE));
  }

  lemma {:induction false} MultipleMod8(x: nat)
    requires Multiple(x, 8)
    ensures x % 8 == 0
  {
    if x > 0 {
      MultipleMod8(x - 8);
    }
  }

  lemma {:induction false} ModMultiple8(x: nat)
    requires x % 8 == 0
    ensures Multiple(x, 8)
  {
    if x > 0 {
      ModMultiple8(x - 8);
    }
  }

  /** A block just taken off its list has used neighbours. */
  lemma Located(h: Heap, nullb: int, b: int)
    requires Inv(h, nullb, {b}, {}) && b in h.l && h.l[b].free
    ensures Nxt(h.l, b) in h.l && !h.l[Nxt(h.l, b)].free && !PrevFree(h.l, b)
    ensures Inv(h, nullb, {b}, {b}) && b > NONE
  {
    hide Headers, Links, Tiled, Bitmaps, RanksBelow;
    LooseMore(h, nullb, {b}, b);
    SizeOf(h, nullb, {b}, {}, b);
    NextOf(h, nullb, {b}, {}, b);
  }

  /** Like Allocated, but the block may start inside a block that was free. */
  ghost predicate AllocatedAt(l: Layout, l': Layout, b: int, adjust: nat) {
    && adjust != 0 && !Used(l, b)
    && Used(l', b) && adjust <= l'[b].size < adjust + HEADER_SIZE
    && UsedSame(l, l', b)
  }

  lemma AlignedSizeFacts(adjust: U64, align: U64)
    requires IsPow2(align) && adjust + HEADER_SIZE <= TWO64
    requires Multiple(adjust, ALIGN_SIZE) && (adjust == 0 || BLOCK_SIZE_MIN <= adjust < BLOCK_SIZE_MAX)
    ensures align > 0 && Multiple(AlignedSize(adjust, align), ALIGN_SIZE)
    ensures AlignedSize(adjust, align) > 0 ==> adjust > 0
  {
    hide AdjustRequestSize, Multiple;
    if adjust != 0 && align > ALIGN_SIZE && AlignedSize(adjust, align) != 0 {
      AlignedSizeCovers(adjust, align);
    }
    assert Multiple(0, ALIGN_SIZE) by { MultipleTimes(0, ALIGN_SIZE); }
  }

  lemma PayloadBounds(h: Heap, nullb: int, b: int)
    requires Inv(h, nullb, {b}, {}) && b in h.l && h.l[b].free
    ensures 0 < b + START_OFFSET && b + START_OFFSET + h.l[b].size <= TWO64
    ensures b + START_OFFSET < TWO64 && Multiple(b + START_OFFSET, ALIGN_SIZE)
  {
    hide Headers, Links, Bitmaps, RanksBelow, Coalesced, Tiled, Multiple, ChainOk, InPool;
    Local(h.l, h.pools, nullb, b);
    SumAligned(b, 0);
    ModMultiple8(b + START_OFFSET);
  }

  lemma GapFacts(p: U64, align: U64, adjust: U64, size: nat)
    requires IsPow2(align) && Multiple(p, ALIGN_SIZE) && BLOCK_SIZE_MIN <= adjust < BLOCK_SIZE_MAX
    requires AlignedSize(adjust, align) > 0 && size >= AlignedSize(adjust, align) && p + size <= TWO64
    ensures var gap := AlignGap(p, align);
      && gap % 8 == 0 && (gap == 0 || gap >= HEADER_SIZE)
      && (align < TWO63 ==>
           && Multiple(p + gap, align) && gap + adjust <= size && (gap != 0 ==> gap + HEADER_SIZE <= size))
  {
    hide AdjustRequestSize, Multiple, AlignGap, AlignedSize;
    AlignmentFacts(align);
    if align <= ALIGN_SIZE {
      assert AlignedSize(adjust, align) == adjust by { SmallAligned(adjust, align); }
      NoGap(p, align);
    } else {
      AlignedSizeCovers(adjust, align);
      if align < TWO63 {
        GapFits(p, align, adjust, size);
      } else {
        GapOfTopAlignment(p, align);
      }
      MultipleMod8(AlignGap(p, align));
    }
  }

  lemma SmallAligned(adjust: U64, align: U64)
    requires 0 < align <= ALIGN_SIZE && adjust + HEADER_SIZE <= TWO64
    ensures AlignedSize(adjust, align) == adjust
  {
  }

  /** Cutting off a leading gap changes no used block. */
  lemma LeadingUsed(l: Layout, l': Layout, first: int, gap: nat, block: int)
    requires first in l && l[first].free && Nxt(l, first) in l && Nxt(l, first) != first && l[first].size >= BLOCK_SIZE_MIN
    requires gap == 0 || gap >= HEADER_SIZE
    requires var split := gap != 0 && l[first].size >= HEADER_SIZE + gap;
      && block == (if split then first + gap else first)
      && (split ==> block !in l)
      && l' == (if split then SplitAt(l, first, gap - OVERHEAD) else l)
    ensures forall c :: UsedSame(l, l', c)
    ensures !Used(l, block)
    ensures block in l' && l'[block].free
    ensures l[first].size >= HEADER_SIZE + gap ==> l'[block].size == l[first].size - gap
    ensures gap == 0 ==> l'[block].size == l[first].size
  {
    if gap != 0 && l[first].size >= HEADER_SIZE + gap {
      SplitUsed(l, first, gap - OVERHEAD);
    }
  }

  /** The block b, less the gap in front of its first aligned address when it is large enough to be split
      there, was carved to the request and given out. */
  ghost predicate Placed(l: Layout, l': Layout, b: int, align: U64, adjust: U64, p: int)
    requires align > 0
  {
    && b in l && l[b].free && Nxt(l, b) in l && 0 <= b + START_OFFSET < TWO64 && 0 < adjust < BLOCK_SIZE_MAX
    && l[b].size >= AlignedSize(adjust, align) > 0 && Chosen(l, b, AlignedSize(adjust, align))
    && var gap := AlignGap(b + START_OFFSET, align);
       if gap == 0 || l[b].size < HEADER_SIZE + gap then p == b + START_OFFSET && l' == Carved(l, b, adjust)
       else
         && gap >= HEADER_SIZE && p == b + gap + START_OFFSET
         && var l1 := SplitAt(l, b, gap - OVERHEAD);
            Nxt(l1, b + gap) in l1 && l' == Carved(l1, b + gap, adjust)
  }

  lemma PlacedBy(l: Layout, l1: Layout, l': Layout, b: int, align: U64, adjust: U64, gap: nat, block: int, p: int)
    requires align > 0 && b in l && l[b].free && Nxt(l, b) in l && 0 <= b + START_OFFSET < TWO64 && 0 < adjust < BLOCK_SIZE_MAX
    requires l[b].size >= AlignedSize(adjust, align) > 0 && gap == AlignGap(b + START_OFFSET, align)
    requires Chosen(l, b, AlignedSize(adjust, align))
    requires gap == 0 || gap >= HEADER_SIZE
    requires var split := gap != 0 && l[b].size >= HEADER_SIZE + gap;
      && block == (if split then b + gap else b)
      && l1 == (if split then SplitAt(l, b, gap - OVERHEAD) else l)
    requires block in l1 && Nxt(l1, block) in l1 && l' == Carved(l1, block, adjust) && p == block + START_OFFSET
    ensures Placed(l, l', b, align, adjust, p)
  {
    hide Carved, SplitAt, AlignGap, AlignedSize, Chosen;
  }

  lemma MemalignUsed(l: Layout, l1: Layout, l2: Layout, block: int)
    requires UsedSame(l, l1, block) && UsedSame(l1, l2, block)
    ensures UsedSame(l, l2, block)
  {
  }

  /** What the invariant says around a used block about to be freed. */
  ghost predicate FreeContext(l: Layout, b: int) {
    && FreeReady(l, b) && NONE !in l && Used(l, b)
    && l[Nxt(l, b)].prev == b
    && (l[Nxt(l, b)].free ==> !l[Nxt(l, Nxt(l, b))].free && l[Nxt(l, Nxt(l, b))].prev == Nxt(l, b))
    && (PrevFree(l, b) ==> !PrevFree(l, l[b].prev))
    && l[FreedFrom(l, b)].prev < FreedFrom(l, b)
  }

  lemma FreeContextHolds(h: Heap, nullb: int, b: int)
    requires Inv(h, nullb, {}, {}) && Used(h.l, b)
    ensures FreeContext(h.l, b)
  {
    hide Headers, Links, Bitmaps, RanksBelow, Tiled;
    Local(h.l, h.pools, nullb, b);
    NextOf(h, nullb, {}, {}, b);
    var n := Nxt(h.l, b);
    Local(h.l, h.pools, nullb, n);
    if h.l[n].free {
      NextOf(h, nullb, {}, {}, n);
    }
    if PrevFree(h.l, b) {
      Local(h.l, h.pools, nullb, h.l[b].prev);
      if h.l[h.l[b].prev].prev != NONE { Local(h.l, h.pools, nullb, h.l[h.l[b].prev].prev); }
    } else if h.l[b].prev != NONE {
      Local(h.l, h.pools, nullb, h.l[b].prev);
    }
  }

  /** The two merges give the one block of Freed, with used neighbours, and touch no used block. */
  ghost predicate FreedAsMerged(l: Layout, b: int) {
    && FreeReady(l, b)
    && var l1 := WithFree(l, b, true); var p := FreedFrom(l, b); var l3 := Freed(l, b);
       && (p != b ==> Nxt(l1, p) in l1 && Nxt(l1, Nxt(l1, p)) in l1)
       && var l2 := (if p == b then l1 else MergeNext(l1, p));
          && p in l2 && Nxt(l2, p) in l2 && (l2[Nxt(l2, p)].free ==> Nxt(l2, Nxt(l2, p)) in l2)
          && MergedNext(l2, p) == l3
          && UsedSame(l, l1, b) && UsedSame(l, l2, b) && Released(l, l3, b)
          && p in l3 && !PrevFree(l3, p) && l3[p].size != 0 && Nxt(l3, p) in l3 && !l3[Nxt(l3, p)].free
          && NONE !in l1 && NONE !in l2 && NONE !in l3
  }

  lemma FreedIs(h: Heap, nullb: int, b: int)
    requires Inv(h, nullb, {}, {}) && Used(h.l, b)
    ensures FreedAsMerged(h.l, b)
  {
    hide Inv, FreedAsMerged;
    FreeContextHolds(h, nullb, b);
    if PrevFree(h.l, b) {
      if h.l[Nxt(h.l, b)].free { FreedBoth(h.l, b); } else { FreedPrev(h.l, b); }
    } else {
      if h.l[Nxt(h.l, b)].free { FreedNext(h.l, b); } else { FreedAlone(h.l, b); }
    }
  }

  lemma FreedAlone(l: Layout, b: int)
    requires FreeContext(l, b) && !PrevFree(l, b) && !l[Nxt(l, b)].free
    ensures FreedAsMerged(l, b)
  {
    assert WithFree(l, b, true) == Freed(l, b);
  }

  lemma FreedNext(l: Layout, b: int)
    requires FreeContext(l, b) && !PrevFree(l, b) && l[Nxt(l, b)].free
    ensures FreedAsMerged(l, b)
  {
    assert MergeNext(WithFree(l, b, true), b) == Freed(l, b);
  }

  lemma FreedPrev(l: Layout, b: int)
    requires FreeContext(l, b) && PrevFree(l, b) && !l[Nxt(l, b)].free
    ensures FreedAsMerged(l, b)
  {
    assert MergeNext(WithFree(l, b, true), l[b].prev) == Freed(l, b);
  }

  lemma FreedBoth(l: Layout, b: int)
    requires FreeContext(l, b) && PrevFree(l, b) && l[Nxt(l, b)].free
    ensures FreedAsMerged(l, b)
  {
    var l2 := MergeNext(WithFree(l, b, true), l[b].prev);
    assert MergeNext(l2, l[b].prev) == Freed(l, b);
  }

  lemma KeptChain(h0: Heap, h1: Heap, h2: Heap, h3: Heap, m: Mem, nullb: int, b: int, block: int)
    requires NONE !in h0.l && NONE !in h1.l && NONE !in h2.l && NONE !in h3.l
    requires UsedSame(h0.l, h1.l, b) && UsedSame(h0.l, h2.l, b) && UsedSame(h0.l, h3.l, b)
    requires Kept(h0.c.mem, h1.c.mem, h0.l, b)
    requires Kept(h1.c.mem, h2.c.mem, h1.l, NONE)
    requires Kept(h2.c.mem, h3.c.mem, h2.l, NONE)
    requires Kept(h3.c.mem, m, h3.l, NONE)
    ensures Kept(h0.c.mem, m, h0.l, b)
  {
    hide Kept, UsedSame;
    KeptWeaken(h1.c.mem, h2.c.mem, h1.l, b);
    KeptWeaken(h2.c.mem, h3.c.mem, h2.l, b);
    KeptWeaken(h3.c.mem, m, h3.l, b);
    KeptThrough(h0.c.mem, h1.c.mem, h2.c.mem, h0.l, h1.l, b);
    KeptThrough(h0.c.mem, h2.c.mem, h3.c.mem, h0.l, h2.l, b);
    KeptThrough(h0.c.mem, h3.c.mem, m, h0.l, h3.l, b);
  }

  lemma MemberFree(h: Heap, nullb: int, out: set<int>, loose: set<int>, b: int)
    requires Inv(h, nullb, out, loose) && b in out
    ensures b in h.l && h.l[b].free
  {
  }

  lemma RangeRefl(m: Mem, lo: int, hi: int)
    ensures KeptRange(m, m, lo, hi)
  {
  }

  lemma SameRefl(l: Layout, b: int)
    ensures UsedSame(l, l, b)
  {
  }

  /** After splitting a used block and merging the remainder forward. */
  lemma TrimUsedFacts(h: Heap, nullb: int, b: int, size: nat)
    requires Inv(h, nullb, {}, {}) && Used(h.l, b) && size % 8 == 0
    requires BLOCK_SIZE_MIN <= size && size + HEADER_SIZE <= h.l[b].size
    ensures Nxt(h.l, b) in h.l && b + OVERHEAD + size !in h.l
    ensures CanSplit(h.l, b, size)
    ensures TrimmedUsed(h.l, b, size)
  {
    hide Headers, Links, Bitmaps, RanksBelow, Tiled;
    NextOf(h, nullb, {}, {}, b);
    NoBlockInside(h, nullb, {}, {}, b, size);
    var n := Nxt(h.l, b);
    Local(h.l, h.pools, nullb, n);
    if h.l[n].free {
      NextOf(h, nullb, {}, {}, n);
      TrimMerging(h.l, b, size);
    } else {
      TrimAlone(h.l, b, size);
    }
  }

  ghost predicate TrimmedUsed(l: Layout, b: int, size: nat)
    requires b in l && Nxt(l, b) in l && size + OVERHEAD <= l[b].size
  {
    var r := b + OVERHEAD + size;
    var l1 := SplitAt(l, b, size);
    && r in l1 && l1[r].free && Nxt(l1, r) in l1 && (l1[Nxt(l1, r)].free ==> Nxt(l1, Nxt(l1, r)) in l1)
    && var l2 := MergedNext(l1, r);
       && r in l2 && !PrevFree(l2, r) && l2[r].size != 0 && Nxt(l2, r) in l2 && !l2[Nxt(l2, r)].free
       && ResizedTo(l, l1, b, size) && ResizedTo(l, l2, b, size)
       && NONE !in l1 && NONE !in l2
  }

  lemma TrimAlone(l: Layout, b: int, size: nat)
    requires Used(l, b) && Nxt(l, b) in l && NONE !in l && NONE < b
    requires BLOCK_SIZE_MIN <= size && size + HEADER_SIZE <= l[b].size && b + OVERHEAD + size !in l
    requires !l[Nxt(l, b)].free
    ensures TrimmedUsed(l, b, size)
  {
  }

  lemma TrimMerging(l: Layout, b: int, size: nat)
    requires Used(l, b) && Nxt(l, b) in l && NONE !in l && NONE < b
    requires BLOCK_SIZE_MIN <= size && size + HEADER_SIZE <= l[b].size && b + OVERHEAD + size !in l
    requires var n := Nxt(l, b); l[n].free && l[n].size >= BLOCK_SIZE_MIN && Nxt(l, n) in l && !l[Nxt(l, n)].free
    ensures TrimmedUsed(l, b, size)
  {
  }

  lemma TrimUsedKept(h0: Heap, h1: Heap, h2: Heap, m: Mem, b: int, size: nat)
    requires Used(h0.l, b) && BLOCK_SIZE_MIN <= size && size + HEADER_SIZE <= h0.l[b].size
    requires Kept(h0.c.mem, h1.c.mem, h0.l, b)
    requires KeptRange(h0.c.mem, h1.c.mem, b + START_OFFSET, b + START_OFFSET + size)
    requires Kept(h1.c.mem, h2.c.mem, h1.l, NONE) && Kept(h2.c.mem, m, h2.l, NONE)
    requires ResizedTo(h0.l, h1.l, b, size) && ResizedTo(h0.l, h2.l, b, size) && b != NONE
    requires NONE !in h1.l && NONE !in h2.l
    ensures Kept(h0.c.mem, m, h0.l, b)
    ensures KeptRange(h0.c.mem, m, b + START_OFFSET, b + START_OFFSET + size)
  {
    hide UsedSame;
    assert KeptRange(h1.c.mem, h2.c.mem, b + START_OFFSET, b + START_OFFSET + size);
    assert KeptRange(h2.c.mem, m, b + START_OFFSET, b + START_OFFSET + size);
    KeptWeaken(h1.c.mem, h2.c.mem, h1.l, b);
    KeptWeaken(h2.c.mem, m, h2.l, b);
    KeptThrough(h0.c.mem, h1.c.mem, h2.c.mem, h0.l, h1.l, b);
    KeptThrough(h0.c.mem, h2.c.mem, m, h0.l, h2.l, b);
  }

  /** No header or link lies in the payload of a used block, so clients may store there. */
  lemma StoreInv(h: Heap, nullb: int, b: int, a: int, v: int)
    requires Inv(h, nullb, {}, {}) && Used(h.l, b)
    requires b + START_OFFSET <= a < b + START_OFFSET + h.l[b].size
    ensures Inv(h.(c := h.c.(mem := h.c.mem[a := v])), nullb, {}, {})
    ensures Kept(h.c.mem, h.c.mem[a := v], h.l, b)
  {
    hide Headers, Links, Bitmaps, RanksBelow, Tiled, Coalesced, Kept;
    var m' := h.c.mem[a := v];
    BitmapsMem(h.c, m', nullb);
    StoreHeaders(h, nullb, b, a, v);
    assert SameExcept(h.c.mem, m', {a});
    assert SameListed(h.c.mem, m', h.l, h.l, {}, {}) by {
      forall x | Listed(h.l, {}, x)
        ensures Load(m', x + 16) == Load(h.c.mem, x + 16) && Load(m', x + 24) == Load(h.c.mem, x + 24)
      {
        LinksOutside(h.l, h.pools, nullb, b, x);
      }
    }
    LinksFrame(h.c.mem, m', h.c.heads, h.l, h.l, h.rank, {}, {}, nullb);
    KeptStep(h.c.mem, m', h.l, h.pools, nullb, b, {a});
  }

  lemma StoreHeaders(h: Heap, nullb: int, b: int, a: int, v: int)
    requires Inv(h, nullb, {}, {}) && Used(h.l, b)
    requires b + START_OFFSET <= a < b + START_OFFSET + h.l[b].size
    ensures Headers(h.c.mem[a := v], h.l)
  {
    hide HeaderOk, Links, Bitmaps, RanksBelow, Tiled, Coalesced;
    var m' := h.c.mem[a := v];
    assert SameExcept(h.c.mem, m', {a});
    NextOf(h, nullb, {}, {}, b);
    forall x | x in h.l ensures HeaderOk(m', h.l, x) {
      if x != b && x != Nxt(h.l, b) {
        InnerWords(h.l, h.pools, nullb, b, {a}, x);
      }
      HeaderSame(h.c.mem, m', h.l, h.l, {a}, x);
    }
  }

  lemma PayloadsApart(h: Heap, nullb: int, src: int, dst: int, m0: Mem, i: nat)
    requires Inv(h, nullb, {}, {}) && Used(h.l, dst) && Used(h.l, src) && dst != src
    requires 8 * i < h.l[dst].size && 8 * i < h.l[src].size
    requires Kept(m0, h.c.mem, h.l, dst)
    ensures Load(h.c.mem, src + START_OFFSET + 8 * i) == Load(m0, src + START_OFFSET + 8 * i)
  {
    hide Inv;
    assert KeptRange(m0, h.c.mem, src + START_OFFSET, src + START_OFFSET + h.l[src].size);
  }

  lemma CopyStep(m0: Mem, m: Mem, src: int, dst: int, i: nat)
    requires Copied(m0, m, src, dst, i)
    requires Load(m, src + START_OFFSET + 8 * i) == Load(m0, src + START_OFFSET + 8 * i)
    ensures Copied(m0, m[dst + START_OFFSET + 8 * i := Load(m, src + START_OFFSET + 8 * i)], src, dst, i + 1)
  {
  }

  /** After the allocation both blocks are in use, apart, and large enough for the copy. */
  lemma MovedFacts(h: Heap, nullb: int, l0: Layout, b: int, nb: int, size: U64)
    requires Inv(h, nullb, {}, {}) && Used(l0, b)
    requires Allocated(l0, h.l, nb, AdjustRequestSize(size, ALIGN_SIZE))
    requires AdjustRequestSize(size, ALIGN_SIZE) > l0[b].size >= BLOCK_SIZE_MIN
    requires l0[b].size % 8 == 0
    ensures nb != b && Used(h.l, b) && Used(h.l, nb) && h.l[b].size == l0[b].size && b != NONE
    ensures l0[b].size <= h.l[b].size && l0[b].size <= h.l[nb].size
  {
    hide AdjustRequestSize;
    assert b != NONE by { hide UsedSame; NextOf(h, nullb, {}, {}, nb); }
  }

  /** A block is moved only for a request that exceeds its size, so that the memcpy is of the whole block:
      a whole number of words. */
  lemma MoveCopiesBlock(curSize: nat, size: U64)
    requires curSize % 8 == 0 && AdjustRequestSize(size, ALIGN_SIZE) > curSize >= BLOCK_SIZE_MIN
    ensures curSize < size
  {
    hide Multiple;
    if size <= curSize {
      RoundUpBelow(size, curSize);
    }
  }

  lemma RoundUpBelow(size: U64, bound: nat)
    requires bound % 8 == 0 && size <= bound < TWO64 - ALIGN_SIZE
    ensures AlignUp(size, ALIGN_SIZE) <= bound
  {
    var r := AlignUp(size, ALIGN_SIZE);
    assert r < size + 8;
    MultipleMod8(r);
    hide Multiple;
  }

  lemma MovedAll(l0: Layout, l1: Layout, l2: Layout, m0: Mem, m1: Mem, m2: Mem, m3: Mem, b: int, nb: int, size: U64)
    requires Used(l0, b) && nb != b && b != NONE && NONE !in l0
    requires Given(l0, l1, nb, AdjustRequestSize(size, ALIGN_SIZE)) && IsFreed(l1, l2, b)
    requires Kept(m0, m1, l0, NONE) && Kept(m1, m2, l1, nb) && Kept(m2, m3, l1, b)
    requires l0[b].size <= l1[nb].size && l0[b].size < size && l0[b].size % 8 == 0
    requires Copied(m1, m2, b, nb, l0[b].size / 8)
    ensures Moved(l0, l2, m0, m3, b, nb, size) && Kept(m0, m3, l0, b)
  {
    hide AdjustRequestSize, Carved, Chosen, Freed, FreeReady;
    MovedCopied(l0, l1, m0, m1, m2, m3, b, nb, l0[b].size / 8);
    MovedKept(l0, l1, m0, m1, m2, m3, b, nb);
  }

  lemma MovedCopied(l0: Layout, l1: Layout, m0: Mem, m1: Mem, m2: Mem, m3: Mem, b: int, nb: int, n: nat)
    requires Used(l0, b) && nb != b && b != NONE && Used(l1, nb)
    requires Kept(m0, m1, l0, NONE) && Kept(m2, m3, l1, b) && Copied(m1, m2, b, nb, n)
    requires 8 * n <= l1[nb].size && 8 * n <= l0[b].size
    ensures Copied(m0, m3, b, nb, n)
  {
    assert KeptRange(m0, m1, b + START_OFFSET, b + START_OFFSET + l0[b].size);
    assert KeptRange(m2, m3, nb + START_OFFSET, nb + START_OFFSET + l1[nb].size);
    forall i | 0 <= i < n
      ensures Load(m3, nb + START_OFFSET + 8 * i) == Load(m0, b + START_OFFSET + 8 * i)
    {
    }
  }

  lemma MovedKept(l0: Layout, l1: Layout, m0: Mem, m1: Mem, m2: Mem, m3: Mem, b: int, nb: int)
    requires UsedSame(l0, l1, nb) && !Used(l0, nb) && NONE !in l0
    requires Kept(m0, m1, l0, NONE) && Kept(m1, m2, l1, nb) && Kept(m2, m3, l1, b)
    ensures Kept(m0, m3, l0, b)
  {
    forall x | Used(l0, x) && x != b
      ensures KeptRange(m0, m3, x + START_OFFSET, x + START_OFFSET + l0[x].size)
    {
      assert KeptRange(m0, m1, x + START_OFFSET, x + START_OFFSET + l0[x].size);
      assert KeptRange(m1, m2, x + START_OFFSET, x + START_OFFSET + l1[x].size);
      assert KeptRange(m2, m3, x + START_OFFSET, x + START_OFFSET + l1[x].size);
    }
  }

  lemma MovedApart(l: Layout, l': Layout, m: Mem, m': Mem, b: int, nb: int, size: U64, r: int)
    requires r != NONE ==> Moved(l, l', m, m', b, nb, size)
    ensures r != NONE ==> nb != b
  {
    hide AdjustRequestSize, Given, IsFreed, Carved;
  }

  lemma NonePayload(h: Heap, nullb: int)
    requires Inv(h, nullb, {}, {})
    ensures NONE !in h.l
  {
    hide Headers, Links, Bitmaps, RanksBelow, Coalesced, Tiled;
    NoneFree(h.l, h.pools, nullb);
  }

  lemma GrownFacts(l: Layout, b: int)
    requires Used(l, b) && Nxt(l, b) in l && l[Nxt(l, b)].free && Nxt(l, Nxt(l, b)) in l
    requires Nxt(l, b) != b && Nxt(l, Nxt(l, b)) != b && Nxt(l, Nxt(l, b)) != Nxt(l, b)
    ensures ResizedTo(l, MergeNext(l, b), b, l[b].size + l[Nxt(l, b)].size + OVERHEAD)
  {
  }

  lemma InPlaceKept(h0: Heap, h2: Heap, h3: Heap, nullb: int, b: int)
    requires Used(h0.l, b) && Used(h2.l, b) && Used(h3.l, b) && h2.l[b].size >= h0.l[b].size && b != NONE && NONE !in h0.l
    requires Kept(h0.c.mem, h2.c.mem, h0.l, NONE) && UsedSame(h0.l, h2.l, b) && UsedSame(h2.l, h3.l, b)
    requires Kept(h2.c.mem, h3.c.mem, h2.l, b)
    requires KeptRange(h2.c.mem, h3.c.mem, b + START_OFFSET, b + START_OFFSET + h3.l[b].size)
    ensures UsedSame(h0.l, h3.l, b) && Kept(h0.c.mem, h3.c.mem, h0.l, b)
    ensures KeptRange(h0.c.mem, h3.c.mem, b + START_OFFSET, b + START_OFFSET + Min(h0.l[b].size, h3.l[b].size))
  {
    KeptWeaken(h0.c.mem, h2.c.mem, h0.l, b);
    KeptThrough(h0.c.mem, h2.c.mem, h3.c.mem, h0.l, h2.l, b);
    assert KeptRange(h0.c.mem, h2.c.mem, b + START_OFFSET, b + START_OFFSET + h0.l[b].size);
  }

  lemma ResizedIs(l: Layout, l': Layout, m: Mem, m': Mem, b: int, adjust: nat)
    requires Used(l, b) && Used(l', b) && adjust <= l'[b].size == Cut(Grown(l, b, adjust), adjust) && UsedSame(l, l', b)
    requires KeptRange(m, m', b + START_OFFSET, b + START_OFFSET + Min(l[b].size, l'[b].size))
    ensures Resized(l, l', m, m', b, adjust)
  {
    hide KeptRange, UsedSame;
  }

  lemma RoomFromUnclaimed(h: Heap, nullb: int, address: U64, bytes: U64)
    requires Inv(h, nullb, {}, {}) && Unclaimed(h.l, nullb, address, bytes)
    requires address % ALIGN_SIZE == 0 && BLOCK_SIZE_MIN <= PoolBytes(bytes) < BLOCK_SIZE_MAX
    ensures RoomFor(h.l, nullb, address - OVERHEAD, PoolBytes(bytes)) && PoolBytes(bytes) % 8 == 0
  {
    hide Headers, Links, Bitmaps, RanksBelow, Coalesced, Tiled;
    MultipleMod8(PoolBytes(bytes));
    PoolBytesFit(bytes);
  }

  /** An accepted size leaves room for the two header words; a size below 16 wraps and is refused. */
  lemma PoolBytesFit(bytes: U64)
    requires PoolBytes(bytes) < BLOCK_SIZE_MAX
    ensures PoolBytes(bytes) + 2 * OVERHEAD <= bytes
  {
  }

  lemma PoolEntry(l: Layout, start: int, bytes: nat)
    ensures var l' := WithPool(l, start, bytes); start in l' && l'[start].size == bytes
  {
  }

  lemma NewSizeWord(m0: Mem, m: Mem, b: int, size: nat)
    requires m == m0[b + 8 := SetPrevUsed(SetFree(SetSize(Load(m0, b + 8), size)))] && size % 8 == 0
    ensures BlockSize(Load(m, b + 8)) == size
  {
    hide Flags;
    StaleSizeWord(Load(m0, b + 8), size);
    SizeWordParts(size, true, false);
  }

  /** The list the new block joins does not lead into the new pool. */
  lemma CurApart(h: Heap, nullb: int, k: int, start: int, bytes: nat)
    requires Inv(h, nullb, {}, {}) && RoomFor(h.l, nullb, start, bytes) && 0 <= k < BINS
    ensures |h.c.heads| == BINS
    ensures var e := start + OVERHEAD + bytes; var cur := h.c.heads[k];
            cur + 24 != start + 8 && cur + 24 != e && cur + 24 != e + 8 && BLOCK_SIZE_MIN <= bytes
    ensures bytes % 8 == 0
  {
    hide Headers, Bitmaps, RanksBelow, Coalesced, Tiled, Bin, LinkOk;
    assert HeadOk(h.c.mem, h.c.heads, h.l, {}, nullb, k);
    var cur := h.c.heads[k];
    if cur != nullb {
      Local(h.l, h.pools, nullb, cur);
    }
  }

  lemma NextAfterInsert(m: Mem, nullb: int, b: int, cur: int, bytes: nat)
    requires cur + 24 != b + 8 && BlockSize(Load(m, b + 8)) == bytes
    ensures NextAddr(InsertMem(m, nullb, b, cur), b) == b + OVERHEAD + bytes
  {
    hide BlockSize;
  }

  /** Inserting the block before or after writing the sentinel gives the same memory. */
  lemma PoolCommutes(m: Mem, nullb: int, b: int, cur: int, bytes: nat)
    requires BLOCK_SIZE_MIN <= bytes && cur + 24 != b + 8
    requires cur + 24 != b + OVERHEAD + bytes && cur + 24 != b + OVERHEAD + bytes + 8
    ensures var e := b + OVERHEAD + bytes;
            var m1 := InsertMem(m[b + 8 := SetPrevUsed(SetFree(SetSize(Load(m, b + 8), bytes)))], nullb, b, cur);
            m1[e := b][e + 8 := SetPrevFree(SetUsed(SetSize(Load(m1, e + 8), 0)))]
            == InsertMem(PoolMem(m, b, bytes), nullb, b, cur)
  {
    hide SetSize, SetFree, SetUsed, SetPrevFree, SetPrevUsed;
  }

  lemma KeptAfterPool(h: Heap, h1: Heap, m: Mem, nullb: int, start: int, bytes: nat)
    requires RoomFor(h.l, nullb, start, bytes) && h1 == PoolStep(h, start, bytes)
    requires Kept(h.c.mem, h1.c.mem, h.l, NONE) && Kept(h1.c.mem, m, h1.l, NONE)
    ensures Kept(h.c.mem, m, h.l, NONE)
  {
    hide PoolMem, KeptRange;
    assert UsedSame(h.l, h1.l, NONE) by { PoolUsed(h.l, nullb, start, bytes); }
    KeptThrough(h.c.mem, h1.c.mem, m, h.l, h1.l, NONE);
  }

  lemma PoolUsed(l: Layout, nullb: int, start: int, bytes: nat)
    requires RoomFor(l, nullb, start, bytes)
    ensures forall c :: UsedSame(l, WithPool(l, start, bytes), c)
  {
  }
}
