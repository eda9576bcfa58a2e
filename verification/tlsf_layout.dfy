/** Physical layout of the pools: blocks with in-place headers in a word-addressed memory. */
module TlsfLayout {
  import opened TlsfIndex

  /** Memory by word address; words never written read as 0. */
  type Mem = map<int, int>

  function Load(m: Mem, a: int): int {
    if a in m then m[a] else 0
  }

  // ---- The size word: bits 0 and 1 hold the free and previous-free flags.

  function SizeWord(size: nat, free: bool, prevFree: bool): int {
    size + (if free then 1 else 0) + (if prevFree then 2 else 0)
  }

  function Flags(w: int): int { w % 4 }
  function BlockSize(w: int): int { w - Flags(w) }
  function IsFree(w: int): bool { Flags(w) == 1 || Flags(w) == 3 }
  function IsPrevFree(w: int): bool { Flags(w) >= 2 }
  function SetSize(w: int, size: nat): int { size + Flags(w) }
  function SetFree(w: int): int { if IsFree(w) then w else w + 1 }
  function SetUsed(w: int): int { if IsFree(w) then w - 1 else w }
  function SetPrevFree(w: int): int { if IsPrevFree(w) then w else w + 2 }
  function SetPrevUsed(w: int): int { if IsPrevFree(w) then w - 2 else w }

  lemma SizeWordParts(size: nat, f: bool, p: bool)
    requires size % 8 == 0
    ensures var w := SizeWord(size, f, p);
            && BlockSize(w) == size && IsFree(w) == f && IsPrevFree(w) == p
            && SetFree(w) == SizeWord(size, true, p) && SetUsed(w) == SizeWord(size, false, p)
            && SetPrevFree(w) == SizeWord(size, f, true) && SetPrevUsed(w) == SizeWord(size, f, false)
    ensures Flags(SizeWord(size, f, p)) == SizeWord(0, f, p)
  {
    hide Flags;
    FlagsOf(size, SizeWord(0, f, p));
  }

  lemma SetSizeWord(size: nat, f: bool, p: bool, n: nat)
    requires size % 8 == 0
    ensures SetSize(SizeWord(size, f, p), n) == SizeWord(n, f, p)
  {
    hide Flags;
    FlagsOf(size, SizeWord(0, f, p));
  }

  lemma FlagsOf(size: nat, e: nat)
    requires size % 8 == 0 && e < 4
    ensures Flags(size + e) == e
  {
    var q := size / 8;
    assert size + e == 4 * (2 * q) + e;
    FlagsQ(2 * q, e);
  }

  lemma FlagsQ(q: nat, e: nat)
    requires e < 4
    ensures Flags(4 * q + e) == e
  {
    var w := 4 * q + e;
    var d := w / 4;
    assert w == 4 * d + w % 4;
    assert d == q;
  }

  /** Writing a size over stale memory keeps two stale flag bits. */
  lemma StaleSizeWord(w: int, size: nat)
    requires size % 8 == 0
    ensures SetPrevFree(SetFree(SetSize(w, size))) == SizeWord(size, true, true)
    ensures SetPrevUsed(SetFree(SetSize(w, size))) == SizeWord(size, true, false)
  {
    assert 0 <= Flags(w) < 4;
    hide Flags;
    FlagsOf(size, Flags(w));
    FlagsOf(size, 1);
    FlagsOf(size, 3);
  }

  // ---- Layout.

  const NONE := 0

  /** A block as the allocator means it: prev is the physical predecessor, pool the start of the
      pool it lies in. */
  datatype Blk = Blk(size: nat, free: bool, prev: int, pool: int)

  type Layout = map<int, Blk>

  function Nxt(l: Layout, b: int): int
    requires b in l
  {
    b + OVERHEAD + l[b].size
  }

  predicate PrevFree(l: Layout, b: int)
    requires b in l
  {
    l[b].prev in l && l[l[b].prev].free
  }

  predicate Used(l: Layout, b: int) {
    b in l && !l[b].free && l[b].size != 0
  }

  ghost predicate BlockOk(b: int, k: Blk) {
    && b > NONE && b + START_OFFSET + k.size <= TWO64
    && (k.size == 0 ==> !k.free)
    && (k.size != 0 ==> BLOCK_SIZE_MIN <= k.size < BLOCK_SIZE_MAX)
  }

  ghost predicate Aligned(l: Layout) {
    forall b | b in l :: b % 8 == 0 && l[b].size % 8 == 0
  }

  ghost predicate BlocksOk(l: Layout) {
    forall b | b in l :: BlockOk(b, l[b])
  }

  ghost predicate NoOverlap(l: Layout) {
    forall b, c | b in l && c in l && b < c :: b + OVERHEAD + l[b].size <= c
  }

  ghost predicate ChainOk(l: Layout, b: int)
    requires b in l
  {
    && (l[b].size != 0 ==> Nxt(l, b) in l && l[Nxt(l, b)].prev == b && l[Nxt(l, b)].pool == l[b].pool)
    && (l[b].prev != NONE ==> l[b].prev in l && l[l[b].prev].size != 0 && Nxt(l, l[b].prev) == b)
  }

  ghost predicate Chained(l: Layout) {
    forall b | b in l :: ChainOk(l, b)
  }

  /** Each pool runs from its first block to its zero-size sentinel. */
  ghost predicate InPool(l: Layout, pools: map<int, int>, b: int)
    requires b in l
  {
    var s := l[b].pool;
    && s in pools && s <= b <= pools[s]
    && (l[b].size == 0 <==> b == pools[s])
    && (l[b].prev == NONE <==> b == s)
  }

  ghost predicate PoolOk(l: Layout, s: int, e: int) {
    && s < e && s in l && e in l && l[s].pool == s && l[e].pool == s
    && e - s - OVERHEAD < BLOCK_SIZE_MAX
  }

  ghost predicate PoolsOk(l: Layout, pools: map<int, int>) {
    && (forall b | b in l :: InPool(l, pools, b))
    && (forall s | s in pools :: PoolOk(l, s, pools[s]))
  }

  /** The control structure's block_null lies outside every pool. */
  ghost predicate NullApart(l: Layout, nullb: int) {
    forall b | b in l :: nullb + HEADER_SIZE <= b + 8 || b + START_OFFSET + l[b].size <= nullb
  }

  ghost predicate Tiled(l: Layout, pools: map<int, int>, nullb: int) {
    BlocksOk(l) && Aligned(l) && NoOverlap(l) && Chained(l) && PoolsOk(l, pools) && NullApart(l, nullb)
  }

  ghost predicate HeaderOk(m: Mem, l: Layout, b: int)
    requires b in l
  {
    && Load(m, b + 8) == SizeWord(l[b].size, l[b].free, PrevFree(l, b))
    && (PrevFree(l, b) ==> Load(m, b) == l[b].prev)
  }

  ghost predicate Headers(m: Mem, l: Layout) {
    forall b | b in l :: HeaderOk(m, l, b)
  }

  /** Two free neighbours are tolerated only while one of them is detached from the free lists. */
  ghost predicate Coalesced(l: Layout, out: set<int>) {
    forall b | b in l && l[b].free && PrevFree(l, b) :: b in out || l[b].prev in out
  }

  ghost predicate SameExcept(m: Mem, m': Mem, w: set<int>) {
    forall a | a !in w :: Load(m', a) == Load(m, a)
  }

  ghost predicate KeptRange(m: Mem, m': Mem, lo: int, hi: int) {
    forall a | lo <= a < hi :: Load(m', a) == Load(m, a)
  }

  /** The payload of every used block but `but` is what it was. */
  ghost predicate Kept(m: Mem, m': Mem, l: Layout, but: int) {
    forall x | Used(l, x) && x != but :: KeptRange(m, m', x + START_OFFSET, x + START_OFFSET + l[x].size)
  }

  // ---- The four changes of layout.

  function WithFree(l: Layout, b: int, f: bool): Layout
    requires b in l
  {
    l[b := l[b].(free := f)]
  }

  /** b keeps `size` bytes, the rest becomes a free block. */
  function SplitAt(l: Layout, b: int, size: nat): Layout
    requires b in l && size + OVERHEAD <= l[b].size && Nxt(l, b) in l
  {
    var r := b + OVERHEAD + size;
    var n := Nxt(l, b);
    l[b := l[b].(size := size)][n := l[n].(prev := r)]
     [r := Blk(l[b].size - size - OVERHEAD, true, b, l[b].pool)]
  }

  /** b swallows its physical successor. */
  function MergeNext(l: Layout, b: int): Layout
    requires b in l && Nxt(l, b) in l && Nxt(l, Nxt(l, b)) in l
  {
    var n := Nxt(l, b);
    var nn := Nxt(l, n);
    (l - {n})[b := l[b].(size := l[b].size + l[n].size + OVERHEAD)][nn := l[nn].(prev := b)]
  }

  function WithPool(l: Layout, start: int, bytes: nat): Layout {
    l[start := Blk(bytes, true, NONE, start)]
     [start + OVERHEAD + bytes := Blk(0, false, start, start)]
  }

  /** Header words of different blocks never coincide. */
  lemma FieldsApart(l: Layout, x: int, y: int)
    requires x in l && y in l && x != y
    requires BlockOk(x, l[x]) && BlockOk(y, l[y]) && NoOverlap(l)
    ensures x + 8 != y + 8
    ensures l[x].size != 0 ==> Nxt(l, x) != y + 8 && x + 16 != y + 8 && x + 24 != y + 8
    ensures l[x].size != 0 && l[y].size != 0 ==>
              && Nxt(l, x) != Nxt(l, y) && Nxt(l, x) != y + 16 && Nxt(l, x) != y + 24
              && x + 16 != y + 16 && x + 16 != y + 24 && x + 24 != y + 24
  {
  }

  // ---- Tiled is kept.

  lemma Local(l: Layout, pools: map<int, int>, nullb: int, b: int)
    requires Tiled(l, pools, nullb) && b in l
    ensures BlockOk(b, l[b]) && b % 8 == 0 && l[b].size % 8 == 0
    ensures ChainOk(l, b) && InPool(l, pools, b)
    ensures nullb + HEADER_SIZE <= b + 8 || b + START_OFFSET + l[b].size <= nullb
  {
    hide BlockOk, ChainOk, InPool;
  }

  lemma WithFreeTiled(l: Layout, pools: map<int, int>, nullb: int, b: int, f: bool)
    requires Tiled(l, pools, nullb) && b in l && l[b].size != 0
    ensures Tiled(WithFree(l, b, f), pools, nullb)
  {
    hide BlockOk, ChainOk, InPool, NoOverlap, Aligned, NullApart;
    var l' := WithFree(l, b, f);
    forall x | x in l'
      ensures BlockOk(x, l'[x]) && ChainOk(l', x) && InPool(l', pools, x)
    {
      WithFreeLocal(l, pools, b, f, x);
    }
    WithFreeGeometry(l, nullb, b, f);
  }

  lemma WithFreeGeometry(l: Layout, nullb: int, b: int, f: bool)
    requires b in l && NoOverlap(l) && Aligned(l) && NullApart(l, nullb)
    ensures var l' := WithFree(l, b, f); NoOverlap(l') && Aligned(l') && NullApart(l', nullb)
  {
  }

  lemma WithFreeLocal(l: Layout, pools: map<int, int>, b: int, f: bool, x: int)
    requires b in l && x in l && l[b].size != 0
    requires BlockOk(x, l[x]) && ChainOk(l, x) && InPool(l, pools, x)
    ensures var l' := WithFree(l, b, f);
            BlockOk(x, l'[x]) && ChainOk(l', x) && InPool(l', pools, x)
  {
  }

  lemma SplitTiled(l: Layout, pools: map<int, int>, nullb: int, b: int, size: nat)
    requires Tiled(l, pools, nullb) && b in l && size % 8 == 0 && BLOCK_SIZE_MIN <= size
    requires size + HEADER_SIZE <= l[b].size
    ensures Nxt(l, b) in l && b + OVERHEAD + size !in l
    ensures Tiled(SplitAt(l, b, size), pools, nullb)
  {
    hide BlockOk, ChainOk, InPool, NoOverlap, Aligned, NullApart;
    Local(l, pools, nullb, b);
    SplitFresh(l, b, size);
    Local(l, pools, nullb, Nxt(l, b));
    var l' := SplitAt(l, b, size);
    var r := b + OVERHEAD + size;
    forall x | x in l'
      ensures BlockOk(x, l'[x]) && ChainOk(l', x) && InPool(l', pools, x)
    {
      if x != r {
        Local(l, pools, nullb, x);
      }
      SplitLocal(l, pools, b, size, x);
    }
    forall s | s in pools ensures PoolOk(l', s, pools[s]) { assert PoolOk(l, s, pools[s]); }
    SplitNoOverlap(l, b, size);
    SplitAligned(l, b, size);
    SplitNullApart(l, nullb, b, size);
  }

  lemma SplitFresh(l: Layout, b: int, size: nat)
    requires NoOverlap(l) && b in l && BlockOk(b, l[b]) && ChainOk(l, b)
    requires BLOCK_SIZE_MIN <= size && size + HEADER_SIZE <= l[b].size
    ensures Nxt(l, b) in l && b + OVERHEAD + size !in l
  {
  }

  lemma SplitLocal(l: Layout, pools: map<int, int>, b: int, size: nat, x: int)
    requires b in l && BlockOk(b, l[b]) && ChainOk(l, b) && InPool(l, pools, b)
    requires BLOCK_SIZE_MIN <= size && size + HEADER_SIZE <= l[b].size
    requires b + OVERHEAD + size !in l && InPool(l, pools, Nxt(l, b))
    requires x in l || x == b + OVERHEAD + size
    requires x in l ==> BlockOk(x, l[x]) && ChainOk(l, x) && InPool(l, pools, x)
    ensures var l' := SplitAt(l, b, size);
            BlockOk(x, l'[x]) && ChainOk(l', x) && InPool(l', pools, x)
  {
  }

  lemma SplitNoOverlap(l: Layout, b: int, size: nat)
    requires NoOverlap(l) && b in l && size + HEADER_SIZE <= l[b].size && Nxt(l, b) in l
    requires b + OVERHEAD + size !in l
    ensures NoOverlap(SplitAt(l, b, size))
  {
  }

  lemma SplitAligned(l: Layout, b: int, size: nat)
    requires Aligned(l) && b in l && size % 8 == 0 && size + HEADER_SIZE <= l[b].size && Nxt(l, b) in l
    ensures Aligned(SplitAt(l, b, size))
  {
    DiffAligned(l[b].size, size, b);
  }

  lemma DiffAligned(x: nat, y: nat, b: int)
    requires x % 8 == 0 && y % 8 == 0 && b % 8 == 0 && y + HEADER_SIZE <= x
    ensures (x - y - OVERHEAD) % 8 == 0 && (b + OVERHEAD + y) % 8 == 0
  {
    assert x - y - OVERHEAD == 8 * (x / 8 - y / 8 - 1);
    assert b + OVERHEAD + y == 8 * (b / 8 + y / 8 + 1);
  }

  lemma SplitNullApart(l: Layout, nullb: int, b: int, size: nat)
    requires NullApart(l, nullb) && b in l && size + HEADER_SIZE <= l[b].size && Nxt(l, b) in l
    ensures NullApart(SplitAt(l, b, size), nullb)
  {
  }

  lemma MergeTiled(l: Layout, pools: map<int, int>, nullb: int, b: int)
    requires Tiled(l, pools, nullb) && b in l && l[b].size != 0
    requires Nxt(l, b) in l && l[Nxt(l, b)].size != 0
    requires l[b].size + l[Nxt(l, b)].size + OVERHEAD < BLOCK_SIZE_MAX
    ensures Nxt(l, Nxt(l, b)) in l && Tiled(MergeNext(l, b), pools, nullb)
  {
    hide BlockOk, ChainOk, InPool, NoOverlap, Aligned, NullApart;
    var n := Nxt(l, b);
    Local(l, pools, nullb, b);
    Local(l, pools, nullb, n);
    assert Nxt(l, n) in l by { MergeNextExists(l, n); }
    var l' := MergeNext(l, b);
    forall x | x in l'
      ensures BlockOk(x, l'[x]) && ChainOk(l', x) && InPool(l', pools, x)
    {
      Local(l, pools, nullb, x);
      MergeLocal(l, pools, b, x);
    }
    MergePools(l, pools, b);
    MergeNoOverlap(l, b);
    MergeAligned(l, b);
    MergeNullApart(l, nullb, b);
  }

  lemma MergeNextExists(l: Layout, n: int)
    requires n in l && ChainOk(l, n) && l[n].size != 0
    ensures Nxt(l, n) in l
  {
  }

  lemma MergeLocal(l: Layout, pools: map<int, int>, b: int, x: int)
    requires b in l && Nxt(l, b) in l && Nxt(l, Nxt(l, b)) in l
    requires BlockOk(b, l[b]) && ChainOk(l, b) && InPool(l, pools, b)
    requires var n := Nxt(l, b); BlockOk(n, l[n]) && ChainOk(l, n) && InPool(l, pools, n)
    requires l[b].size != 0 && l[Nxt(l, b)].size != 0
    requires l[b].size + l[Nxt(l, b)].size + OVERHEAD < BLOCK_SIZE_MAX
    requires x in l && x != Nxt(l, b) && BlockOk(x, l[x]) && ChainOk(l, x) && InPool(l, pools, x)
    ensures var l' := MergeNext(l, b);
            BlockOk(x, l'[x]) && ChainOk(l', x) && InPool(l', pools, x)
  {
  }

  lemma MergePools(l: Layout, pools: map<int, int>, b: int)
    requires PoolsOk(l, pools) && b in l && Nxt(l, b) in l && Nxt(l, Nxt(l, b)) in l
    requires ChainOk(l, b) && BlockOk(b, l[b]) && l[b].size != 0 && l[Nxt(l, b)].size != 0
    ensures var l' := MergeNext(l, b);
            forall s | s in pools :: PoolOk(l', s, pools[s])
  {
    assert InPool(l, pools, Nxt(l, b));
  }

  lemma MergeNoOverlap(l: Layout, b: int)
    requires NoOverlap(l) && b in l && Nxt(l, b) in l && Nxt(l, Nxt(l, b)) in l
    requires l[b].size != 0 && l[Nxt(l, b)].size != 0
    ensures NoOverlap(MergeNext(l, b))
  {
  }

  lemma MergeAligned(l: Layout, b: int)
    requires Aligned(l) && b in l && Nxt(l, b) in l && Nxt(l, Nxt(l, b)) in l
    ensures Aligned(MergeNext(l, b))
  {
    SumAligned(l[b].size, l[Nxt(l, b)].size);
  }

  lemma SumAligned(x: nat, y: nat)
    requires x % 8 == 0 && y % 8 == 0
    ensures (x + y + OVERHEAD) % 8 == 0
  {
    assert x + y + OVERHEAD == 8 * (x / 8 + y / 8 + 1);
  }

  lemma MergeNullApart(l: Layout, nullb: int, b: int)
    requires NullApart(l, nullb) && b in l && Nxt(l, b) in l && Nxt(l, Nxt(l, b)) in l
    ensures NullApart(MergeNext(l, b), nullb)
  {
  }

  lemma AddPoolTiled(l: Layout, pools: map<int, int>, nullb: int, start: int, bytes: nat)
    requires Tiled(l, pools, nullb) && RoomFor(l, nullb, start, bytes)
    ensures Tiled(WithPool(l, start, bytes), pools[start := start + OVERHEAD + bytes], nullb)
  {
    hide BlockOk, ChainOk, InPool;
    var l' := WithPool(l, start, bytes);
    var pools' := pools[start := start + OVERHEAD + bytes];
    forall x | x in l'
      ensures BlockOk(x, l'[x]) && ChainOk(l', x) && InPool(l', pools', x)
    {
      if x in l {
        Local(l, pools, nullb, x);
      }
      PoolLocal(l, pools, start, bytes, x);
    }
    PoolPools(l, pools, start, bytes);
  }

  /** Memory handed over as a pool: unused so far, aligned, and of an acceptable size. */
  ghost predicate RoomFor(l: Layout, nullb: int, start: int, bytes: nat) {
    && start > NONE && start % 8 == 0 && bytes % 8 == 0 && BLOCK_SIZE_MIN <= bytes < BLOCK_SIZE_MAX
    && start + OVERHEAD + bytes + START_OFFSET <= TWO64
    && (nullb + HEADER_SIZE <= start + 8 || start + OVERHEAD + bytes + START_OFFSET <= nullb)
    && (forall b | b in l :: b + OVERHEAD + l[b].size <= start || start + OVERHEAD + bytes + OVERHEAD <= b)
  }

  lemma PoolLocal(l: Layout, pools: map<int, int>, start: int, bytes: nat, x: int)
    requires start > NONE && BLOCK_SIZE_MIN <= bytes < BLOCK_SIZE_MAX
    requires start + OVERHEAD + bytes + START_OFFSET <= TWO64
    requires start !in l && start + OVERHEAD + bytes !in l && start !in pools
    requires x in l || x == start || x == start + OVERHEAD + bytes
    requires x in l ==> BlockOk(x, l[x]) && ChainOk(l, x) && InPool(l, pools, x)
    ensures var l' := WithPool(l, start, bytes);
            && BlockOk(x, l'[x]) && ChainOk(l', x)
            && InPool(l', pools[start := start + OVERHEAD + bytes], x)
  {
  }

  lemma PoolPools(l: Layout, pools: map<int, int>, start: int, bytes: nat)
    requires PoolsOk(l, pools) && start !in l && start + OVERHEAD + bytes !in l && bytes < BLOCK_SIZE_MAX
    ensures var l' := WithPool(l, start, bytes);
            var pools' := pools[start := start + OVERHEAD + bytes];
            forall s | s in pools' :: PoolOk(l', s, pools'[s])
  {
  }

  // ---- Headers are kept.

  /** The words a block's header is read from. */
  ghost predicate HeaderUntouched(l: Layout, x: int, w: set<int>)
    requires x in l
  {
    x + 8 !in w && (PrevFree(l, x) ==> x !in w)
  }

  lemma HeaderSame(m: Mem, m': Mem, l: Layout, l': Layout, w: set<int>, x: int)
    requires x in l && x in l' && HeaderOk(m, l, x) && SameExcept(m, m', w) && HeaderUntouched(l, x, w)
    requires l'[x].size == l[x].size && l'[x].free == l[x].free && PrevFree(l', x) == PrevFree(l, x)
    requires PrevFree(l, x) ==> l'[x].prev == l[x].prev
    ensures HeaderOk(m', l', x)
  {
  }

  /** Words inside block b, its footer and its successor's size word are read by b and its
      successor only. */
  lemma InnerWords(l: Layout, pools: map<int, int>, nullb: int, b: int, w: set<int>, x: int)
    requires Tiled(l, pools, nullb) && b in l && l[b].size != 0 && Nxt(l, b) in l
    requires forall a | a in w :: b + 8 <= a <= Nxt(l, b) + 8
    requires x in l && x != b && x != Nxt(l, b)
    ensures HeaderUntouched(l, x, w)
  {
    hide NoOverlap, Aligned, NullApart, InPool, BlocksOk, PoolsOk, Chained;
    var n := Nxt(l, b);
    Local(l, pools, nullb, b);
    Local(l, pools, nullb, n);
    Local(l, pools, nullb, x);
    Ordered(l, x, b);
    Ordered(l, x, n);
    if PrevFree(l, x) {
      var p := l[x].prev;
      Local(l, pools, nullb, p);
      if p != n { Ordered(l, p, n); }
    }
  }

  lemma Ordered(l: Layout, x: int, b: int)
    requires NoOverlap(l) && x in l && b in l && x != b
    ensures x < b ==> Nxt(l, x) <= b
    ensures b < x ==> Nxt(l, b) <= x
  {
  }

  lemma SetFreeHeaders(m: Mem, m': Mem, l: Layout, pools: map<int, int>, nullb: int, b: int, f: bool)
    requires Tiled(l, pools, nullb) && Headers(m, l) && b in l && l[b].size != 0
    requires Nxt(l, b) in l
    requires SameExcept(m, m', {b + 8, Nxt(l, b), Nxt(l, b) + 8})
    requires Load(m', b + 8) == SizeWord(l[b].size, f, PrevFree(l, b))
    requires var n := Nxt(l, b); Load(m', n + 8) == SizeWord(l[n].size, l[n].free, f)
    requires f ==> Load(m', Nxt(l, b)) == b
    ensures Headers(m', WithFree(l, b, f))
  {
    hide HeaderOk, Tiled, HeaderUntouched, SameExcept;
    var l' := WithFree(l, b, f);
    var n := Nxt(l, b);
    assert ChainOk(l, b) && BlockOk(b, l[b]) && b < n by { Local(l, pools, nullb, b); }
    forall x | x in l' ensures HeaderOk(m', l', x) {
      assert HeaderOk(m, l, x);
      if x == b {
        SelfHeader(m, m', l, pools, nullb, b, f);
      } else if x == n {
        assert HeaderOk(m', l', n) by { NextHeader(m', l, b, f); }
      } else {
        InnerWords(l, pools, nullb, b, {b + 8, n, n + 8}, x);
        assert ChainOk(l, x) by { Local(l, pools, nullb, x); }
        HeaderSame(m, m', l, l', {b + 8, n, n + 8}, x);
      }
    }
  }

  lemma SelfHeader(m: Mem, m': Mem, l: Layout, pools: map<int, int>, nullb: int, b: int, f: bool)
    requires Tiled(l, pools, nullb) && b in l && l[b].size != 0 && HeaderOk(m, l, b)
    requires SameExcept(m, m', {b + 8, Nxt(l, b), Nxt(l, b) + 8})
    requires Load(m', b + 8) == SizeWord(l[b].size, f, PrevFree(l, b))
    ensures HeaderOk(m', WithFree(l, b, f), b)
  {
    hide NoOverlap, Aligned, NullApart, InPool, BlocksOk, PoolsOk, Chained;
    Local(l, pools, nullb, b);
  }

  lemma NextHeader(m': Mem, l: Layout, b: int, f: bool)
    requires b in l && l[b].size != 0 && ChainOk(l, b) && b != Nxt(l, b) && Nxt(l, b) in l
    requires var n := Nxt(l, b); Load(m', n + 8) == SizeWord(l[n].size, l[n].free, f)
    requires f ==> Load(m', Nxt(l, b)) == b
    ensures HeaderOk(m', WithFree(l, b, f), Nxt(l, b))
  {
  }

  lemma SplitHeaders(m: Mem, m': Mem, l: Layout, pools: map<int, int>, nullb: int, b: int, size: nat)
    requires Tiled(l, pools, nullb) && Headers(m, l) && b in l && Nxt(l, b) in l
    requires BLOCK_SIZE_MIN <= size && size + HEADER_SIZE <= l[b].size
    requires var r := b + OVERHEAD + size; var n := Nxt(l, b);
      && r !in l
      && SameExcept(m, m', {b + 8, r, r + 8, n, n + 8})
      && Load(m', b + 8) == SizeWord(size, l[b].free, PrevFree(l, b))
      && Load(m', r + 8) == SizeWord(l[b].size - size - OVERHEAD, true, l[b].free)
      && (l[b].free ==> Load(m', r) == b)
      && Load(m', n + 8) == SizeWord(l[n].size, l[n].free, true)
      && Load(m', n) == r
    ensures Headers(m', SplitAt(l, b, size))
  {
    hide HeaderOk, Tiled, HeaderUntouched, SameExcept;
    var l' := SplitAt(l, b, size);
    var r := b + OVERHEAD + size;
    var n := Nxt(l, b);
    var w := {b + 8, r, r + 8, n, n + 8};
    assert ChainOk(l, b) && BlockOk(b, l[b]) && b < n by { Local(l, pools, nullb, b); }
    forall x | x in l' ensures HeaderOk(m', l', x) {
      if x == b {
        assert HeaderOk(m, l, b);
        assert HeaderOk(m', l', b) by { SplitSelf(m, m', l, pools, nullb, b, size); }
      } else if x == r || x == n {
        assert HeaderOk(m', l', x) by { SplitRest(m', l, b, size, x); }
      } else {
        assert HeaderOk(m, l, x);
        InnerWords(l, pools, nullb, b, w, x);
        assert ChainOk(l, x) by { Local(l, pools, nullb, x); }
        assert PrevFree(l', x) == PrevFree(l, x);
        HeaderSame(m, m', l, l', w, x);
      }
    }
  }

  lemma SplitSelf(m: Mem, m': Mem, l: Layout, pools: map<int, int>, nullb: int, b: int, size: nat)
    requires Tiled(l, pools, nullb) && b in l && HeaderOk(m, l, b) && Nxt(l, b) in l
    requires BLOCK_SIZE_MIN <= size && size + HEADER_SIZE <= l[b].size
    requires var r := b + OVERHEAD + size; var n := Nxt(l, b);
      r !in l && SameExcept(m, m', {b + 8, r, r + 8, n, n + 8})
    requires Load(m', b + 8) == SizeWord(size, l[b].free, PrevFree(l, b))
    ensures HeaderOk(m', SplitAt(l, b, size), b)
  {
    hide NoOverlap, Aligned, NullApart, InPool, BlocksOk, PoolsOk, Chained;
    Local(l, pools, nullb, b);
  }

  lemma SplitRest(m': Mem, l: Layout, b: int, size: nat, x: int)
    requires b in l && Nxt(l, b) in l && b != Nxt(l, b) && ChainOk(l, b)
    requires BLOCK_SIZE_MIN <= size && size + HEADER_SIZE <= l[b].size
    requires var r := b + OVERHEAD + size; var n := Nxt(l, b);
      && r !in l && (x == r || x == n)
      && Load(m', r + 8) == SizeWord(l[b].size - size - OVERHEAD, true, l[b].free)
      && (l[b].free ==> Load(m', r) == b)
      && Load(m', n + 8) == SizeWord(l[n].size, l[n].free, true)
      && Load(m', n) == r
    ensures HeaderOk(m', SplitAt(l, b, size), x)
  {
  }

  lemma MergeHeaders(m: Mem, m': Mem, l: Layout, pools: map<int, int>, nullb: int, b: int, f: bool)
    requires Tiled(l, pools, nullb) && Headers(m, l) && b in l && l[b].size != 0
    requires Nxt(l, b) in l && l[Nxt(l, b)].size != 0 && Nxt(l, Nxt(l, b)) in l
    requires var n := Nxt(l, b); var nn := Nxt(l, n);
      && SameExcept(m, m', {b + 8, nn, nn + 8})
      && Load(m', b + 8) == SizeWord(l[b].size + l[n].size + OVERHEAD, f, PrevFree(l, b))
      && (f ==> Load(m', nn) == b)
      && Load(m', nn + 8) == SizeWord(l[nn].size, l[nn].free, f)
    ensures Headers(m', WithFree(MergeNext(l, b), b, f))
  {
    hide HeaderOk, Tiled, HeaderUntouched, SameExcept;
    var l' := WithFree(MergeNext(l, b), b, f);
    var n := Nxt(l, b);
    var nn := Nxt(l, n);
    assert ChainOk(l, b) && BlockOk(b, l[b]) && b < n by { Local(l, pools, nullb, b); }
    assert ChainOk(l, n) && BlockOk(n, l[n]) && n < nn by { Local(l, pools, nullb, n); }
    forall x | x in l' ensures HeaderOk(m', l', x) {
      assert HeaderOk(m, l, x);
      assert ChainOk(l, x) by { Local(l, pools, nullb, x); }
      if x == b {
        assert HeaderOk(m', l', b) by { MergeSelf(m, m', l, pools, nullb, b, f); }
      } else if x == nn {
        assert HeaderOk(m', l', nn) by { MergeRest(m', l, b, f); }
      } else {
        MergeOther(l, pools, nullb, b, x);
        HeaderSame(m, m', l, l', {b + 8, nn, nn + 8}, x);
      }
    }
  }

  lemma MergeSelf(m: Mem, m': Mem, l: Layout, pools: map<int, int>, nullb: int, b: int, f: bool)
    requires Tiled(l, pools, nullb) && b in l && l[b].size != 0 && HeaderOk(m, l, b)
    requires Nxt(l, b) in l && l[Nxt(l, b)].size != 0 && Nxt(l, Nxt(l, b)) in l
    requires var n := Nxt(l, b); var nn := Nxt(l, n);
      && SameExcept(m, m', {b + 8, nn, nn + 8})
      && Load(m', b + 8) == SizeWord(l[b].size + l[n].size + OVERHEAD, f, PrevFree(l, b))
    ensures HeaderOk(m', WithFree(MergeNext(l, b), b, f), b)
  {
    hide NoOverlap, Aligned, NullApart, InPool, BlocksOk, PoolsOk, Chained;
    Local(l, pools, nullb, b);
    Local(l, pools, nullb, Nxt(l, b));
  }

  lemma MergeRest(m': Mem, l: Layout, b: int, f: bool)
    requires b in l && Nxt(l, b) in l && Nxt(l, Nxt(l, b)) in l
    requires var n := Nxt(l, b); var nn := Nxt(l, n);
      && b < n < nn && l[nn].prev == n
      && (f ==> Load(m', nn) == b)
      && Load(m', nn + 8) == SizeWord(l[nn].size, l[nn].free, f)
    ensures HeaderOk(m', WithFree(MergeNext(l, b), b, f), Nxt(l, Nxt(l, b)))
  {
  }

  lemma MergeOther(l: Layout, pools: map<int, int>, nullb: int, b: int, x: int)
    requires Tiled(l, pools, nullb) && b in l && l[b].size != 0
    requires Nxt(l, b) in l && l[Nxt(l, b)].size != 0 && Nxt(l, Nxt(l, b)) in l
    requires var n := Nxt(l, b); var nn := Nxt(l, n); x in l && x != b && x != n && x != nn
    ensures var nn := Nxt(l, Nxt(l, b)); HeaderUntouched(l, x, {b + 8, nn, nn + 8})
    ensures l[x].prev != b && l[x].prev != Nxt(l, b)
  {
    hide HeaderUntouched, Tiled, ChainOk, BlockOk, InPool;
    var n := Nxt(l, b);
    var nn := Nxt(l, n);
    Local(l, pools, nullb, n);
    Local(l, pools, nullb, b);
    Local(l, pools, nullb, x);
    assert n + 8 <= nn by { NxtAfter(l, n); }
    InnerWords(l, pools, nullb, n, {nn, nn + 8}, x);
    InnerWords(l, pools, nullb, b, {b + 8}, x);
    UnionUntouched(l, x, b + 8, nn, nn + 8);
    NotSuccessor(l, b, x);
    NotSuccessor(l, n, x);
  }

  lemma NxtAfter(l: Layout, n: int)
    requires n in l && BlockOk(n, l[n]) && l[n].size != 0
    ensures n + 8 <= Nxt(l, n)
  {
  }

  lemma NotSuccessor(l: Layout, b: int, x: int)
    requires x in l && b in l && ChainOk(l, x) && BlockOk(b, l[b]) && x != Nxt(l, b)
    ensures l[x].prev != b
  {
  }

  lemma UnionUntouched(l: Layout, x: int, a: int, c: int, d: int)
    requires x in l && HeaderUntouched(l, x, {a}) && HeaderUntouched(l, x, {c, d})
    ensures HeaderUntouched(l, x, {a, c, d})
  {
  }

  lemma AddPoolHeaders(m: Mem, m': Mem, l: Layout, pools: map<int, int>, nullb: int, start: int, bytes: nat)
    requires Tiled(l, pools, nullb) && Headers(m, l) && RoomFor(l, nullb, start, bytes)
    requires var e := start + OVERHEAD + bytes;
      && SameExcept(m, m', {start + 8, e, e + 8})
      && Load(m', start + 8) == SizeWord(bytes, true, false)
      && Load(m', e + 8) == SizeWord(0, false, true)
      && Load(m', e) == start
    ensures Headers(m', WithPool(l, start, bytes))
  {
    hide HeaderOk, Tiled, HeaderUntouched, SameExcept;
    var e := start + OVERHEAD + bytes;
    var l' := WithPool(l, start, bytes);
    var w := {start + 8, e, e + 8};
    assert NONE !in l by { NoneFree(l, pools, nullb); }
    forall x | x in l' ensures HeaderOk(m', l', x) {
      if x in l {
        assert HeaderOk(m, l, x);
        Local(l, pools, nullb, x);
        if l[x].prev != NONE { Local(l, pools, nullb, l[x].prev); }
        assert HeaderUntouched(l, x, w) by { OutsidePool(l, nullb, start, bytes, x); }
        HeaderSame(m, m', l, l', w, x);
      } else {
        assert HeaderOk(m', l', x) by { NewPoolHeader(m', l, start, bytes, x); }
      }
    }
  }

  lemma NoneFree(l: Layout, pools: map<int, int>, nullb: int)
    requires Tiled(l, pools, nullb)
    ensures NONE !in l
  {
    if NONE in l { Local(l, pools, nullb, NONE); }
  }

  lemma NewPoolHeader(m': Mem, l: Layout, start: int, bytes: nat, x: int)
    requires NONE !in l && NONE < start && BLOCK_SIZE_MIN <= bytes
    requires var e := start + OVERHEAD + bytes;
      && (x == start || x == e)
      && Load(m', start + 8) == SizeWord(bytes, true, false)
      && Load(m', e + 8) == SizeWord(0, false, true)
      && Load(m', e) == start
    ensures HeaderOk(m', WithPool(l, start, bytes), x)
  {
  }

  lemma OutsidePool(l: Layout, nullb: int, start: int, bytes: nat, x: int)
    requires RoomFor(l, nullb, start, bytes) && x in l && BlockOk(x, l[x]) && ChainOk(l, x) && NONE !in l
    ensures var e := start + OVERHEAD + bytes; HeaderUntouched(l, x, {start + 8, e, e + 8})
  {
    if PrevFree(l, x) {
      assert l[x].prev in l;
    }
  }

  // ---- A pool that is given back.

  function WithoutPool(l: Layout, start: int): Layout
    requires start in l
  {
    l - {start, Nxt(l, start)}
  }

  /** A pool that is one free block and its sentinel. */
  ghost predicate WholePool(l: Layout, pools: map<int, int>, start: int) {
    start in pools && start in l && l[start].free && l[start].size != 0 && Nxt(l, start) == pools[start]
  }

  lemma OnlyTwo(l: Layout, pools: map<int, int>, nullb: int, start: int, x: int)
    requires Tiled(l, pools, nullb) && WholePool(l, pools, start) && x in l
    ensures l[x].pool == start <==> x == start || x == pools[start]
  {
    hide BlocksOk, Aligned, Chained, NullApart;
    assert InPool(l, pools, x);
    assert PoolOk(l, start, pools[start]);
  }

  lemma DropLocal(l: Layout, pools: map<int, int>, nullb: int, start: int, x: int)
    requires Tiled(l, pools, nullb) && WholePool(l, pools, start) && x in l && x != start && x != pools[start]
    ensures var l' := WithoutPool(l, start); ChainOk(l', x) && InPool(l', pools - {start}, x) && l'[x] == l[x]
    ensures PrevFree(WithoutPool(l, start), x) == PrevFree(l, x)
  {
    hide Tiled;
    NoneFree(l, pools, nullb);
    Local(l, pools, nullb, x);
    OnlyTwo(l, pools, nullb, start, x);
    if l[x].prev != NONE {
      Local(l, pools, nullb, l[x].prev);
      OnlyTwo(l, pools, nullb, start, l[x].prev);
    }
    if l[x].size != 0 {
      OnlyTwo(l, pools, nullb, start, Nxt(l, x));
    }
  }

  lemma DropPools(l: Layout, pools: map<int, int>, nullb: int, start: int, s: int)
    requires Tiled(l, pools, nullb) && WholePool(l, pools, start) && s in pools && s != start
    ensures PoolOk(WithoutPool(l, start), s, pools[s])
  {
    hide BlocksOk, Aligned, Chained, NullApart, NoOverlap;
    assert PoolOk(l, s, pools[s]);
    assert PoolOk(l, start, pools[start]);
  }

  /** The other pools stay tiled. */
  lemma DropPoolTiled(l: Layout, pools: map<int, int>, nullb: int, start: int)
    requires Tiled(l, pools, nullb) && WholePool(l, pools, start)
    ensures Tiled(WithoutPool(l, start), pools - {start}, nullb)
  {
    var l' := WithoutPool(l, start);
    assert BlocksOk(l') && Aligned(l') && NoOverlap(l') && NullApart(l', nullb) by {
      hide Chained, PoolsOk, ChainOk, InPool;
    }
    hide Tiled, BlocksOk, Aligned, NoOverlap, NullApart, ChainOk, InPool, PoolOk, BlockOk;
    forall x | x in l' ensures ChainOk(l', x) && InPool(l', pools - {start}, x) {
      DropLocal(l, pools, nullb, start, x);
    }
    forall s | s in pools - {start} ensures PoolOk(l', s, pools[s]) {
      DropPools(l, pools, nullb, start, s);
    }
    TiledBy(l', pools - {start}, nullb);
  }

  lemma TiledBy(l: Layout, pools: map<int, int>, nullb: int)
    requires BlocksOk(l) && Aligned(l) && NoOverlap(l) && Chained(l) && PoolsOk(l, pools) && NullApart(l, nullb)
    ensures Tiled(l, pools, nullb)
  {
    hide BlocksOk, Aligned, NoOverlap, Chained, PoolsOk, NullApart;
  }

  /** Giving back a pool that was just added leaves the others as they were. */
  lemma DropUndoesAdd(l: Layout, nullb: int, start: int, bytes: nat)
    requires RoomFor(l, nullb, start, bytes)
    ensures WithoutPool(WithPool(l, start, bytes), start) == l
  {
    assert start !in l && start + OVERHEAD + bytes !in l;
  }
}
