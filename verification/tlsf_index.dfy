/** Size classes of the two-level segregated-fit allocator (64-bit build): request rounding and
    the mapping between block sizes and free lists. */
module TlsfIndex {

  const ALIGN_SIZE := 8
  const SL_COUNT := 32
  const FL_COUNT := 25
  const SMALL_BLOCK_SIZE := 256
  const HEADER_SIZE := 32           // sizeof(block_header_t)
  const OVERHEAD := 8               // block_header_overhead
  const START_OFFSET := 16          // block_start_offset
  const BLOCK_SIZE_MIN := 24
  const BLOCK_SIZE_MAX := 0x1_0000_0000
  const TWO64 := 0x1_0000_0000_0000_0000
  const TWO63 := 0x8000_0000_0000_0000

  /** size_t. */
  type U64 = x: nat | x < 0x1_0000_0000_0000_0000

  /** Reduction of a sum or difference of two 64-bit values. */
  function Wrap(x: int): U64
    requires -TWO64 <= x < 2 * TWO64
  {
    if x < 0 then x + TWO64 else if x < TWO64 then x else x - TWO64
  }

  function Pow2(n: nat): (r: nat)
    ensures r > 0
  {
    if n == 0 then 1 else 2 * Pow2(n - 1)
  }

  ghost predicate IsPow2(x: nat) {
    exists k: nat :: x == Pow2(k)
  }

  lemma {:induction false} Pow2Mono(a: nat, b: nat)
    requires a <= b
    ensures Pow2(a) <= Pow2(b)
    decreases b - a
  {
    if a < b {
      Pow2Mono(a + 1, b);
    }
  }

  lemma Pow2Values()
    ensures Pow2(3) == 8 && Pow2(4) == 16 && Pow2(32) == BLOCK_SIZE_MAX
    ensures Pow2(62) == TWO63 / 2 && Pow2(63) == TWO63 && Pow2(64) == TWO64
  {
    Pow2Plus8(0);
    Pow2Plus8(8);
    Pow2Plus8(16);
    Pow2Plus8(24);
    Pow2Plus8(32);
    Pow2Plus8(40);
    Pow2Plus8(48);
    Pow2Plus8(56);
  }

  lemma Pow2Plus8(k: nat)
    ensures Pow2(k + 8) == 256 * Pow2(k)
    ensures Pow2(k + 7) == 128 * Pow2(k) && Pow2(k + 6) == 64 * Pow2(k)
    ensures Pow2(k + 4) == 16 * Pow2(k) && Pow2(k + 3) == 8 * Pow2(k)
  {
    assert Pow2(k + 2) == 4 * Pow2(k);
    assert Pow2(k + 4) == 4 * Pow2(k + 2);
    assert Pow2(k + 6) == 4 * Pow2(k + 4);
  }

  /** Index of the highest set bit, -1 for zero. */
  function Fls(x: nat): (r: int)
    ensures x == 0 <==> r == -1
    ensures r >= -1
  {
    if x == 0 then -1 else 1 + Fls(x / 2)
  }

  /** Right shift of an unsigned word. */
  function Shr(x: nat, n: nat): nat {
    if n == 0 then x else Shr(x / 2, n - 1)
  }

  lemma {:induction false} FlsBelow(x: nat, k: nat)
    ensures Fls(x) < k <==> x < Pow2(k)
  {
    if x > 0 && k > 0 {
      FlsBelow(x / 2, k - 1);
    }
  }

  lemma {:induction false} FlsMono(x: nat, y: nat)
    requires x <= y
    ensures Fls(x) <= Fls(y)
  {
    if x > 0 {
      FlsMono(x / 2, y / 2);
    }
  }

  lemma {:induction false} ShrMono(x: nat, y: nat, n: nat)
    requires x <= y
    ensures Shr(x, n) <= Shr(y, n)
  {
    if n > 0 {
      ShrMono(x / 2, y / 2, n - 1);
    }
  }

  /** Adding 2^n - 1 before shifting rounds up. */
  lemma {:induction false} ShrRoundUp(s: nat, size: nat, n: nat)
    requires s < size
    ensures Shr(s, n) < Shr(size + (Pow2(n) - 1), n)
  {
    if n > 0 {
      ShrRoundUp(s / 2, (size + 1) / 2, n - 1);
      assert (size + (Pow2(n) - 1)) / 2 == (size + 1) / 2 + (Pow2(n - 1) - 1);
    }
  }

  /** Shifting down to six significant bits leaves the top one set. */
  lemma {:induction false} ShrSixBits(x: nat)
    requires Fls(x) >= 5
    ensures 32 <= Shr(x, Fls(x) - 5) < 64
  {
    if Fls(x) == 5 {
      FlsBelow(x, 5);
      FlsBelow(x, 6);
    } else {
      ShrSixBits(x / 2);
    }
  }

  /** Rounding up to a power of two in 64-bit arithmetic; the addition wraps. */
  function AlignUp(x: U64, align: U64): (r: U64)
    requires align > 0
    ensures Multiple(r, align)
    ensures x + align <= TWO64 ==> x <= r < x + align
  {
    RoundDown(Wrap(x + (align - 1)), align)
  }

  predicate Multiple(x: nat, a: nat)
    requires a > 0
  {
    x == 0 || (x >= a && Multiple(x - a, a))
  }

  /** The largest multiple not above x, which is x & ~(align - 1) when align is a power of two. */
  function RoundDown(x: nat, align: nat): (r: nat)
    requires align > 0
    ensures Multiple(r, align) && r <= x < r + align
  {
    if x < align then 0 else align + RoundDown(x - align, align)
  }

  lemma {:induction false} MultipleUnique(x: nat, y: nat, a: nat)
    requires a > 0 && Multiple(x, a) && Multiple(y, a) && x < y + a && y < x + a
    ensures x == y
  {
    if x > 0 && y > 0 {
      MultipleUnique(x - a, y - a, a);
    }
  }

  lemma {:induction false} MultipleTimes(q: nat, a: nat)
    requires a > 0
    ensures Multiple(q * a, a)
  {
    if q > 0 {
      MultipleTimes(q - 1, a);
      assert q * a == (q - 1) * a + a;
    }
  }

  lemma {:induction false} MultipleTrans(x: nat, a: nat, b: nat)
    requires b > 0 && a > 0 && Multiple(a, b) && Multiple(x, a)
    ensures Multiple(x, b)
  {
    if x > 0 {
      MultipleTrans(x - a, a, b);
      MultipleSum(x - a, a, b);
    }
  }

  lemma {:induction false} MultipleSum(x: nat, y: nat, a: nat)
    requires a > 0 && Multiple(x, a) && Multiple(y, a)
    ensures Multiple(x + y, a)
  {
    if x > 0 {
      MultipleSum(x - a, y, a);
    }
  }

  lemma {:induction false} MultipleDiff(x: nat, y: nat, a: nat)
    requires a > 0 && Multiple(x, a) && Multiple(y, a) && y <= x
    ensures Multiple(x - y, a)
  {
    if y > 0 {
      MultipleDiff(x - a, y - a, a);
    }
  }

  function AdjustRequestSize(size: U64, align: U64): (r: U64)
    requires align > 0
    ensures size == 0 ==> r == 0
    ensures r == 0 || BLOCK_SIZE_MIN <= r < BLOCK_SIZE_MAX
  {
    if size == 0 then 0
    else
      var aligned := AlignUp(size, align);
      if aligned < BLOCK_SIZE_MAX then
        if aligned < BLOCK_SIZE_MIN then BLOCK_SIZE_MIN else aligned
      else 0
  }

  /** A request is either refused or rounded to a multiple of 8 that covers it, unless the 64-bit
      rounding wraps, which happens for the seven largest sizes only: they come out as the
      minimum block. */
  lemma AdjustCovers(size: U64)
    ensures Multiple(AdjustRequestSize(size, ALIGN_SIZE), ALIGN_SIZE)
    ensures AdjustRequestSize(size, ALIGN_SIZE) == 0 || AdjustRequestSize(size, ALIGN_SIZE) >= size
            <==> size <= TWO64 - ALIGN_SIZE
  {
    if size > TWO64 - ALIGN_SIZE {
      MultipleUnique(AlignUp(size, ALIGN_SIZE), 0, ALIGN_SIZE);
    }
    assert Multiple(24, 8) && Multiple(16, 8);
  }

  lemma AdjustWrapped(size: U64)
    requires size > TWO64 - ALIGN_SIZE
    ensures AdjustRequestSize(size, ALIGN_SIZE) == BLOCK_SIZE_MIN
  {
    MultipleUnique(AlignUp(size, ALIGN_SIZE), 0, ALIGN_SIZE);
  }

  /** The bytes of a pool left for its blocks: the size less two header words, rounded down. */
  function PoolBytes(bytes: U64): U64 {
    RoundDown(Wrap(bytes - 2 * OVERHEAD), ALIGN_SIZE)
  }

  /** Flipping bit 5 of a word. */
  function Xor32(x: nat): int {
    if (x / 32) % 2 == 1 then x - 32 else x + 32
  }

  /** mapping_insert: the first- and second-level index of a block size. */
  function MappingInsert(size: nat): (int, int) {
    if size < SMALL_BLOCK_SIZE then
      (0, size / (SMALL_BLOCK_SIZE / SL_COUNT))
    else
      FlsLarge(size);
      (Fls(size) - 7, Xor32(Shr(size, Fls(size) - 5)))
  }

  /** The amount mapping_search adds before mapping. */
  function SearchRound(size: nat): nat {
    if size >= SMALL_BLOCK_SIZE then
      FlsLarge(size);
      Pow2(Fls(size) - 5) - 1
    else 0
  }

  function MappingSearch(size: nat): (int, int) {
    MappingInsert(size + SearchRound(size))
  }

  lemma FlsLarge(size: nat)
    requires size >= SMALL_BLOCK_SIZE
    ensures Fls(size) >= 8
  {
    FlsBelow(size, 8);
  }

  /** Free lists numbered in the order the search visits them. */
  function Bin(size: nat): int {
    var m := MappingInsert(size);
    m.0 * SL_COUNT + m.1
  }

  function SearchBin(size: nat): int {
    Bin(size + SearchRound(size))
  }

  lemma BinLarge(s: nat)
    requires s >= SMALL_BLOCK_SIZE
    ensures Fls(s) >= 8
    ensures MappingInsert(s) == (Fls(s) - 7, Shr(s, Fls(s) - 5) - 32)
    ensures Bin(s) == 32 * (Fls(s) - 7) + Shr(s, Fls(s) - 5) - 32
    ensures 32 * (Fls(s) - 7) <= Bin(s) < 32 * (Fls(s) - 6)
  {
    hide Fls, Shr;
    FlsLarge(s);
    ShrSixBits(s);
  }

  /** The indices are in range exactly for sizes below block_size_max. */
  lemma MappingInRange(size: nat)
    ensures MappingInsert(size).0 >= 0 && 0 <= MappingInsert(size).1 < SL_COUNT
    ensures MappingInsert(size).0 < FL_COUNT <==> size < BLOCK_SIZE_MAX
    ensures size < BLOCK_SIZE_MAX <==> 0 <= Bin(size) < FL_COUNT * SL_COUNT
  {
    if size >= SMALL_BLOCK_SIZE {
      BinLarge(size);
      FlsBelow(size, 32);
      Pow2Values();
    }
  }

  /** A larger block never goes to an earlier list. */
  lemma MappingMonotone(a: nat, b: nat)
    requires a <= b
    ensures Bin(a) <= Bin(b)
  {
    if b >= SMALL_BLOCK_SIZE {
      BinLarge(b);
      if a >= SMALL_BLOCK_SIZE {
        BinLarge(a);
        FlsMono(a, b);
        ShrMono(a, b, Fls(a) - 5);
      }
    }
  }

  /** Every block in the list the search starts from, or in a later one, holds the request. */
  lemma GoodFit(size: nat, s: nat)
    requires Multiple(size, ALIGN_SIZE)
    requires Bin(s) >= SearchBin(size)
    ensures s >= size
  {
    if s < size {
      if size < SMALL_BLOCK_SIZE {
        SmallBins(s, size);
      } else {
        RoundedBinIsLater(size, s);
      }
    }
  }

  lemma {:induction false} SmallBins(s: nat, size: nat)
    requires Multiple(size, 8) && s < size
    ensures s / 8 < size / 8
  {
    if s >= 8 {
      SmallBins(s - 8, size - 8);
    }
  }

  lemma RoundedBinIsLater(size: nat, s: nat)
    requires SMALL_BLOCK_SIZE <= size && s < size
    ensures Bin(s) < SearchBin(size)
  {
    hide Fls, Shr, Pow2;
    var x := size + SearchRound(size);
    BinLarge(size);
    BinLarge(x);
    FlsMono(size, x);
    if s < SMALL_BLOCK_SIZE {
      assert Bin(s) == s / 8;
    } else {
      BinLarge(s);
      FlsMono(s, size);
      ShrRoundUp(s, size, Fls(size) - 5);
    }
  }

  /** A block that reaches the size plus the rounding term is never overlooked. */
  lemma SearchMisses(size: nat, s: nat)
    requires Bin(s) < SearchBin(size)
    ensures s < size + SearchRound(size)
  {
    var x := size + SearchRound(size);
    if x <= s {
      MappingMonotone(x, s);
    }
  }

  /** The size tlsf_memalign looks for: room for the request, the alignment and a minimal gap. */
  function AlignedSize(adjust: U64, align: U64): U64
    requires align > 0
    requires adjust + HEADER_SIZE <= TWO64
  {
    if adjust != 0 && align > ALIGN_SIZE
    then AdjustRequestSize(Wrap(adjust + align + HEADER_SIZE), align)
    else adjust
  }

  /** The leading gap tlsf_memalign leaves in front of the returned address. */
  function AlignGap(p: U64, align: U64): U64
    requires align > 0
  {
    var aligned := AlignUp(p, align);
    var gap := Wrap(aligned - p);
    if 0 < gap < HEADER_SIZE
    then Wrap(AlignUp(Wrap(aligned + GapOffset(gap, align)), align) - p)
    else gap
  }

  function GapOffset(gap: U64, align: U64): U64
    requires gap <= HEADER_SIZE
  {
    if HEADER_SIZE - gap > align then HEADER_SIZE - gap else align
  }

  lemma {:induction false} Pow2Divides(k: nat, j: nat)
    requires j <= k
    ensures Multiple(Pow2(k), Pow2(j))
  {
    if j < k {
      Pow2Divides(k - 1, j);
      MultipleSum(Pow2(k - 1), Pow2(k - 1), Pow2(j));
    }
  }

  lemma AlignmentFacts(align: U64)
    requires IsPow2(align)
    ensures align <= ALIGN_SIZE ==> Multiple(ALIGN_SIZE, align)
    ensures align > ALIGN_SIZE ==> align >= 16 && Multiple(align, 16) && Multiple(align, ALIGN_SIZE)
    ensures align == TWO63 || align <= TWO63 / 2
    ensures Multiple(TWO64, align)
  {
    hide Pow2, Multiple;
    var k: nat :| align == Pow2(k);
    Pow2Values();
    TopExponent(k, align);
    Pow2Divides(64, k);
    if k <= 3 {
      Pow2Mono(k, 3);
      Pow2Divides(3, k);
    } else {
      Pow2Mono(4, k);
      Pow2Divides(k, 4);
      Pow2Divides(k, 3);
    }
  }

  lemma TopExponent(k: nat, align: U64)
    requires align == Pow2(k)
    ensures k <= 63 && (align == TWO63 || align <= TWO63 / 2)
  {
    hide Pow2;
    Pow2Values();
    if k >= 64 {
      Pow2Mono(64, k);
    } else if k <= 62 {
      Pow2Mono(k, 62);
    }
  }

  /** The size searched for covers request, alignment and gap unless the alignment is 2^63,
      where the 64-bit sum wraps and a minimum block is searched for. */
  lemma AlignedSizeCovers(adjust: U64, align: U64)
    requires BLOCK_SIZE_MIN <= adjust < BLOCK_SIZE_MAX
    requires IsPow2(align) && ALIGN_SIZE < align
    requires AlignedSize(adjust, align) != 0
    ensures Multiple(AlignedSize(adjust, align), ALIGN_SIZE)
    ensures align < TWO63 <==> AlignedSize(adjust, align) >= adjust + align + HEADER_SIZE
    ensures align == TWO63 ==> AlignedSize(adjust, align) == BLOCK_SIZE_MIN
  {
    AlignmentFacts(align);
    var x := adjust + align + HEADER_SIZE;
    MultipleTrans(AlignUp(x, align), align, ALIGN_SIZE);
    if align == TWO63 {
      MultipleUnique(AlignUp(x, align), 0, align);
      assert Multiple(24, 8) && Multiple(16, 8);
    }
  }

  /** An alignment of at most 8 never needs a gap. */
  lemma NoGap(p: U64, align: U64)
    requires IsPow2(align) && align <= ALIGN_SIZE && Multiple(p, ALIGN_SIZE)
    ensures AlignGap(p, align) == 0 && Multiple(p, align)
  {
    AlignmentFacts(align);
    MultipleTrans(p, ALIGN_SIZE, align);
    AlignOfMultiple(p, align);
  }

  lemma AlignOfMultiple(x: U64, align: U64)
    requires align > 0 && Multiple(x, align) && Multiple(TWO64, align)
    ensures AlignUp(x, align) == x
  {
    if x + align > TWO64 {
      MultipleUnique(TWO64, x, align);
    }
    MultipleUnique(AlignUp(x, align), x, align);
  }

  /** The gap is empty or at least a whole block header, the address behind it is aligned, and gap
      and request fit in the block. */
  lemma GapFits(p: U64, align: U64, adjust: nat, size: nat)
    requires IsPow2(align) && ALIGN_SIZE < align < TWO63
    requires Multiple(p, ALIGN_SIZE) && adjust >= BLOCK_SIZE_MIN
    requires p + size <= TWO64 && size >= adjust + align + HEADER_SIZE
    ensures var gap := AlignGap(p, align);
            && Multiple(gap, ALIGN_SIZE) && (gap == 0 || gap >= HEADER_SIZE)
            && Multiple(p + gap, align)
            && gap + adjust <= size && gap + HEADER_SIZE <= size
  {
    AlignmentFacts(align);
    var aligned := AlignUp(p, align);
    MultipleTrans(aligned, align, ALIGN_SIZE);
    MultipleDiff(aligned, p, ALIGN_SIZE);
    if 0 < aligned - p < HEADER_SIZE {
      WidenedGap(p, align, aligned);
    } else {
      MultipleBelow(aligned - p, align);
    }
  }

  lemma WidenedGap(p: U64, align: U64, aligned: U64)
    requires 16 <= align < TWO63 && Multiple(align, 16) && Multiple(align, 8) && Multiple(TWO64, align)
    requires Multiple(p, 8) && aligned == AlignUp(p, align)
    requires 0 < aligned - p < HEADER_SIZE && aligned - p < align
    requires Multiple(aligned - p, 8) && p + align + 56 <= TWO64
    ensures var gap := AlignGap(p, align);
            Multiple(p + gap, align) && Multiple(gap, 8) && HEADER_SIZE <= gap <= align + 24
  {
    hide AlignUp, RoundDown, Multiple;
    var gap := aligned - p;
    MultipleTimes(4, 8);
    MultipleBelow(gap, HEADER_SIZE);
    if HEADER_SIZE - gap > align {
      MultipleTimes(2, 8);
      MultipleBelow(gap, 16);
      MultipleAtLeast(gap, 8);
      MultipleBelow16(align);
      MultipleTimes(2, 16);
      MultipleTimes(5, 8);
      MultipleSum(32, aligned, 16);
      MultipleUnique(AlignUp(aligned + 24, 16), 32 + aligned, 16);
      assert AlignGap(p, align) == 40;
    } else {
      MultipleTimes(1, align);
      MultipleSum(align, aligned, align);
      AlignOfMultiple(aligned + align, align);
      assert AlignGap(p, align) == gap + align;
      MultipleSum(gap, align, 8);
    }
  }

  lemma {:induction false} MultipleBelow(x: nat, bound: nat)
    requires Multiple(x, 8) && Multiple(bound, 8) && x < bound
    ensures x + 8 <= bound
  {
    if x > 0 {
      MultipleBelow(x - 8, bound - 8);
    }
  }

  lemma MultipleAtLeast(x: nat, a: nat)
    requires a > 0 && Multiple(x, a) && x > 0
    ensures x >= a
  {
  }

  lemma MultipleBelow16(x: nat)
    requires Multiple(x, 16) && 0 < x < 32
    ensures x == 16
  {
  }

  /** With the unusable alignment 2^63 the gap is still empty or at least a block header. */
  lemma GapOfTopAlignment(p: U64, align: U64)
    requires Multiple(p, ALIGN_SIZE) && 2 * align == TWO64
    ensures Multiple(AlignGap(p, align), ALIGN_SIZE)
    ensures AlignGap(p, align) == 0 || AlignGap(p, align) >= HEADER_SIZE
  {
    MultipleTimes(align / 8, 8);
    TopAlign(p, align);
    if p == 0 || p == align {
    } else if p < align {
      MultipleDiff(align, p, 8);
      MultipleSum(align - p, align, 8);
      TopGap(p, align, align - p, 0);
    } else {
      MultipleDiff(p, align, 8);
      MultipleDiff(align, p - align, 8);
      MultipleSum(align - (p - align), align, 8);
      TopGap(p, align, 2 * align - p, align);
    }
  }

  lemma TopGap(p: U64, align: U64, gap: U64, a2: U64)
    requires 2 * align == TWO64
    requires 0 < gap && gap == Wrap(AlignUp(p, align) - p)
    requires a2 == Wrap(AlignUp(p, align) + align) && (a2 == 0 || a2 == align)
    ensures AlignGap(p, align) == if gap < HEADER_SIZE then Wrap(a2 - p) else gap
  {
    TopAlign(a2, align);
    if gap < HEADER_SIZE {
      GapUnfold(p, align, AlignUp(p, align), gap);
    }
  }

  lemma GapUnfold(p: U64, align: U64, aligned: U64, gap: U64)
    requires align >= HEADER_SIZE && aligned == AlignUp(p, align)
    requires 0 < gap < HEADER_SIZE && gap == Wrap(aligned - p)
    ensures AlignGap(p, align) == Wrap(AlignUp(Wrap(aligned + align), align) - p)
  {
  }

  lemma TopAlign(p: U64, align: U64)
    requires 2 * align == TWO64
    ensures AlignUp(p, align) == if 0 < p <= align then align else 0
  {
    MultipleTimes(1, align);
    MultipleUnique(AlignUp(p, align), if 0 < p <= align then align else 0, align);
  }
}
