/** LZ4F_compressFrame with independent blocks: what it writes reads back as its input, for any block
    compressor that the block decoder inverts. */
module FrameEncode {
  import opened Bytes
  import opened FrameFormat
  import X = Xxh32

  /** A block compressor; nothing when it fails. */
  type Compressor = seq<Byte> -> seq<Byte>

  /** Whatever it compresses, the decoder gives back. */
  ghost predicate Inverts(compress: Compressor, decode: Decoder) {
    forall b: seq<Byte>, max: nat {:trigger decode(compress(b), max)} ::
      compress(b) != [] && |b| <= max ==> decode(compress(b), max) == Some(b)
  }

  /** The preferences that matter for independent blocks. */
  datatype Prefs = Prefs(blockSizeID: nat, sized: bool, blockChecksum: bool, contentChecksum: bool, dictID: U32)

  // ---- Words.

  /** LZ4F_writeLE64. */
  function Word64Bytes(x: U64): (r: seq<Byte>)
    ensures |r| == 8
  {
    WordBytes(x % 0x1_0000_0000) + WordBytes(x / 0x1_0000_0000)
  }

  lemma Word64Back(x: U64, pre: seq<Byte>, post: seq<Byte>)
    ensures Read64(pre + Word64Bytes(x) + post, |pre|) == x
  {
    var lo: U32, hi: U32 := x % 0x1_0000_0000, x / 0x1_0000_0000;
    var s := pre + Word64Bytes(x) + post;
    WordBack(lo);
    WordBack(hi);
    WordAt(s, |pre|, WordBytes(lo));
    WordAt(s, |pre| + 4, WordBytes(hi));
  }

  // ---- The header.

  function Flags(sized: bool, blockChecksum: bool, contentChecksum: bool, dict: bool): Byte {
    64 + 32 + (if blockChecksum then 16 else 0) + (if sized then 8 else 0) + (if contentChecksum then 4 else 0)
    + (if dict then 1 else 0)
  }

  lemma FlagBits(sized: bool, blockChecksum: bool, contentChecksum: bool, dict: bool)
    ensures var f := Flags(sized, blockChecksum, contentChecksum, dict);
      && f / 64 == 1 && f / 2 % 2 == 0 && f / 32 % 2 == 1
      && (f / 16 % 2 == 1 <==> blockChecksum) && (f / 8 % 2 == 1 <==> sized) && (f / 4 % 2 == 1 <==> contentChecksum)
      && (f % 2 == 1 <==> dict)
  {
  }

  /** Everything before the checksum byte. */
  function Descriptor(id: nat, size: U64, blockChecksum: bool, contentChecksum: bool, dictID: U32): (r: seq<Byte>)
    requires 4 <= id <= 7
    ensures |r| == HeaderSize(Flags(size > 0, blockChecksum, contentChecksum, dictID > 0)) - 5
  {
    FlagBits(size > 0, blockChecksum, contentChecksum, dictID > 0);
    [Flags(size > 0, blockChecksum, contentChecksum, dictID > 0), 16 * id]
    + (if size > 0 then Word64Bytes(size) else []) + (if dictID > 0 then WordBytes(dictID) else [])
  }

  /** The header that LZ4F_compressBegin writes. */
  function HeaderBytes(id: nat, size: U64, blockChecksum: bool, contentChecksum: bool, dictID: U32): seq<Byte>
    requires 4 <= id <= 7
  {
    var d := Descriptor(id, size, blockChecksum, contentChecksum, dictID);
    WordBytes(0x184D2204) + d + [HeaderChecksum(d)]
  }

  function InfoOf(id: nat, size: U64, blockChecksum: bool, contentChecksum: bool): Info {
    Info(blockChecksum, contentChecksum, size, BlockSize(id))
  }

  /** The header parses to what was asked for. */
  lemma HeaderParses(id: nat, size: U64, blockChecksum: bool, contentChecksum: bool, dictID: U32)
    requires 4 <= id <= 7
    ensures var h := HeaderBytes(id, size, blockChecksum, contentChecksum, dictID);
      && MIN_HEADER_SIZE <= |h| && !Skippable(h) && |h| == HeaderSize(h[4])
      && ParseHeader(h) == Good(|h|, InfoOf(id, size, blockChecksum, contentChecksum), size > 0)
  {
    hide X.Hash, BlockSize, HeaderSize, Read32, Read64, WordBytes, Word64Bytes;
    var flags := Flags(size > 0, blockChecksum, contentChecksum, dictID > 0);
    var d := Descriptor(id, size, blockChecksum, contentChecksum, dictID);
    var h := HeaderBytes(id, size, blockChecksum, contentChecksum, dictID);
    var magic := WordBytes(0x184D2204);
    FlagBits(size > 0, blockChecksum, contentChecksum, dictID > 0);
    WordBack(0x184D2204);
    WordAt(h, 0, magic);
    assert h[4..|h| - 1] == d;
    assert h[4] == flags && h[5] == 16 * id;
    HeaderSizes(h);
    if size > 0 {
      var post := (if dictID > 0 then WordBytes(dictID) else []) + [HeaderChecksum(d)];
      assert h == (magic + [flags, 16 * id]) + Word64Bytes(size) + post;
      Word64Back(size, magic + [flags, 16 * id], post);
    }
    DescriptorParses(h, flags, id, |h|);
  }

  lemma DescriptorParses(h: seq<Byte>, flags: Byte, id: nat, size: nat)
    requires MIN_HEADER_SIZE <= size == |h| && 4 <= id <= 7 && h[5] == 16 * id
    requires flags / 32 % 2 == 1 && (flags / 8 % 2 == 1 ==> size >= 15)
    requires HeaderChecksum(h[4..size - 1]) == h[size - 1]
    ensures ParseDescriptor(h, flags, size) ==
      Good(size, Info(flags / 16 % 2 == 1, flags / 4 % 2 == 1, if flags / 8 % 2 == 1 then Read64(h, 6) else 0,
                      BlockSize(id)), flags / 8 % 2 == 1)
  {
    hide X.Hash, BlockSize, Read64;
    assert h[5] / 16 % 8 == id && h[5] / 128 == 0 && h[5] % 16 == 0;
  }

  /** Reading a whole header leads to its first block. */
  lemma HeaderFeeds(h: seq<Byte>, decode: Decoder)
    requires |h| >= MIN_HEADER_SIZE && !Skippable(h) && |h| == HeaderSize(h[4])
    requires ParseHeader(h).Good? && ParseHeader(h).size == |h|
    ensures Feed(Start(0), h, decode) == HeaderRead(Start(0), ParseHeader(h))
  {
    hide Feed, HeadNext, HeaderSize, Read32, ParseDescriptor;
    var a, m := h[..MIN_HEADER_SIZE], h[MIN_HEADER_SIZE..];
    assert h == a + m;
    SkippablePrefix(a, m);
    HeadNextIs(Start(0), h);
    if m == [] {
      assert a == h;
      FeedFront(Start(0), h, decode);
    } else {
      FirstSeven(h, a);
      FeedWhole(Start(0), a, m, decode);
    }
  }

  lemma FirstSeven(h: seq<Byte>, a: seq<Byte>)
    requires |h| > MIN_HEADER_SIZE && a == h[..MIN_HEADER_SIZE] && |h| == HeaderSize(h[4]) && ParseHeader(h).Good?
    ensures ParseHeader(a) == Incomplete(|h|)
  {
    hide HeaderSize, ParseDescriptor;
    assert Read32(a, 0) == Read32(h, 0);
    assert a[4] == h[4];
  }

  // ---- Blocks.

  /** What a block takes that is compressed to c bytes, or fails to be for 0. */
  function Smaller(c: nat, n: nat): nat { if 0 < c < n then c else n }

  /** LZ4F_makeBlock: compressed when that is smaller, otherwise as it is; then its checksum. */
  method MakeBlock(block: seq<Byte>, compress: Compressor, crcFlag: bool, ghost decode: Decoder, ghost f: Frame)
    returns (out: seq<Byte>)
    requires crcFlag == f.info.blockChecksum
    requires 0 < |block| <= f.info.maxBlockSize < 0x8000_0000 && f.phase == BlockHead([]) && Inverts(compress, decode)
    ensures Feed(f, out, decode) == Frame(BlockHead([]), f.info, Less(f.info, f.rem, |block|), f.content + block)
    ensures |out| == BLOCK_HEADER_SIZE + Smaller(|compress(block)|, |block|) + CrcSize(f.info)
  {
    hide Feed, X.Hash, Read32, WordBytes, Less;
    var packed := compress(block);
    var cSize := |packed|;
    var data, header := packed, 0;
    if cSize == 0 || cSize >= |block| {
      data := block;
      header := |block| + 0x8000_0000;
    } else {
      header := cSize;
    }
    var crc := if crcFlag then WordBytes(X.Hash(data, 0)) else [];
    out := WordBytes(header) + data + crc;
    FeedJoin(f, WordBytes(header) + data, crc, decode);
    FeedJoin(f, WordBytes(header), data, decode);
    WordBack(header);
    FeedBlockHead(f, [], WordBytes(header), decode);
    assert [] + WordBytes(header) == WordBytes(header);
    if header >= 0x8000_0000 {
      RawReads(f, block, crc, decode);
    } else {
      FeedJoin(f.(phase := Packed([], cSize + CrcSize(f.info))), data, crc, decode);
      PackedReads(f, block, packed, crc, decode);
    }
  }

  lemma RawReads(f: Frame, block: seq<Byte>, crc: seq<Byte>, decode: Decoder)
    requires block != [] && crc == if f.info.blockChecksum then WordBytes(X.Hash(block, 0)) else []
    ensures var g := f.(phase := Raw(|block|, []));
      Feed(Feed(g, block, decode), crc, decode)
      == Frame(BlockHead([]), f.info, Less(f.info, f.rem, |block|), f.content + block)
  {
    hide Feed, X.Hash, Read32, WordBytes, Less;
    var g := f.(phase := Raw(|block|, []));
    FeedRaw(g, |block|, [], block, decode);
    assert [] + block == block;
    var h := Feed(g, block, decode);
    if f.info.blockChecksum {
      WordBack(X.Hash(block, 0));
      FeedRawCrc(h, [], block, crc, decode);
      assert [] + crc == crc;
    } else {
      FeedNone(h, decode);
    }
  }

  lemma PackedReads(f: Frame, block: seq<Byte>, packed: seq<Byte>, crc: seq<Byte>, decode: Decoder)
    requires packed != [] && decode(packed, f.info.maxBlockSize) == Some(block)
    requires crc == if f.info.blockChecksum then WordBytes(X.Hash(packed, 0)) else []
    ensures var g := f.(phase := Packed([], |packed| + CrcSize(f.info)));
      Feed(g, packed + crc, decode) == Frame(BlockHead([]), f.info, Less(f.info, f.rem, |block|), f.content + block)
  {
    hide Feed, X.Hash, Read32, WordBytes, Less;
    var g := f.(phase := Packed([], |packed| + CrcSize(f.info)));
    var buf := packed + crc;
    FeedPacked(g, [], |packed| + CrcSize(f.info), buf, decode);
    assert [] + buf == buf;
    assert buf[..|packed|] == packed;
    if f.info.blockChecksum {
      WordBack(X.Hash(packed, 0));
      WordMoves(packed, crc);
    }
  }

  lemma WordMoves(a: seq<Byte>, w: seq<Byte>)
    requires |w| == 4
    ensures Read32(a + w, |a|) == Read32(w, 0)
  {
    WordAt(a + w, |a|, w);
  }

  // ---- The frame.

  /** The first block size from 64 KB on that holds the input, if it is smaller than the one requested. */
  function OptimalId(requested: nat, n: nat): nat {
    if requested > 4 && n <= BlockSize(4) then 4
    else if requested > 5 && n <= BlockSize(5) then 5
    else if requested > 6 && n <= BlockSize(6) then 6
    else if requested == 0 then 4
    else requested
  }

  /** LZ4F_optimalBSID, and the default for 0. */
  method OptimalBlockSize(requested: nat, srcSize: nat) returns (id: nat)
    requires requested == 0 || 4 <= requested <= 7
    ensures 4 <= id <= 7 && (id < requested ==> srcSize <= BlockSize(id))
    ensures requested != 0 ==> id <= requested
    ensures id == OptimalId(requested, srcSize)
  {
    id := 4;
    var max := 0x1_0000;
    while requested > id
      invariant 4 <= id <= 7 && max == BlockSize(id) && id <= (if requested == 0 then 4 else requested)
      invariant (id > 4 ==> srcSize > 0x1_0000) && (id > 5 ==> srcSize > 0x4_0000) && (id > 6 ==> srcSize > 0x10_0000)
      decreases 7 - id
    {
      if srcSize <= max {
        return;
      }
      id := id + 1;
      max := max * 4;
    }
  }

  lemma BlockSizes(id: nat)
    requires 4 <= id <= 7
    ensures 0 < BlockSize(id) < 0x8000_0000
  {
  }

  /** What the headers and checksums of n bytes in blocks of at most max take, h for each block. */
  function Overhead(n: nat, max: nat, h: nat): nat
    requires max > 0
  {
    if n == 0 then 0 else if n < max then h else h + Overhead(n - max, max, h)
  }

  /** What the blocks of an input take, h for the header and checksum of each: every one is compressed if that
      makes it smaller. */
  function BlocksSize(src: seq<Byte>, compress: Compressor, max: nat, h: nat): nat
    requires max > 0
    decreases |src|
  {
    if src == [] then 0
    else if |src| < max then h + Smaller(|compress(src)|, |src|)
    else h + Smaller(|compress(src[..max])|, max) + BlocksSize(src[max..], compress, max, h)
  }

  lemma {:induction false} BlocksBounded(src: seq<Byte>, compress: Compressor, max: nat, h: nat)
    requires max > 0
    ensures BlocksSize(src, compress, max, h) <= |src| + Overhead(|src|, max, h)
    decreases |src|
  {
    if |src| >= max {
      BlocksBounded(src[max..], compress, max, h);
    }
  }

  lemma BlocksNext(src: seq<Byte>, p: nat, compress: Compressor, max: nat, h: nat)
    requires max > 0 && p + max <= |src|
    ensures BlocksSize(src[p..], compress, max, h)
         == h + Smaller(|compress(src[p..p + max])|, max) + BlocksSize(src[p + max..], compress, max, h)
  {
    hide Smaller;
    assert src[p..][..max] == src[p..p + max] && src[p..][max..] == src[p + max..];
  }

  lemma BlocksLast(src: seq<Byte>, p: nat, compress: Compressor, max: nat, h: nat)
    requires max > 0 && p <= |src| < p + max
    ensures BlocksSize(src[p..], compress, max, h)
         == if p == |src| then 0 else h + Smaller(|compress(src[p..])|, |src| - p)
  {
    hide Smaller;
  }

  lemma {:induction false} OverheadIs(n: nat, max: nat, h: nat)
    requires max > 0
    ensures Overhead(n, max, h) == h * (n / max + if n % max > 0 then 1 else 0)
    decreases n
  {
    if n < max {
      BelowOne(n, max);
    } else {
      OverheadIs(n - max, max, h);
      OneOff(n, max);
      var k := (n - max) / max + if (n - max) % max > 0 then 1 else 0;
      assert h * (k + 1) == h * k + h;
    }
  }

  lemma BelowOne(n: nat, max: nat)
    requires n < max
    ensures n / max == 0 && n % max == n
  {
  }

  lemma OneOff(n: nat, max: nat)
    requires 0 < max <= n
    ensures n / max == (n - max) / max + 1 && n % max == (n - max) % max
  {
    var a, b := n / max, (n - max) / max;
    assert n == max * a + n % max;
    assert n - max == max * b + (n - max) % max;
    Distribute(max, a, b + 1);
    assert max * (b + 1) == max * b + max;
    NoMultiple(max, a - (b + 1));
  }

  lemma Distribute(n: int, x: int, y: int)
    ensures n * x - n * y == n * (x - y)
  {
  }

  lemma NoMultiple(n: int, q: int)
    requires n > 0
    ensures q < 0 ==> n * q <= -n
    ensures q > 0 ==> n * q >= n
  {
  }

  /** LZ4F_compressUpdate with autoFlush: full blocks, then what is left. */
  method CompressBlocks(src: seq<Byte>, compress: Compressor, crcFlag: bool, maxBlockSize: nat, ghost decode: Decoder,
                        ghost f: Frame) returns (out: seq<Byte>)
    requires crcFlag == f.info.blockChecksum
    requires f.phase == BlockHead([]) && f.content == [] && Inverts(compress, decode)
    requires 0 < f.info.maxBlockSize == maxBlockSize < 0x8000_0000
    ensures Feed(f, out, decode) == Frame(BlockHead([]), f.info, Less(f.info, f.rem, |src|), src)
    ensures |out| == BlocksSize(src, compress, maxBlockSize, BLOCK_HEADER_SIZE + CrcSize(f.info))
  {
    hide Feed, Less, Inverts, CrcSize, BlocksSize, Smaller;
    ghost var h := BLOCK_HEADER_SIZE + CrcSize(f.info);
    assert src[0..] == src;
    out := [];
    var p := 0;
    FeedNone(f, decode);
    NothingLess(f.info, f.rem);
    assert src[..0] == [];
    while |src| - p >= maxBlockSize
      invariant 0 <= p <= |src|
      invariant Feed(f, out, decode) == Frame(BlockHead([]), f.info, Less(f.info, f.rem, p), src[..p])
      invariant |out| + BlocksSize(src[p..], compress, maxBlockSize, h) == BlocksSize(src, compress, maxBlockSize, h)
    {
      BlocksNext(src, p, compress, maxBlockSize, h);
      out := AddBlock(src, p, maxBlockSize, compress, crcFlag, out, decode, f);
      p := p + maxBlockSize;
    }
    BlocksLast(src, p, compress, maxBlockSize, h);
    if p < |src| {
      assert src[p..p + (|src| - p)] == src[p..];
      out := AddBlock(src, p, |src| - p, compress, crcFlag, out, decode, f);
      p := |src|;
    }
    assert src[..p] == src;
  }

  lemma NothingLess(info: Info, rem: U64)
    ensures Less(info, rem, 0) == rem
  {
  }

  method AddBlock(src: seq<Byte>, p: nat, n: nat, compress: Compressor, crcFlag: bool, out0: seq<Byte>,
                  ghost decode: Decoder, ghost f: Frame) returns (out: seq<Byte>)
    requires crcFlag == f.info.blockChecksum
    requires p + n <= |src| && 0 < n <= f.info.maxBlockSize < 0x8000_0000 && Inverts(compress, decode)
    requires Feed(f, out0, decode) == Frame(BlockHead([]), f.info, Less(f.info, f.rem, p), src[..p])
    ensures Feed(f, out, decode) == Frame(BlockHead([]), f.info, Less(f.info, f.rem, p + n), src[..p + n])
    ensures |out| == |out0| + BLOCK_HEADER_SIZE + Smaller(|compress(src[p..p + n])|, n) + CrcSize(f.info)
  {
    hide Feed, Less, Inverts, Smaller;
    var block := src[p..p + n];
    ghost var g := Feed(f, out0, decode);
    var more := MakeBlock(block, compress, crcFlag, decode, g);
    out := out0 + more;
    FeedJoin(f, out0, more, decode);
    LessTwice(f.info, f.rem, p, n);
    assert src[..p] + block == src[..p + n];
  }

  /** LZ4F_compressFrameBound: a header of the largest size, full blocks stored as they are, a rest, and
      the end. The number of blocks is an unsigned int. */
  function CompressFrameBound(n: nat, id: nat, blockChecksum: bool, contentChecksum: bool): nat {
    var size := BlockSize(id);
    var full, last := n / size % 0x1_0000_0000, n % size;
    var blocks := (full + if last > 0 then 1 else 0) % 0x1_0000_0000;
    MAX_HEADER_SIZE + (BLOCK_HEADER_SIZE + if blockChecksum then CHECKSUM_SIZE else 0) * blocks + size * full + last
    + BLOCK_HEADER_SIZE + if contentChecksum then CHECKSUM_SIZE else 0
  }

  /** It is what a frame may take. */
  lemma BoundIs(n: nat, id: nat, blockChecksum: bool, contentChecksum: bool)
    requires 4 <= id <= 7 && n < 0x8000_0000_0000
    ensures CompressFrameBound(n, id, blockChecksum, contentChecksum) ==
      MAX_HEADER_SIZE + n + Overhead(n, BlockSize(id), BLOCK_HEADER_SIZE + if blockChecksum then CHECKSUM_SIZE else 0)
      + BLOCK_HEADER_SIZE + if contentChecksum then CHECKSUM_SIZE else 0
  {
    hide Overhead, BlockSize;
    var size := BlockSize(id);
    BlockSizes(id);
    OverheadIs(n, size, BLOCK_HEADER_SIZE + if blockChecksum then CHECKSUM_SIZE else 0);
    FewBlocks(n, id);
    var full := n / size;
    assert full % 0x1_0000_0000 == full && (full + 1) % 0x1_0000_0000 == full + 1;
    assert n == size * full + n % size;
  }

  lemma FewBlocks(n: nat, id: nat)
    requires 4 <= id <= 7 && n < 0x8000_0000_0000
    ensures BlockSize(id) > 0 && n / BlockSize(id) < 0x8000_0000
  {
  }

  /** What the frame of an input takes. */
  function FrameSize(src: seq<Byte>, prefs: Prefs, compress: Compressor): nat
  {
    MIN_HEADER_SIZE + (if prefs.sized && |src| > 0 then 8 else 0) + (if prefs.dictID > 0 then 4 else 0)
    + BlocksSize(src, compress, BlockSize(OptimalId(prefs.blockSizeID, |src|)),
                 BLOCK_HEADER_SIZE + if prefs.blockChecksum then CHECKSUM_SIZE else 0)
    + BLOCK_HEADER_SIZE + if prefs.contentChecksum then CHECKSUM_SIZE else 0
  }

  lemma HeaderLength(id: nat, size: U64, blockChecksum: bool, contentChecksum: bool, dictID: U32)
    requires 4 <= id <= 7
    ensures |HeaderBytes(id, size, blockChecksum, contentChecksum, dictID)|
         == MIN_HEADER_SIZE + (if size > 0 then 8 else 0) + (if dictID > 0 then 4 else 0)
  {
    hide X.Hash, WordBytes, Word64Bytes, Flags;
  }

  /** LZ4F_compressFrame: refused exactly when the room is below LZ4F_compressFrameBound; otherwise
      reading what was written, in whatever pieces, ends the frame with the input as its content, and
      it took no more than that bound. */
  method CompressFrame(src: seq<Byte>, dstCapacity: nat, prefs: Prefs, compress: Compressor, ghost decode: Decoder)
    returns (out: Option<seq<Byte>>)
    requires (prefs.blockSizeID == 0 || 4 <= prefs.blockSizeID <= 7) && Inverts(compress, decode)
    requires |src| < 0x8000_0000_0000
    ensures var bound := CompressFrameBound(|src|, OptimalId(prefs.blockSizeID, |src|), prefs.blockChecksum,
                                            prefs.contentChecksum);
      (out.None? <==> dstCapacity < bound) && (out.Some? ==> |out.value| <= bound)
    ensures out.Some? ==> var g := Feed(Start(0), out.value, decode); g.phase.Done? && g.content == src
    ensures out.Some? ==> |out.value| == FrameSize(src, prefs, compress)
  {
    hide Feed, Less, Inverts, BlocksSize, HeaderBytes, ParseHeader, X.Hash, Read32, WordBytes, Skippable, HeaderSize, BlockSize,
         CompressFrameBound, Overhead, OptimalId;
    var id := OptimalBlockSize(prefs.blockSizeID, |src|);
    BlockSizes(id);
    if dstCapacity < CompressFrameBound(|src|, id, prefs.blockChecksum, prefs.contentChecksum) {
      return None;
    }
    var size: U64 := if prefs.sized then |src| else 0;
    HeaderParses(id, size, prefs.blockChecksum, prefs.contentChecksum, prefs.dictID);
    var header := HeaderBytes(id, size, prefs.blockChecksum, prefs.contentChecksum, prefs.dictID);
    HeaderSizes(header);
    HeaderFeeds(header, decode);
    ghost var f := Feed(Start(0), header, decode);
    var blocks := CompressBlocks(src, compress, prefs.blockChecksum, BlockSize(id), decode, f);
    var end := WordBytes(0) + if prefs.contentChecksum then WordBytes(X.Hash(src, 0)) else [];
    out := Some(header + blocks + end);
    BoundIs(|src|, id, prefs.blockChecksum, prefs.contentChecksum);
    BlocksBounded(src, compress, BlockSize(id), BLOCK_HEADER_SIZE + CrcSize(f.info));
    HeaderLength(id, size, prefs.blockChecksum, prefs.contentChecksum, prefs.dictID);
    FeedJoin(Start(0), header + blocks, end, decode);
    FeedJoin(Start(0), header, blocks, decode);
    AllCounted(f.info, |src|);
    EndReads(Feed(f, blocks, decode), end, decode);
  }

  lemma AllCounted(info: Info, n: nat)
    requires n < 0x1_0000_0000_0000_0000 && (info.contentSize == 0 || info.contentSize == n)
    ensures Less(info, info.contentSize, n) == 0
  {
  }

  /** The end mark and the content checksum. */
  lemma EndReads(f: Frame, end: seq<Byte>, decode: Decoder)
    requires f.phase == BlockHead([]) && f.rem == 0
    requires end == WordBytes(0) + if f.info.contentChecksum then WordBytes(X.Hash(f.content, 0)) else []
    ensures Feed(f, end, decode) == f.(phase := Done)
  {
    hide Feed, X.Hash, Read32, WordBytes;
    var mark := WordBytes(0);
    var crc := if f.info.contentChecksum then WordBytes(X.Hash(f.content, 0)) else [];
    FeedJoin(f, mark, crc, decode);
    WordBack(0);
    FeedBlockHead(f, [], mark, decode);
    assert [] + mark == mark;
    var g := Feed(f, mark, decode);
    if f.info.contentChecksum {
      WordBack(X.Hash(f.content, 0));
      FeedSuffix(g, [], crc, decode);
      assert [] + crc == crc;
    } else {
      FeedNone(g, decode);
    }
  }
}
