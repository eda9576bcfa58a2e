/** The LZ4 frame format, read one byte at a time: block-independent and skippable frames, for any
    block decoder. */
module FrameFormat {
  import opened Bytes
  import X = Xxh32

  const MIN_HEADER_SIZE := 7
  const MAX_HEADER_SIZE := 19
  const BLOCK_HEADER_SIZE := 4
  const CHECKSUM_SIZE := 4

  /** The error codes of the decoder; linked blocks are not part of this model. */
  datatype Error =
    | MaxBlockSizeInvalid | HeaderVersionWrong | BlockChecksumInvalid | ReservedFlagSet | FrameTypeUnknown
    | FrameSizeWrong | DecompressionFailed | HeaderChecksumInvalid | ContentChecksumInvalid | LinkedNotModelled

  /** What the header says. */
  datatype Info = Info(blockChecksum: bool, contentChecksum: bool, contentSize: U64, maxBlockSize: nat)

  const NO_INFO := Info(false, false, 0, 0)

  /** A block decoder: the bytes of a block, given the size they may have. */
  type Decoder = (seq<Byte>, nat) -> Option<seq<Byte>>

  ghost predicate DecoderOk(decode: Decoder) {
    forall block: seq<Byte>, max: nat {:trigger decode(block, max)} ::
      decode(block, max).Some? ==> |decode(block, max).value| <= max
  }

  // ---- The header.

  predicate Skippable(s: seq<Byte>)
    requires |s| >= 4
  {
    Read32(s, 0) / 16 == 0x184D2A5
  }

  datatype Header = Incomplete(size: nat) | Bad(error: Error) | Good(size: nat, info: Info, sized: bool)

  function BlockSize(id: nat): nat {
    if id == 4 then 0x1_0000 else if id == 5 then 0x4_0000 else if id == 6 then 0x10_0000 else 0x40_0000
  }

  function HeaderSize(flags: Byte): nat {
    MIN_HEADER_SIZE + (if flags / 8 % 2 == 1 then 8 else 0) + (if flags % 2 == 1 then 4 else 0)
  }

  function HeaderChecksum(s: seq<Byte>): nat { X.Hash(s, 0) / 256 % 256 }

  /** LZ4F_decodeHeader on a frame that is not skippable. */
  function ParseHeader(s: seq<Byte>): Header
    requires |s| >= MIN_HEADER_SIZE
  {
    var flags, size := s[4], HeaderSize(s[4]);
    if Read32(s, 0) != 0x184D2204 then Bad(FrameTypeUnknown)
    else if flags / 2 % 2 != 0 then Bad(ReservedFlagSet)
    else if flags / 64 != 1 then Bad(HeaderVersionWrong)
    else if |s| < size then Incomplete(size)
    else ParseDescriptor(s, flags, size)
  }

  function ParseDescriptor(s: seq<Byte>, flags: Byte, size: nat): Header
    requires MIN_HEADER_SIZE <= size <= |s| && (flags / 8 % 2 == 1 ==> size >= 15)
  {
    var descriptor := s[5];
    if descriptor / 128 != 0 then Bad(ReservedFlagSet)
    else if descriptor / 16 % 8 < 4 then Bad(MaxBlockSizeInvalid)
    else if descriptor % 16 != 0 then Bad(ReservedFlagSet)
    else if HeaderChecksum(s[4..size - 1]) != s[size - 1] then Bad(HeaderChecksumInvalid)
    else if flags / 32 % 2 == 0 then Bad(LinkedNotModelled)
    else Good(size, Info(flags / 16 % 2 == 1, flags / 4 % 2 == 1,
                         if flags / 8 % 2 == 1 then Read64(s, 6) else 0, BlockSize(descriptor / 16 % 8)),
              flags / 8 % 2 == 1)
  }

  // ---- The frame, byte by byte.

  /** What is being collected, and how much is still to come. */
  datatype Phase =
    | Head(buf: seq<Byte>)
    | BlockHead(buf: seq<Byte>)
    | Raw(left: nat, block: seq<Byte>)
    | RawCrc(buf: seq<Byte>, block: seq<Byte>)
    | Packed(buf: seq<Byte>, target: nat)
    | Suffix(buf: seq<Byte>)
    | SkipSize(buf: seq<Byte>)
    | Skip(left: nat)
    | Done
    | Beyond
    | Failed(error: Error)

  /** The phase, the header, the content still expected (a 64-bit counter) and the content so far. */
  datatype Frame = Frame(phase: Phase, info: Info, rem: U64, content: seq<Byte>)

  function Less(info: Info, rem: U64, n: nat): U64 {
    if info.contentSize != 0 then (rem - n) % 0x1_0000_0000_0000_0000 else rem
  }

  function Start(rem: U64): Frame { Frame(Head([]), NO_INFO, rem, []) }

  function Fail(f: Frame, e: Error): Frame { f.(phase := Failed(e)) }

  /** Header bytes collected so far; a skippable frame is known after four. */
  function HeadNext(f: Frame, buf: seq<Byte>): Frame {
    if |buf| >= 4 && Skippable(buf) then f.(phase := SkipSize(buf[4..]))
    else if |buf| < MIN_HEADER_SIZE then f.(phase := Head(buf))
    else
      match ParseHeader(buf)
      case Incomplete(_) => f.(phase := Head(buf))
      case Bad(e) => Fail(f, e)
      case Good(_, info, sized) => Frame(BlockHead([]), info, if sized then info.contentSize else f.rem, f.content)
  }

  /** After the end mark. */
  function EndMark(f: Frame): Frame {
    if f.rem != 0 then Fail(f, FrameSizeWrong)
    else if f.info.contentChecksum then f.(phase := Suffix([]))
    else f.(phase := Done)
  }

  function RawDone(f: Frame, block: seq<Byte>): Frame {
    f.(phase := if f.info.blockChecksum then RawCrc([], block) else BlockHead([]))
  }

  function CrcSize(info: Info): nat { if info.blockChecksum then CHECKSUM_SIZE else 0 }

  function BlockStart(f: Frame, header: nat): Frame {
    var size := header % 0x8000_0000;
    if header == 0 then EndMark(f)
    else if size > f.info.maxBlockSize then Fail(f, MaxBlockSizeInvalid)
    else if header >= 0x8000_0000 then
      if size == 0 then RawDone(f, []) else f.(phase := Raw(size, []))
    else f.(phase := Packed([], size + CrcSize(f.info)))
  }

  function BlockHeadNext(f: Frame, buf: seq<Byte>): Frame {
    if |buf| < BLOCK_HEADER_SIZE then f.(phase := BlockHead(buf)) else BlockStart(f, Read32(buf, 0))
  }

  /** The bytes of an uncompressed block are content as they come. */
  function RawNext(f: Frame, left: nat, block: seq<Byte>, s: seq<Byte>): Frame
    requires |s| <= left
  {
    var g := f.(content := f.content + s, rem := Less(f.info, f.rem, |s|));
    if |s| == left then RawDone(g, block + s) else g.(phase := Raw(left - |s|, block + s))
  }

  function RawCrcNext(f: Frame, buf: seq<Byte>, block: seq<Byte>): Frame {
    if |buf| < CHECKSUM_SIZE then f.(phase := RawCrc(buf, block))
    else if Read32(buf, 0) != X.Hash(block, 0) then Fail(f, BlockChecksumInvalid)
    else f.(phase := BlockHead([]))
  }

  /** A compressed block and its checksum, complete. */
  function Unpack(f: Frame, buf: seq<Byte>, decode: Decoder): Frame {
    if |buf| < CrcSize(f.info) then Fail(f, BlockChecksumInvalid)
    else
      var block := buf[..|buf| - CrcSize(f.info)];
      if f.info.blockChecksum && Read32(buf, |block|) != X.Hash(block, 0) then Fail(f, BlockChecksumInvalid)
      else
        var d := decode(block, f.info.maxBlockSize);
        if d.None? then Fail(f, DecompressionFailed)
        else Frame(BlockHead([]), f.info, Less(f.info, f.rem, |d.value|), f.content + d.value)
  }

  function PackedNext(f: Frame, buf: seq<Byte>, target: nat, decode: Decoder): Frame {
    if |buf| < target then f.(phase := Packed(buf, target)) else Unpack(f, buf, decode)
  }

  function SuffixNext(f: Frame, buf: seq<Byte>): Frame {
    if |buf| < CHECKSUM_SIZE then f.(phase := Suffix(buf))
    else if Read32(buf, 0) != X.Hash(f.content, 0) then Fail(f, ContentChecksumInvalid)
    else f.(phase := Done)
  }

  function SkipNext(f: Frame, left: nat): Frame { f.(phase := if left == 0 then Done else Skip(left)) }

  function SkipSizeNext(f: Frame, buf: seq<Byte>): Frame {
    if |buf| < 4 then f.(phase := SkipSize(buf)) else SkipNext(f, Read32(buf, 0))
  }

  function FeedByte(f: Frame, b: Byte, decode: Decoder): Frame {
    match f.phase
    case Head(buf) => HeadNext(f, buf + [b])
    case BlockHead(buf) => BlockHeadNext(f, buf + [b])
    case Raw(left, block) => if left == 0 then f else RawNext(f, left, block, [b])
    case RawCrc(buf, block) => RawCrcNext(f, buf + [b], block)
    case Packed(buf, target) => PackedNext(f, buf + [b], target, decode)
    case Suffix(buf) => SuffixNext(f, buf + [b])
    case SkipSize(buf) => SkipSizeNext(f, buf + [b])
    case Skip(left) => if left == 0 then f else SkipNext(f, left - 1)
    case Done => f.(phase := Beyond)
    case Beyond => f
    case Failed(_) => f
  }

  /** Reading a string of bytes. */
  function Feed(f: Frame, s: seq<Byte>, decode: Decoder): Frame
    decreases |s|
  {
    if s == [] then f else Feed(FeedByte(f, s[0], decode), s[1..], decode)
  }

  // ---- Reading many bytes at once.

  lemma {:induction false} FeedJoin(f: Frame, a: seq<Byte>, b: seq<Byte>, decode: Decoder)
    ensures Feed(f, a + b, decode) == Feed(Feed(f, a, decode), b, decode)
    decreases |a|
  {
    hide FeedByte;
    if a == [] {
      assert a + b == b;
    } else {
      assert (a + b)[1..] == a[1..] + b;
      FeedJoin(FeedByte(f, a[0], decode), a[1..], b, decode);
    }
  }

  /** A failed frame stays so, and so does one that is read beyond its end. */
  lemma {:induction false} FeedOver(f: Frame, s: seq<Byte>, decode: Decoder)
    requires f.phase.Beyond? || f.phase.Failed?
    ensures Feed(f, s, decode) == f
    decreases |s|
  {
    if s != [] {
      FeedOver(f, s[1..], decode);
    }
  }

  lemma FeedNone(f: Frame, decode: Decoder)
    ensures Feed(f, [], decode) == f
  {
  }

  /** Nothing but the phase depends on the phase. */
  lemma BlockStartOf(f: Frame, p: Phase, header: nat)
    ensures BlockStart(f.(phase := p), header) == BlockStart(f, header)
  {
  }

  lemma UnpackOf(f: Frame, p: Phase, buf: seq<Byte>, decode: Decoder)
    ensures Unpack(f.(phase := p), buf, decode) == Unpack(f, buf, decode)
  {
    hide X.Hash, Read32;
  }

  lemma {:induction false} FeedBlockHead(f: Frame, buf: seq<Byte>, s: seq<Byte>, decode: Decoder)
    requires f.phase == BlockHead(buf) && |buf| + |s| <= BLOCK_HEADER_SIZE && |buf| < BLOCK_HEADER_SIZE && s != []
    ensures Feed(f, s, decode) == BlockHeadNext(f, buf + s)
    decreases |s|
  {
    hide BlockStart, Read32;
    var g := FeedByte(f, s[0], decode);
    if |buf + s| >= BLOCK_HEADER_SIZE {
      BlockStartOf(f, g.phase, Read32(buf + s, 0));
    }
    assert s == [s[0]] + s[1..] && (buf + [s[0]]) + s[1..] == buf + s;
    if |s| > 1 {
      FeedBlockHead(g, buf + [s[0]], s[1..], decode);
    } else {
      assert s[1..] == [] && buf + [s[0]] == buf + s;
      FeedNone(g, decode);
    }
  }

  lemma {:induction false} FeedRawCrc(f: Frame, buf: seq<Byte>, block: seq<Byte>, s: seq<Byte>, decode: Decoder)
    requires f.phase == RawCrc(buf, block) && |buf| + |s| <= CHECKSUM_SIZE && |buf| < CHECKSUM_SIZE && s != []
    ensures Feed(f, s, decode) == RawCrcNext(f, buf + s, block)
    decreases |s|
  {
    hide X.Hash, Read32;
    var g := FeedByte(f, s[0], decode);
    assert s == [s[0]] + s[1..] && (buf + [s[0]]) + s[1..] == buf + s;
    if |s| > 1 {
      FeedRawCrc(g, buf + [s[0]], block, s[1..], decode);
    } else {
      assert s[1..] == [] && buf + [s[0]] == buf + s;
      FeedNone(g, decode);
    }
  }

  lemma {:induction false} FeedPacked(f: Frame, buf: seq<Byte>, target: nat, s: seq<Byte>, decode: Decoder)
    requires f.phase == Packed(buf, target) && |buf| + |s| <= target && s != []
    ensures Feed(f, s, decode) == PackedNext(f, buf + s, target, decode)
    decreases |s|
  {
    hide Unpack;
    var g := FeedByte(f, s[0], decode);
    UnpackOf(f, g.phase, buf + s, decode);
    assert s == [s[0]] + s[1..] && (buf + [s[0]]) + s[1..] == buf + s;
    if |s| > 1 {
      FeedPacked(g, buf + [s[0]], target, s[1..], decode);
    } else {
      assert s[1..] == [] && buf + [s[0]] == buf + s;
      FeedNone(g, decode);
    }
  }

  lemma {:induction false} FeedSuffix(f: Frame, buf: seq<Byte>, s: seq<Byte>, decode: Decoder)
    requires f.phase == Suffix(buf) && |buf| + |s| <= CHECKSUM_SIZE && |buf| < CHECKSUM_SIZE && s != []
    ensures Feed(f, s, decode) == SuffixNext(f, buf + s)
    decreases |s|
  {
    hide X.Hash, Read32;
    var g := FeedByte(f, s[0], decode);
    assert s == [s[0]] + s[1..] && (buf + [s[0]]) + s[1..] == buf + s;
    if |s| > 1 {
      FeedSuffix(g, buf + [s[0]], s[1..], decode);
    } else {
      assert s[1..] == [] && buf + [s[0]] == buf + s;
      FeedNone(g, decode);
    }
  }

  lemma {:induction false} FeedSkipSize(f: Frame, buf: seq<Byte>, s: seq<Byte>, decode: Decoder)
    requires f.phase == SkipSize(buf) && |buf| + |s| <= 4 && |buf| < 4 && s != []
    ensures Feed(f, s, decode) == SkipSizeNext(f, buf + s)
    decreases |s|
  {
    hide Read32;
    var g := FeedByte(f, s[0], decode);
    assert s == [s[0]] + s[1..] && (buf + [s[0]]) + s[1..] == buf + s;
    if |s| > 1 {
      FeedSkipSize(g, buf + [s[0]], s[1..], decode);
    } else {
      assert s[1..] == [] && buf + [s[0]] == buf + s;
      FeedNone(g, decode);
    }
  }

  lemma {:induction false} FeedSkip(f: Frame, left: nat, s: seq<Byte>, decode: Decoder)
    requires f.phase == Skip(left) && |s| <= left && s != []
    ensures Feed(f, s, decode) == SkipNext(f, left - |s|)
    decreases |s|
  {
    if |s| > 1 {
      FeedSkip(FeedByte(f, s[0], decode), left - 1, s[1..], decode);
    }
  }

  lemma LessTwice(info: Info, rem: U64, a: nat, b: nat)
    ensures Less(info, Less(info, rem, a), b) == Less(info, rem, a + b)
  {
  }

  lemma {:induction false} FeedRaw(f: Frame, left: nat, block: seq<Byte>, s: seq<Byte>, decode: Decoder)
    requires f.phase == Raw(left, block) && |s| <= left && s != []
    ensures Feed(f, s, decode) == RawNext(f, left, block, s)
    decreases |s|
  {
    hide RawDone, Less;
    var g := FeedByte(f, s[0], decode);
    var first, rest := [s[0]], s[1..];
    assert s == first + rest;
    assert g == RawNext(f, left, block, first);
    if |s| > 1 {
      FeedRaw(g, left - 1, block + first, rest, decode);
      LessTwice(f.info, f.rem, 1, |rest|);
      assert (block + first) + rest == block + s && (f.content + first) + rest == f.content + s;
      RawDoneOf(f, g.phase, f.content + s, Less(f.info, f.rem, |s|), block + s);
    } else {
      assert s == first && rest == [];
      FeedNone(g, decode);
    }
  }

  lemma RawDoneOf(f: Frame, p: Phase, content: seq<Byte>, rem: U64, block: seq<Byte>)
    ensures RawDone(f.(phase := p, content := content, rem := rem), block)
            == RawDone(f.(content := content, rem := rem), block)
  {
  }

  /** A header read in full, however the bytes came. */
  lemma {:induction false} FeedHead(f: Frame, buf: seq<Byte>, s: seq<Byte>, decode: Decoder)
    requires f.phase == Head(buf) && s != []
    requires |buf| + |s| <= 4 || (|buf| >= 4 && !Skippable(buf) && |buf| + |s| <= MIN_HEADER_SIZE)
    ensures Feed(f, s, decode) == HeadNext(f, buf + s)
    decreases |s|
  {
    hide ParseHeader, Read32;
    var g := FeedByte(f, s[0], decode);
    var buf' := buf + [s[0]];
    assert s == [s[0]] + s[1..] && buf' + s[1..] == buf + s;
    if |s| > 1 {
      if |buf| >= 4 {
        SkippablePrefix(buf, [s[0]]);
      }
      FeedHead(g, buf', s[1..], decode);
    } else {
      assert s[1..] == [] && buf + [s[0]] == buf + s;
      FeedNone(g, decode);
    }
  }

  lemma SkippablePrefix(a: seq<Byte>, b: seq<Byte>)
    requires |a| >= 4
    ensures Skippable(a + b) <==> Skippable(a)
  {
    assert Read32(a + b, 0) == Read32(a, 0);
  }

  // ---- Headers.

  /** The flags decide how long the header is, so it stays incomplete until then. */
  lemma HeaderGrows(buf: seq<Byte>, s: seq<Byte>)
    requires |buf| >= MIN_HEADER_SIZE && ParseHeader(buf).Incomplete? && |buf| + |s| < ParseHeader(buf).size
    ensures ParseHeader(buf + s) == ParseHeader(buf)
  {
    hide ParseDescriptor, HeaderSize;
    assert Read32(buf + s, 0) == Read32(buf, 0);
    assert (buf + s)[4] == buf[4];
    var size := HeaderSize(buf[4]);
    HeaderSizes(buf);
    if |buf| >= size {
      DescriptorFront(buf, buf[..size], buf[4], size);
    }
  }

  lemma {:induction false} FeedHeadLong(f: Frame, buf: seq<Byte>, s: seq<Byte>, decode: Decoder)
    requires f.phase == Head(buf) && s != [] && |buf| >= MIN_HEADER_SIZE && !Skippable(buf)
    requires ParseHeader(buf).Incomplete? && |buf| + |s| <= ParseHeader(buf).size
    ensures Feed(f, s, decode) == HeadNext(f, buf + s)
    decreases |s|
  {
    hide ParseHeader, Read32;
    var g := FeedByte(f, s[0], decode);
    var buf' := buf + [s[0]];
    assert s == [s[0]] + s[1..] && buf' + s[1..] == buf + s;
    SkippablePrefix(buf, [s[0]]);
    if |s| > 1 {
      HeaderGrows(buf, [s[0]]);
      FeedHeadLong(g, buf', s[1..], decode);
    } else {
      assert s[1..] == [] && buf + [s[0]] == buf + s;
      FeedNone(g, decode);
    }
  }

  lemma {:induction false} FeedHeadShort(f: Frame, buf: seq<Byte>, s: seq<Byte>, decode: Decoder)
    requires f.phase.Head? && |buf| + |s| <= MIN_HEADER_SIZE && |buf| < MIN_HEADER_SIZE
    ensures Feed(HeadNext(f, buf), s, decode) == HeadNext(f, buf + s)
    decreases |s|
  {
    hide ParseHeader, Read32;
    if s == [] {
      assert buf + s == buf;
      FeedNone(HeadNext(f, buf), decode);
    } else {
      var b := [s[0]];
      assert s == b + s[1..] && (buf + b) + s[1..] == buf + s;
      FeedJoin(HeadNext(f, buf), b, s[1..], decode);
      HeadByte(f, buf, s[0], decode);
      assert b[1..] == [];
      FeedNone(FeedByte(HeadNext(f, buf), s[0], decode), decode);
      if |s| > 1 {
        FeedHeadShort(f, buf + b, s[1..], decode);
      } else {
        assert s[1..] == [] && buf + b == buf + s;
        FeedNone(HeadNext(f, buf + b), decode);
      }
    }
  }

  lemma HeadByte(f: Frame, buf: seq<Byte>, b: Byte, decode: Decoder)
    requires f.phase.Head? && |buf| < MIN_HEADER_SIZE
    ensures FeedByte(HeadNext(f, buf), b, decode) == HeadNext(f, buf + [b])
  {
    hide ParseHeader, Read32;
    if |buf| >= 4 {
      SkippablePrefix(buf, [b]);
      if Skippable(buf) {
        assert buf[4..] + [b] == (buf + [b])[4..];
      }
    }
  }

  /** Feeding the first seven bytes of a header, and all of it. */
  lemma FeedFront(f: Frame, a: seq<Byte>, decode: Decoder)
    requires f.phase == Head([]) && |a| == MIN_HEADER_SIZE
    ensures Feed(f, a, decode) == HeadNext(f, a)
  {
    hide HeadNext;
    HeadNextEmpty(f);
    FeedHeadShort(f, [], a, decode);
    assert [] + a == a;
  }

  lemma FeedWhole(f: Frame, a: seq<Byte>, m: seq<Byte>, decode: Decoder)
    requires f.phase == Head([]) && |a| == MIN_HEADER_SIZE && !Skippable(a) && m != []
    requires ParseHeader(a).Incomplete? && |a| + |m| <= ParseHeader(a).size
    ensures Feed(f, a + m, decode) == HeadNext(f, a + m)
  {
    hide HeadNext, ParseHeader, Skippable;
    FeedFront(f, a, decode);
    HeadNextIs(f, a);
    FeedJoin(f, a, m, decode);
    FeedHeadLong(f.(phase := Head(a)), a, m, decode);
    HeadNextOf(f, Head(a), a + m);
  }

  /** A header at the front of a long enough input, read at once. */
  lemma FeedHeader(f: Frame, s: seq<Byte>, decode: Decoder)
    requires f.phase == Head([]) && |s| >= MAX_HEADER_SIZE && !Skippable(s)
    ensures !ParseHeader(s).Incomplete?
    ensures ParseHeader(s).Bad? ==> Feed(f, s, decode).phase == Failed(ParseHeader(s).error)
    ensures var h := ParseHeader(s); h.Good? ==> MIN_HEADER_SIZE <= h.size <= |s| && Feed(f, s[..h.size], decode) == HeaderRead(f, h)
  {
    hide Read32, HeaderSize, ParseHeader, HeadNext, Skippable, Feed;
    HeaderSizes(s);
    var size := HeaderSize(s[4]);
    HeaderFront(s, size);
    var a, b := s[..MIN_HEADER_SIZE], s[..size];
    var used := if ParseHeader(a).Incomplete? && size > MIN_HEADER_SIZE then b else a;
    if used == b && size > MIN_HEADER_SIZE {
      assert b == a + s[MIN_HEADER_SIZE..size];
      FeedWhole(f, a, s[MIN_HEADER_SIZE..size], decode);
    } else {
      FeedFront(f, a, decode);
    }
    assert Feed(f, used, decode) == HeadNext(f, used);
    HeadNextIs(f, used);
    if ParseHeader(s).Bad? {
      FeedPast(f, s, used, decode);
    }
  }

  /** What a complete header leads to. */
  function HeaderRead(f: Frame, h: Header): Frame
    requires h.Good?
  {
    Frame(BlockHead([]), h.info, if h.sized then h.info.contentSize else f.rem, f.content)
  }

  lemma FeedPast(f: Frame, s: seq<Byte>, used: seq<Byte>, decode: Decoder)
    requires |used| <= |s| && used == s[..|used|] && Feed(f, used, decode).phase.Failed?
    ensures Feed(f, s, decode) == Feed(f, used, decode)
  {
    hide Feed;
    var rest := s[|used|..];
    assert s == used + rest;
    FeedJoin(f, used, rest, decode);
    FeedOver(Feed(f, used, decode), rest, decode);
  }

  lemma HeaderSizes(s: seq<Byte>)
    requires |s| >= MIN_HEADER_SIZE
    ensures MIN_HEADER_SIZE <= HeaderSize(s[4]) <= MAX_HEADER_SIZE
    ensures s[4] / 8 % 2 == 1 ==> HeaderSize(s[4]) >= 15
  {
  }

  lemma HeadNextEmpty(f: Frame)
    requires f.phase == Head([])
    ensures HeadNext(f, []) == f
  {
  }

  lemma HeadNextIs(f: Frame, buf: seq<Byte>)
    requires |buf| >= MIN_HEADER_SIZE && !Skippable(buf)
    ensures HeadNext(f, buf) ==
      match ParseHeader(buf)
      case Incomplete(_) => f.(phase := Head(buf))
      case Bad(e) => Fail(f, e)
      case Good(_, _, _) => HeaderRead(f, ParseHeader(buf))
  {
    hide ParseHeader;
  }

  lemma HeadNextOf(f: Frame, p: Phase, buf: seq<Byte>)
    ensures HeadNext(f.(phase := p), buf) == HeadNext(f, buf)
  {
    hide ParseHeader, Skippable;
  }

  /** Parsing looks at the header only: its first seven bytes decide, and then its size. */
  lemma HeaderFront(s: seq<Byte>, size: nat)
    requires |s| >= MAX_HEADER_SIZE && size == HeaderSize(s[4]) && MIN_HEADER_SIZE <= size <= |s| && !Skippable(s)
    ensures var a, b := s[..MIN_HEADER_SIZE], s[..size];
      && !Skippable(a) && !Skippable(b)
      && ParseHeader(b) == ParseHeader(s) && !ParseHeader(s).Incomplete?
      && (ParseHeader(s).Good? ==> ParseHeader(s).size == size)
      && (ParseHeader(a).Incomplete? ==> ParseHeader(a).size == size)
      && (ParseHeader(a).Good? ==> size == MIN_HEADER_SIZE)
      && (size > MIN_HEADER_SIZE && !ParseHeader(a).Incomplete? ==> ParseHeader(a) == ParseHeader(s) && ParseHeader(a).Bad?)
      && (size == MIN_HEADER_SIZE ==> a == b)
  {
    hide HeaderSize;
    var a, b := s[..MIN_HEADER_SIZE], s[..size];
    assert Read32(a, 0) == Read32(s, 0) == Read32(b, 0);
    assert a[4] == s[4] == b[4];
    HeaderSizes(s);
    DescriptorFront(s, b, s[4], size);
    hide Read32;
  }

  lemma DescriptorFront(s: seq<Byte>, b: seq<Byte>, flags: Byte, size: nat)
    requires MIN_HEADER_SIZE <= size <= |s| && b == s[..size]
    requires flags / 8 % 2 == 1 ==> size >= 15
    ensures ParseDescriptor(b, flags, size) == ParseDescriptor(s, flags, size)
    ensures ParseDescriptor(s, flags, size).Good? ==> ParseDescriptor(s, flags, size).size == size
    ensures !ParseDescriptor(s, flags, size).Incomplete?
  {
    hide X.Hash;
    assert b[4..size - 1] == s[4..size - 1];
    assert b[5] == s[5] && b[size - 1] == s[size - 1];
    if flags / 8 % 2 == 1 {
      assert Read64(b, 6) == Read64(s, 6);
    }
  }
}
