/** What a complete frame is: a header with its checksum, blocks with theirs, the end mark and the checksum of
    the content, and nothing else. */
module FrameGrammar {
  import opened Bytes
  import opened FrameFormat
  import opened FrameTheorems
  import opened FrameEncode
  import M = Xxh32Mixing
  import X = Xxh32

  // ---- The text of a frame.

  /** A block, as it is or compressed. */
  datatype Piece = Plain(data: seq<Byte>) | Coded(data: seq<Byte>)

  /** What is written in a header: the content size and the dictionary only if given. */
  datatype Heading = Heading(blockSizeID: nat, size: Option<U64>, blockChecksum: bool, contentChecksum: bool, dict: Option<U32>)

  datatype Text = SkippableText(id: nat, data: seq<Byte>) | FrameText(head: Heading, pieces: seq<Piece>)

  /** A checksum, if there is one. */
  function Crc(wanted: bool, data: seq<Byte>): seq<Byte> { if wanted then WordBytes(X.Hash(data, 0)) else [] }

  function Describes(h: Heading): Info
  {
    Info(h.blockChecksum, h.contentChecksum, if h.size.Some? then h.size.value else 0, BlockSize(h.blockSizeID))
  }

  /** Version 1, independent blocks. */
  function HeadFlags(h: Heading): Byte { Flags(h.size.Some?, h.blockChecksum, h.contentChecksum, h.dict.Some?) }

  function Fields(h: Heading): seq<Byte>
    requires 4 <= h.blockSizeID <= 7
  {
    [HeadFlags(h), 16 * h.blockSizeID] + (if h.size.Some? then Word64Bytes(h.size.value) else [])
    + (if h.dict.Some? then WordBytes(h.dict.value) else [])
  }

  function HeadText(h: Heading): seq<Byte>
    requires 4 <= h.blockSizeID <= 7
  {
    WordBytes(0x184D2204) + Fields(h) + [X.Hash(Fields(h), 0) / 256 % 256]
  }

  ghost predicate PieceOk(p: Piece, info: Info, decode: Decoder) {
    |p.data| <= info.maxBlockSize && (p.Coded? ==> p.data != [] && decode(p.data, info.maxBlockSize).Some?)
  }

  function SizeField(p: Piece): nat { |p.data| + if p.Plain? then 0x8000_0000 else 0 }

  function PieceText(p: Piece, crc: bool): seq<Byte>
    requires |p.data| < 0x8000_0000
  {
    WordBytes(SizeField(p)) + p.data + Crc(crc, p.data)
  }

  function PieceContent(p: Piece, info: Info, decode: Decoder): seq<Byte> {
    if p.Plain? then p.data
    else
      var d := decode(p.data, info.maxBlockSize);
      if d.Some? then d.value else []
  }

  ghost predicate PiecesOk(ps: seq<Piece>, info: Info, decode: Decoder) {
    info.maxBlockSize < 0x8000_0000 && forall i | 0 <= i < |ps| :: PieceOk(ps[i], info, decode)
  }

  ghost function PiecesText(ps: seq<Piece>, info: Info, decode: Decoder): seq<Byte>
    requires PiecesOk(ps, info, decode)
  {
    if ps == [] then [] else PieceText(ps[0], info.blockChecksum) + PiecesText(ps[1..], info, decode)
  }

  function PiecesContent(ps: seq<Piece>, info: Info, decode: Decoder): seq<Byte> {
    if ps == [] then [] else PieceContent(ps[0], info, decode) + PiecesContent(ps[1..], info, decode)
  }

  /** Blocks, end mark and content checksum, when `before` came ahead of them. */
  ghost function BodyText(ps: seq<Piece>, info: Info, before: seq<Byte>, decode: Decoder): seq<Byte>
    requires PiecesOk(ps, info, decode)
  {
    PiecesText(ps, info, decode) + WordBytes(0) + Crc(info.contentChecksum, before + PiecesContent(ps, info, decode))
  }

  ghost predicate TextOk(t: Text, decode: Decoder) {
    match t
    case SkippableText(id, data) => id < 16 && |data| < 0x1_0000_0000
    case FrameText(h, ps) =>
      && 4 <= h.blockSizeID <= 7 && PiecesOk(ps, Describes(h), decode)
      && (h.size.Some? && h.size.value != 0 ==>
            (h.size.value - |PiecesContent(ps, Describes(h), decode)|) % 0x1_0000_0000_0000_0000 == 0)
  }

  ghost function TextBytes(t: Text, decode: Decoder): seq<Byte>
    requires TextOk(t, decode)
  {
    match t
    case SkippableText(id, data) => WordBytes(0x184D2A50 + id) + WordBytes(|data|) + data
    case FrameText(h, ps) => HeadText(h) + BodyText(ps, Describes(h), [], decode)
  }

  function TextContent(t: Text, decode: Decoder): seq<Byte> {
    match t
    case SkippableText(_, _) => []
    case FrameText(h, ps) => PiecesContent(ps, Describes(h), decode)
  }

  // ---- Words.

  lemma WordIs(w: seq<Byte>)
    requires |w| == 4
    ensures WordBytes(Read32(w, 0)) == w
  {
    var x := Read32(w, 0);
    WordBack(x);
    var v := WordBytes(x);
    M.FourBytes(w[0], w[1], w[2], w[3], v[0], v[1], v[2], v[3]);
  }

  lemma WordAtFront(w: seq<Byte>, rest: seq<Byte>)
    requires |w| == 4
    ensures (w + rest)[..4] == w && (w + rest)[4..] == rest && Read32(w + rest, 0) == Read32(w, 0)
  {
    WordAt(w + rest, 0, w);
  }

  lemma FrontWord(s: seq<Byte>)
    requires |s| >= 4
    ensures s == WordBytes(Read32(s, 0)) + s[4..]
  {
    WordIs(s[..4]);
    WordAtFront(s[..4], s[4..]);
    assert s == s[..4] + s[4..];
  }

  // ---- Reading the body.

  /** A word where a block header stands. */
  lemma ReadHeader(f: Frame, x: U32, rest: seq<Byte>, decode: Decoder)
    requires f.phase == BlockHead([])
    ensures Feed(f, WordBytes(x) + rest, decode) == Feed(BlockStart(f, x), rest, decode)
  {
    hide Feed, Read32, WordBytes, BlockStart;
    FeedJoin(f, WordBytes(x), rest, decode);
    FeedBlockHead(f, [], WordBytes(x), decode);
    assert [] + WordBytes(x) == WordBytes(x);
    WordBack(x);
  }

  /** A complete block, before its checksum is looked at. */
  lemma ReadData(f: Frame, p: Piece, crc: seq<Byte>, decode: Decoder)
    requires f.phase == BlockHead([]) && |p.data| <= f.info.maxBlockSize < 0x8000_0000 && (p.Coded? ==> p.data != [])
    requires |crc| == CrcSize(f.info)
    ensures var g := Feed(BlockStart(f, SizeField(p)), p.data + crc, decode);
      if f.info.blockChecksum && Read32(crc, 0) != X.Hash(p.data, 0) then g.phase == Failed(BlockChecksumInvalid)
      else if p.Coded? && decode(p.data, f.info.maxBlockSize).None? then g.phase == Failed(DecompressionFailed)
      else g == Frame(BlockHead([]), f.info, Less(f.info, f.rem, |PieceContent(p, f.info, decode)|),
                      f.content + PieceContent(p, f.info, decode))
  {
    hide Feed, X.Hash, Read32, Less;
    if p.Coded? {
      ReadCoded(f, p.data, crc, decode);
    } else {
      ReadPlain(f, p.data, crc, decode);
    }
  }

  lemma ReadCoded(f: Frame, data: seq<Byte>, crc: seq<Byte>, decode: Decoder)
    requires |crc| == CrcSize(f.info) && data != []
    ensures Feed(f.(phase := Packed([], |data| + CrcSize(f.info))), data + crc, decode) ==
      if f.info.blockChecksum && Read32(crc, 0) != X.Hash(data, 0) then Fail(f, BlockChecksumInvalid)
      else
        var d := decode(data, f.info.maxBlockSize);
        if d.None? then Fail(f, DecompressionFailed)
        else Frame(BlockHead([]), f.info, Less(f.info, f.rem, |d.value|), f.content + d.value)
  {
    hide Feed, X.Hash, Read32, Less;
    var g := f.(phase := Packed([], |data| + CrcSize(f.info)));
    FeedPacked(g, [], |data| + CrcSize(f.info), data + crc, decode);
    assert [] + (data + crc) == data + crc;
    assert (data + crc)[..|data|] == data;
    if f.info.blockChecksum {
      WordMoves(data, crc);
    }
  }

  lemma ReadPlain(f: Frame, data: seq<Byte>, crc: seq<Byte>, decode: Decoder)
    requires f.phase == BlockHead([]) && |crc| == CrcSize(f.info) && |data| <= f.info.maxBlockSize < 0x8000_0000
    ensures var g := Feed(BlockStart(f, |data| + 0x8000_0000), data + crc, decode);
      if f.info.blockChecksum && Read32(crc, 0) != X.Hash(data, 0) then g.phase == Failed(BlockChecksumInvalid)
      else g == Frame(BlockHead([]), f.info, Less(f.info, f.rem, |data|), f.content + data)
  {
    hide Feed, X.Hash, Read32, Less;
    var g := BlockStart(f, |data| + 0x8000_0000);
    FeedJoin(g, data, crc, decode);
    if data == [] {
      FeedNone(g, decode);
      NothingLess(f.info, f.rem);
      assert f.content + data == f.content;
    } else {
      FeedRaw(g, |data|, [], data, decode);
      assert [] + data == data;
    }
    var h := Feed(g, data, decode);
    if f.info.blockChecksum {
      FeedRawCrc(h, [], data, crc, decode);
      assert [] + crc == crc;
    } else {
      FeedNone(h, decode);
    }
  }

  lemma CrcIs(wanted: bool, data: seq<Byte>)
    ensures |Crc(wanted, data)| == (if wanted then 4 else 0) && (wanted ==> Read32(Crc(wanted, data), 0) == X.Hash(data, 0))
  {
    hide X.Hash, Read32;
    WordBack(X.Hash(data, 0));
  }

  /** One block of the text. */
  lemma ReadPiece(f: Frame, p: Piece, rest: seq<Byte>, decode: Decoder)
    requires f.phase == BlockHead([]) && PieceOk(p, f.info, decode) && f.info.maxBlockSize < 0x8000_0000
    ensures Feed(f, PieceText(p, f.info.blockChecksum) + rest, decode)
         == Feed(Frame(BlockHead([]), f.info, Less(f.info, f.rem, |PieceContent(p, f.info, decode)|),
                       f.content + PieceContent(p, f.info, decode)), rest, decode)
  {
    hide Feed, X.Hash, Read32, Less, Crc, WordBytes, BlockStart, PieceContent;
    var w, crc := WordBytes(SizeField(p)), Crc(f.info.blockChecksum, p.data);
    CrcIs(f.info.blockChecksum, p.data);
    assert PieceText(p, f.info.blockChecksum) + rest == w + (p.data + crc + rest);
    ReadHeader(f, SizeField(p), p.data + crc + rest, decode);
    FeedJoin(BlockStart(f, SizeField(p)), p.data + crc, rest, decode);
    ReadData(f, p, crc, decode);
  }

  lemma PieceSmall(p: Piece, info: Info, decode: Decoder)
    requires PieceOk(p, info, decode)
    ensures |p.data| <= info.maxBlockSize
  {
  }

  /** All the blocks. */
  lemma {:induction false} ReadPieces(f: Frame, ps: seq<Piece>, rest: seq<Byte>, decode: Decoder)
    requires f.phase == BlockHead([]) && PiecesOk(ps, f.info, decode)
    ensures Feed(f, PiecesText(ps, f.info, decode) + rest, decode)
         == Feed(Frame(BlockHead([]), f.info, Less(f.info, f.rem, |PiecesContent(ps, f.info, decode)|),
                       f.content + PiecesContent(ps, f.info, decode)), rest, decode)
    decreases |ps|
  {
    hide Feed, Less, PieceText, PieceContent, PieceOk;
    if ps == [] {
      NothingLess(f.info, f.rem);
      assert [] + rest == rest && f.content + [] == f.content;
    } else {
      var p, c := ps[0], PieceContent(ps[0], f.info, decode);
      PieceSmall(p, f.info, decode);
      var d := PiecesContent(ps[1..], f.info, decode);
      var more := PiecesText(ps[1..], f.info, decode) + rest;
      assert PiecesText(ps, f.info, decode) + rest == PieceText(p, f.info.blockChecksum) + more;
      ReadPiece(f, p, more, decode);
      ReadPieces(Frame(BlockHead([]), f.info, Less(f.info, f.rem, |c|), f.content + c), ps[1..], rest, decode);
      LessTwice(f.info, f.rem, |c|, |d|);
      assert f.content + c + d == f.content + (c + d);
    }
  }

  /** The end mark and what follows it. */
  lemma ReadEnd(f: Frame, crc: seq<Byte>, decode: Decoder)
    requires f.phase == BlockHead([]) && (|crc| == if f.info.contentChecksum then 4 else 0)
    ensures var g := Feed(f, WordBytes(0) + crc, decode);
      if f.rem != 0 then g.phase == Failed(FrameSizeWrong)
      else if f.info.contentChecksum && Read32(crc, 0) != X.Hash(f.content, 0) then
        g.phase == Failed(ContentChecksumInvalid)
      else g.phase == Done && g.content == f.content
  {
    hide Feed, X.Hash, Read32, WordBytes;
    ReadHeader(f, 0, crc, decode);
    var g := BlockStart(f, 0);
    if f.rem != 0 {
      FeedOver(g, crc, decode);
    } else if f.info.contentChecksum {
      FeedSuffix(g, [], crc, decode);
      assert [] + crc == crc;
    } else {
      FeedNone(g, decode);
    }
  }

  /** The body, with whatever stands where the content checksum belongs. */
  lemma ReadBody(f: Frame, ps: seq<Piece>, crc: seq<Byte>, decode: Decoder)
    requires f.phase == BlockHead([]) && PiecesOk(ps, f.info, decode) && (|crc| == if f.info.contentChecksum then 4 else 0)
    ensures var g := Feed(f, PiecesText(ps, f.info, decode) + (WordBytes(0) + crc), decode);
      var content := f.content + PiecesContent(ps, f.info, decode);
      if Less(f.info, f.rem, |PiecesContent(ps, f.info, decode)|) != 0 then g.phase == Failed(FrameSizeWrong)
      else if f.info.contentChecksum && Read32(crc, 0) != X.Hash(content, 0) then
        g.phase == Failed(ContentChecksumInvalid)
      else g.phase == Done && g.content == content
  {
    hide Feed, X.Hash, Read32, WordBytes, Less, PiecesText, PiecesContent, PiecesOk;
    ReadPieces(f, ps, WordBytes(0) + crc, decode);
    var c := PiecesContent(ps, f.info, decode);
    ReadEnd(Frame(BlockHead([]), f.info, Less(f.info, f.rem, |c|), f.content + c), crc, decode);
  }

  // ---- Nothing else is read to its end.

  /** Words at most three bytes long leave the header of a block incomplete. */
  lemma ShortWord(f: Frame, s: seq<Byte>, decode: Decoder)
    requires f.phase == BlockHead([]) && |s| < 4
    ensures !Feed(f, s, decode).phase.Done?
  {
    hide Feed, BlockStart, Read32;
    if s == [] {
      FeedNone(f, decode);
    } else {
      FeedBlockHead(f, [], s, decode);
    }
  }

  /** What the end mark leads to ends only as ReadEnd says. */
  lemma EndShape(f: Frame, s: seq<Byte>, decode: Decoder)
    requires Feed(EndMark(f), s, decode).phase.Done?
    ensures f.rem == 0 && s == Crc(f.info.contentChecksum, f.content) && Feed(EndMark(f), s, decode).content == f.content
  {
    hide Feed, X.Hash, Read32, WordBytes;
    var g := EndMark(f);
    if f.rem != 0 {
      FeedOver(g, s, decode);
    } else if f.info.contentChecksum {
      SuffixShape(g, s, decode);
    } else {
      DoneShape(g, s, decode);
    }
  }

  lemma DoneShape(f: Frame, s: seq<Byte>, decode: Decoder)
    requires f.phase.Done? && Feed(f, s, decode).phase.Done?
    ensures s == [] && Feed(f, s, decode) == f
  {
    if s != [] {
      FeedOver(FeedByte(f, s[0], decode), s[1..], decode);
    }
  }

  lemma SuffixShape(f: Frame, s: seq<Byte>, decode: Decoder)
    requires f.phase == Suffix([]) && Feed(f, s, decode).phase.Done?
    ensures s == WordBytes(X.Hash(f.content, 0)) && Feed(f, s, decode).content == f.content
  {
    hide Feed, X.Hash, Read32, WordBytes;
    var w := if |s| < 4 then s else s[..4];
    if w == [] {
      FeedNone(f, decode);
    } else {
      FeedSuffix(f, [], w, decode);
      assert [] + w == w;
    }
    if |s| >= 4 {
      assert s == w + s[4..];
      FeedJoin(f, w, s[4..], decode);
      AfterSuffix(f, w, s[4..], decode);
      WordIs(w);
      assert w + [] == w;
    }
  }

  lemma AfterSuffix(f: Frame, w: seq<Byte>, rest: seq<Byte>, decode: Decoder)
    requires |w| == 4 && Feed(SuffixNext(f, w), rest, decode).phase.Done?
    ensures Read32(w, 0) == X.Hash(f.content, 0) && rest == []
    ensures Feed(SuffixNext(f, w), rest, decode).content == f.content
  {
    hide Feed, X.Hash, Read32;
    var g := SuffixNext(f, w);
    if Read32(w, 0) != X.Hash(f.content, 0) {
      FeedOver(g, rest, decode);
    } else {
      DoneShape(g, rest, decode);
    }
  }

  /** A block that is cut short leaves the frame unfinished. */
  lemma ShortData(f: Frame, w: U32, s: seq<Byte>, decode: Decoder)
    requires w != 0 && w % 0x8000_0000 <= f.info.maxBlockSize && |s| < w % 0x8000_0000 + CrcSize(f.info)
    ensures !Feed(BlockStart(f, w), s, decode).phase.Done?
  {
    hide Feed, X.Hash, Read32, Unpack, Less;
    var g, size := BlockStart(f, w), w % 0x8000_0000;
    if s == [] {
      FeedNone(g, decode);
    } else if w < 0x8000_0000 {
      FeedPacked(g, [], size + CrcSize(f.info), s, decode);
      assert [] + s == s;
    } else if |s| < size {
      FeedRaw(g, size, [], s, decode);
    } else {
      ShortCrc(f, w, s, decode);
    }
  }

  lemma ShortCrc(f: Frame, w: U32, s: seq<Byte>, decode: Decoder)
    requires w >= 0x8000_0000 && w - 0x8000_0000 <= f.info.maxBlockSize && s != []
    requires w - 0x8000_0000 <= |s| < w - 0x8000_0000 + CrcSize(f.info)
    ensures !Feed(BlockStart(f, w), s, decode).phase.Done?
  {
    hide Feed, X.Hash, Read32, Less;
    var size := w - 0x8000_0000;
    var g, data, crc := BlockStart(f, w), s[..size], s[size..];
    assert s == data + crc;
    FeedJoin(g, data, crc, decode);
    if data == [] {
      FeedNone(g, decode);
    } else {
      FeedRaw(g, size, [], data, decode);
    }
    var h := Feed(g, data, decode);
    if crc == [] {
      FeedNone(h, decode);
    } else {
      FeedRawCrc(h, [], h.phase.block, crc, decode);
      assert [] + crc == crc;
    }
  }

  /** Where a block begins, a piece of the text stands. */
  lemma PieceShape(f: Frame, w: U32, s: seq<Byte>, decode: Decoder) returns (p: Piece, rest: seq<Byte>)
    requires f.phase == BlockHead([]) && w != 0 && f.info.maxBlockSize < 0x8000_0000
    requires Feed(BlockStart(f, w), s, decode).phase.Done?
    ensures PieceOk(p, f.info, decode) && SizeField(p) == w && s == p.data + Crc(f.info.blockChecksum, p.data) + rest
    ensures Feed(BlockStart(f, w), s, decode)
         == Feed(Frame(BlockHead([]), f.info, Less(f.info, f.rem, |PieceContent(p, f.info, decode)|),
                       f.content + PieceContent(p, f.info, decode)), rest, decode)
  {
    hide Feed, X.Hash, Read32, Less, PieceContent, WordBytes;
    var size := w % 0x8000_0000;
    SmallBlock(f, w, s, decode);
    if |s| < size + CrcSize(f.info) {
      ShortData(f, w, s, decode);
    }
    var data, crc := s[..size], s[size..size + CrcSize(f.info)];
    p := if w < 0x8000_0000 then Coded(data) else Plain(data);
    rest := s[size + CrcSize(f.info)..];
    assert s == data + crc + rest;
    FeedJoin(BlockStart(f, w), data + crc, rest, decode);
    ReadData(f, p, crc, decode);
    var g := Feed(BlockStart(f, w), data + crc, decode);
    if g.phase.Failed? {
      FeedOver(g, rest, decode);
    }
    CrcBack(f.info.blockChecksum, crc, data);
  }

  lemma SmallBlock(f: Frame, w: U32, s: seq<Byte>, decode: Decoder)
    requires w != 0 && Feed(BlockStart(f, w), s, decode).phase.Done?
    ensures w % 0x8000_0000 <= f.info.maxBlockSize
  {
    hide Feed;
    if w % 0x8000_0000 > f.info.maxBlockSize {
      FeedOver(BlockStart(f, w), s, decode);
    }
  }

  lemma CrcBack(wanted: bool, crc: seq<Byte>, data: seq<Byte>)
    requires |crc| == (if wanted then 4 else 0) && (wanted ==> Read32(crc, 0) == X.Hash(data, 0))
    ensures crc == Crc(wanted, data)
  {
    hide X.Hash, Read32, WordBytes;
    if wanted {
      WordIs(crc);
    }
  }

  /** From the header of a block on: blocks, the end mark and the checksum. */
  lemma {:induction false} BodyShape(f: Frame, s: seq<Byte>, decode: Decoder) returns (ps: seq<Piece>)
    requires f.phase == BlockHead([]) && f.info.maxBlockSize < 0x8000_0000 && Feed(f, s, decode).phase.Done?
    ensures PiecesOk(ps, f.info, decode) && s == BodyText(ps, f.info, f.content, decode)
    ensures Less(f.info, f.rem, |PiecesContent(ps, f.info, decode)|) == 0
    ensures Feed(f, s, decode).content == f.content + PiecesContent(ps, f.info, decode)
    decreases |s|
  {
    hide Feed, X.Hash, Read32, Less, PieceContent, WordBytes, PieceOk, BlockStart, PieceText, PiecesText, PiecesContent, Crc;
    if |s| < 4 {
      ShortWord(f, s, decode);
    }
    var w := Read32(s, 0);
    FrontWord(s);
    ReadHeader(f, w, s[4..], decode);
    if w == 0 {
      ps := [];
      BodyEnds(f, s, decode);
    } else {
      var p, rest := PieceShape(f, w, s[4..], decode);
      PieceSmall(p, f.info, decode);
      assert s == PieceText(p, f.info.blockChecksum) + rest by { PieceTextIs(p, f.info.blockChecksum, rest); }
      var c := PieceContent(p, f.info, decode);
      var g := Frame(BlockHead([]), f.info, Less(f.info, f.rem, |c|), f.content + c);
      var qs := BodyShape(g, rest, decode);
      ps := [p] + qs;
      LessTwice(f.info, f.rem, |c|, |PiecesContent(qs, f.info, decode)|);
      BodyMore(p, qs, f.info, f.content, decode);
    }
  }

  lemma PieceTextIs(p: Piece, crc: bool, rest: seq<Byte>)
    requires |p.data| < 0x8000_0000
    ensures PieceText(p, crc) + rest == WordBytes(SizeField(p)) + (p.data + Crc(crc, p.data) + rest)
  {
    hide Crc, WordBytes;
  }

  lemma BodyMore(p: Piece, qs: seq<Piece>, info: Info, before: seq<Byte>, decode: Decoder)
    requires PieceOk(p, info, decode) && |p.data| < 0x8000_0000 && PiecesOk(qs, info, decode)
    ensures PiecesOk([p] + qs, info, decode)
    ensures PiecesContent([p] + qs, info, decode) == PieceContent(p, info, decode) + PiecesContent(qs, info, decode)
    ensures BodyText([p] + qs, info, before, decode)
         == PieceText(p, info.blockChecksum) + BodyText(qs, info, before + PieceContent(p, info, decode), decode)
    ensures before + PiecesContent([p] + qs, info, decode)
         == before + PieceContent(p, info, decode) + PiecesContent(qs, info, decode)
  {
    hide Crc, WordBytes, PieceText, PieceContent, PieceOk;
    assert ([p] + qs)[1..] == qs;
    var c, d := PieceContent(p, info, decode), PiecesContent(qs, info, decode);
    assert before + (c + d) == before + c + d;
  }

  lemma BodyEnds(f: Frame, s: seq<Byte>, decode: Decoder)
    requires |s| >= 4 && s == WordBytes(0) + s[4..] && Feed(BlockStart(f, 0), s[4..], decode).phase.Done?
    requires f.info.maxBlockSize < 0x8000_0000
    ensures PiecesOk([], f.info, decode) && s == BodyText([], f.info, f.content, decode)
    ensures Less(f.info, f.rem, |PiecesContent([], f.info, decode)|) == 0
    ensures Feed(BlockStart(f, 0), s[4..], decode).content == f.content + PiecesContent([], f.info, decode)
  {
    hide Feed, X.Hash, Crc, WordBytes;
    EndShape(f, s[4..], decode);
    NothingLess(f.info, f.rem);
    assert f.content + [] == f.content;
    assert [] + WordBytes(0) == WordBytes(0);
  }

  // ---- The header.

  lemma FieldsSize(h: Heading)
    requires 4 <= h.blockSizeID <= 7
    ensures |Fields(h)| == HeaderSize(HeadFlags(h)) - 5 && Fields(h)[0] == HeadFlags(h) && Fields(h)[1] == 16 * h.blockSizeID
  {
    FlagBits(h.size.Some?, h.blockChecksum, h.contentChecksum, h.dict.Some?);
    hide Word64Bytes, WordBytes;
  }

  /** The text of a header parses to what it describes. */
  lemma HeadParses(h: Heading)
    requires 4 <= h.blockSizeID <= 7
    ensures var t := HeadText(h);
      && MIN_HEADER_SIZE <= |t| && !Skippable(t) && |t| == HeaderSize(t[4])
      && ParseHeader(t) == FrameFormat.Header.Good(|t|, Describes(h), h.size.Some?)
  {
    hide X.Hash, BlockSize, HeaderSize, Read32, Read64, WordBytes, Word64Bytes, Flags, ParseDescriptor;
    var d, t, magic := Fields(h), HeadText(h), WordBytes(0x184D2204);
    FieldsSize(h);
    FlagBits(h.size.Some?, h.blockChecksum, h.contentChecksum, h.dict.Some?);
    WordBack(0x184D2204);
    WordAt(t, 0, magic);
    assert t[4..|t| - 1] == d;
    assert t[4] == HeadFlags(h) && t[5] == 16 * h.blockSizeID;
    HeaderSizes(t);
    if h.size.Some? {
      var post := (if h.dict.Some? then WordBytes(h.dict.value) else []) + [X.Hash(d, 0) / 256 % 256];
      assert t == (magic + [HeadFlags(h), 16 * h.blockSizeID]) + Word64Bytes(h.size.value) + post;
      Word64Back(h.size.value, magic + [HeadFlags(h), 16 * h.blockSizeID], post);
    }
    DescriptorParses(t, HeadFlags(h), h.blockSizeID, |t|);
  }

  lemma FlagsBack(f: Byte)
    requires f / 64 == 1 && f / 2 % 2 == 0 && f / 32 % 2 == 1
    ensures Flags(f / 8 % 2 == 1, f / 16 % 2 == 1, f / 4 % 2 == 1, f % 2 == 1) == f
  {
    var a, b, c, d := f / 32, f / 16, f / 8, f / 4;
    assert b == 2 * a + f / 16 % 2 && c == 2 * b + f / 8 % 2 && d == 2 * c + f / 4 % 2;
    assert f == 2 * (f / 2) + f % 2 && f / 2 == 2 * d + f / 2 % 2;
    assert a == 3;
  }

  /** What a header that parses describes. */
  function HeadOf(s: seq<Byte>): Heading
    requires |s| >= MAX_HEADER_SIZE
  {
    var sized := s[4] / 8 % 2 == 1;
    Heading(s[5] / 16 % 8, if sized then Some(Read64(s, 6)) else None, s[4] / 16 % 2 == 1, s[4] / 4 % 2 == 1,
         if s[4] % 2 == 1 then Some(Read32(s, if sized then 14 else 6)) else None)
  }

  lemma LongWordIs(w: seq<Byte>)
    requires |w| == 8
    ensures Word64Bytes(Read64(w, 0)) == w
  {
    hide Read32, WordBytes;
    var lo, hi := Read32(w[..4], 0), Read32(w[4..], 0);
    WordIs(w[..4]);
    WordIs(w[4..]);
    HalvesOf(w);
    assert w == w[..4] + w[4..];
  }

  lemma HalvesOf(w: seq<Byte>)
    requires |w| == 8
    ensures Read64(w, 0) % 0x1_0000_0000 == Read32(w[..4], 0) && Read64(w, 0) / 0x1_0000_0000 == Read32(w[4..], 0)
  {
    WordAt(w, 0, w[..4]);
    WordAt(w, 4, w[4..]);
    hide Read32;
  }

  /** A header that parses is the text of what it describes. */
  lemma HeadShape(s: seq<Byte>)
    requires |s| >= MAX_HEADER_SIZE && ParseHeader(s).Good?
    ensures var g := ParseHeader(s); var h := HeadOf(s);
      && 4 <= h.blockSizeID <= 7 && h.size.Some? == g.sized && Describes(h) == g.info
      && MIN_HEADER_SIZE <= g.size == HeaderSize(s[4]) <= |s| && HeadText(h) == s[..g.size]
  {
    hide X.Hash, BlockSize, Read32, Read64, WordBytes, Word64Bytes, Flags;
    var h, size := HeadOf(s), HeaderSize(s[4]);
    HeaderSizes(s);
    FlagsBack(s[4]);
    FrontWord(s);
    SizeDigit(s[5]);
    FieldsBack(s, h, size);
    LastByte(s, size);
  }

  lemma LastByte(s: seq<Byte>, size: nat)
    requires MIN_HEADER_SIZE <= size <= |s|
    ensures s[..size] == s[..4] + s[4..size - 1] + [s[size - 1]]
  {
  }

  lemma SizeDigit(b: Byte)
    requires b / 128 == 0 && b % 16 == 0
    ensures 16 * (b / 16 % 8) == b
  {
  }

  lemma FieldsBack(s: seq<Byte>, h: Heading, size: nat)
    requires |s| >= MAX_HEADER_SIZE && h == HeadOf(s) && size == HeaderSize(s[4]) && 4 <= h.blockSizeID <= 7
    requires HeadFlags(h) == s[4] && 16 * h.blockSizeID == s[5]
    ensures size <= |s| && Fields(h) == s[4..size - 1]
  {
    hide Read32, Read64, WordBytes, Word64Bytes, Flags, HeadFlags;
    HeaderSizes(s);
    var p := if h.size.Some? then 14 else 6;
    if h.size.Some? {
      LongWordIs(s[6..14]);
      LongAt(s, 6);
    }
    if h.dict.Some? {
      WordIs(s[p..p + 4]);
      WordAt(s, p, s[p..p + 4]);
    }
    assert size - 1 == p + if h.dict.Some? then 4 else 0;
    ThreeParts(s, p, size - 1);
  }

  lemma ThreeParts(s: seq<Byte>, p: nat, q: nat)
    requires 6 <= p <= q <= |s|
    ensures s[4..q] == [s[4], s[5]] + s[6..p] + s[p..q]
  {
  }

  lemma LongAt(s: seq<Byte>, p: nat)
    requires p + 8 <= |s|
    ensures Read64(s, p) == Read64(s[p..p + 8], 0)
  {
    WordAt(s, p, s[p..p + 4]);
    WordAt(s, p + 4, s[p + 4..p + 8]);
    WordAt(s[p..p + 8], 0, s[p..p + 4]);
    WordAt(s[p..p + 8], 4, s[p + 4..p + 8]);
    hide Read32;
  }

  // ---- Skippable frames.

  lemma ReadSkippable(id: nat, data: seq<Byte>, decode: Decoder)
    requires id < 16 && |data| < 0x1_0000_0000
    ensures var g := Feed(Start(0), WordBytes(0x184D2A50 + id) + WordBytes(|data|) + data, decode);
      g.phase.Done? && g.content == []
  {
    hide Feed, Read32, WordBytes, Start, HeadNext;
    var w := WordBytes(0x184D2A50 + id);
    WordBack(0x184D2A50 + id);
    assert w + WordBytes(|data|) + data == w + (WordBytes(|data|) + data);
    FeedJoin(Start(0), w, WordBytes(|data|) + data, decode);
    SkipStart(w, decode);
    SkipRead(Start(0).(phase := SkipSize([])), data, decode);
  }

  lemma SkipStart(w: seq<Byte>, decode: Decoder)
    requires |w| == 4 && Skippable(w)
    ensures Feed(Start(0), w, decode) == Start(0).(phase := SkipSize([])) && Start(0).content == []
  {
    hide Feed, Read32;
    FeedHead(Start(0), [], w, decode);
    assert [] + w == w && w[4..] == [];
  }

  lemma SkipRead(f: Frame, data: seq<Byte>, decode: Decoder)
    requires f.phase == SkipSize([]) && |data| < 0x1_0000_0000
    ensures var g := Feed(f, WordBytes(|data|) + data, decode); g.phase.Done? && g.content == f.content
  {
    hide Feed, Read32, WordBytes;
    var w := WordBytes(|data|);
    WordBack(|data|);
    FeedJoin(f, w, data, decode);
    FeedSkipSize(f, [], w, decode);
    assert [] + w == w;
    if data == [] {
      FeedNone(Feed(f, w, decode), decode);
    } else {
      FeedSkip(Feed(f, w, decode), |data|, data, decode);
    }
  }

  lemma SkipShape(f: Frame, s: seq<Byte>, decode: Decoder)
    requires f.phase == SkipSize([]) && Feed(f, s, decode).phase.Done?
    ensures |s| >= 4 && |s| - 4 == Read32(s, 0) && s == WordBytes(|s| - 4) + s[4..] && Feed(f, s, decode).content == f.content
  {
    hide Feed, Read32, WordBytes;
    if |s| < 4 {
      ShortSkip(f, s, decode);
    }
    var w, rest := s[..4], s[4..];
    assert s == w + rest;
    WordAtFront(w, rest);
    WordIs(w);
    FeedJoin(f, w, rest, decode);
    FeedSkipSize(f, [], w, decode);
    assert [] + w == w;
    SkipEnds(Feed(f, w, decode), Read32(w, 0), rest, decode);
  }

  lemma ShortSkip(f: Frame, s: seq<Byte>, decode: Decoder)
    requires f.phase == SkipSize([]) && |s| < 4
    ensures !Feed(f, s, decode).phase.Done?
  {
    hide Feed, Read32;
    if s == [] {
      FeedNone(f, decode);
    } else {
      FeedSkipSize(f, [], s, decode);
    }
  }

  lemma SkipEnds(f: Frame, left: nat, s: seq<Byte>, decode: Decoder)
    requires f.phase == (if left == 0 then Phase.Done else Skip(left)) && Feed(f, s, decode).phase.Done?
    ensures |s| == left && Feed(f, s, decode).content == f.content
  {
    hide Feed;
    if left == 0 {
      DoneShape(f, s, decode);
    } else if s == [] {
      FeedNone(f, decode);
    } else if |s| <= left {
      FeedSkip(f, left, s, decode);
    } else {
      assert s == s[..left] + s[left..];
      FeedJoin(f, s[..left], s[left..], decode);
      FeedSkip(f, left, s[..left], decode);
      DoneShape(Feed(f, s[..left], decode), s[left..], decode);
    }
  }

  // ---- Complete frames.

  /** Reading a header's text from the start. */
  lemma ReadHead(h: Heading, rest: seq<Byte>, decode: Decoder)
    requires 4 <= h.blockSizeID <= 7
    ensures Feed(Start(0), HeadText(h) + rest, decode) == Feed(AtFirst(h), rest, decode)
  {
    hide Feed, X.Hash, HeadText, Describes, ParseHeader, HeaderSize, Skippable;
    HeadParses(h);
    HeaderFeeds(HeadText(h), decode);
    FeedJoin(Start(0), HeadText(h), rest, decode);
    AtFirstIs(h);
  }

  /** At the first block. */
  function AtFirst(h: Heading): Frame {
    Frame(BlockHead([]), Describes(h), if h.size.Some? then h.size.value else 0, [])
  }

  lemma AtFirstIs(h: Heading)
    requires 4 <= h.blockSizeID <= 7
    ensures AtFirst(h) == HeaderRead(Start(0), FrameFormat.Header.Good(|HeadText(h)|, Describes(h), h.size.Some?))
  {
    hide BlockSize, HeadText;
  }

  /** A text reads to its end, as its content. */
  lemma TextReads(t: Text, decode: Decoder)
    requires TextOk(t, decode)
    ensures var g := Feed(Start(0), TextBytes(t, decode), decode); g.phase.Done? && g.content == TextContent(t, decode)
  {
    hide Feed, X.Hash, HeadText, PiecesText, PiecesContent, PiecesOk, Crc, WordBytes, Start;
    match t
    case SkippableText(id, data) =>
      ReadSkippable(id, data, decode);
    case FrameText(h, ps) =>
      var f := AtFirst(h);
      var c := PiecesContent(ps, f.info, decode);
      var crc := Crc(f.info.contentChecksum, [] + c);
      assert [] + c == c;
      CrcIs(f.info.contentChecksum, c);
      assert PiecesText(ps, f.info, decode) + WordBytes(0) + crc == PiecesText(ps, f.info, decode) + (WordBytes(0) + crc);
      ReadHead(h, BodyText(ps, f.info, [], decode), decode);
      ReadBody(f, ps, crc, decode);
  }

  const PAD: seq<Byte> := [0, 0, 0, 0, 0, 0, 0, 0, 0, 0, 0, 0, 0, 0, 0, 0, 0, 0, 0]

  /** What is read to its end has a complete header at its front. */
  lemma FrontShape(s: seq<Byte>, decode: Decoder)
    requires |s| >= 4 && !Skippable(s) && Feed(Start(0), s, decode).phase.Done?
    ensures ParseHeader(s + PAD).Good? && MIN_HEADER_SIZE <= ParseHeader(s + PAD).size <= |s|
    ensures Feed(Start(0), s[..ParseHeader(s + PAD).size], decode) == HeaderRead(Start(0), ParseHeader(s + PAD))
  {
    hide Feed, ParseHeader, Skippable, Start;
    var sp := s + PAD;
    StartHead();
    SkippablePrefix(s, PAD);
    FeedHeader(Start(0), sp, decode);
    assert sp[..|s|] == s && sp[..|sp|] == sp;
    EndsOnce(Start(0), sp, |s|, |sp|, decode);
    var size := ParseHeader(sp).size;
    if size > |s| {
      EndsOnce(Start(0), sp, |s|, size, decode);
    } else {
      assert sp[..size] == s[..size];
    }
  }

  lemma StartHead()
    ensures Start(0).phase == FrameFormat.Phase.Head([]) && Start(0).content == [] && Start(0).rem == 0
  {
  }

  lemma ShortStart(s: seq<Byte>, decode: Decoder)
    requires |s| < 4
    ensures !Feed(Start(0), s, decode).phase.Done?
  {
    hide Feed;
    if s == [] {
      FeedNone(Start(0), decode);
    } else {
      FeedHead(Start(0), [], s, decode);
    }
  }

  /** Whatever reads to its end is a text. */
  lemma TextShape(s: seq<Byte>, decode: Decoder) returns (t: Text)
    requires Feed(Start(0), s, decode).phase.Done?
    ensures TextOk(t, decode) && TextBytes(t, decode) == s
    ensures TextContent(t, decode) == Feed(Start(0), s, decode).content
  {
    hide Feed, X.Hash, Read32, WordBytes, Start, HeadText, PiecesText, PiecesContent, PiecesOk, Crc, ParseHeader, Skippable;
    if |s| < 4 {
      ShortStart(s, decode);
    }
    if Skippable(s) {
      t := SkippableShape(s, decode);
    } else {
      t := WholeShape(s, decode);
    }
  }

  lemma SkippableShape(s: seq<Byte>, decode: Decoder) returns (t: Text)
    requires |s| >= 4 && Skippable(s) && Feed(Start(0), s, decode).phase.Done?
    ensures TextOk(t, decode) && TextBytes(t, decode) == s
    ensures TextContent(t, decode) == Feed(Start(0), s, decode).content
  {
    hide Feed, Read32, WordBytes, Start;
    var w, rest := s[..4], s[4..];
    assert s == w + rest;
    WordAtFront(w, rest);
    WordIs(w);
    SkipStart(w, decode);
    FeedJoin(Start(0), w, rest, decode);
    SkipShape(Start(0).(phase := SkipSize([])), rest, decode);
    t := SkippableText(Read32(w, 0) - 0x184D2A50, rest[4..]);
    assert s == w + WordBytes(|rest| - 4) + rest[4..];
  }

  lemma WholeShape(s: seq<Byte>, decode: Decoder) returns (t: Text)
    requires |s| >= 4 && !Skippable(s) && Feed(Start(0), s, decode).phase.Done?
    ensures TextOk(t, decode) && TextBytes(t, decode) == s
    ensures TextContent(t, decode) == Feed(Start(0), s, decode).content
  {
    hide Feed, X.Hash, Read32, WordBytes, Start, HeadText, PiecesText, PiecesContent, PiecesOk, Crc, ParseHeader, Skippable,
         BlockSize, HeadOf, BodyText;
    FrontShape(s, decode);
    var size, h := ParseHeader(s + PAD).size, HeadOf(s + PAD);
    HeadShape(s + PAD);
    assert (s + PAD)[..size] == s[..size] && s == s[..size] + s[size..];
    ReadHead(h, s[size..], decode);
    FirstSmall(h);
    var ps := BodyShape(AtFirst(h), s[size..], decode);
    SizeKept(h, |PiecesContent(ps, Describes(h), decode)|);
    t := FrameText(h, ps);
    assert [] + PiecesContent(ps, Describes(h), decode) == PiecesContent(ps, Describes(h), decode);
  }

  lemma FirstSmall(h: Heading)
    ensures AtFirst(h).info.maxBlockSize < 0x8000_0000
  {
  }

  lemma SizeKept(h: Heading, n: nat)
    requires Less(AtFirst(h).info, AtFirst(h).rem, n) == 0
    ensures h.size.Some? && h.size.value != 0 ==> (h.size.value - n) % 0x1_0000_0000_0000_0000 == 0
  {
    hide BlockSize;
  }

  /** So a frame is read to its end, as this content, if and only if it is a text with this content. */
  lemma CompleteFrames(s: seq<Byte>, content: seq<Byte>, decode: Decoder)
    ensures Feed(Start(0), s, decode).phase.Done? && Feed(Start(0), s, decode).content == content <==>
            exists t :: TextOk(t, decode) && TextBytes(t, decode) == s && TextContent(t, decode) == content
  {
    hide Feed, TextOk, TextBytes, TextContent, Start;
    if Feed(Start(0), s, decode).phase.Done? {
      var t := TextShape(s, decode);
    }
    forall t | TextOk(t, decode) && TextBytes(t, decode) == s
      ensures Feed(Start(0), s, decode).phase.Done? && Feed(Start(0), s, decode).content == TextContent(t, decode)
    {
      TextReads(t, decode);
    }
  }

  /** In particular the last four bytes of a frame with a content checksum are the checksum of what it means. */
  lemma ChecksumAtEnd(s: seq<Byte>, decode: Decoder)
    requires Feed(Start(0), s, decode).phase.Done? && Feed(Start(0), s, decode).info.contentChecksum
    ensures |s| >= 4 && s[|s| - 4..] == WordBytes(X.Hash(Feed(Start(0), s, decode).content, 0))
  {
    hide Feed, X.Hash, HeadText, PiecesText, PiecesContent, PiecesOk, Start, BlockSize, WordBytes;
    var t := TextShape(s, decode);
    match t
    case SkippableText(id, data) =>
      SkippableInfo(id, data, decode);
    case FrameText(h, ps) =>
      FrameInfo(h, ps, decode);
      var c := PiecesContent(ps, Describes(h), decode);
      assert [] + c == c;
      LastFour(HeadText(h), PiecesText(ps, Describes(h), decode), WordBytes(X.Hash(c, 0)));
  }

  lemma LastFour(a: seq<Byte>, b: seq<Byte>, w: seq<Byte>)
    requires |w| == 4
    ensures var s := a + (b + WordBytes(0) + w); s[|s| - 4..] == w
  {
    hide WordBytes;
  }

  // ---- Which of its parts is wrong.

  /** Any other content checksum is refused. */
  lemma BadContentChecksum(h: Heading, ps: seq<Piece>, w: seq<Byte>, decode: Decoder)
    requires TextOk(FrameText(h, ps), decode) && h.contentChecksum
    requires |w| == 4 && w != WordBytes(X.Hash(PiecesContent(ps, Describes(h), decode), 0))
    ensures Feed(Start(0), HeadText(h) + (PiecesText(ps, Describes(h), decode) + (WordBytes(0) + w)), decode).phase
         == Failed(ContentChecksumInvalid)
  {
    hide Feed, X.Hash, HeadText, PiecesText, PiecesContent, PiecesOk, WordBytes, Start, Read32, BlockSize;
    var f, c := AtFirst(h), PiecesContent(ps, Describes(h), decode);
    ReadHead(h, PiecesText(ps, f.info, decode) + (WordBytes(0) + w), decode);
    ReadBody(f, ps, w, decode);
    assert [] + c == c;
    WordIs(w);
  }

  /** A content that does not have the size stated is refused, whatever checksum follows. */
  lemma BadContentSize(h: Heading, ps: seq<Piece>, crc: seq<Byte>, decode: Decoder)
    requires 4 <= h.blockSizeID <= 7 && PiecesOk(ps, Describes(h), decode) && |crc| == (if h.contentChecksum then 4 else 0)
    requires h.size.Some? && h.size.value != 0
    requires (h.size.value - |PiecesContent(ps, Describes(h), decode)|) % 0x1_0000_0000_0000_0000 != 0
    ensures Feed(Start(0), HeadText(h) + (PiecesText(ps, Describes(h), decode) + (WordBytes(0) + crc)), decode).phase
         == Failed(FrameSizeWrong)
  {
    hide Feed, X.Hash, HeadText, PiecesText, PiecesContent, PiecesOk, WordBytes, Start, Read32, BlockSize;
    var f := AtFirst(h);
    ReadHead(h, PiecesText(ps, f.info, decode) + (WordBytes(0) + crc), decode);
    ReadBody(f, ps, crc, decode);
  }

  /** So is any other block checksum, whatever the block is and whatever follows. */
  lemma BadBlockChecksum(h: Heading, ps: seq<Piece>, p: Piece, w: seq<Byte>, rest: seq<Byte>, decode: Decoder)
    requires 4 <= h.blockSizeID <= 7 && PiecesOk(ps, Describes(h), decode) && h.blockChecksum
    requires |p.data| <= Describes(h).maxBlockSize < 0x8000_0000 && (p.Coded? ==> p.data != [])
    requires |w| == 4 && w != WordBytes(X.Hash(p.data, 0))
    ensures Feed(Start(0), HeadText(h) + (PiecesText(ps, Describes(h), decode)
                           + (WordBytes(SizeField(p)) + (p.data + w + rest))), decode).phase
         == Failed(BlockChecksumInvalid)
  {
    hide Feed, X.Hash, HeadText, PiecesText, PiecesContent, PiecesOk, WordBytes, Start, Read32, BlockSize, BlockStart, Less;
    var f, more := AtFirst(h), WordBytes(SizeField(p)) + (p.data + w + rest);
    ReadHead(h, PiecesText(ps, f.info, decode) + more, decode);
    ReadPieces(f, ps, more, decode);
    var c := PiecesContent(ps, f.info, decode);
    var g := Frame(BlockHead([]), f.info, Less(f.info, f.rem, |c|), f.content + c);
    ReadHeader(g, SizeField(p), p.data + w + rest, decode);
    FeedJoin(BlockStart(g, SizeField(p)), p.data + w, rest, decode);
    ReadData(g, p, w, decode);
    WordIs(w);
    FeedOver(Feed(BlockStart(g, SizeField(p)), p.data + w, decode), rest, decode);
  }

  /** And any other checksum of the header. */
  lemma BadHeaderChecksum(h: Heading, b: Byte, rest: seq<Byte>, decode: Decoder)
    requires 4 <= h.blockSizeID <= 7 && b != X.Hash(Fields(h), 0) / 256 % 256
    ensures Feed(Start(0), WordBytes(0x184D2204) + Fields(h) + [b] + rest, decode).phase == Failed(HeaderChecksumInvalid)
  {
    hide Feed, X.Hash, Start, ParseHeader, HeaderSize, Skippable, Fields, WordBytes;
    var t := WordBytes(0x184D2204) + Fields(h) + [b];
    WrongHeader(h, b);
    WholeHeader(t, decode);
    FeedJoin(Start(0), t, rest, decode);
    FeedOver(Feed(Start(0), t, decode), rest, decode);
  }

  lemma WrongHeader(h: Heading, b: Byte)
    requires 4 <= h.blockSizeID <= 7 && b != X.Hash(Fields(h), 0) / 256 % 256
    ensures var t := WordBytes(0x184D2204) + Fields(h) + [b];
      && MIN_HEADER_SIZE <= |t| && !Skippable(t) && |t| == HeaderSize(t[4]) && Plausible(t)
      && ParseHeader(t) == FrameFormat.Header.Bad(HeaderChecksumInvalid)
  {
    hide X.Hash, BlockSize, HeaderSize, Read32, Read64, WordBytes, Word64Bytes, Flags;
    var t, magic := WordBytes(0x184D2204) + Fields(h) + [b], WordBytes(0x184D2204);
    FieldsSize(h);
    FlagBits(h.size.Some?, h.blockChecksum, h.contentChecksum, h.dict.Some?);
    WordBack(0x184D2204);
    WordAt(t, 0, magic);
    assert t[4..|t| - 1] == Fields(h);
    assert t[4] == HeadFlags(h) && t[5] == 16 * h.blockSizeID;
    HeaderSizes(t);
    assert t[5] / 16 % 8 == h.blockSizeID && t[5] / 128 == 0 && t[5] % 16 == 0;
  }

  /** The first seven bytes are those of a header of this version. */
  predicate Plausible(t: seq<Byte>)
    requires |t| >= MIN_HEADER_SIZE
  {
    Read32(t, 0) == 0x184D2204 && t[4] / 2 % 2 == 0 && t[4] / 64 == 1
  }

  lemma WholeHeader(t: seq<Byte>, decode: Decoder)
    requires MIN_HEADER_SIZE <= |t| && !Skippable(t) && |t| == HeaderSize(t[4]) && Plausible(t)
    requires ParseHeader(t).Bad?
    ensures Feed(Start(0), t, decode) == Fail(Start(0), ParseHeader(t).error)
  {
    hide Feed, HeadNext, HeaderSize, Read32, ParseDescriptor;
    var a, m := t[..MIN_HEADER_SIZE], t[MIN_HEADER_SIZE..];
    assert t == a + m;
    SkippablePrefix(a, m);
    HeadNextIs(Start(0), t);
    if m == [] {
      assert a == t;
      FeedFront(Start(0), t, decode);
    } else {
      SevenOf(t, a);
      FeedWhole(Start(0), a, m, decode);
    }
  }

  lemma SevenOf(t: seq<Byte>, a: seq<Byte>)
    requires |t| > MIN_HEADER_SIZE && a == t[..MIN_HEADER_SIZE] && |t| == HeaderSize(t[4]) && Plausible(t)
    ensures ParseHeader(a) == Incomplete(|t|)
  {
    hide HeaderSize, ParseDescriptor;
    assert Read32(a, 0) == Read32(t, 0);
    assert a[4] == t[4];
  }

  // ---- The header at the end, and what is written.

  lemma {:induction false} InfoKept(f: Frame, s: seq<Byte>, decode: Decoder)
    requires !f.phase.Head?
    ensures Feed(f, s, decode).info == f.info && !Feed(f, s, decode).phase.Head?
    decreases |s|
  {
    hide FeedByte;
    if s != [] {
      ByteKept(f, s[0], decode);
      InfoKept(FeedByte(f, s[0], decode), s[1..], decode);
    }
  }

  lemma ByteKept(f: Frame, b: Byte, decode: Decoder)
    requires !f.phase.Head?
    ensures FeedByte(f, b, decode).info == f.info && !FeedByte(f, b, decode).phase.Head?
  {
    hide X.Hash, Read32, Less;
  }

  lemma FrameInfo(h: Heading, ps: seq<Piece>, decode: Decoder)
    requires TextOk(FrameText(h, ps), decode)
    ensures Feed(Start(0), TextBytes(FrameText(h, ps), decode), decode).info == Describes(h)
  {
    hide Feed, X.Hash, HeadText, PiecesText, PiecesContent, PiecesOk, Start, BlockSize, WordBytes, BodyText;
    ReadHead(h, BodyText(ps, Describes(h), [], decode), decode);
    InfoKept(AtFirst(h), BodyText(ps, Describes(h), [], decode), decode);
  }

  lemma SkippableInfo(id: nat, data: seq<Byte>, decode: Decoder)
    requires id < 16 && |data| < 0x1_0000_0000
    ensures !Feed(Start(0), WordBytes(0x184D2A50 + id) + WordBytes(|data|) + data, decode).info.contentChecksum
  {
    hide Feed, Read32, WordBytes, Start, HeadNext;
    var w := WordBytes(0x184D2A50 + id);
    WordBack(0x184D2A50 + id);
    assert w + WordBytes(|data|) + data == w + (WordBytes(|data|) + data);
    FeedJoin(Start(0), w, WordBytes(|data|) + data, decode);
    SkipStart(w, decode);
    InfoKept(Start(0).(phase := SkipSize([])), WordBytes(|data|) + data, decode);
    StartInfo();
  }

  lemma StartInfo()
    ensures Start(0).info == NO_INFO
  {
  }

  /** The header that LZ4F_compressBegin writes is such a text. */
  lemma WrittenHeader(id: nat, size: U64, blockChecksum: bool, contentChecksum: bool, dictID: U32)
    requires 4 <= id <= 7
    ensures HeaderBytes(id, size, blockChecksum, contentChecksum, dictID)
         == HeadText(Heading(id, if size > 0 then Some(size) else None, blockChecksum, contentChecksum,
                             if dictID > 0 then Some(dictID) else None))
  {
    hide X.Hash, WordBytes, Word64Bytes;
  }
}
