/** LZ4F_decompress: the resumable frame decoder. Whatever pieces its input and output come in, it does
    what reading the frame byte by byte does. */
module FrameDecode {
  import opened Bytes
  import opened FrameFormat
  import X = Xxh32

  datatype Stage =
    | GetFrameHeader | StoreFrameHeader | Init | GetBlockHeader | StoreBlockHeader | CopyDirect | GetBlockChecksum
    | GetCBlock | StoreCBlock | FlushOut | GetSuffix | StoreSuffix | GetSFrameSize | StoreSFrameSize | SkipSkippable

  /** What a stage asks for: another stage, more input or output room (with a hint), nothing more, or an
      error. */
  datatype Outcome = Again | Stop(hint: nat) | Finished | Err(error: Error)

  /** Stages entered without reading a byte come in this order. */
  function Rank(s: Stage): nat {
    match s
    case GetFrameHeader => 9
    case Init => 9
    case CopyDirect => 8
    case GetCBlock => 8
    case GetBlockChecksum => 7
    case StoreCBlock => 7
    case FlushOut => 6
    case StoreFrameHeader => 5
    case GetBlockHeader => 5
    case StoreBlockHeader => 4
    case GetSuffix => 4
    case GetSFrameSize => 4
    case StoreSuffix => 3
    case StoreSFrameSize => 3
    case SkipSkippable => 2
  }

  function Min(a: nat, b: nat): nat { if a < b then a else b }

  /** The stretch of input src[p..q) took frame f0 to f1, or to its end with all content delivered, or,
      read on, to the error. */
  ghost predicate Moved(f0: Frame, f1: Frame, src: seq<Byte>, p: nat, q: nat, decode: Decoder, r: Outcome,
                        total: seq<Byte>) {
    && p <= q <= |src|
    && match r
       case Err(e) => Feed(f0, src[p..], decode).phase == Failed(e)
       case Finished =>
         var g := Feed(f0, src[p..q], decode);
         g.phase.Done? && g.content == total
       case _ => Feed(f0, src[p..q], decode) == f1
  }

  lemma MovedJoin(f0: Frame, f1: Frame, f2: Frame, src: seq<Byte>, p: nat, q: nat, q': nat, decode: Decoder, r: Outcome,
                  total: seq<Byte>)
    requires Moved(f0, f1, src, p, q, decode, Again, total) && Moved(f1, f2, src, q, q', decode, r, total)
    ensures Moved(f0, f2, src, p, q', decode, r, total)
  {
    hide Feed;
    assert src[p..] == src[p..q] + src[q..];
    FeedJoin(f0, src[p..q], src[q..], decode);
    assert src[p..q'] == src[p..q] + src[q..q'];
    FeedJoin(f0, src[p..q], src[q..q'], decode);
  }

  lemma MovedNone(f: Frame, src: seq<Byte>, p: nat, decode: Decoder, hint: nat)
    requires p <= |src|
    ensures Moved(f, f, src, p, p, decode, Again, []) && Moved(f, f, src, p, p, decode, Stop(hint), [])
  {
    assert src[p..p] == [];
  }

  /** The phase that a stage, its buffer and its target stand for. */
  ghost function PhaseOf(stage: Stage, tmp: seq<Byte>, target: nat, raw: seq<Byte>, info: Info): Phase {
    match stage
    case GetFrameHeader => Head([])
    case StoreFrameHeader => HeadNext(Start(0), tmp).phase
    case Init => BlockHead([])
    case GetBlockHeader => BlockHead([])
    case StoreBlockHeader => BlockHead(tmp)
    case CopyDirect => if target == 0 then if info.blockChecksum then RawCrc([], raw) else BlockHead([]) else Raw(target, raw)
    case GetBlockChecksum => RawCrc(tmp, raw)
    case GetCBlock => Packed([], target)
    case StoreCBlock => Packed(tmp, target)
    case FlushOut => BlockHead([])
    case GetSuffix => Done
    case StoreSuffix => Suffix(tmp)
    case GetSFrameSize => SkipSize([])
    case StoreSFrameSize => SkipSize(if |tmp| >= 4 then tmp[4..] else [])
    case SkipSkippable => if target == 0 then Done else Skip(target)
  }

  predicate HeaderStage(s: Stage) {
    s.GetFrameHeader? || s.StoreFrameHeader? || s.GetSFrameSize? || s.StoreSFrameSize? || s.SkipSkippable?
  }

  /** LZ4F_dctx, without the dictionary that linked blocks need. */
  class Dctx {
    const decode: Decoder
    var stage: Stage
    var info: Info
    var rem: U64
    var tmp: seq<Byte>
    var target: nat
    var tmpOut: seq<Byte>
    var tmpOutStart: nat
    var xxh: seq<Byte>
    var blockXxh: seq<Byte>
    ghost var raw: seq<Byte>
    ghost var content: seq<Byte>
    ghost var emitted: seq<Byte>

    ghost function Pending(): seq<Byte>
      reads this
    {
      if stage.FlushOut? && tmpOutStart <= |tmpOut| then tmpOut[tmpOutStart..] else []
    }

    /** The frame as read so far. */
    ghost function View(): Frame
      reads this
    {
      if HeaderStage(stage) then Frame(PhaseOf(stage, tmp, target, raw, info), NO_INFO, rem, [])
      else if stage.GetSuffix? then EndMark(Frame(BlockHead([]), info, rem, content))
      else Frame(PhaseOf(stage, tmp, target, raw, info), info, rem, content)
    }

    ghost predicate BufferOk()
      reads this
    {
      match stage
      case StoreFrameHeader =>
        if |tmp| < MIN_HEADER_SIZE then target == MIN_HEADER_SIZE
        else !Skippable(tmp) && ParseHeader(tmp).Incomplete? && ParseHeader(tmp).size == target && |tmp| < target
      case StoreBlockHeader => |tmp| < BLOCK_HEADER_SIZE
      case GetBlockChecksum => |tmp| < CHECKSUM_SIZE
      case GetCBlock => target > CrcSize(info)
      case StoreCBlock => |tmp| < target && target > CrcSize(info)
      case StoreSuffix => |tmp| < CHECKSUM_SIZE
      case StoreSFrameSize => 4 <= |tmp| < 8 == target
      case _ => true
    }

    ghost predicate Ok()
      reads this
    {
      BufferOk() && Core()
    }

    ghost predicate Core()
      reads this
    {
      && DecoderOk(decode)
      && content == emitted + Pending() && tmpOutStart <= |tmpOut|
      && (HeaderStage(stage) ==> content == [])
      && (stage.GetBlockChecksum? ==> info.blockChecksum) && (stage.StoreSuffix? ==> info.contentChecksum)
      && (stage.Init? ==> content == [])
      && (info.contentChecksum && !HeaderStage(stage) && !stage.Init? ==> xxh == content)
      && (info.blockChecksum && (stage.CopyDirect? || stage.GetBlockChecksum?) ==> blockXxh == raw)
    }

    /** LZ4F_createDecompressionContext. */
    constructor (decode: Decoder)
      requires DecoderOk(decode)
      ensures Ok() && View() == Start(0) && this.decode == decode && stage.GetFrameHeader? && emitted == []
    {
      this.decode := decode;
      stage, info, rem, tmp, target := GetFrameHeader, NO_INFO, 0, [], 0;
      tmpOut, tmpOutStart, xxh, blockXxh := [], 0, [], [];
      raw, content, emitted := [], [], [];
    }

    /** LZ4F_resetDecompressionContext. The count of content still expected is not reset. */
    method Reset()
      requires DecoderOk(decode) && tmpOutStart <= |tmpOut|
      modifies this
      ensures Ok() && stage.GetFrameHeader? && rem == old(rem) && View() == Start(old(rem)) && emitted == []
    {
      stage := GetFrameHeader;
      content, emitted := [], [];
    }

    // ---- The stages.

    /** What every stage promises beside the bytes it read: the output stays within its room, a stop
        leaves no input or no room, and going on means having read something or a later stage. */
    ghost predicate After(stage0: Stage, src: seq<Byte>, p0: nat, p: nat, out: seq<Byte>, cap: nat, e0: seq<Byte>, r: Outcome)
      reads this
    {
      && (!r.Err? ==> Ok() && |out| <= cap)
      && (r.Again? || r.Stop? ==> emitted == e0 + out)
      && (r.Again? ==> p > p0 || Rank(stage) < Rank(stage0))
      && (r.Stop? ==> r.hint > 0 && ((p == |src| && Pending() == []) || |out| == cap) && Open(View().phase))
      && (r.Finished? ==> View() == Start(rem) && emitted == [] && stage.GetFrameHeader?)
    }

    /** dstage_getFrameHeader. */
    method DoGetFrameHeader(src: seq<Byte>, p0: nat, out: seq<Byte>, ghost cap: nat, ghost e0: seq<Byte>)
      returns (p: nat, r: Outcome)
      requires Ok() && stage.GetFrameHeader? && p0 <= |src| && |out| <= cap && emitted == e0 + out
      modifies this
      ensures Moved(old(View()), View(), src, p0, p, decode, r, e0 + out)
      ensures After(old(stage), src, p0, p, out, cap, e0, r)
    {
      hide ParseHeader, Skippable, Feed, HeadNext, DecoderOk;
      p := p0;
      ghost var f := View();
      if |src| - p >= MAX_HEADER_SIZE {
        var s := src[p..];
        if Skippable(s) {
          SkippableStart(f, src, p, decode);
          stage := GetSFrameSize;
          return p + 4, Again;
        }
        FeedHeader(f, s, decode);
        var h := ParseHeader(s);
        if h.Bad? {
          return p, Err(h.error);
        }
        HeaderTaken(src, p, h.size);
        info := h.info;
        if h.sized {
          rem := h.info.contentSize;
        }
        stage := Init;
        return p + h.size, Again;
      }
      tmp := [];
      if p == |src| {
        FeedSlice(f, src, p, decode);
        return p, Stop(MIN_HEADER_SIZE);
      }
      target := MIN_HEADER_SIZE;
      stage := StoreFrameHeader;
      HeadNextEmpty(Start(0));
      FeedSlice(f, src, p, decode);
      r := Again;
    }

    /** dstage_storeFrameHeader. */
    method DoStoreFrameHeader(src: seq<Byte>, p0: nat, out: seq<Byte>, ghost cap: nat, ghost e0: seq<Byte>)
      returns (p: nat, r: Outcome)
      requires Ok() && stage.StoreFrameHeader? && p0 <= |src| && |out| <= cap && emitted == e0 + out
      modifies this
      ensures Moved(old(View()), View(), src, p0, p, decode, r, e0 + out)
      ensures After(old(stage), src, p0, p, out, cap, e0, r)
    {
      hide ParseHeader, Skippable, Feed, HeadNext, DecoderOk;
      var n := Min(target - |tmp|, |src| - p0);
      ghost var f, tmp0 := Start(rem), tmp;
      StoredHead(tmp0, src[p0..p0 + n], rem, decode);
      tmp := tmp + src[p0..p0 + n];
      p := p0 + n;
      if |tmp| < target {
        HeadOpen(tmp0, tmp, target);
        return p, Stop(target - |tmp| + BLOCK_HEADER_SIZE);
      }
      if |tmp0| >= MIN_HEADER_SIZE {
        SkippablePrefix(tmp0, src[p0..p]);
      }
      r := DecodeStored();
      if r.Err? {
        BadNow(old(View()), src, p0, p, decode, r.error);
      }
    }

    /** LZ4F_decodeHeader on the header buffer, filled up to its target. */
    method DecodeStored() returns (r: Outcome)
      requires stage.StoreFrameHeader? && |tmp| == target >= MIN_HEADER_SIZE && DecoderOk(decode)
      requires |tmp| > MIN_HEADER_SIZE ==> !Skippable(tmp)
      requires content == emitted == [] && tmpOutStart <= |tmpOut|
      modifies this
      ensures content == emitted == [] && (r.Again? || r.Err?)
      ensures var f := old(HeadNext(Start(rem), tmp));
        if r.Err? then f.phase == Failed(r.error) else Ok() && View() == f
    {
      hide ParseHeader, Skippable, HeadNext, DecoderOk;
      HeadNextAt(rem, tmp);
      HeadNextAt(0, tmp);
      if Skippable(tmp) {
        target := 8;
        stage := StoreSFrameSize;
        return Again;
      }
      var h := ParseHeader(tmp);
      match h
      case Incomplete(size) =>
        HeaderSizeMore(tmp);
        target := size;
        r := Again;
      case Bad(e) =>
        r := Err(e);
      case Good(_, i, sized) =>
        info := i;
        if sized {
          rem := i.contentSize;
        }
        stage := Init;
        r := Again;
    }

    /** dstage_init. */
    method DoInit(src: seq<Byte>, p: nat, out: seq<Byte>, ghost cap: nat, ghost e0: seq<Byte>) returns (r: Outcome)
      requires Ok() && stage.Init? && p <= |src| && |out| <= cap && emitted == e0 + out
      modifies this
      ensures Moved(old(View()), View(), src, p, p, decode, r, e0 + out)
      ensures After(old(stage), src, p, p, out, cap, e0, r)
    {
      hide Feed, DecoderOk, HeadNext, ParseHeader, Skippable;
      FeedSlice(View(), src, p, decode);
      if info.contentChecksum {
        xxh := [];
      }
      tmp, target, tmpOut, tmpOutStart := [], 0, [], 0;
      stage := GetBlockHeader;
      r := Again;
    }

    /** A block header. */
    method StartBlock(header: nat) returns (r: Outcome)
      requires Core() && (stage.GetBlockHeader? || stage.StoreBlockHeader?)
      modifies this`stage, this`target, this`raw, this`blockXxh
      ensures r.Again? || r.Err?
      ensures var f := old(BlockStart(View(), header));
        if r.Err? then f.phase == Failed(r.error) else Ok() && View() == f && (stage.GetSuffix? || stage.CopyDirect? || stage.GetCBlock?)
    {
      hide DecoderOk, HeadNext, ParseHeader, Skippable;
      var size := header % 0x8000_0000;
      if header == 0 {
        stage := GetSuffix;
        return Again;
      }
      if size > info.maxBlockSize {
        return Err(MaxBlockSizeInvalid);
      }
      if header >= 0x8000_0000 {
        target := size;
        raw := [];
        if info.blockChecksum {
          blockXxh := [];
        }
        stage := CopyDirect;
        return Again;
      }
      target := size + CrcSize(info);
      stage := GetCBlock;
      r := Again;
    }

    /** The hint when a compressed block cannot be begun at once. */
    method PauseBlock(src: seq<Byte>, p: nat, out: seq<Byte>, cap: nat, r0: Outcome) returns (r: Outcome)
      requires r0.Again? || r0.Err?
      ensures r == r0 || (r == Stop(BLOCK_HEADER_SIZE + target) && stage.GetCBlock? && r0.Again?
                          && (|out| == cap || p == |src|))
    {
      r := r0;
      if r0.Again? && stage.GetCBlock? && (|out| == cap || p == |src|) {
        r := Stop(BLOCK_HEADER_SIZE + target);
      }
    }

    /** dstage_getBlockHeader. */
    method DoGetBlockHeader(src: seq<Byte>, p0: nat, out: seq<Byte>, cap: nat, ghost e0: seq<Byte>)
      returns (p: nat, r: Outcome)
      requires Ok() && stage.GetBlockHeader? && p0 <= |src| && |out| <= cap && emitted == e0 + out
      modifies this
      ensures Moved(old(View()), View(), src, p0, p, decode, r, e0 + out)
      ensures After(old(stage), src, p0, p, out, cap, e0, r)
    {
      hide Feed, DecoderOk, BlockStart, Read32, HeadNext, ParseHeader, Skippable;
      p := p0;
      ghost var f := View();
      if |src| - p < BLOCK_HEADER_SIZE {
        FeedSlice(f, src, p, decode);
        tmp := [];
        stage := StoreBlockHeader;
        return p, Again;
      }
      var header := src[p..p + BLOCK_HEADER_SIZE];
      FeedBlockHead(f, [], header, decode);
      assert [] + header == header;
      p := p + BLOCK_HEADER_SIZE;
      r := StartBlock(Read32(header, 0));
      if r.Err? {
        BadNow(f, src, p0, p, decode, r.error);
      }
      r := PauseBlock(src, p, out, cap, r);
    }

    /** dstage_storeBlockHeader. */
    method DoStoreBlockHeader(src: seq<Byte>, p0: nat, out: seq<Byte>, cap: nat, ghost e0: seq<Byte>)
      returns (p: nat, r: Outcome)
      requires Ok() && stage.StoreBlockHeader? && p0 <= |src| && |out| <= cap && emitted == e0 + out
      modifies this
      ensures Moved(old(View()), View(), src, p0, p, decode, r, e0 + out)
      ensures After(old(stage), src, p0, p, out, cap, e0, r)
    {
      hide Feed, DecoderOk, BlockStart, Read32, HeadNext, ParseHeader, Skippable;
      ghost var f := View();
      var n := Min(BLOCK_HEADER_SIZE - |tmp|, |src| - p0);
      var s := src[p0..p0 + n];
      StoredBlockHead(f, tmp, s, decode);
      tmp := tmp + s;
      p := p0 + n;
      if |tmp| < BLOCK_HEADER_SIZE {
        return p, Stop(BLOCK_HEADER_SIZE - |tmp|);
      }
      BlockStartOf(f, BlockHead(tmp), Read32(tmp, 0));
      r := StartBlock(Read32(tmp, 0));
      if r.Err? {
        BadNow(f, src, p0, p, decode, r.error);
      }
      r := PauseBlock(src, p, out, cap, r);
    }

    /** Bytes of an uncompressed block, on their way to the output. */
    method TakeRaw(s: seq<Byte>)
      requires Ok() && stage.CopyDirect? && |s| <= target
      modifies this`blockXxh, this`xxh, this`rem, this`raw, this`content, this`emitted, this`target
      ensures Ok() && emitted == old(emitted) + s && target == old(target) - |s|
      ensures View() == Frame(PhaseOf(CopyDirect, [], target, old(raw) + s, info), info, Less(info, old(rem), |s|),
                              old(content) + s)
    {
      hide DecoderOk, HeadNext, Less;
      if info.blockChecksum {
        blockXxh := blockXxh + s;
      }
      if info.contentChecksum {
        xxh := xxh + s;
      }
      rem := Less(info, rem, |s|);
      raw, content, emitted := raw + s, content + s, emitted + s;
      target := target - |s|;
    }

    /** The end of an uncompressed block. */
    method EndRaw()
      requires Ok() && stage.CopyDirect? && target == 0
      modifies this`stage, this`tmp
      ensures Ok() && View() == old(View()) && (stage.GetBlockChecksum? || stage.GetBlockHeader?)
    {
      hide DecoderOk, HeadNext;
      if info.blockChecksum {
        tmp := [];
        stage := GetBlockChecksum;
      } else {
        stage := GetBlockHeader;
      }
    }

    /** dstage_copyDirect: as much of an uncompressed block as there is input and room. */
    method DoCopyDirect(src: seq<Byte>, p0: nat, out0: seq<Byte>, cap: nat, ghost e0: seq<Byte>)
      returns (p: nat, out: seq<Byte>, r: Outcome)
      requires Ok() && stage.CopyDirect? && p0 <= |src| && |out0| <= cap && emitted == e0 + out0
      modifies this
      ensures Moved(old(View()), View(), src, p0, p, decode, r, e0 + out)
      ensures After(old(stage), src, p0, p, out, cap, e0, r)
    {
      hide Feed, DecoderOk, HeadNext, ParseHeader, Skippable, Less, Core, BufferOk;
      var n := Min(target, Min(|src| - p0, cap - |out0|));
      var s := src[p0..p0 + n];
      CopiedRaw(View(), target, raw, s, decode);
      p, out := p0 + n, out0 + s;
      assert e0 + out0 + s == e0 + out;
      TakeRaw(s);
      if target == 0 {
        EndRaw();
        return p, out, Again;
      }
      r := Stop(target + CrcSize(info) + BLOCK_HEADER_SIZE);
    }

    /** dstage_getBlockChecksum. */
    method DoGetBlockChecksum(src: seq<Byte>, p0: nat, out: seq<Byte>, ghost cap: nat, ghost e0: seq<Byte>)
      returns (p: nat, r: Outcome)
      requires Ok() && stage.GetBlockChecksum? && p0 <= |src| && |out| <= cap && emitted == e0 + out
      modifies this
      ensures Moved(old(View()), View(), src, p0, p, decode, r, e0 + out)
      ensures After(old(stage), src, p0, p, out, cap, e0, r)
    {
      hide Feed, DecoderOk, HeadNext, ParseHeader, Skippable, Read32, X.Hash;
      ghost var f := View();
      var n := Min(CHECKSUM_SIZE - |tmp|, |src| - p0);
      var s := src[p0..p0 + n];
      StoredRawCrc(f, tmp, raw, s, decode);
      tmp := tmp + s;
      p := p0 + n;
      if |tmp| < CHECKSUM_SIZE {
        return p, Stop(1);
      }
      if Read32(tmp, 0) != X.Hash(blockXxh, 0) {
        BadNow(f, src, p0, p, decode, BlockChecksumInvalid);
        return p, Err(BlockChecksumInvalid);
      }
      stage := GetBlockHeader;
      r := Again;
    }

    /** The content of a block, decoded into tmpOut or straight into the output. */
    method TakeBlock(d: seq<Byte>, direct: bool)
      requires Core() && (stage.GetCBlock? || stage.StoreCBlock?) && |d| <= info.maxBlockSize
      modifies this`target, this`xxh, this`rem, this`content, this`emitted, this`tmpOut, this`tmpOutStart, this`stage
      ensures Ok() && (stage.GetBlockHeader? || stage.FlushOut?) && emitted == if direct then old(emitted) + d else old(emitted)
      ensures View() == Frame(BlockHead([]), info, Less(info, old(rem), |d|), old(content) + d)
    {
      hide DecoderOk, HeadNext, Less;
      if info.contentChecksum {
        xxh := xxh + d;
      }
      rem := Less(info, rem, |d|);
      content := content + d;
      if direct {
        emitted := emitted + d;
        stage := GetBlockHeader;
      } else {
        tmpOut, tmpOutStart := d, 0;
        stage := FlushOut;
      }
    }

    /** A whole compressed block is at hand: into the output when that is sure to have room, otherwise
        into tmpOut. */
    method DecodeBlock(selected: seq<Byte>, out0: seq<Byte>, cap: nat, ghost e0: seq<Byte>)
      returns (out: seq<Byte>, r: Outcome)
      requires Core() && (stage.GetCBlock? || stage.StoreCBlock?) && |selected| > CrcSize(info)
      requires |out0| <= cap && emitted == e0 + out0
      modifies this
      ensures r.Again? || r.Err?
      ensures var f := old(Unpack(View(), selected, decode));
        if r.Err? then f.phase == Failed(r.error)
        else Ok() && View() == f && |out| <= cap && emitted == e0 + out && (stage.GetBlockHeader? || stage.FlushOut?)
    {
      hide HeadNext, ParseHeader, Skippable, Read32, X.Hash, Less;
      out := out0;
      var block := selected[..|selected| - CrcSize(info)];
      if info.blockChecksum && Read32(selected, |block|) != X.Hash(block, 0) {
        return out, Err(BlockChecksumInvalid);
      }
      var d := decode(block, info.maxBlockSize);
      if d.None? {
        return out, Err(DecompressionFailed);
      }
      var direct := cap - |out| >= info.maxBlockSize;
      TakeBlock(d.value, direct);
      if direct {
        out := out + d.value;
      }
      r := Again;
    }

    /** dstage_getCBlock. */
    method DoGetCBlock(src: seq<Byte>, p0: nat, out0: seq<Byte>, cap: nat, ghost e0: seq<Byte>)
      returns (p: nat, out: seq<Byte>, r: Outcome)
      requires Ok() && stage.GetCBlock? && p0 <= |src| && |out0| <= cap && emitted == e0 + out0
      modifies this
      ensures Moved(old(View()), View(), src, p0, p, decode, r, e0 + out)
      ensures After(old(stage), src, p0, p, out, cap, e0, r)
    {
      hide Feed, DecoderOk, HeadNext, ParseHeader, Skippable, Unpack;
      p, out := p0, out0;
      ghost var f := View();
      if |src| - p < target {
        FeedSlice(f, src, p, decode);
        tmp := [];
        stage := StoreCBlock;
        return p, out, Again;
      }
      var s := src[p..p + target];
      FeedPacked(f, [], target, s, decode);
      assert [] + s == s;
      p := p + target;
      out, r := DecodeBlock(s, out, cap, e0);
      if r.Err? {
        BadNow(f, src, p0, p, decode, r.error);
      }
    }

    /** dstage_storeCBlock. */
    method DoStoreCBlock(src: seq<Byte>, p0: nat, out0: seq<Byte>, cap: nat, ghost e0: seq<Byte>)
      returns (p: nat, out: seq<Byte>, r: Outcome)
      requires Ok() && stage.StoreCBlock? && p0 <= |src| && |out0| <= cap && emitted == e0 + out0
      modifies this
      ensures Moved(old(View()), View(), src, p0, p, decode, r, e0 + out)
      ensures After(old(stage), src, p0, p, out, cap, e0, r)
    {
      hide Feed, DecoderOk, HeadNext, ParseHeader, Skippable, Unpack;
      ghost var f := View();
      out := out0;
      var n := Min(target - |tmp|, |src| - p0);
      var s := src[p0..p0 + n];
      StoredPacked(f, tmp, target, s, decode);
      tmp := tmp + s;
      p := p0 + n;
      if |tmp| < target {
        return p, out, Stop(target - |tmp| + CrcSize(info) + BLOCK_HEADER_SIZE);
      }
      UnpackOf(f, Packed(tmp, target), tmp, decode);
      out, r := DecodeBlock(tmp, out, cap, e0);
      if r.Err? {
        BadNow(f, src, p0, p, decode, r.error);
      }
    }

    /** dstage_flushOut. */
    method DoFlushOut(src: seq<Byte>, p: nat, out0: seq<Byte>, cap: nat, ghost e0: seq<Byte>)
      returns (out: seq<Byte>, r: Outcome)
      requires Ok() && stage.FlushOut? && p <= |src| && |out0| <= cap && emitted == e0 + out0
      modifies this
      ensures Moved(old(View()), View(), src, p, p, decode, r, e0 + out)
      ensures After(old(stage), src, p, p, out, cap, e0, r)
    {
      hide Feed, DecoderOk, HeadNext, ParseHeader, Skippable;
      FeedSlice(View(), src, p, decode);
      var n := Min(|tmpOut| - tmpOutStart, cap - |out0|);
      var s := tmpOut[tmpOutStart..tmpOutStart + n];
      out := out0 + s;
      assert e0 + out0 + s == e0 + out;
      Flush(n);
      if stage.GetBlockHeader? {
        return out, Again;
      }
      r := Stop(BLOCK_HEADER_SIZE);
    }

    /** n more bytes of tmpOut went to the output. */
    method Flush(n: nat)
      requires Ok() && stage.FlushOut? && tmpOutStart + n <= |tmpOut|
      modifies this`tmpOutStart, this`emitted, this`stage
      ensures Ok() && View() == old(View()) && emitted == old(emitted) + tmpOut[old(tmpOutStart)..old(tmpOutStart) + n]
      ensures stage == if old(tmpOutStart) + n == |tmpOut| then GetBlockHeader else FlushOut
    {
      hide DecoderOk, HeadNext, ParseHeader, Skippable;
      var s := tmpOut[tmpOutStart..tmpOutStart + n];
      FlushSplit(content, emitted, tmpOut, tmpOutStart, n);
      tmpOutStart := tmpOutStart + n;
      emitted := emitted + s;
      if tmpOutStart == |tmpOut| {
        stage := GetBlockHeader;
      }
    }

    /** The end of a frame. */
    method Finish()
      requires Core()
      modifies this
      ensures Ok() && View() == Start(rem) && rem == old(rem) && emitted == [] && stage.GetFrameHeader?
    {
      hide DecoderOk, HeadNext;
      Reset();
    }

    /** The content checksum. */
    method CheckSuffix(crc: seq<Byte>) returns (r: Outcome)
      requires Core() && (stage.GetSuffix? || stage.StoreSuffix?) && info.contentChecksum && |crc| == CHECKSUM_SIZE
      modifies this
      ensures var f := old(SuffixNext(Frame(Suffix([]), info, rem, content), crc));
        if r.Err? then f.phase == Failed(r.error) else r.Finished? && f.phase.Done? && f.content == old(emitted)
      ensures r.Finished? ==> Ok() && View() == Start(rem) && emitted == [] && stage.GetFrameHeader?
    {
      hide DecoderOk, HeadNext, Read32, X.Hash;
      if Read32(crc, 0) != X.Hash(xxh, 0) {
        return Err(ContentChecksumInvalid);
      }
      Reset();
      r := Finished;
    }

    /** dstage_getSuffix. */
    method DoGetSuffix(src: seq<Byte>, p0: nat, out: seq<Byte>, ghost cap: nat, ghost e0: seq<Byte>)
      returns (p: nat, r: Outcome)
      requires Ok() && stage.GetSuffix? && p0 <= |src| && |out| <= cap && emitted == e0 + out
      modifies this
      ensures Moved(old(View()), View(), src, p0, p, decode, r, e0 + out)
      ensures After(old(stage), src, p0, p, out, cap, e0, r)
    {
      hide Feed, DecoderOk, HeadNext, ParseHeader, Skippable, Read32, X.Hash;
      p := p0;
      ghost var f := View();
      FeedSlice(f, src, p, decode);
      if rem != 0 {
        BadNow(f, src, p, p, decode, FrameSizeWrong);
        return p, Err(FrameSizeWrong);
      }
      if !info.contentChecksum {
        Finish();
        return p, Finished;
      }
      if |src| - p < CHECKSUM_SIZE {
        tmp := [];
        stage := StoreSuffix;
        return p, Again;
      }
      var crc := src[p..p + CHECKSUM_SIZE];
      FeedSuffix(f, [], crc, decode);
      assert [] + crc == crc;
      SuffixNextOf(f, Suffix([]), crc);
      p := p + CHECKSUM_SIZE;
      r := CheckSuffix(crc);
      if r.Err? {
        BadNow(f, src, p0, p, decode, r.error);
      }
    }

    /** dstage_storeSuffix. */
    method DoStoreSuffix(src: seq<Byte>, p0: nat, out: seq<Byte>, ghost cap: nat, ghost e0: seq<Byte>)
      returns (p: nat, r: Outcome)
      requires Ok() && stage.StoreSuffix? && p0 <= |src| && |out| <= cap && emitted == e0 + out
      modifies this
      ensures Moved(old(View()), View(), src, p0, p, decode, r, e0 + out)
      ensures After(old(stage), src, p0, p, out, cap, e0, r)
    {
      hide Feed, DecoderOk, HeadNext, ParseHeader, Skippable, Read32, X.Hash;
      ghost var f := View();
      var n := Min(CHECKSUM_SIZE - |tmp|, |src| - p0);
      var s := src[p0..p0 + n];
      StoredSuffix(f, tmp, s, decode);
      tmp := tmp + s;
      p := p0 + n;
      if |tmp| < CHECKSUM_SIZE {
        return p, Stop(CHECKSUM_SIZE - |tmp|);
      }
      SuffixNextOf(f, Suffix([]), tmp);
      r := CheckSuffix(tmp);
      if r.Err? {
        BadNow(f, src, p0, p, decode, r.error);
      }
    }

    /** The size of a skippable frame is known. */
    method StartSkip(size: U32)
      requires Core() && HeaderStage(stage) && content == emitted == []
      modifies this`info, this`target, this`stage
      ensures Ok() && stage.SkipSkippable? && View() == Frame(if size == 0 then Done else Skip(size), NO_INFO, rem, [])
    {
      hide DecoderOk, HeadNext;
      info := info.(contentSize := size);
      target := size;
      stage := SkipSkippable;
    }

    /** dstage_getSFrameSize. */
    method DoGetSFrameSize(src: seq<Byte>, p0: nat, out: seq<Byte>, ghost cap: nat, ghost e0: seq<Byte>)
      returns (p: nat, r: Outcome)
      requires Ok() && stage.GetSFrameSize? && p0 <= |src| && |out| <= cap && emitted == e0 + out
      modifies this
      ensures Moved(old(View()), View(), src, p0, p, decode, r, e0 + out)
      ensures After(old(stage), src, p0, p, out, cap, e0, r)
    {
      hide Feed, DecoderOk, HeadNext, ParseHeader, Skippable, Read32;
      p := p0;
      ghost var f := View();
      if |src| - p < 4 {
        FeedSlice(f, src, p, decode);
        tmp, target := [0, 0, 0, 0], 8;
        assert tmp[4..] == [];
        stage := StoreSFrameSize;
        return p, Again;
      }
      var s := src[p..p + 4];
      FeedSkipSize(f, [], s, decode);
      assert [] + s == s;
      StartSkip(Read32(s, 0));
      return p + 4, Again;
    }

    /** dstage_storeSFrameSize: the size stands behind the four bytes of the magic number. */
    method DoStoreSFrameSize(src: seq<Byte>, p0: nat, out: seq<Byte>, ghost cap: nat, ghost e0: seq<Byte>)
      returns (p: nat, r: Outcome)
      requires Ok() && stage.StoreSFrameSize? && p0 <= |src| && |out| <= cap && emitted == e0 + out
      modifies this
      ensures Moved(old(View()), View(), src, p0, p, decode, r, e0 + out)
      ensures After(old(stage), src, p0, p, out, cap, e0, r)
    {
      hide Feed, DecoderOk, HeadNext, ParseHeader, Skippable, Read32;
      ghost var f := View();
      var n := Min(target - |tmp|, |src| - p0);
      var s := src[p0..p0 + n];
      StoredSkipSize(f, tmp[4..], s, decode);
      assert (tmp + s)[4..] == tmp[4..] + s;
      tmp := tmp + s;
      p := p0 + n;
      if |tmp| < target {
        return p, Stop(target - |tmp|);
      }
      StartSkip(Read32(tmp[4..], 0));
      r := Again;
    }

    /** dstage_skipSkippable. */
    method DoSkipSkippable(src: seq<Byte>, p0: nat, out: seq<Byte>, ghost cap: nat, ghost e0: seq<Byte>)
      returns (p: nat, r: Outcome)
      requires Ok() && stage.SkipSkippable? && p0 <= |src| && |out| <= cap && emitted == e0 + out
      modifies this
      ensures Moved(old(View()), View(), src, p0, p, decode, r, e0 + out)
      ensures After(old(stage), src, p0, p, out, cap, e0, r)
    {
      hide Feed, DecoderOk, HeadNext, ParseHeader, Skippable;
      ghost var f := View();
      var n := Min(target, |src| - p0);
      Skipped(f, target, src[p0..p0 + n], decode);
      p := p0 + n;
      target := target - n;
      if target > 0 {
        return p, Stop(target);
      }
      Finish();
      r := Finished;
    }

    // ---- The state machine.

    /** One turn of the loop. */
    method Turn(src: seq<Byte>, p0: nat, out0: seq<Byte>, cap: nat, ghost e0: seq<Byte>)
      returns (p: nat, out: seq<Byte>, r: Outcome)
      requires Ok() && p0 <= |src| && |out0| <= cap && emitted == e0 + out0
      modifies this
      ensures Moved(old(View()), View(), src, p0, p, decode, r, e0 + out)
      ensures After(old(stage), src, p0, p, out, cap, e0, r)
    {
      hide Moved, After, View, Core, BufferOk;
      p, out := p0, out0;
      match stage {
        case GetFrameHeader => p, r := DoGetFrameHeader(src, p0, out0, cap, e0);
        case StoreFrameHeader => p, r := DoStoreFrameHeader(src, p0, out0, cap, e0);
        case Init => r := DoInit(src, p0, out0, cap, e0);
        case GetBlockHeader => p, r := DoGetBlockHeader(src, p0, out0, cap, e0);
        case StoreBlockHeader => p, r := DoStoreBlockHeader(src, p0, out0, cap, e0);
        case CopyDirect => p, out, r := DoCopyDirect(src, p0, out0, cap, e0);
        case GetBlockChecksum => p, r := DoGetBlockChecksum(src, p0, out0, cap, e0);
        case GetCBlock => p, out, r := DoGetCBlock(src, p0, out0, cap, e0);
        case StoreCBlock => p, out, r := DoStoreCBlock(src, p0, out0, cap, e0);
        case FlushOut => out, r := DoFlushOut(src, p0, out0, cap, e0);
        case GetSuffix => p, r := DoGetSuffix(src, p0, out0, cap, e0);
        case StoreSuffix => p, r := DoStoreSuffix(src, p0, out0, cap, e0);
        case GetSFrameSize => p, r := DoGetSFrameSize(src, p0, out0, cap, e0);
        case StoreSFrameSize => p, r := DoStoreSFrameSize(src, p0, out0, cap, e0);
        case SkipSkippable => p, r := DoSkipSkippable(src, p0, out0, cap, e0);
      }
    }

    /** LZ4F_decompress, without options: input src, room for cap bytes of output. In case of an error
        nothing is reported as read or written. */
    method Decompress(src: seq<Byte>, cap: nat) returns (consumed: nat, out: seq<Byte>, r: Outcome)
      requires Ok()
      modifies this
      ensures Called(old(View()), old(emitted), src, cap, consumed, out, r, View(), emitted, Pending(), decode)
      ensures !r.Err? ==> Ok()
      ensures r.Finished? ==> View() == Start(rem) && emitted == []
    {
      hide Feed, View, Core, BufferOk, Pending;
      ghost var f0, e0 := View(), emitted;
      consumed, out, r := 0, [], Again;
      MovedNone(f0, src, 0, decode, 0);
      MovedTotal(f0, f0, src, 0, 0, decode, Again, [], e0);
      while r.Again?
        invariant Moved(f0, View(), src, 0, consumed, decode, r, e0 + out) && consumed <= |src|
        invariant r.Again? ==> Ok() && |out| <= cap && emitted == e0 + out
        invariant !r.Again? ==> exists s: Stage, p: nat :: After(s, src, p, consumed, out, cap, e0, r)
        decreases if r.Again? then |src| - consumed + 1 else 0, Rank(stage)
      {
        ghost var f1, s1, p1 := View(), stage, consumed;
        var out1 := out;
        consumed, out, r := Turn(src, consumed, out, cap, e0);
        MovedTotal(f0, f1, src, 0, p1, decode, Again, e0 + out1, e0 + out);
        MovedJoin(f0, f1, View(), src, 0, p1, consumed, decode, r, e0 + out);
      }
      if r.Err? {
        assert src[0..] == src;
        return 0, [], r;
      }
      assert src[0..consumed] == src[..consumed];
      Settled(src, consumed, out, cap, e0, r);
    }

    /** What the last stage left behind. */
    lemma Settled(src: seq<Byte>, p: nat, out: seq<Byte>, cap: nat, e0: seq<Byte>, r: Outcome)
      requires exists s: Stage, p0: nat :: After(s, src, p0, p, out, cap, e0, r)
      requires !r.Err? && !r.Again?
      ensures Ok() && |out| <= cap
      ensures r.Stop? ==> emitted == e0 + out && View().content == emitted + Pending()
      ensures r.Stop? ==> r.hint > 0 && ((p == |src| && Pending() == []) || |out| == cap) && Open(View().phase)
      ensures r.Finished? ==> View() == Start(rem) && emitted == []
    {
      hide Feed, HeadNext;
    }
  }

  predicate Open(p: Phase) { !p.Done? && !p.Beyond? && !p.Failed? }

  lemma FeedSlice(f: Frame, src: seq<Byte>, p: nat, decode: Decoder)
    requires p <= |src|
    ensures Feed(f, src[p..p], decode) == f
  {
    assert src[p..p] == [];
  }

  lemma SkippableStart(f: Frame, src: seq<Byte>, p: nat, decode: Decoder)
    requires f.phase == Head([]) && p + 4 <= |src| && Skippable(src[p..])
    ensures Feed(f, src[p..p + 4], decode) == f.(phase := SkipSize([]))
  {
    hide Feed, ParseHeader, Read32;
    var s := src[p..p + 4];
    FeedHead(f, [], s, decode);
    assert [] + s == s && s[4..] == [];
    assert src[p..] == s + src[p + 4..];
    SkippablePrefix(s, src[p + 4..]);
  }

  lemma HeaderTaken(src: seq<Byte>, p: nat, size: nat)
    requires p + size <= |src|
    ensures src[p..][..size] == src[p..p + size]
  {
  }

  /** Header bytes put into the buffer. */
  lemma StoredHead(tmp: seq<Byte>, s: seq<Byte>, rem: U64, decode: Decoder)
    requires |tmp| < MIN_HEADER_SIZE ==> |tmp| + |s| <= MIN_HEADER_SIZE
    requires |tmp| >= MIN_HEADER_SIZE ==>
      !Skippable(tmp) && ParseHeader(tmp).Incomplete? && |tmp| + |s| <= ParseHeader(tmp).size
    ensures var f := Frame(HeadNext(Start(0), tmp).phase, NO_INFO, rem, []);
            Feed(f, s, decode) == HeadNext(Start(rem), tmp + s)
  {
    hide Feed, ParseHeader, Skippable, Read32;
    if |tmp| < MIN_HEADER_SIZE {
      FeedHeadShort(Start(rem), tmp, s, decode);
    } else {
      var f := Frame(Head(tmp), NO_INFO, rem, []);
      if s == [] {
        assert tmp + s == tmp;
        FeedNone(f, decode);
      } else {
        FeedHeadLong(f, tmp, s, decode);
        HeadNextOf(Start(rem), Head(tmp), tmp + s);
      }
    }
  }

  /** A header not yet complete. */
  lemma HeadOpen(tmp0: seq<Byte>, tmp: seq<Byte>, target: nat)
    requires |tmp| < target && tmp0 <= tmp
    requires if |tmp0| < MIN_HEADER_SIZE then target == MIN_HEADER_SIZE
             else !Skippable(tmp0) && ParseHeader(tmp0).Incomplete? && ParseHeader(tmp0).size == target
    ensures Open(HeadNext(Start(0), tmp).phase)
    ensures forall rem: U64 :: HeadNext(Start(rem), tmp) == Frame(HeadNext(Start(0), tmp).phase, NO_INFO, rem, [])
    ensures |tmp0| >= MIN_HEADER_SIZE ==>
      |tmp| >= MIN_HEADER_SIZE && !Skippable(tmp) && ParseHeader(tmp).Incomplete? && ParseHeader(tmp).size == target
  {
    hide ParseHeader, Skippable, Read32;
    if |tmp0| >= MIN_HEADER_SIZE {
      var s := tmp[|tmp0|..];
      assert tmp == tmp0 + s;
      HeaderGrows(tmp0, s);
      SkippablePrefix(tmp0, s);
    }
  }

  lemma HeadNextAt(rem: U64, buf: seq<Byte>)
    requires |buf| >= MIN_HEADER_SIZE
    ensures HeadNext(Start(rem), buf) ==
      if Skippable(buf) then Frame(SkipSize(buf[4..]), NO_INFO, rem, [])
      else match ParseHeader(buf)
           case Incomplete(_) => Frame(Head(buf), NO_INFO, rem, [])
           case Bad(e) => Frame(Failed(e), NO_INFO, rem, [])
           case Good(_, _, _) => HeaderRead(Start(rem), ParseHeader(buf))
  {
    hide ParseHeader, Skippable;
  }

  lemma HeaderSizeMore(buf: seq<Byte>)
    requires |buf| >= MIN_HEADER_SIZE && ParseHeader(buf).Incomplete?
    ensures ParseHeader(buf).size > |buf|
  {
    var size := HeaderSize(buf[4]);
    HeaderSizes(buf);
    if |buf| >= size {
      DescriptorFront(buf, buf[..size], buf[4], size);
    }
  }

  /** An error found now is the error of the whole input. */
  lemma BadNow(f: Frame, src: seq<Byte>, p: nat, q: nat, decode: Decoder, e: Error)
    requires p <= q <= |src| && Feed(f, src[p..q], decode).phase == Failed(e)
    ensures Feed(f, src[p..], decode).phase == Failed(e)
  {
    hide Feed;
    assert src[p..][..q - p] == src[p..q];
    FeedPast(f, src[p..], src[p..q], decode);
  }

  lemma StoredBlockHead(f: Frame, buf: seq<Byte>, s: seq<Byte>, decode: Decoder)
    requires f.phase == BlockHead(buf) && |buf| < BLOCK_HEADER_SIZE && |buf| + |s| <= BLOCK_HEADER_SIZE
    ensures Feed(f, s, decode) == BlockHeadNext(f, buf + s)
  {
    if s == [] {
      assert buf + s == buf;
      FeedNone(f, decode);
    } else {
      FeedBlockHead(f, buf, s, decode);
    }
  }

  lemma CopiedRaw(f: Frame, left: nat, raw: seq<Byte>, s: seq<Byte>, decode: Decoder)
    requires |s| <= left && f.phase == PhaseOf(CopyDirect, [], left, raw, f.info)
    ensures Feed(f, s, decode) ==
      Frame(PhaseOf(CopyDirect, [], left - |s|, raw + s, f.info), f.info, Less(f.info, f.rem, |s|), f.content + s)
  {
    hide Feed;
    if s == [] {
      assert raw + s == raw && f.content + s == f.content;
      LessNone(f.info, f.rem);
      FeedNone(f, decode);
    } else {
      FeedRaw(f, left, raw, s, decode);
    }
  }

  lemma StoredRawCrc(f: Frame, buf: seq<Byte>, block: seq<Byte>, s: seq<Byte>, decode: Decoder)
    requires f.phase == RawCrc(buf, block) && |buf| < CHECKSUM_SIZE && |buf| + |s| <= CHECKSUM_SIZE
    ensures Feed(f, s, decode) == RawCrcNext(f, buf + s, block)
  {
    if s == [] {
      assert buf + s == buf;
      FeedNone(f, decode);
    } else {
      FeedRawCrc(f, buf, block, s, decode);
    }
  }

  lemma StoredPacked(f: Frame, buf: seq<Byte>, target: nat, s: seq<Byte>, decode: Decoder)
    requires f.phase == Packed(buf, target) && |buf| < target && |buf| + |s| <= target
    ensures Feed(f, s, decode) == PackedNext(f, buf + s, target, decode)
  {
    hide Unpack;
    if s == [] {
      assert buf + s == buf;
      FeedNone(f, decode);
    } else {
      FeedPacked(f, buf, target, s, decode);
    }
  }

  lemma LessNone(info: Info, rem: U64)
    ensures Less(info, rem, 0) == rem
  {
  }

  lemma SuffixNextOf(f: Frame, p: Phase, buf: seq<Byte>)
    ensures SuffixNext(f.(phase := p), buf) == SuffixNext(f, buf)
  {
    hide X.Hash, Read32;
  }

  lemma StoredSuffix(f: Frame, buf: seq<Byte>, s: seq<Byte>, decode: Decoder)
    requires f.phase == Suffix(buf) && |buf| < CHECKSUM_SIZE && |buf| + |s| <= CHECKSUM_SIZE
    ensures Feed(f, s, decode) == SuffixNext(f, buf + s)
  {
    if s == [] {
      assert buf + s == buf;
      FeedNone(f, decode);
    } else {
      FeedSuffix(f, buf, s, decode);
    }
  }

  lemma StoredSkipSize(f: Frame, buf: seq<Byte>, s: seq<Byte>, decode: Decoder)
    requires f.phase == SkipSize(buf) && |buf| < 4 && |buf| + |s| <= 4
    ensures Feed(f, s, decode) == SkipSizeNext(f, buf + s)
  {
    if s == [] {
      assert buf + s == buf;
      FeedNone(f, decode);
    } else {
      FeedSkipSize(f, buf, s, decode);
    }
  }

  lemma Skipped(f: Frame, left: nat, s: seq<Byte>, decode: Decoder)
    requires |s| <= left && f.phase == if left == 0 then Done else Skip(left)
    ensures Feed(f, s, decode) == SkipNext(f, left - |s|)
  {
    if s == [] {
      FeedNone(f, decode);
    } else {
      FeedSkip(f, left, s, decode);
    }
  }

  lemma MovedTotal(f0: Frame, f1: Frame, src: seq<Byte>, p: nat, q: nat, decode: Decoder, r: Outcome, total: seq<Byte>,
                   total': seq<Byte>)
    requires Moved(f0, f1, src, p, q, decode, r, total) && (r.Again? || r.Stop?)
    ensures Moved(f0, f1, src, p, q, decode, r, total')
  {
    hide Feed;
  }

  /** What a call promises, from frame f0 with e0 already delivered: the frame it read up to, and the
      content it delivered; it stops early only when the output is full. */
  ghost predicate Called(f0: Frame, e0: seq<Byte>, src: seq<Byte>, cap: nat, consumed: nat, out: seq<Byte>, r: Outcome,
                         f1: Frame, e1: seq<Byte>, pending: seq<Byte>, decode: Decoder) {
    && consumed <= |src| && |out| <= cap
    && match r
       case Err(e) => Feed(f0, src, decode).phase == Failed(e)
       case Finished =>
         var g := Feed(f0, src[..consumed], decode);
         g.phase.Done? && g.content == e0 + out
       case Stop(hint) =>
         && hint > 0 && Open(f1.phase) && Feed(f0, src[..consumed], decode) == f1
         && e1 == e0 + out && f1.content == e1 + pending
         && ((consumed == |src| && pending == []) || |out| == cap)
       case Again => false
  }

  lemma FlushSplit(content: seq<Byte>, emitted: seq<Byte>, t: seq<Byte>, start: nat, n: nat)
    requires start + n <= |t| && content == emitted + t[start..]
    ensures content == (emitted + t[start..start + n]) + t[start + n..]
    ensures start + n == |t| ==> content == emitted + t[start..start + n]
  {
    assert t[start..] == t[start..start + n] + t[start + n..];
  }
}
