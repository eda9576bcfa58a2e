/** The frame layer over the LZ4 block codec: whatever is compressed into a frame comes back, however the
    frame and the output are cut into calls. */
module FrameLz4 {
  import opened Bytes
  import opened FrameFormat
  import opened FrameDecode
  import opened FrameTheorems
  import opened FrameEncode
  import E = Lz4Encode
  import D = Lz4Decode
  import F = Lz4Format

  /** The block decoder gives one of the results LZ4_decompress_safe may give for that capacity. */
  ghost predicate Decompresses(decode: Decoder) {
    forall block: seq<Byte>, max: nat {:trigger decode(block, max)} ::
      exists out: seq<Byte>, n: int :: Result(block, max, out, n) && decode(block, max) == if n < 0 then None else Some(out[..n])
  }

  ghost predicate Result(block: seq<Byte>, max: nat, out: seq<Byte>, n: int) {
    && n <= |out| == max && D.Decompressed(block, out, n)
    && (max == 0 ==> n == if block == [0] then 0 else -1)
  }

  /** The block compressor writes what LZ4_compress_fast or LZ4_compress_HC may write, or nothing. */
  ghost predicate Compresses(compress: Compressor) {
    forall b: seq<Byte> :: compress(b) != [] ==> exists block: F.Block :: E.Compressed(b, compress(b), block)
  }

  /** So the decoder inverts the compressor. */
  lemma CodecInverts(compress: Compressor, decode: Decoder)
    requires Compresses(compress) && Decompresses(decode)
    ensures Inverts(compress, decode)
  {
    hide E.Compressed, D.Decompressed;
    forall b: seq<Byte>, max: nat | compress(b) != [] && |b| <= max ensures decode(compress(b), max) == Some(b) {
      var block: F.Block :| E.Compressed(b, compress(b), block);
      var out: seq<Byte>, n: int :|
        Result(compress(b), max, out, n) && decode(compress(b), max) == if n < 0 then None else Some(out[..n]);
      E.RoundTrip(b, compress(b), block, out, n);
    }
  }

  /** It never gives more than it was allowed. */
  lemma CodecBounded(decode: Decoder)
    requires Decompresses(decode)
    ensures DecoderOk(decode)
  {
    hide D.Decompressed;
    forall block: seq<Byte>, max: nat | decode(block, max).Some? ensures |decode(block, max).value| <= max {
      var out: seq<Byte>, n: int :|
        Result(block, max, out, n) && decode(block, max) == if n < 0 then None else Some(out[..n]);
    }
  }

  /** Any calls on a written frame and whatever follows it deliver only bytes of the input, in order; they
      never fail; and when they report the end, exactly the frame was read and exactly the input
      delivered. */
  lemma FrameRoundTrip(src: seq<Byte>, frame: seq<Byte>, tail: seq<Byte>, calls: seq<Call>, decode: Decoder)
    requires var g := Feed(Start(0), frame, decode); g.phase.Done? && g.content == src
    requires calls != [] && Session(frame + tail, 0, Start(0), [], calls, decode)
    ensures !LastOutcome(calls).Err?
    ensures LastOutcome(calls).Finished? ==> Consumed(calls) == |frame| && Output(calls) == src
    ensures LastOutcome(calls).Stop? ==> Consumed(calls) <= |frame| && Output(calls) <= src
  {
    hide Session, Feed, Start, Output, Consumed;
    var f, stream, a := Start(0), frame + tail, Consumed(calls);
    SessionAchieves(stream, 0, f, [], calls, decode);
    assert stream[..|frame|] == frame && stream[0..] == stream == stream[..|stream|] && stream[0..a] == stream[..a];
    assert [] + Output(calls) == Output(calls);
    if LastOutcome(calls).Err? {
      EndsOnce(f, stream, |frame|, |stream|, decode);
    } else if a <= |frame| {
      BeforeEnd(f, stream, a, |frame|, decode);
      if LastOutcome(calls).Finished? {
        EndsOnce(f, stream, a, |frame|, decode);
      }
    } else {
      EndsOnce(f, stream, |frame|, a, decode);
    }
  }

  /** LZ4F_compressFrame over the LZ4 block codec. */
  method CompressLz4Frame(src: seq<Byte>, dstCapacity: nat, prefs: Prefs, compress: Compressor, ghost decode: Decoder)
    returns (written: Option<seq<Byte>>)
    requires (prefs.blockSizeID == 0 || 4 <= prefs.blockSizeID <= 7) && |src| < 0x8000_0000_0000
    requires Compresses(compress) && Decompresses(decode)
    ensures written.None? <==> dstCapacity < CompressFrameBound(|src|, OptimalId(prefs.blockSizeID, |src|),
                                                                prefs.blockChecksum, prefs.contentChecksum)
    ensures written.Some? ==>
      |written.value| == FrameSize(src, prefs, compress) <= dstCapacity && ComesBack(written.value, src, decode)
  {
    hide ComesBack, Feed, Inverts, Compresses, Decompresses, CompressFrameBound, OptimalId, FrameSize;
    CodecInverts(compress, decode);
    written := CompressFrame(src, dstCapacity, prefs, compress, decode);
    if written.Some? {
      ReadBack(written.value, src, decode);
    }
  }

  /** Whatever follows the frame and however it is read, no call fails, and when the end is reported
      exactly the frame was read and exactly the input delivered. */
  ghost predicate ComesBack(frame: seq<Byte>, src: seq<Byte>, decode: Decoder) {
    forall tail: seq<Byte>, calls: seq<Call> | calls != [] && Session(frame + tail, 0, Start(0), [], calls, decode) ::
      && !LastOutcome(calls).Err?
      && (LastOutcome(calls).Finished? ==> Consumed(calls) == |frame| && Output(calls) == src)
  }

  lemma ReadBack(frame: seq<Byte>, src: seq<Byte>, decode: Decoder)
    requires var g := Feed(Start(0), frame, decode); g.phase.Done? && g.content == src
    ensures ComesBack(frame, src, decode)
  {
    hide Session, Feed, Start, Output, Consumed;
    forall tail: seq<Byte>, calls: seq<Call> | calls != [] && Session(frame + tail, 0, Start(0), [], calls, decode)
      ensures !LastOutcome(calls).Err?
      ensures LastOutcome(calls).Finished? ==> Consumed(calls) == |frame| && Output(calls) == src
    {
      FrameRoundTrip(src, frame, tail, calls, decode);
    }
  }

  /** One call of LZ4F_decompress on a fresh context, with the LZ4 block decoder: given the whole frame and
      room beyond its content, it reports the end and delivers the content. */
  method DecompressLz4Frame(frame: seq<Byte>, tail: seq<Byte>, cap: nat, decode: Decoder, ghost src: seq<Byte>)
    returns (consumed: nat, out: seq<Byte>, r: Outcome)
    requires Decompresses(decode) && |src| < cap
    requires var g := Feed(Start(0), frame, decode); g.phase.Done? && g.content == src
    ensures r.Finished? && consumed == |frame| && out == src
  {
    hide Feed, Start, Decompresses, DecoderOk;
    CodecBounded(decode);
    var d := new Dctx(decode);
    consumed, out, r := d.Decompress(frame + tail, cap);
    ReadWhole(frame, tail, cap, decode, src, Call(|frame + tail|, cap, consumed, out, r, d.View(), d.emitted, d.Pending()));
  }

  lemma ReadWhole(frame: seq<Byte>, tail: seq<Byte>, cap: nat, decode: Decoder, src: seq<Byte>, c: Call)
    requires |src| < cap && c.offered == |frame + tail| && c.cap == cap
    requires var g := Feed(Start(0), frame, decode); g.phase.Done? && g.content == src
    requires Called(Start(0), [], frame + tail, cap, c.consumed, c.out, c.r, c.frame, c.emitted, c.pending, decode)
    ensures c.r.Finished? && c.consumed == |frame| && c.out == src
  {
    hide Feed, Start;
    var stream := frame + tail;
    assert stream[0..0 + c.offered] == stream;
    assert Session(stream, 0, Start(0), [], [c], decode);
    FrameRoundTrip(src, frame, tail, [c], decode);
    OneOutput(c);
    assert stream[..|stream|] == stream;
    assert tail == [] ==> stream == frame;
  }
}
