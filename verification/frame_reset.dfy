/** What a reset leaves behind: the count of content still expected. */
module FrameReset {
  import opened Bytes
  import opened FrameFormat
  import opened FrameDecode
  import opened FrameTheorems
  import opened FrameEncode
  import X = Xxh32

  /** Frames that set the count themselves or never look at it: skippable ones and those that state the
      size of their content. */
  predicate CountsAnew(s: seq<Byte>) {
    |s| >= 4 && (Skippable(s) || (|s| >= MIN_HEADER_SIZE && ParseHeader(s).Good? && ParseHeader(s).sized))
  }

  predicate InBody(p: Phase) { p.BlockHead? || p.Raw? || p.RawCrc? || p.Packed? }

  predicate InSkip(p: Phase) { p.SkipSize? || p.Skip? }

  function Stale(f: Frame, rem: U64): Frame { f.(rem := rem) }

  // ---- A frame that does not state its size.

  lemma StartStale(f: Frame, rem: U64, header: nat)
    requires f.info.contentSize == 0 && f.rem == 0 && rem != 0
    ensures BodyOn(f, BlockStart(f, header), BlockStart(Stale(f, rem), header), rem)
  {
  }

  /** One step: both go on alike, the frame fails, or it is at its end and the stale count shows. */
  ghost predicate BodyOn(f0: Frame, f: Frame, g: Frame, rem: U64) {
    || (InBody(f.phase) && f.rem == 0 && f.info == f0.info && g == Stale(f, rem))
    || f.phase.Failed?
    || ((f.phase.Done? || f.phase.Suffix?) && g.phase == Failed(FrameSizeWrong))
  }

  lemma UnpackStale(f: Frame, rem: U64, buf: seq<Byte>, decode: Decoder)
    requires f.info.contentSize == 0 && f.rem == 0 && rem != 0
    ensures BodyOn(f, Unpack(f, buf, decode), Unpack(Stale(f, rem), buf, decode), rem)
  {
    hide X.Hash, Read32;
  }

  lemma BodyByte(f: Frame, rem: U64, b: Byte, decode: Decoder)
    requires InBody(f.phase) && f.info.contentSize == 0 && f.rem == 0 && rem != 0
    ensures BodyOn(f, FeedByte(f, b, decode), FeedByte(Stale(f, rem), b, decode), rem)
  {
    hide X.Hash, Read32, Unpack, BlockStart;
    match f.phase
    case BlockHead(buf) =>
      if |buf + [b]| >= BLOCK_HEADER_SIZE {
        StartStale(f, rem, Read32(buf + [b], 0));
      }
    case Packed(buf, target) =>
      if |buf + [b]| >= target {
        UnpackStale(f, rem, buf + [b], decode);
      }
    case _ =>
  }

  lemma {:induction false} BodyStale(f: Frame, rem: U64, s: seq<Byte>, decode: Decoder)
    requires InBody(f.phase) && f.info.contentSize == 0 && f.rem == 0 && rem != 0
    requires Feed(f, s, decode).phase.Done?
    ensures Feed(Stale(f, rem), s, decode).phase == Failed(FrameSizeWrong)
    decreases |s|
  {
    hide FeedByte;
    var f', g' := FeedByte(f, s[0], decode), FeedByte(Stale(f, rem), s[0], decode);
    BodyByte(f, rem, s[0], decode);
    if InBody(f'.phase) {
      BodyStale(f', rem, s[1..], decode);
    } else if f'.phase.Failed? {
      FeedOver(f', s[1..], decode);
    } else {
      FeedOver(g', s[1..], decode);
    }
  }

  // ---- A skippable frame.

  lemma {:induction false} SkipStale(f: Frame, rem: U64, s: seq<Byte>, decode: Decoder)
    requires InSkip(f.phase) && Feed(f, s, decode).phase.Done?
    ensures Feed(Stale(f, rem), s, decode) == Stale(Feed(f, s, decode), rem)
    decreases |s|
  {
    hide Read32;
    var f' := FeedByte(f, s[0], decode);
    assert FeedByte(Stale(f, rem), s[0], decode) == Stale(f', rem);
    if InSkip(f'.phase) {
      SkipStale(f', rem, s[1..], decode);
    } else if s[1..] != [] {
      FeedOver(FeedByte(f', s[1], decode), s[1..][1..], decode);
    } else {
      FeedNone(f', decode);
      FeedNone(Stale(f', rem), decode);
    }
  }

  // ---- The header.

  /** A complete header parses the same whatever follows it. */
  lemma GoodPrefix(a: seq<Byte>, s: seq<Byte>)
    requires |a| >= MIN_HEADER_SIZE && ParseHeader(a).Good?
    ensures ParseHeader(a + s) == ParseHeader(a)
    ensures !ParseHeader(a).sized ==> ParseHeader(a).info.contentSize == 0
  {
    hide HeaderSize, ParseDescriptor;
    assert Read32(a + s, 0) == Read32(a, 0) && (a + s)[4] == a[4];
    var size := HeaderSize(a[4]);
    HeaderSizes(a);
    assert (a + s)[..size] == a[..size];
    DescriptorFront(a, a[..size], a[4], size);
    DescriptorFront(a + s, a[..size], a[4], size);
    DescriptorSized(a, a[4], size);
  }

  lemma DescriptorSized(s: seq<Byte>, flags: Byte, size: nat)
    requires MIN_HEADER_SIZE <= size <= |s| && (flags / 8 % 2 == 1 ==> size >= 15)
    ensures var h := ParseDescriptor(s, flags, size); h.Good? && !h.sized ==> h.info.contentSize == 0
  {
    hide X.Hash, Read64;
  }

  /** What a stale count does to the frame s that a fresh context reads to its end. */
  ghost predicate Fate(f: Frame, g: Frame, anew: bool, rem: U64) {
    if rem == 0 || anew then g.phase.Done? && g.content == f.content else g.phase == Failed(FrameSizeWrong)
  }

  lemma {:induction false} HeadStale(buf: seq<Byte>, s: seq<Byte>, rem: U64, decode: Decoder)
    requires |buf| >= 4 ==> !Skippable(buf)
    requires Feed(Frame(Head(buf), NO_INFO, 0, []), s, decode).phase.Done?
    ensures Fate(Feed(Frame(Head(buf), NO_INFO, 0, []), s, decode), Feed(Frame(Head(buf), NO_INFO, rem, []), s, decode),
                 CountsAnew(buf + s), rem)
    decreases |s|
  {
    hide ParseHeader, Skippable, CountsAnew, HeadNext;
    var f, g := Frame(Head(buf), NO_INFO, 0, []), Frame(Head(buf), NO_INFO, rem, []);
    var b := buf + [s[0]];
    assert buf + s == b + s[1..];
    HeadCases(b, s[1..], rem);
    var f' := HeadNext(f, b);
    HeadNextOf(Frame(Head([]), NO_INFO, 0, []), Head(buf), b);
    HeadNextOf(Frame(Head([]), NO_INFO, rem, []), Head(buf), b);
    if f'.phase.Head? {
      HeadStale(b, s[1..], rem, decode);
    } else if f'.phase.SkipSize? {
      SkipStale(f', rem, s[1..], decode);
    } else if f'.phase.Failed? {
      FeedOver(f', s[1..], decode);
    } else if rem != 0 && !CountsAnew(buf + s) {
      BodyStale(f', rem, s[1..], decode);
    }
  }

  lemma HeadCases(b: seq<Byte>, rest: seq<Byte>, rem: U64)
    ensures var f', g' := HeadNext(Frame(Head([]), NO_INFO, 0, []), b), HeadNext(Frame(Head([]), NO_INFO, rem, []), b);
      || (f' == Frame(Head(b), NO_INFO, 0, []) && g' == Stale(f', rem) && (|b| >= 4 ==> !Skippable(b)))
      || (f'.phase.SkipSize? && g' == Stale(f', rem) && CountsAnew(b + rest))
      || f'.phase.Failed?
      || (f'.phase == BlockHead([]) && CountsAnew(b + rest) && f' == g')
      || (f'.phase == BlockHead([]) && !CountsAnew(b + rest) && g' == Stale(f', rem) && f'.rem == 0
          && f'.info.contentSize == 0)
  {
    hide ParseHeader, Skippable;
    if |b| >= 4 {
      SkippablePrefix(b, rest);
    }
    if |b| >= MIN_HEADER_SIZE && ParseHeader(b).Good? {
      GoodPrefix(b, rest);
    }
  }

  /** A frame that a fresh context reads to its end reads the same after a reset with a count left over,
      if it sets the count itself or never looks at it; otherwise it fails at its end mark. */
  lemma StaleCount(s: seq<Byte>, rem: U64, decode: Decoder)
    requires Feed(Start(0), s, decode).phase.Done?
    ensures var g := Feed(Start(rem), s, decode);
      if rem == 0 || CountsAnew(s) then g.phase.Done? && g.content == Feed(Start(0), s, decode).content
      else g.phase == Failed(FrameSizeWrong)
  {
    hide Feed, CountsAnew;
    HeadStale([], s, rem, decode);
    assert [] + s == s;
  }

  /** How a count is left over: a frame that states its size is given up after its header. From then on
      every frame that does not state its size fails. */
  method LeftOver(id: nat, size: U64, decode: Decoder) returns (d: Dctx)
    requires 4 <= id <= 7 && size > 0 && DecoderOk(decode)
    ensures d.Ok() && d.decode == decode && d.View() == Start(size)
    ensures forall s: seq<Byte> :: Feed(Start(0), s, decode).phase.Done? && !CountsAnew(s) ==>
              Feed(d.View(), s, decode).phase == Failed(FrameSizeWrong)
  {
    hide Feed, CountsAnew, HeaderBytes, ParseHeader, Skippable, HeaderSize;
    d := new Dctx(decode);
    var header := HeaderBytes(id, size, false, false, 0);
    var consumed, out, r := d.Decompress(header, 1);
    HeaderParses(id, size, false, false, 0);
    HeaderFeeds(header, decode);
    HeaderTaken(d, header, consumed, out, r, d.View(), d.emitted, d.Pending());
    d.Reset();
    forall s: seq<Byte> | Feed(Start(0), s, decode).phase.Done? && !CountsAnew(s)
      ensures Feed(d.View(), s, decode).phase == Failed(FrameSizeWrong)
    {
      StaleCount(s, size, decode);
    }
  }

  lemma HeaderTaken(d: Dctx, header: seq<Byte>, consumed: nat, out: seq<Byte>, r: Outcome, f: Frame, e: seq<Byte>,
                    pending: seq<Byte>)
    requires Called(Start(0), [], header, 1, consumed, out, r, f, e, pending, d.decode)
    requires |header| >= MIN_HEADER_SIZE && ParseHeader(header).Good? && ParseHeader(header).sized
    requires Feed(Start(0), header, d.decode) == HeaderRead(Start(0), ParseHeader(header))
    requires f == d.View()
    ensures r.Stop? && d.rem == ParseHeader(header).info.contentSize
  {
    hide Feed, ParseHeader;
    assert header[..|header|] == header;
    var rest := header[consumed..];
    assert header == header[..consumed] + rest;
    FeedJoin(Start(0), header[..consumed], rest, d.decode);
    ContentGrows(Feed(Start(0), header[..consumed], d.decode), rest, d.decode);
    if r.Finished? {
      EndsOnce(Start(0), header, consumed, |header|, d.decode);
      assert false;
    }
    ViewRem(d);
  }

  lemma ViewRem(d: Dctx)
    ensures d.View().rem == d.rem
  {
    hide HeadNext;
  }
}
