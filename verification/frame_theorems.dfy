/** The frame decoder does not depend on how its input and output are cut into pieces. */
module FrameTheorems {
  import opened Bytes
  import opened FrameFormat
  import opened FrameDecode

  /** One call: how much of the stream it was offered, how much room it had, and how it ended. */
  datatype Call = Call(offered: nat, cap: nat, consumed: nat, out: seq<Byte>, r: Outcome, frame: Frame, emitted: seq<Byte>,
                       pending: seq<Byte>)

  /** A sequence of calls, each offered input from where the one before stopped reading; only the last
      may end the frame or fail. */
  ghost predicate Session(stream: seq<Byte>, pos: nat, f: Frame, e: seq<Byte>, calls: seq<Call>, decode: Decoder)
    decreases |calls|
  {
    calls == [] ||
    (var c := calls[0];
     && pos + c.offered <= |stream|
     && Called(f, e, stream[pos..pos + c.offered], c.cap, c.consumed, c.out, c.r, c.frame, c.emitted, c.pending, decode)
     && (|calls| > 1 ==> c.r.Stop? && Session(stream, pos + c.consumed, c.frame, c.emitted, calls[1..], decode)))
  }

  function Consumed(calls: seq<Call>): nat {
    if calls == [] then 0 else calls[0].consumed + Consumed(calls[1..])
  }

  function Output(calls: seq<Call>): seq<Byte> {
    if calls == [] then [] else calls[0].out + Output(calls[1..])
  }

  function LastOutcome(calls: seq<Call>): Outcome
    requires calls != []
  {
    calls[|calls| - 1].r
  }

  /** What a session has achieved is what reading its input byte by byte achieves. */
  ghost predicate Achieved(stream: seq<Byte>, pos: nat, f: Frame, e: seq<Byte>, n: nat, out: seq<Byte>, r: Outcome,
                           decode: Decoder) {
    pos + n <= |stream| &&
    match r
    case Err(x) => Feed(f, stream[pos..], decode).phase == Failed(x)
    case Finished =>
      var g := Feed(f, stream[pos..pos + n], decode);
      g.phase.Done? && g.content == e + out
    case Stop(_) =>
      var g := Feed(f, stream[pos..pos + n], decode);
      Open(g.phase) && e + out <= g.content
    case Again => false
  }

  lemma FirstCall(stream: seq<Byte>, pos: nat, f: Frame, e: seq<Byte>, c: Call, decode: Decoder)
    requires pos + c.offered <= |stream|
    requires Called(f, e, stream[pos..pos + c.offered], c.cap, c.consumed, c.out, c.r, c.frame, c.emitted, c.pending, decode)
    ensures Achieved(stream, pos, f, e, c.consumed, c.out, c.r, decode)
    ensures c.r.Stop? ==> Feed(f, stream[pos..pos + c.consumed], decode) == c.frame && c.emitted == e + c.out
  {
    hide Feed;
    var src := stream[pos..pos + c.offered];
    assert src[..c.consumed] == stream[pos..pos + c.consumed];
    if c.r.Err? {
      assert stream[pos..][..|src|] == src;
      FeedPast(f, stream[pos..], src, decode);
    }
  }

  lemma ThenRest(stream: seq<Byte>, pos: nat, f: Frame, e: seq<Byte>, n: nat, out: seq<Byte>, g: Frame, m: nat,
                 rest: seq<Byte>, r: Outcome, decode: Decoder)
    requires pos + n <= |stream| && Feed(f, stream[pos..pos + n], decode) == g
    requires Achieved(stream, pos + n, g, e + out, m, rest, r, decode)
    ensures Achieved(stream, pos, f, e, n + m, out + rest, r, decode)
  {
    hide Feed;
    assert stream[pos..] == stream[pos..pos + n] + stream[pos + n..];
    FeedJoin(f, stream[pos..pos + n], stream[pos + n..], decode);
    assert stream[pos..pos + n + m] == stream[pos..pos + n] + stream[pos + n..pos + n + m];
    FeedJoin(f, stream[pos..pos + n], stream[pos + n..pos + n + m], decode);
    assert e + out + rest == e + (out + rest);
  }

  lemma {:induction false} SessionAchieves(stream: seq<Byte>, pos: nat, f: Frame, e: seq<Byte>, calls: seq<Call>,
                                           decode: Decoder)
    requires Session(stream, pos, f, e, calls, decode) && calls != []
    ensures Achieved(stream, pos, f, e, Consumed(calls), Output(calls), LastOutcome(calls), decode)
    decreases |calls|
  {
    hide Called, Achieved, Feed;
    var c := calls[0];
    FirstCall(stream, pos, f, e, c, decode);
    if |calls| == 1 {
      assert calls[1..] == [];
      assert c.out + [] == c.out;
    } else {
      CallInside(f, e, stream[pos..pos + c.offered], c, decode);
      SessionAchieves(stream, pos + c.consumed, c.frame, c.emitted, calls[1..], decode);
      ThenRest(stream, pos, f, e, c.consumed, c.out, c.frame, Consumed(calls[1..]), Output(calls[1..]),
               LastOutcome(calls), decode);
    }
  }

  lemma CallInside(f: Frame, e: seq<Byte>, src: seq<Byte>, c: Call, decode: Decoder)
    requires Called(f, e, src, c.cap, c.consumed, c.out, c.r, c.frame, c.emitted, c.pending, decode)
    ensures c.consumed <= |src|
  {
    hide Feed;
  }

  // ---- Reading is deterministic.

  /** Content only grows. */
  lemma {:induction false} ContentGrows(f: Frame, s: seq<Byte>, decode: Decoder)
    ensures f.content <= Feed(f, s, decode).content
    decreases |s|
  {
    hide FeedByte;
    if s != [] {
      ByteGrows(f, s[0], decode);
      ContentGrows(FeedByte(f, s[0], decode), s[1..], decode);
    }
  }

  lemma ByteGrows(f: Frame, b: Byte, decode: Decoder)
    ensures f.content <= FeedByte(f, b, decode).content
  {
    hide ParseHeader, Read32, Less;
  }

  /** A frame ends at one place only. */
  lemma EndsOnce(f: Frame, stream: seq<Byte>, a: nat, b: nat, decode: Decoder)
    requires a <= b <= |stream| && Feed(f, stream[..a], decode).phase.Done?
    ensures Feed(f, stream[..b], decode).phase.Done? <==> a == b
    ensures a < b ==> Feed(f, stream[..b], decode).phase.Beyond?
  {
    if a < b {
      var rest := stream[a..b];
      assert stream[..b] == stream[..a] + rest;
      FeedJoin(f, stream[..a], rest, decode);
      var g := Feed(f, stream[..a], decode);
      assert rest == [rest[0]] + rest[1..];
      FeedOver(FeedByte(g, rest[0], decode), rest[1..], decode);
    }
  }

  /** Before the end nothing failed and the content was a prefix. */
  lemma BeforeEnd(f: Frame, stream: seq<Byte>, b: nat, a: nat, decode: Decoder)
    requires b <= a <= |stream| && Feed(f, stream[..a], decode).phase.Done?
    ensures !Feed(f, stream[..b], decode).phase.Failed?
    ensures Feed(f, stream[..b], decode).content <= Feed(f, stream[..a], decode).content
  {
    hide Feed;
    var rest := stream[b..a];
    assert stream[..a] == stream[..b] + rest;
    FeedJoin(f, stream[..b], rest, decode);
    var g := Feed(f, stream[..b], decode);
    ContentGrows(g, rest, decode);
    if g.phase.Failed? {
      FeedOver(g, rest, decode);
    }
  }

  // ---- The theorems.

  /** Two sessions over the same stream, cut differently: if both reach the end of the frame they read
      the same number of bytes and deliver the same content; one cannot fail where the other ends; and
      if both fail, the error is the same. */
  lemma ChunkIndependent(stream: seq<Byte>, rem: U64, xs: seq<Call>, ys: seq<Call>, decode: Decoder)
    requires xs != [] && Session(stream, 0, Start(rem), [], xs, decode)
    requires ys != [] && Session(stream, 0, Start(rem), [], ys, decode)
    ensures LastOutcome(xs).Finished? && LastOutcome(ys).Finished? ==>
              Consumed(xs) == Consumed(ys) && Output(xs) == Output(ys)
    ensures !(LastOutcome(xs).Finished? && LastOutcome(ys).Err?)
    ensures LastOutcome(xs).Err? && LastOutcome(ys).Err? ==> LastOutcome(xs).error == LastOutcome(ys).error
    ensures LastOutcome(xs).Finished? && LastOutcome(ys).Stop? ==>
              Consumed(ys) <= Consumed(xs) && Output(ys) <= Output(xs)
  {
    hide Session, Feed, Start, Output, Consumed;
    var f := Start(rem);
    SessionAchieves(stream, 0, f, [], xs, decode);
    SessionAchieves(stream, 0, f, [], ys, decode);
    var a, b := Consumed(xs), Consumed(ys);
    assert stream[0..a] == stream[..a] && stream[0..b] == stream[..b] && stream[0..] == stream;
    assert [] + Output(xs) == Output(xs) && [] + Output(ys) == Output(ys);
    if LastOutcome(xs).Finished? {
      if LastOutcome(ys).Err? {
        assert stream == stream[..|stream|];
        EndsOnce(f, stream, a, |stream|, decode);
        assert false;
      } else if a <= b {
        EndsOnce(f, stream, a, b, decode);
      } else {
        if LastOutcome(ys).Finished? {
          EndsOnce(f, stream, b, a, decode);
        }
        BeforeEnd(f, stream, b, a, decode);
      }
    }
  }

  /** A single call that is offered the whole stream and room beyond the content does what the session
      did. */
  lemma OneCall(stream: seq<Byte>, rem: U64, xs: seq<Call>, c: Call, decode: Decoder)
    requires xs != [] && Session(stream, 0, Start(rem), [], xs, decode)
    requires c.offered == |stream| && Session(stream, 0, Start(rem), [], [c], decode)
    ensures LastOutcome(xs).Finished? && |Output(xs)| < c.cap ==>
              c.r.Finished? && c.consumed == Consumed(xs) && c.out == Output(xs)
    ensures LastOutcome(xs).Err? ==> c.r == LastOutcome(xs) || |c.out| == c.cap
  {
    hide Feed, Start, Output, Consumed;
    var f := Start(rem);
    ChunkIndependent(stream, rem, xs, [c], decode);
    ChunkIndependent(stream, rem, [c], xs, decode);
    assert Output([c]) == c.out && Consumed([c]) == c.consumed by { OneOutput(c); }
    assert stream[0..0 + c.offered] == stream;
    if c.r.Stop? && |c.out| < c.cap {
      assert stream[..c.consumed] == stream;
      SessionAchieves(stream, 0, f, [], xs, decode);
      var a := Consumed(xs);
      assert stream[0..a] == stream[..a] && stream[0..] == stream;
    }
  }

  lemma OneOutput(c: Call)
    ensures Output([c]) == c.out && Consumed([c]) == c.consumed
  {
    assert [c][1..] == [];
    assert c.out + [] == c.out;
  }
}
