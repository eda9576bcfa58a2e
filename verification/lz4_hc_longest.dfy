/** What the shortcuts of the high-compression search may skip: candidates that are no match at all, or
    none longer than the one it has. */
module Lz4HcLongest {
  import opened Bytes
  import opened Lz4Format
  import opened Lz4Greedy
  import opened Lz4Encode
  import opened Lz4HcTables

  /** Where a search looks: ip, the earliest start, the limit, and the length to beat. */
  predicate Window(src: seq<Byte>, ip: nat, low: nat, high: nat, longest: nat) {
    low <= ip && ip + MINMATCH <= high && high < |src| && ip - low < longest && low + longest <= high
  }

  /** From p on, n bytes are the same, up to the limit. */
  ghost predicate Run(src: seq<Byte>, p: nat, n: nat, high: nat) {
    MINMATCH <= n && p + n <= high <= |src| && AllByte(src, p, p + n, src[p])
  }

  ghost predicate AllByte(src: seq<Byte>, lo: nat, hi: nat, b: Byte) {
    hi <= |src| && forall k | lo <= k < hi :: src[k] == b
  }

  /** A run of b up to p goes no further. */
  predicate Ends(src: seq<Byte>, p: nat, high: nat, b: Byte) {
    p == high || (p < |src| && src[p] != b)
  }

  /** Between low and high, no match with the bytes at m that covers the four bytes at ip is longer. */
  ghost predicate NoLonger(src: seq<Byte>, ip: nat, low: nat, high: nat, m: nat, len: nat)
    requires m <= ip
  {
    forall s: nat, e: nat :: !Covers(src, ip, low, high, m, len, s, e)
  }

  /** A match at a distance, between low and high, that covers the four bytes at ip and is longer. */
  ghost predicate Covers(src: seq<Byte>, ip: nat, low: nat, high: nat, m: nat, len: nat, s: nat, e: nat)
    requires m <= ip
  {
    low <= s <= ip && ip + MINMATCH <= e <= high && len < e - s && Repeats(src, ip - m, s, e)
  }

  /** No match within reach is longer. */
  ghost predicate NoneLonger(src: seq<Byte>, ip: nat, low: nat, high: nat, len: nat) {
    forall m: nat | m < ip <= m + DISTANCE_MAX :: NoLonger(src, ip, low, high, m, len)
  }

  /** None within reach behind position at. */
  ghost predicate Passed(src: seq<Byte>, ip: nat, low: nat, high: nat, at: int, len: nat) {
    forall m: nat | at < m < ip <= m + DISTANCE_MAX :: NoLonger(src, ip, low, high, m, len)
  }

  /** Four equal bytes have one hash. */
  ghost predicate Bytewise(src: seq<Byte>, hash: nat -> nat) {
    forall p: nat, q: nat | SameFour(src, p, q) :: hash(p) == hash(q)
  }

  /** The candidate m is on the chain of the hash at ip + pos, and so is every longer match. */
  ghost predicate OnChain(hash: nat -> nat, ip: nat, low: nat, m: nat, pos: nat, len: nat) {
    m + pos < ip && hash(m + pos) == hash(ip + pos) && (pos == 0 || (low == ip && pos + MINMATCH <= len))
  }

  /** A candidate that is known to match over n bytes, but was not looked at. */
  ghost predicate Pending(src: seq<Byte>, ip: nat, high: nat, m: nat, n: nat) {
    m < ip && MINMATCH <= n && ip + n <= high && Repeats(src, ip - m, ip, ip + n)
  }

  function Longer(a: nat, b: nat): nat { if a < b then b else a }

  /** Where a search stands that loses nothing: the candidates behind at are dealt with, once the one at
      `at` is looked at if it is known to match, and at is on a chain of every longer match. */
  ghost predicate Tracks(src: seq<Byte>, hash: nat -> nat, ip: nat, low: nat, high: nat, lowest: nat, at: int, pos: nat,
                         len: nat, pending: nat) {
    && Passed(src, ip, low, high, at, Longer(len, pending))
    && (lowest <= at ==> OnChain(hash, ip, low, at, pos, len))
    && (pending > 0 ==> lowest <= at && low == ip && Pending(src, ip, high, at, pending))
  }

  // ---- One candidate.

  lemma RepeatsAt(a: seq<Byte>, off: nat, lo: nat, hi: nat, k: nat)
    requires Repeats(a, off, lo, hi) && lo <= k < hi
    ensures a[k] == a[k - off]
  {
  }

  /** A longer match that covers ip has the two bytes at which the known one would grow. */
  lemma PrecheckLosesNothing(src: seq<Byte>, ip: nat, low: nat, high: nat, m: nat, len: nat, k: nat)
    requires Window(src, ip, low, high, len) && m < ip
    requires low + len - 1 <= k <= low + len && (k >= ip - m ==> src[k] != src[k - (ip - m)])
    ensures NoLonger(src, ip, low, high, m, len)
  {
    hide Repeats;
    forall s: nat, e: nat ensures !Covers(src, ip, low, high, m, len, s, e) {
      if Covers(src, ip, low, high, m, len, s, e) {
        RepeatsFrom(src, ip - m, s, e);
        RepeatsAt(src, ip - m, s, e, k);
      }
    }
  }

  lemma RepeatsFrom(a: seq<Byte>, off: nat, lo: nat, hi: nat)
    requires Repeats(a, off, lo, hi)
    ensures off <= lo && hi <= |a|
  {
  }

  lemma FirstBytesDiffer(src: seq<Byte>, ip: nat, low: nat, high: nat, m: nat, len: nat, d: nat)
    requires m < ip && d < MINMATCH && ip + MINMATCH <= |src| && src[ip + d] != src[m + d]
    ensures NoLonger(src, ip, low, high, m, len)
  {
    hide Repeats;
    forall s: nat, e: nat ensures !Covers(src, ip, low, high, m, len, s, e) {
      if Covers(src, ip, low, high, m, len, s, e) {
        RepeatsAt(src, ip - m, s, e, ip + d);
      }
    }
  }

  /** A comparison both ways as far as it goes leaves nothing longer. */
  lemma ComparedWhole(src: seq<Byte>, ip: nat, low: nat, high: nat, m: nat, back: nat, c: nat)
    requires low <= ip && m < ip && back <= ip - low && back <= m && ip + MINMATCH + c <= high < |src|
    requires back < ip - low && back < m ==> src[ip - back - 1] != src[m - back - 1]
    requires ip + MINMATCH + c < high ==> src[ip + MINMATCH + c] != src[m + MINMATCH + c]
    ensures NoLonger(src, ip, low, high, m, MINMATCH + c + back)
  {
    hide Repeats;
    var len := MINMATCH + c + back;
    forall s: nat, e: nat ensures !Covers(src, ip, low, high, m, len, s, e) {
      if Covers(src, ip, low, high, m, len, s, e) {
        RepeatsFrom(src, ip - m, s, e);
        if e > ip + MINMATCH + c {
          RepeatsAt(src, ip - m, s, e, ip + MINMATCH + c);
        } else {
          RepeatsAt(src, ip - m, s, e, ip - back - 1);
        }
      }
    }
  }

  lemma NoLongerMore(src: seq<Byte>, ip: nat, low: nat, high: nat, m: nat, len: nat, more: nat)
    requires m <= ip && NoLonger(src, ip, low, high, m, len) && len <= more
    ensures NoLonger(src, ip, low, high, m, more)
  {
    hide Repeats;
    forall s: nat, e: nat ensures !Covers(src, ip, low, high, m, more, s, e) {
      assert !Covers(src, ip, low, high, m, len, s, e);
    }
  }

  lemma PassedMore(src: seq<Byte>, ip: nat, low: nat, high: nat, at: int, len: nat, more: nat)
    requires Passed(src, ip, low, high, at, len) && len <= more
    ensures Passed(src, ip, low, high, at, more)
  {
    hide NoLonger;
    forall m: nat | at < m < ip <= m + DISTANCE_MAX ensures NoLonger(src, ip, low, high, m, more) {
      NoLongerMore(src, ip, low, high, m, len, more);
    }
  }

  lemma PassedOne(src: seq<Byte>, ip: nat, low: nat, high: nat, at: nat, len: nat)
    requires Passed(src, ip, low, high, at, len) && at < ip && NoLonger(src, ip, low, high, at, len)
    ensures Passed(src, ip, low, high, at - 1, len)
  {
    hide NoLonger;
  }

  lemma PassedAll(src: seq<Byte>, ip: nat, low: nat, high: nat, at: int, len: nat)
    requires Passed(src, ip, low, high, at, len) && (at < 0 || at + DISTANCE_MAX < ip)
    ensures NoneLonger(src, ip, low, high, len)
  {
    hide NoLonger;
  }

  /** A match that was known to be there has been taken. */
  lemma PendingTaken(src: seq<Byte>, ip: nat, low: nat, high: nat, m: nat, n: nat, len: nat)
    requires low == ip && Pending(src, ip, high, m, n) && NoLonger(src, ip, low, high, m, len)
    ensures n <= len
  {
    hide Repeats;
    assert !Covers(src, ip, low, high, m, len, ip, ip + n);
  }

  // ---- The chain.

  lemma FourAt(src: seq<Byte>, off: nat, s: nat, e: nat, p: nat)
    requires Repeats(src, off, s, e) && s <= p && p + MINMATCH <= e
    ensures SameFour(src, p - off, p)
  {
  }

  lemma HashesAgree(src: seq<Byte>, hash: nat -> nat, p: nat, q: nat)
    requires Bytewise(src, hash) && SameFour(src, p, q)
    ensures hash(p) == hash(q)
  {
  }

  /** What lies between two links of a chain is no longer match. */
  lemma BetweenLinks(src: seq<Byte>, hash: nat -> nat, ip: nat, low: nat, high: nat, at: nat, pos: nat, d: nat, m: nat,
                     len: nat)
    requires Bytewise(src, hash) && OnChain(hash, ip, low, at, pos, len) && Link(hash, at + pos, d)
    requires m < at < m + d && at < ip
    ensures NoLonger(src, ip, low, high, m, len)
  {
    hide Repeats, Bytewise, SameFour;
    forall s: nat, e: nat ensures !Covers(src, ip, low, high, m, len, s, e) {
      if Covers(src, ip, low, high, m, len, s, e) {
        FourAt(src, ip - m, s, e, ip + pos);
        NotLinked(hash, at + pos, d, m + pos);
        HashesAgree(src, hash, m + pos, ip + pos);
      }
    }
  }

  lemma NotLinked(hash: nat -> nat, p: nat, d: nat, q: nat)
    requires Link(hash, p, d) && q < p < q + d
    ensures hash(q) != hash(p)
  {
  }

  lemma PassedLink(src: seq<Byte>, hash: nat -> nat, ip: nat, low: nat, high: nat, at: nat, pos: nat, d: nat, len: nat)
    requires Bytewise(src, hash) && OnChain(hash, ip, low, at, pos, len) && Link(hash, at + pos, d) && at < ip
    requires Passed(src, ip, low, high, at - 1, len)
    ensures Passed(src, ip, low, high, at - d, len)
  {
    hide NoLonger, Bytewise, OnChain, Link;
    forall m: nat | at - d < m < ip <= m + DISTANCE_MAX ensures NoLonger(src, ip, low, high, m, len) {
      if m < at {
        BetweenLinks(src, hash, ip, low, high, at, pos, d, m, len);
      }
    }
  }

  lemma LinkOnChain(hash: nat -> nat, ip: nat, low: nat, at: nat, pos: nat, d: nat, len: nat)
    requires OnChain(hash, ip, low, at, pos, len) && Link(hash, at + pos, d) && d <= at && d < DISTANCE_MAX
    ensures OnChain(hash, ip, low, at - d, pos, len)
  {
  }

  lemma LinkWithin(hash: nat -> nat, p: nat, d: nat)
    requires Link(hash, p, d)
    ensures 1 <= d <= DISTANCE_MAX
  {
  }

  /** Following a link loses nothing. */
  lemma FollowLink(src: seq<Byte>, hash: nat -> nat, ip: nat, low: nat, high: nat, lowest: nat, at: nat, pos: nat, d: nat,
                   len: nat)
    requires Bytewise(src, hash) && OnChain(hash, ip, low, at, pos, len) && Link(hash, at + pos, d) && at < ip
    requires Passed(src, ip, low, high, at - 1, len) && ip <= lowest + DISTANCE_MAX
    ensures d >= 1 && Tracks(src, hash, ip, low, high, lowest, at - d, pos, len, 0)
  {
    hide Passed, Bytewise, OnChain, Link, Pending;
    LinkWithin(hash, at + pos, d);
    PassedLink(src, hash, ip, low, high, at, pos, d, len);
    if lowest <= at - d {
      LinkOnChain(hash, ip, low, at, pos, d, len);
    }
  }

  /** A match of the known length is on the chain of each of its positions. */
  lemma SwapChain(src: seq<Byte>, hash: nat -> nat, ip: nat, at: nat, pos: nat, len: nat)
    requires Bytewise(src, hash) && at < ip && Repeats(src, ip - at, ip, ip + len) && pos + MINMATCH <= len
    requires at + len <= ip
    ensures OnChain(hash, ip, ip, at, pos, len)
  {
    hide Bytewise, Repeats, SameFour;
    FourAt(src, ip - at, ip, ip + len, ip + pos);
    HashesAgree(src, hash, at + pos, ip + pos);
  }

  lemma StartsOnChain(heads: seq<nat>, hash: nat -> nat, base: nat, ip: nat, low: nat, len: nat)
    requires HeadsExact(heads, hash, base, ip) && hash(ip) < |heads|
    ensures base <= heads[hash(ip)] ==> OnChain(hash, ip, low, heads[hash(ip)] - base, 0, len)
  {
    hide HeadsHash, HeadsLast;
    if base <= heads[hash(ip)] {
      HeadHash(heads, hash, base, ip, hash(ip));
    }
  }

  /** Behind the head there is no match. */
  lemma HeadFirst(src: seq<Byte>, heads: seq<nat>, hash: nat -> nat, base: nat, ip: nat, low: nat, high: nat, len: nat)
    requires HeadsExact(heads, hash, base, ip) && hash(ip) < |heads| && Bytewise(src, hash)
    ensures Passed(src, ip, low, high, heads[hash(ip)] - base, len)
  {
    hide HeadsExact, Bytewise;
    forall m: nat | heads[hash(ip)] - base < m < ip <= m + DISTANCE_MAX ensures NoLonger(src, ip, low, high, m, len) {
      BehindHead(src, heads, hash, base, ip, low, high, m, len);
    }
  }

  lemma BehindHead(src: seq<Byte>, heads: seq<nat>, hash: nat -> nat, base: nat, ip: nat, low: nat, high: nat, m: nat,
                   len: nat)
    requires HeadsExact(heads, hash, base, ip) && hash(ip) < |heads| && Bytewise(src, hash)
    requires heads[hash(ip)] - base < m < ip
    ensures NoLonger(src, ip, low, high, m, len)
  {
    hide Repeats, Bytewise, SameFour, HeadsHash, HeadsLast;
    HeadNotBefore(heads, hash, base, ip, m);
    forall s: nat, e: nat ensures !Covers(src, ip, low, high, m, len, s, e) {
      if Covers(src, ip, low, high, m, len, s, e) {
        FourAt(src, ip - m, s, e, ip);
        HashesAgree(src, hash, m, ip);
      }
    }
  }

  lemma SearchStarts(src: seq<Byte>, heads: seq<nat>, hash: nat -> nat, base: nat, ip: nat, low: nat, high: nat,
                     lowest: nat, len: nat)
    requires HeadsExact(heads, hash, base, ip) && hash(ip) < |heads| && Bytewise(src, hash)
    ensures Tracks(src, hash, ip, low, high, lowest, heads[hash(ip)] - base, 0, len, 0)
  {
    hide HeadsExact, Bytewise, Passed, OnChain, Pending;
    HeadFirst(src, heads, hash, base, ip, low, high, len);
    StartsOnChain(heads, hash, base, ip, low, len);
  }

  /** The candidate at `at` was looked at. */
  lemma Looked(src: seq<Byte>, hash: nat -> nat, ip: nat, low: nat, high: nat, lowest: nat, at: nat, pos: nat, len0: nat,
               pending: nat, len: nat)
    requires Tracks(src, hash, ip, low, high, lowest, at, pos, len0, pending) && lowest <= at < ip
    requires len0 <= len && NoLonger(src, ip, low, high, at, len)
    ensures Passed(src, ip, low, high, at - 1, len) && OnChain(hash, ip, low, at, pos, len)
  {
    hide Passed, NoLonger, Pending;
    if pending > 0 {
      PendingTaken(src, ip, low, high, at, pending, len);
    }
    PassedMore(src, ip, low, high, at, Longer(len0, pending), len);
    PassedOne(src, ip, low, high, at, len);
  }

  // ---- Runs of one byte.

  /** Where the bytes at m leave the run before those at ip do, the match ends. */
  lemma RunEndsFirst(src: seq<Byte>, ip: nat, high: nat, m: nat, n: nat, f: nat)
    requires Run(src, ip, n, high) && m < ip && f < n && m + f < |src| && src[m + f] != src[ip]
    ensures NoLonger(src, ip, ip, high, m, f)
  {
    hide Repeats;
    forall s: nat, e: nat ensures !Covers(src, ip, ip, high, m, f, s, e) {
      if Covers(src, ip, ip, high, m, f, s, e) {
        assert src[ip + f] == src[ip];
        RepeatsAt(src, ip - m, s, e, ip + f);
      }
    }
  }

  /** Where those at ip leave it first, so it does. */
  lemma RunEndsHere(src: seq<Byte>, ip: nat, high: nat, m: nat, n: nat, b: Byte)
    requires m < ip && high <= |src| && ip + n <= high && Ends(src, ip + n, high, b)
    requires ip + n < high ==> m + n < |src| && src[m + n] == b
    ensures NoLonger(src, ip, ip, high, m, n)
  {
    hide Repeats;
    forall s: nat, e: nat ensures !Covers(src, ip, ip, high, m, n, s, e) {
      if Covers(src, ip, ip, high, m, n, s, e) {
        RepeatsAt(src, ip - m, s, e, ip + n);
      }
    }
  }

  /** The length of a match that starts in the run [from, to) of the byte that is repeated n times at ip,
      unless both runs end together. */
  lemma InRun(src: seq<Byte>, ip: nat, high: nat, n: nat, from: nat, to: nat, m: nat)
    requires Run(src, ip, n, high) && Ends(src, ip + n, high, src[ip])
    requires from <= m < ip && m < to <= high && AllByte(src, from, to, src[ip]) && Ends(src, to, high, src[ip])
    requires to - m != n
    ensures NoLonger(src, ip, ip, high, m, if to - m < n then to - m else n)
  {
    if to - m < n {
      RunEndsFirst(src, ip, high, m, n, to - m);
    } else {
      RunEndsHere(src, ip, high, m, n, src[ip]);
    }
  }

  /** The match that starts in a run goes on for the shorter of both. */
  lemma RunRepeats(src: seq<Byte>, ip: nat, high: nat, n: nat, from: nat, to: nat, m: nat, len: nat)
    requires Run(src, ip, n, high) && from <= m < ip && AllByte(src, from, to, src[ip]) && m + len <= to && len <= n
    ensures Repeats(src, ip - m, ip, ip + len)
  {
    forall i | ip <= i < ip + len ensures src[i] == src[i - (ip - m)] {
      assert src[i] == src[ip];
    }
  }

  lemma RunSameFour(src: seq<Byte>, ip: nat, high: nat, n: nat, from: nat, to: nat, m: nat)
    requires Run(src, ip, n, high) && from <= m && AllByte(src, from, to, src[ip]) && m + MINMATCH <= to
    ensures SameFour(src, m, ip)
  {
    var b := src[ip];
    assert src[m..m + MINMATCH] == [b, b, b, b] == src[ip..ip + MINMATCH];
  }

  lemma RunOnChain(src: seq<Byte>, hash: nat -> nat, ip: nat, high: nat, n: nat, from: nat, to: nat, m: nat, len: nat)
    requires Run(src, ip, n, high) && from <= m < ip && AllByte(src, from, to, src[ip]) && m + MINMATCH <= to
    requires Bytewise(src, hash)
    ensures OnChain(hash, ip, ip, m, 0, len)
  {
    hide Run, AllByte, SameFour, Bytewise;
    RunSameFour(src, ip, high, n, from, to, m);
    HashesAgree(src, hash, m, ip);
  }

  /** On to the position from which both runs end together: what is passed over matches less. */
  lemma RunForward(src: seq<Byte>, hash: nat -> nat, ip: nat, high: nat, n: nat, from: nat, to: nat, p: nat, lowest: nat,
                   len: nat)
    requires Run(src, ip, n, high) && Ends(src, ip + n, high, src[ip]) && Bytewise(src, hash)
    requires from <= p < ip && p < to <= high && AllByte(src, from, to, src[ip]) && Ends(src, to, high, src[ip])
    requires from + n <= to <= p + n && lowest <= from && Passed(src, ip, ip, high, p, len)
    ensures Tracks(src, hash, ip, ip, high, lowest, to - n, 0, len, n)
  {
    hide Bytewise, OnChain, Pending, NoLonger, Run, AllByte, Ends;
    RunLength(src, ip, n, high);
    RunOnChain(src, hash, ip, high, n, from, to, to - n, len);
    RunPending(src, ip, high, n, from, to, to - n, n);
    forall m: nat | to - n < m < ip <= m + DISTANCE_MAX ensures NoLonger(src, ip, ip, high, m, Longer(len, n)) {
      if m <= p {
        InRun(src, ip, high, n, from, to, m);
        NoLongerMore(src, ip, ip, high, m, to - m, Longer(len, n));
      } else {
        NoLongerMore(src, ip, ip, high, m, len, Longer(len, n));
      }
    }
  }

  lemma RunLength(src: seq<Byte>, p: nat, n: nat, high: nat)
    requires Run(src, p, n, high)
    ensures MINMATCH <= n && p + n <= high <= |src|
  {
  }

  lemma RunPending(src: seq<Byte>, ip: nat, high: nat, n: nat, from: nat, to: nat, m: nat, len: nat)
    requires Run(src, ip, n, high) && from <= m < ip && AllByte(src, from, to, src[ip]) && m + len <= to && len <= n
    requires MINMATCH <= len
    ensures Pending(src, ip, high, m, len)
  {
    RunRepeats(src, ip, high, n, from, to, m, len);
  }

  /** Down to the start of the run: no position in it matches more than the shorter of both runs. */
  lemma RunBackward(src: seq<Byte>, ip: nat, high: nat, n: nat, from: nat, to: nat, p: nat, len: nat)
    requires Run(src, ip, n, high) && Ends(src, ip + n, high, src[ip])
    requires from <= p < ip && p < to <= high && AllByte(src, from, to, src[ip]) && Ends(src, to, high, src[ip])
    requires to < from + n || p + n < to
    requires Passed(src, ip, ip, high, p, len) && (if to - from < n then to - from else n) <= len
    ensures Passed(src, ip, ip, high, from - 1, len)
  {
    hide NoLonger, Run, AllByte, Ends;
    forall m: nat | from - 1 < m < ip <= m + DISTANCE_MAX ensures NoLonger(src, ip, ip, high, m, len) {
      if m <= p {
        InRun(src, ip, high, n, from, to, m);
        NoLongerMore(src, ip, ip, high, m, if to - m < n then to - m else n, len);
      }
    }
  }

  /** No candidate is left. */
  lemma Concluded(src: seq<Byte>, hash: nat -> nat, ip: nat, low: nat, high: nat, lowest: nat, at: int, pos: nat, len: nat,
                  pending: nat)
    requires Tracks(src, hash, ip, low, high, lowest, at, pos, len, pending) && at < lowest
    requires lowest == 0 || lowest + DISTANCE_MAX == ip
    ensures NoneLonger(src, ip, low, high, len)
  {
    hide Passed, Pending, OnChain, NoneLonger;
    PassedAll(src, ip, low, high, at, len);
  }

  lemma LinkedAt(chain: seq<nat>, hash: nat -> nat, base: nat, n: nat, p: nat)
    requires LinksExact(chain, hash, base, n) && p < n <= p + CHAIN_SIZE
    ensures Link(hash, p, Entry(chain, base, p))
  {
  }

  lemma ChainInside(hash: nat -> nat, ip: nat, low: nat, m: nat, pos: nat, len: nat)
    requires OnChain(hash, ip, low, m, pos, len)
    ensures m + pos < ip
  {
  }

  /** The step down the chain that the search is on. */
  lemma NextOnChain(src: seq<Byte>, chain: seq<nat>, hash: nat -> nat, base: nat, ip: nat, low: nat, high: nat, lowest: nat,
                    at: nat, pos: nat, len: nat)
    requires LinksExact(chain, hash, base, ip) && Bytewise(src, hash) && OnChain(hash, ip, low, at, pos, len)
    requires Passed(src, ip, low, high, at - 1, len) && lowest <= at < ip <= lowest + DISTANCE_MAX
    ensures |chain| == CHAIN_SIZE
    ensures var d := Entry(chain, base, at + pos);
      d >= 1 && Tracks(src, hash, ip, low, high, lowest, at - d, pos, len, 0)
  {
    hide Bytewise, OnChain, Passed, Link, Tracks;
    ChainInside(hash, ip, low, at, pos, len);
    LinkedAt(chain, hash, base, ip, at + pos);
    FollowLink(src, hash, ip, low, high, lowest, at, pos, Entry(chain, base, at + pos), len);
  }

  /** From the start of a run on down the chain. */
  lemma RunDown(src: seq<Byte>, chain: seq<nat>, hash: nat -> nat, base: nat, ip: nat, high: nat, n: nat, from: nat,
                to: nat, p: nat, lowest: nat, len0: nat, len: nat)
    requires Run(src, ip, n, high) && Ends(src, ip + n, high, src[ip])
    requires from <= p < ip && p < to <= high && AllByte(src, from, to, src[ip]) && Ends(src, to, high, src[ip])
    requires (to < from + n || p + n < to) && from + MINMATCH <= to
    requires Passed(src, ip, ip, high, p, len0) && len0 <= len && (if to - from < n then to - from else n) <= len
    requires LinksExact(chain, hash, base, ip) && Bytewise(src, hash) && lowest <= from && ip <= lowest + DISTANCE_MAX
    ensures |chain| == CHAIN_SIZE
    ensures var d := Entry(chain, base, from);
      d >= 1 && Tracks(src, hash, ip, ip, high, lowest, from - d, 0, len, 0)
  {
    hide Run, Ends, AllByte, Passed, LinksExact, Bytewise, Tracks, OnChain;
    PassedMore(src, ip, ip, high, p, len0, len);
    RunBackward(src, ip, high, n, from, to, p, len);
    RunOnChain(src, hash, ip, high, n, from, to, from, len);
    NextOnChain(src, chain, hash, base, ip, ip, high, lowest, from, 0, len);
  }
}
