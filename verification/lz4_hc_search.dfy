/** The match search of the high-compression mode: hash table, chains, and the shortcut for repeated
    bytes. Whatever the tables hold, a match it reports is a match; and if they hold what was inserted and
    the attempts last, there is no longer one within reach. */
module Lz4HcSearch {
  import opened Bytes
  import opened Lz4Format
  import opened Lz4Encode
  import opened Lz4HcTables
  import opened Lz4HcLongest

  /** A match: its length, where the earlier bytes are and where it starts. */
  datatype Found = Found(length: nat, m: nat, s: nat)

  /** Whether the four bytes at a position are one byte repeated, and for how long it goes on. */
  datatype Repeat = Untested | Not | Confirmed(length: nat)

  /** A match to be used as it stands. */
  ghost predicate Usable(src: seq<Byte>, f: Found, high: nat) {
    f.m < f.s && f.s + f.length <= high <= |src| && Genuine(src, f.s - f.m, f.s, f.s + f.length)
  }

  /** Nothing longer was found, or a longer match that covers ip. */
  ghost predicate Best(src: seq<Byte>, ip: nat, low: nat, high: nat, known: nat, f: Found) {
    f.length == known || (f.length > known && f.length >= MINMATCH && low <= f.s <= ip && Usable(src, f, high))
  }

  /** No candidate is passed over on purpose, and the attempts last. */
  predicate Exhaustive(ip: nat, low: nat, maxAttempts: nat, patternAnalysis: bool, favorDecSpeed: bool) {
    !favorDecSpeed && (patternAnalysis ==> low == ip) && (ip <= maxAttempts || DISTANCE_MAX <= maxAttempts)
  }

  /** LZ4HC_CCtx_internal for one block without history: index `base` is the block's first byte, and
      smaller indices in the tables are stale. */
  class Context {
    const heads: array<nat>
    const chain: array<nat>
    const base: nat
    var nextToUpdate: nat

    /** Everything in the tables is behind what was inserted last. */
    ghost predicate Ok()
      reads this, heads, chain
    {
      && heads != chain && CHAIN_SIZE <= base <= nextToUpdate
      && TableBelow(heads[..], nextToUpdate) && DeltasOk(chain[..])
    }

    /** They link every position that was inserted. */
    ghost predicate Tables(hash: nat -> nat)
      reads this, heads, chain
    {
      base <= nextToUpdate && Exact(heads[..], chain[..], hash, base, nextToUpdate - base)
    }

    constructor (heads: array<nat>, chain: array<nat>, base: nat)
      requires heads != chain && base >= CHAIN_SIZE && TableBelow(heads[..], base) && DeltasOk(chain[..])
      ensures Ok() && this.heads == heads && this.chain == chain && this.base == base == nextToUpdate
    {
      this.heads, this.chain, this.base, nextToUpdate := heads, chain, base, base;
    }

    /** A context in which nothing was inserted yet. */
    lemma FreshTables(hash: nat -> nat)
      requires Ok() && nextToUpdate == base
      ensures Tables(hash)
    {
      hide Exact;
      EmptyExact(heads[..], chain[..], hash, base);
    }

    /** LZ4HC_Insert: indices up to the one of ip. */
    method Insert(src: seq<Byte>, hash: nat -> nat, ip: nat)
      requires Ok() && HashOk4(src, hash, heads.Length) && ip + MINMATCH <= |src| && nextToUpdate <= base + ip
      modifies this, heads, chain
      ensures Ok() && nextToUpdate == base + ip
      ensures HashBelow(hash, heads.Length, ip) && hash(ip) < heads.Length
      ensures (heads[..], chain[..]) == Inserted(old(heads[..]), old(chain[..]), hash, base, old(nextToUpdate), ip)
      ensures old(Tables(hash)) ==> Tables(hash)
    {
      hide TableBelow, DeltasOk, HashOk4, Inserted, HashBelow, Exact;
      var target := base + ip;
      var idx: nat := nextToUpdate;
      HashRange(src, hash, heads.Length, ip);
      DeltasSize(chain[..]);
      if Tables(hash) {
        InsertedExact(heads[..], chain[..], hash, base, idx - base, ip);
      }
      while idx < target
        invariant old(nextToUpdate) <= idx <= target
        invariant TableBelow(heads[..], idx) && DeltasOk(chain[..]) && chain.Length == CHAIN_SIZE
        invariant Inserted(old(heads[..]), old(chain[..]), hash, base, old(nextToUpdate), ip)
                  == Inserted(heads[..], chain[..], hash, base, idx, ip)
      {
        var h: nat := hash(idx - base);
        HashAt(hash, heads.Length, ip, idx - base);
        TableEntry(heads[..], idx, h);
        InsertedStep(heads[..], chain[..], hash, base, idx, ip);
        var delta: nat := idx - heads[h];
        if delta > DISTANCE_MAX {
          delta := DISTANCE_MAX;
        }
        ghost var t, c := heads[..], chain[..];
        chain[idx % CHAIN_SIZE] := delta;
        heads[h] := idx;
        assert heads[..] == t[h := idx] && chain[..] == c[idx % CHAIN_SIZE := delta];
        TablePut(t, idx, h);
        DeltasPut(c, idx % CHAIN_SIZE, delta);
        idx := idx + 1;
      }
      InsertedAll(heads[..], chain[..], hash, base, idx, ip);
      nextToUpdate := target;
    }

    /** DELTANEXTU16. */
    function Delta(index: nat): (d: nat)
      requires Ok()
      reads this, heads, chain
      ensures d <= DISTANCE_MAX && chain.Length == CHAIN_SIZE
      ensures base <= index ==> d == Entry(chain[..], base, index - base)
    {
      chain[index % CHAIN_SIZE]
    }

    /** The chain of another position in the match may be sparser: the largest step, and where. */
    method BetterChain(index: nat, longest: nat, chainPos0: nat) returns (distance: nat, chainPos: nat)
      requires Ok()
      ensures 1 <= distance <= DISTANCE_MAX
      ensures distance == 1 ==> chainPos == chainPos0
      ensures distance > 1 ==> chainPos + MINMATCH <= longest && distance == Delta(index + chainPos)
    {
      hide TableBelow, DeltasOk;
      distance, chainPos := 1, chainPos0;
      var end := longest - MINMATCH + 1;
      var pos: nat, step: nat, accel: nat := 0, 1, 16;
      while pos < end
        invariant step >= 1 && accel >= 16 && 1 <= distance <= DISTANCE_MAX
        invariant distance == 1 ==> chainPos == chainPos0
        invariant distance > 1 ==> chainPos + MINMATCH <= longest && distance == Delta(index + chainPos)
        decreases end - pos
      {
        var candidateDist := Delta(index + pos);
        step := accel / 16;
        accel := accel + 1;
        if candidateDist > distance {
          distance, chainPos, accel := candidateDist, pos, 16;
        }
        pos := pos + step;
      }
    }

    /** LZ4HC_InsertAndGetWiderMatch, without dictionary: a match that covers ip, starts no earlier than
        low and is longer than any known, or what was known. If the tables link all there is,
        there is none longer within reach, unless the attempts run out or candidates are passed over on
        purpose: for the speed of decoding, or in a run of one byte that might extend backwards. */
    method GetWiderMatch(src: seq<Byte>, hash: nat -> nat, ip: nat, low: nat, high: nat, known: Found,
                         maxAttempts: nat, patternAnalysis: bool, chainSwap: bool, favorDecSpeed: bool)
      returns (f: Found)
      requires Ok() && HashOk4(src, hash, heads.Length) && nextToUpdate <= base + ip
      requires Window(src, ip, low, high, known.length)
      requires chainSwap ==> low == ip
      modifies this, heads, chain
      ensures Ok() && nextToUpdate == base + ip
      ensures Best(src, ip, low, high, known.length, f)
      ensures old(Tables(hash)) ==> Tables(hash)
      ensures old(Tables(hash)) && Bytewise(src, hash)
              && Exhaustive(ip, low, maxAttempts, patternAnalysis, favorDecSpeed)
              ==> NoneLonger(src, ip, low, high, f.length)
    {
      hide HashOk4, HashBelow, Inserted, TableBelow, DeltasOk, Best, Window, Exact, Bytewise, NoneLonger;
      WindowBounds(src, ip, low, high, known.length);
      Insert(src, hash, ip);
      ghost var exact := old(Tables(hash)) && Bytewise(src, hash)
                         && Exhaustive(ip, low, maxAttempts, patternAnalysis, favorDecSpeed);
      f := Search(src, hash, ip, low, high, known, maxAttempts, patternAnalysis, chainSwap, favorDecSpeed, exact);
    }

    /** The search, once everything before ip is inserted. */
    method Search(src: seq<Byte>, hash: nat -> nat, ip: nat, low: nat, high: nat, known: Found, maxAttempts: nat,
                  patternAnalysis: bool, chainSwap: bool, favorDecSpeed: bool, ghost exact: bool)
      returns (f: Found)
      requires Ok() && nextToUpdate == base + ip && hash(ip) < heads.Length
      requires Window(src, ip, low, high, known.length) && (chainSwap ==> low == ip)
      requires exact ==> Exact(heads[..], chain[..], hash, base, ip) && Bytewise(src, hash)
      requires exact ==> Exhaustive(ip, low, maxAttempts, patternAnalysis, favorDecSpeed)
      ensures Best(src, ip, low, high, known.length, f)
      ensures exact ==> NoneLonger(src, ip, low, high, f.length)
    {
      hide TableBelow, DeltasOk, Best, Run, Window, Exact, Tracks, Bytewise, NoneLonger, Tested, LinksExact, HeadsExact;
      f := known;
      BestKnown(src, ip, low, high, known);
      var ipIndex: nat := base + ip;
      var lowest: nat := if base + DISTANCE_MAX + 1 > ipIndex then base else ipIndex - DISTANCE_MAX;
      TableEntry(heads[..], ipIndex, hash(ip));
      var matchIndex: nat := heads[hash(ip)];
      var nbAttempts: nat := maxAttempts;
      var chainPos: nat := 0;
      var repeat := Untested;
      Untried(src, ip, high);
      ghost var pending: nat := 0;
      if exact {
        ExactParts(heads[..], chain[..], hash, base, ip);
        SearchStarts(src, heads[..], hash, base, ip, low, high, lowest - base, f.length);
      }
      while matchIndex >= lowest && nbAttempts > 0
        invariant matchIndex < ipIndex
        invariant Best(src, ip, low, high, known.length, f) && Tested(src, ip, high, repeat)
        invariant exact ==> Tracks(src, hash, ip, low, high, lowest - base, matchIndex - base, chainPos, f.length, pending)
        invariant exact ==> matchIndex - lowest < nbAttempts
        decreases nbAttempts
      {
        nbAttempts := nbAttempts - 1;
        f, repeat, matchIndex, chainPos, pending :=
          Turn(src, hash, ip, low, high, known.length, f, repeat, matchIndex, chainPos, lowest, patternAnalysis, chainSwap,
               favorDecSpeed, exact, pending);
      }
      if exact {
        Concluded(src, hash, ip, low, high, lowest - base, matchIndex - base, chainPos, f.length, pending);
      }
    }

    /** One candidate, and on to the next. */
    method Turn(src: seq<Byte>, ghost hash: nat -> nat, ip: nat, low: nat, high: nat, ghost known: nat, f0: Found,
                repeat0: Repeat, index: nat, chainPos0: nat, lowest: nat, patternAnalysis: bool, chainSwap: bool,
                favorDecSpeed: bool, ghost exact: bool, ghost pending0: nat)
      returns (f: Found, repeat: Repeat, matchIndex: nat, chainPos: nat, ghost pending: nat)
      requires Ok() && base <= lowest <= index < base + ip <= lowest + DISTANCE_MAX
      requires Best(src, ip, low, high, known, f0) && Window(src, ip, low, high, known) && Tested(src, ip, high, repeat0)
      requires chainSwap ==> low == ip
      requires exact ==> LinksExact(chain[..], hash, base, ip) && Bytewise(src, hash) && !favorDecSpeed
      requires exact ==> (patternAnalysis ==> low == ip)
      requires exact ==> Tracks(src, hash, ip, low, high, lowest - base, index - base, chainPos0, f0.length, pending0)
      ensures Best(src, ip, low, high, known, f) && Tested(src, ip, high, repeat) && matchIndex < base + ip
      ensures exact ==> matchIndex < index
      ensures exact ==> Tracks(src, hash, ip, low, high, lowest - base, matchIndex - base, chainPos, f.length, pending)
    {
      hide TableBelow, DeltasOk, Best, Repeats, Run, Window, Tracks, Bytewise, LinksExact, Link, Passed, OnChain, NoLonger;
      WindowBounds(src, ip, low, high, known);
      BestWindow(src, ip, low, high, known, f0);
      f, repeat, matchIndex, chainPos, pending := f0, repeat0, index, chainPos0, 0;
      var matchLength := 0;
      if !(favorDecSpeed && base + ip - index < 8) {
        matchLength, f := Compare(src, ip, low, high, index - base, known, f0);
      }
      if exact {
        Looked(src, hash, ip, low, high, lowest - base, index - base, chainPos, f0.length, pending0, f.length);
      }
      if chainSwap && matchLength == f.length && index + f.length <= base + ip {
        var distance;
        distance, chainPos := BetterChain(index, f.length, chainPos);
        if distance > 1 {
          if exact {
            SwapChain(src, hash, ip, index - base, chainPos, f.length);
            NextOnChain(src, chain[..], hash, base, ip, low, high, lowest - base, index - base, chainPos, f.length);
          }
          matchIndex := index - distance;
          return;
        }
      }
      f, repeat, matchIndex, pending := Follow(src, hash, ip, low, high, known, f, repeat, index, chainPos, lowest,
                                               patternAnalysis, exact);
    }

    /** On to the next candidate: down the chain, or across a run of a repeated byte. */
    method Follow(src: seq<Byte>, ghost hash: nat -> nat, ip: nat, low: nat, high: nat, ghost known: nat, f0: Found,
                  repeat0: Repeat, index: nat, chainPos: nat, lowest: nat, patternAnalysis: bool, ghost exact: bool)
      returns (f: Found, repeat: Repeat, matchIndex: nat, ghost pending: nat)
      requires Ok() && base <= lowest <= index < base + ip <= lowest + DISTANCE_MAX
      requires Best(src, ip, low, high, known, f0) && Window(src, ip, low, high, known) && Tested(src, ip, high, repeat0)
      requires exact ==> LinksExact(chain[..], hash, base, ip) && Bytewise(src, hash) && (patternAnalysis ==> low == ip)
      requires exact ==> Passed(src, ip, low, high, index - base - 1, f0.length)
      requires exact ==> OnChain(hash, ip, low, index - base, chainPos, f0.length)
      ensures Best(src, ip, low, high, known, f) && Tested(src, ip, high, repeat) && matchIndex < base + ip
      ensures exact ==> matchIndex < index
      ensures exact ==> Tracks(src, hash, ip, low, high, lowest - base, matchIndex - base, chainPos, f.length, pending)
    {
      hide TableBelow, DeltasOk, Best, Repeats, Run, Window, Tracks, Bytewise, LinksExact, Passed, OnChain;
      WindowBounds(src, ip, low, high, known);
      f, repeat, pending := f0, repeat0, 0;
      var distNextMatch := Delta(index);
      if patternAnalysis && distNextMatch == 1 && chainPos == 0 {
        var candidate: nat := index - 1;
        if repeat == Untested {
          repeat := TestRepeat(src, ip, high);
        }
        if repeat.Confirmed? && candidate >= lowest {
          var good, _ := SameBytes(src, ip, candidate - base, MINMATCH);
          if good {
            f, matchIndex, pending := Segment(src, hash, ip, low, high, known, f, repeat.length, candidate, lowest, exact);
            return;
          }
        }
      }
      if exact {
        NextOnChain(src, chain[..], hash, base, ip, low, high, lowest - base, index - base, chainPos, f.length);
      }
      matchIndex := index - Delta(index + chainPos);
    }

    /** The candidate lies in a run of the repeated byte: on to the best position in that run, or a
        match that no comparison of the bytes has to confirm. Two guards of the source cannot fire: the
        run is cut at the lowest index, and indices are above any distance. */
    method Segment(src: seq<Byte>, ghost hash: nat -> nat, ip: nat, low: nat, high: nat, ghost known: nat, f0: Found,
                   srcLength: nat, candidate: nat, lowest: nat, ghost exact: bool)
      returns (f: Found, matchIndex: nat, ghost pending: nat)
      requires Ok() && base <= lowest <= candidate < base + ip <= lowest + DISTANCE_MAX
      requires Best(src, ip, low, high, known, f0) && Window(src, ip, low, high, known)
      requires Run(src, ip, srcLength, high) && Ends(src, ip + srcLength, high, src[ip])
      requires forall k :: ip <= k < ip + MINMATCH ==> src[k] == src[k - (ip - (candidate - base))]
      requires exact ==> LinksExact(chain[..], hash, base, ip) && Bytewise(src, hash) && low == ip
      requires exact ==> Passed(src, ip, low, high, candidate - base, f0.length)
      ensures Best(src, ip, low, high, known, f) && matchIndex < base + ip
      ensures exact ==> matchIndex <= candidate
      ensures exact ==> Tracks(src, hash, ip, low, high, lowest - base, matchIndex - base, 0, f.length, pending)
    {
      hide TableBelow, DeltasOk, Best, Repeats, Tracks, Bytewise, LinksExact, Passed, OnChain, AllByte, Run, Window;
      WindowBounds(src, ip, low, high, known);
      RunLength(src, ip, srcLength, high);
      f, pending := f0, 0;
      var p := candidate - base;
      RunFour(src, ip, srcLength, high, p);
      var forward := CountPattern(src, p + MINMATCH, high, src[ip]);
      forward := forward + MINMATCH;
      var whole := ReverseCountPattern(src, p, 0, src[ip]);
      var back := if candidate - whole >= lowest then whole else candidate - lowest;
      RunJoin(src, p, whole, back, forward, src[ip]);
      var segment := back + forward;
      if segment >= srcLength && forward <= srcLength {
        matchIndex := candidate + forward - srcLength;
        if exact {
          pending := srcLength;
          RunForward(src, hash, ip, high, srcLength, p - back, p + forward, p, lowest - base, f.length);
        }
      } else {
        matchIndex := candidate - back;
        if low == ip {
          var maxML := if segment < srcLength then segment else srcLength;
          if f.length < maxML {
            if base + ip - matchIndex > DISTANCE_MAX {
              assert false;
            }
            assert maxML >= MINMATCH;
            RunMatch(src, ip, srcLength, high, p - back, segment, maxML);
            f := Found(maxML, matchIndex - base, ip);
            BestRun(src, ip, high, known, f0, f);
          }
          if exact {
            RunDown(src, chain[..], hash, base, ip, high, srcLength, p - back, p + forward, p, lowest - base, f0.length,
                    f.length);
          }
          matchIndex := matchIndex - Delta(matchIndex);
        }
      }
    }
  }

  /** What is known of the byte at ip. */
  ghost predicate Tested(src: seq<Byte>, ip: nat, high: nat, repeat: Repeat) {
    repeat.Confirmed? ==> Run(src, ip, repeat.length, high) && Ends(src, ip + repeat.length, high, src[ip])
  }

  lemma Untried(src: seq<Byte>, ip: nat, high: nat)
    ensures Tested(src, ip, high, Untested)
  {
  }

  lemma ExactParts(heads: seq<nat>, chain: seq<nat>, hash: nat -> nat, base: nat, n: nat)
    requires Exact(heads, chain, hash, base, n)
    ensures HeadsExact(heads, hash, base, n) && LinksExact(chain, hash, base, n)
  {
  }

  lemma BestKnown(src: seq<Byte>, ip: nat, low: nat, high: nat, known: Found)
    ensures Best(src, ip, low, high, known.length, known)
  {
  }

  lemma WindowBounds(src: seq<Byte>, ip: nat, low: nat, high: nat, longest: nat)
    requires Window(src, ip, low, high, longest)
    ensures low <= ip && ip + MINMATCH <= high < |src|
  {
  }

  lemma BestWindow(src: seq<Byte>, ip: nat, low: nat, high: nat, known: nat, f: Found)
    requires Best(src, ip, low, high, known, f) && Window(src, ip, low, high, known)
    ensures Window(src, ip, low, high, f.length)
  {
    hide Genuine;
  }

  lemma BestMore(src: seq<Byte>, ip: nat, low: nat, high: nat, known: nat, f0: Found, f: Found)
    requires Best(src, ip, low, high, known, f0) && f.length > f0.length && f.length >= MINMATCH
    requires low <= f.s <= ip && Usable(src, f, high)
    ensures Best(src, ip, low, high, known, f)
  {
    hide Genuine;
  }

  lemma BestRun(src: seq<Byte>, ip: nat, high: nat, known: nat, f0: Found, f: Found)
    requires Best(src, ip, ip, high, known, f0) && f.length > f0.length && f.length >= MINMATCH
    requires f.s == ip && Usable(src, f, high)
    ensures Best(src, ip, ip, high, known, f)
  {
    hide Genuine;
  }

  /** LZ4HC_countBack: how far both positions agree backwards. */
  method CountBack(src: seq<Byte>, ip: nat, m: nat, low: nat) returns (back: nat)
    requires low <= ip <= |src| && m < ip
    ensures back <= ip - low && back <= m
    ensures forall k :: ip - back <= k < ip ==> src[k] == src[k - (ip - m)]
    ensures back < ip - low && back < m ==> src[ip - back - 1] != src[m - back - 1]
  {
    back := 0;
    while ip - back > low && m - back > 0 && src[ip - back - 1] == src[m - back - 1]
      invariant back <= ip - low && back <= m
      invariant forall k :: ip - back <= k < ip ==> src[k] == src[k - (ip - m)]
    {
      back := back + 1;
    }
  }

  lemma ComparedMatch(src: seq<Byte>, ip: nat, m: nat, back: nat, c: nat, high: nat)
    requires m < ip <= m + DISTANCE_MAX && back <= m && ip + MINMATCH + c <= high <= |src|
    requires forall k :: ip - back <= k < ip ==> src[k] == src[k - (ip - m)]
    requires forall k :: ip <= k < ip + MINMATCH ==> src[k] == src[k - (ip - m)]
    requires forall k :: ip + MINMATCH <= k < ip + MINMATCH + c ==> src[k] == src[k - (ip - m)]
    ensures Usable(src, Found(MINMATCH + c + back, m - back, ip - back), high)
  {
  }

  lemma ComparedForward(src: seq<Byte>, ip: nat, m: nat, c: nat)
    requires m < ip && ip + MINMATCH + c <= |src|
    requires forall k :: ip <= k < ip + MINMATCH ==> src[k] == src[k - (ip - m)]
    requires forall k :: ip + MINMATCH <= k < ip + MINMATCH + c ==> src[k] == src[k - (ip - m)]
    ensures Repeats(src, ip - m, ip, ip + (MINMATCH + c))
  {
  }

  /** The candidate as far as it goes both ways, once the first four bytes agree. */
  method CompareBoth(src: seq<Byte>, ip: nat, low: nat, high: nat, m: nat) returns (length: nat, back: nat)
    requires low <= ip && ip + MINMATCH <= high < |src| && m < ip <= m + DISTANCE_MAX
    requires forall k :: ip <= k < ip + MINMATCH ==> src[k] == src[k - (ip - m)]
    ensures back <= ip - low && back <= m && MINMATCH + back <= length
    ensures Usable(src, Found(length, m - back, ip - back), high) && NoLonger(src, ip, low, high, m, length)
    ensures low == ip ==> Repeats(src, ip - m, ip, ip + length)
  {
    hide Usable, NoLonger, Repeats;
    back := 0;
    if ip > low {
      back := CountBack(src, ip, m, low);
    }
    var c := Count(src, ip + MINMATCH, m + MINMATCH, high);
    length := MINMATCH + c + back;
    ComparedForward(src, ip, m, c);
    ComparedWhole(src, ip, low, high, m, back, c);
    ComparedMatch(src, ip, m, back, c, high);
  }

  /** One candidate of the chain, compared byte by byte where it matters: first the two bytes that a
      longer match must have, then the first four, then as far as it goes both ways. */
  method Compare(src: seq<Byte>, ip: nat, low: nat, high: nat, m: nat, ghost known: nat, f0: Found)
    returns (matchLength: nat, f: Found)
    requires Window(src, ip, low, high, f0.length) && m < ip <= m + DISTANCE_MAX
    requires Best(src, ip, low, high, known, f0)
    ensures Best(src, ip, low, high, known, f) && f.length >= f0.length && matchLength <= f.length
    ensures NoLonger(src, ip, low, high, m, f.length)
    ensures f.length > f0.length ==> f.length == matchLength && f.s - f.m == ip - m
    ensures low == ip && matchLength > 0 ==> Repeats(src, ip - m, ip, ip + matchLength)
  {
    hide Best, Usable, NoLonger, Repeats;
    matchLength, f := 0, f0;
    var at, from := low + f.length - 1, m + f.length - 1 - (ip - low);
    if src[at] == src[from] && src[at + 1] == src[from + 1] {
      var same, d := SameBytes(src, ip, m, MINMATCH);
      if same {
        var back;
        matchLength, back := CompareBoth(src, ip, low, high, m);
        if matchLength > f.length {
          f := Found(matchLength, m - back, ip - back);
          BestMore(src, ip, low, high, known, f0, f);
        }
        NoLongerMore(src, ip, low, high, m, matchLength, f.length);
      } else {
        FirstBytesDiffer(src, ip, low, high, m, f.length, d);
      }
    } else {
      PrecheckLosesNothing(src, ip, low, high, m, f.length, if src[at] == src[from] then at + 1 else at);
    }
  }

  // ---- Repeated bytes.

  /** Both halves of the word are equal and so are its outer bytes: one byte, four times. */
  method TestRepeat(src: seq<Byte>, ip: nat, high: nat) returns (r: Repeat)
    requires ip + MINMATCH <= high <= |src|
    ensures r != Untested && Tested(src, ip, high, r)
    ensures r.Not? <==> !(src[ip] == src[ip + 1] == src[ip + 2] == src[ip + 3])
  {
    if src[ip] == src[ip + 2] && src[ip + 1] == src[ip + 3] && src[ip] == src[ip + 3] {
      var c := CountPattern(src, ip + MINMATCH, high, src[ip]);
      r := Confirmed(c + MINMATCH);
    } else {
      r := Not;
    }
  }

  /** LZ4HC_countPattern for a repeated byte: eight at a time, then one by one. */
  method CountPattern(src: seq<Byte>, p0: nat, end: nat, b: Byte) returns (c: nat)
    requires p0 <= end <= |src|
    ensures p0 + c <= end && AllByte(src, p0, p0 + c, b)
    ensures p0 + c < end ==> src[p0 + c] != b
  {
    var p := p0;
    while p + 7 < end && EightBytes(src, p, b)
      invariant p0 <= p <= end && AllByte(src, p0, p, b)
    {
      p := p + 8;
    }
    while p < end && src[p] == b
      invariant p0 <= p <= end && AllByte(src, p0, p, b)
    {
      p := p + 1;
    }
    c := p - p0;
  }

  predicate EightBytes(src: seq<Byte>, p: nat, b: Byte)
    requires p + 8 <= |src|
  {
    src[p] == src[p + 1] == src[p + 2] == src[p + 3] == src[p + 4] == src[p + 5] == src[p + 6] == src[p + 7] == b
  }

  /** LZ4HC_reverseCountPattern for a repeated byte: four at a time, then one by one. */
  method ReverseCountPattern(src: seq<Byte>, p0: nat, low: nat, b: Byte) returns (c: nat)
    requires low <= p0 <= |src|
    ensures c <= p0 - low && AllByte(src, p0 - c, p0, b)
    ensures c < p0 - low ==> src[p0 - c - 1] != b
  {
    var p := p0;
    while p >= low + 4 && src[p - 4] == src[p - 3] == src[p - 2] == src[p - 1] == b
      invariant low <= p <= p0 && AllByte(src, p, p0, b)
    {
      p := p - 4;
    }
    while p > low && src[p - 1] == b
      invariant low <= p <= p0 && AllByte(src, p, p0, b)
    {
      p := p - 1;
    }
    c := p0 - p;
  }

  lemma RunFour(src: seq<Byte>, ip: nat, n: nat, high: nat, p: nat)
    requires Run(src, ip, n, high) && p < ip
    requires forall k :: ip <= k < ip + MINMATCH ==> src[k] == src[k - (ip - p)]
    ensures AllByte(src, p, p + MINMATCH, src[ip])
  {
    forall k | p <= k < p + MINMATCH ensures src[k] == src[ip] {
      var j := k + (ip - p);
      assert src[j] == src[j - (ip - p)];
    }
  }

  lemma RunJoin(src: seq<Byte>, p: nat, whole: nat, back: nat, forward: nat, b: Byte)
    requires back <= whole <= p && forward >= MINMATCH && AllByte(src, p, p + MINMATCH, b)
    requires AllByte(src, p + MINMATCH, p + forward, b) && AllByte(src, p - whole, p, b)
    ensures AllByte(src, p - back, p + forward, b)
  {
  }

  /** Two runs of the same byte match over the shorter one. */
  lemma RunMatch(src: seq<Byte>, ip: nat, n: nat, high: nat, m: nat, segment: nat, len: nat)
    requires Run(src, ip, n, high) && len <= n && len <= segment && m < ip <= m + DISTANCE_MAX
    requires AllByte(src, m, m + segment, src[ip])
    ensures Usable(src, Found(len, m, ip), high)
  {
    forall i | ip <= i < ip + len ensures src[i] == src[i - (ip - m)] {
      assert src[i] == src[ip];
      assert src[m + (i - ip)] == src[ip];
    }
  }
}
