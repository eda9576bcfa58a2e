/** The high-compression mode's optimal parser: prices for every position up to the end of the last
    match, a walk back along the cheapest path, and the sequences of that path. */
module Lz4HcOptimal {
  import opened Bytes
  import opened Lz4Format
  import opened Lz4Copy
  import opened Lz4Encode
  import opened Lz4HcTables
  import opened Lz4HcLongest
  import opened Lz4HcSearch
  import opened Lz4Hc

  const OPT_NUM := 4096
  const TRAILING_LITERALS := 3

  // ---- Prices.

  function LiteralsPrice(litlen: nat): nat {
    if litlen >= RUN_MASK then litlen + 1 + (litlen - RUN_MASK) / 255 else litlen
  }

  function SequencePrice(litlen: nat, mlen: nat): nat
    requires mlen >= MINMATCH
  {
    1 + 2 + LiteralsPrice(litlen) + if mlen >= ML_MASK + MINMATCH then 1 + (mlen - (ML_MASK + MINMATCH)) / 255 else 0
  }

  /** The price of a sequence is what writing it costs, and the price of trailing literals too, but for
      their token. */
  lemma PriceIsSize(s: Sequence, low: nat)
    requires SequenceOk(s) && low < 16
    ensures SequencePrice(|s.literals|, s.matchLen) == |EncodeSeq(s)|
    ensures LiteralsPrice(|s.literals|) + 1 == |EncodeTail(s.literals, low)|
  {
  }

  // ---- The table.

  /** LZ4HC_optimal_t: how a position is reached, by a literal (length 1) or by a match. */
  datatype Entry = Entry(price: int, off: nat, mlen: nat, litlen: nat)

  function Literal(price: int, litlen: nat): Entry { Entry(price, 0, 1, litlen) }

  /** The match of length mlen at position pos of the input. */
  ghost predicate MatchFrom(src: seq<Byte>, pos: nat, mlen: nat, off: nat) {
    off <= pos && MatchOk(src, Found(mlen, pos - off, pos))
  }

  /** An entry, read as the last step of the way to its position. */
  ghost predicate EntryOk(src: seq<Byte>, e: Entry, ip: nat, pos: nat) {
    e.mlen == 1 || (MINMATCH <= e.mlen <= pos && MatchFrom(src, ip + pos - e.mlen, e.mlen, e.off))
  }

  ghost predicate TableOk(src: seq<Byte>, t: seq<Entry>, ip: nat, last: nat) {
    last < |t| && forall pos | 0 <= pos <= last :: EntryOk(src, t[pos], ip, pos)
  }

  lemma EntryOf(src: seq<Byte>, t: seq<Entry>, ip: nat, last: nat, pos: nat)
    requires TableOk(src, t, ip, last) && pos <= last
    ensures EntryOk(src, t[pos], ip, pos)
  {
  }

  lemma TablePutOk(src: seq<Byte>, t: seq<Entry>, ip: nat, last: nat, pos: nat, e: Entry)
    requires TableOk(src, t, ip, last) && pos <= last + 1 && pos < |t| && EntryOk(src, e, ip, pos)
    ensures TableOk(src, t[pos := e], ip, if pos == last + 1 then pos else last)
  {
    hide EntryOk;
  }

  lemma TableLess(src: seq<Byte>, t: seq<Entry>, ip: nat, last: nat, less: nat)
    requires TableOk(src, t, ip, last) && less <= last
    ensures TableOk(src, t, ip, less)
  {
  }

  lemma MatchEntry(src: seq<Byte>, ip: nat, cur: nat, ml: nat, whole: nat, off: nat, price: int, litlen: nat)
    requires MatchFrom(src, ip + cur, whole, off) && MINMATCH <= ml <= whole
    ensures EntryOk(src, Entry(price, off, ml, litlen), ip, cur + ml)
  {
    TrimOk(src, Found(whole, ip + cur - off, ip + cur), ml);
  }

  // ---- Prices in the table.

  /** No entry between these positions is dearer than it was. */
  ghost predicate Cheaper(t0: seq<Entry>, t: seq<Entry>, hi: nat) {
    hi < |t0| == |t| && forall k | 0 <= k <= hi :: t[k].price <= t0[k].price
  }

  /** What is paid before a match at cur, and the literals that its sequence starts with. */
  function Before(t: seq<Entry>, cur: nat): int
    requires cur < |t|
  {
    if t[cur].mlen != 1 then t[cur].price else if cur > t[cur].litlen then t[cur - t[cur].litlen].price else 0
  }

  function LiteralsBefore(t: seq<Entry>, cur: nat): nat
    requires cur < |t|
  {
    if t[cur].mlen == 1 then t[cur].litlen else 0
  }

  /** No position is dearer than by a match of each length up to n at cur. */
  ghost predicate ByMatch(t: seq<Entry>, before: int, ll: nat, cur: nat, n: nat) {
    cur + n < |t| && forall ml | MINMATCH <= ml <= n :: t[cur + ml].price <= before + SequencePrice(ll, ml)
  }

  /** What some more literals cost behind cur. */
  function LiteralsAfter(t: seq<Entry>, cur: nat, n: nat): int
    requires cur < |t|
  {
    t[cur].price - LiteralsPrice(t[cur].litlen) + LiteralsPrice(t[cur].litlen + n)
  }

  /** Nor than by up to n literals. */
  ghost predicate ByLiterals(t0: seq<Entry>, t: seq<Entry>, cur: nat, n: nat) {
    cur < |t0| && cur + n < |t| && forall k | 1 <= k <= n :: t[cur + k].price <= LiteralsAfter(t0, cur, k)
  }

  /** Behind llen literals, the fourth position is best reached by a match from the start, so that every way
      back from further on comes over a match. */
  ghost predicate FirstFour(t: seq<Entry>, llen: nat) {
    && |t| > MINMATCH && t[MINMATCH].mlen == MINMATCH && t[MINMATCH].price <= LiteralsPrice(llen) + 3
    && forall k | 1 <= k < MINMATCH :: t[k] == Literal(LiteralsPrice(llen + k), llen + k)
  }

  lemma FirstFourPut(t: seq<Entry>, llen: nat, pos: nat, e: Entry)
    requires FirstFour(t, llen) && MINMATCH < pos < |t|
    ensures FirstFour(t[pos := e], llen)
  {
  }

  /** Literals do not get cheaper there. */
  lemma FirstFourKeeps(t: seq<Entry>, llen: nat, cur: nat, n: nat)
    requires FirstFour(t, llen) && 1 <= cur && 1 <= n && cur + n <= MINMATCH
    ensures LiteralsAfter(t, cur, n) >= t[cur + n].price
  {
    assert t[cur] == Literal(LiteralsPrice(llen + cur), llen + cur);
  }

  lemma CheaperSame(t: seq<Entry>, hi: nat)
    requires hi < |t|
    ensures Cheaper(t, t, hi)
  {
  }

  lemma CheaperPut(t0: seq<Entry>, t: seq<Entry>, hi: nat, pos: nat, e: Entry)
    requires Cheaper(t0, t, hi) && pos < |t| && (pos <= hi ==> e.price <= t[pos].price)
    ensures Cheaper(t0, t[pos := e], hi)
  {
  }

  lemma ByLiteralsPut(t0: seq<Entry>, t: seq<Entry>, cur: nat, n: nat, pos: nat, e: Entry)
    requires ByLiterals(t0, t, cur, n) && pos < |t| && e.price <= t[pos].price
    ensures ByLiterals(t0, t[pos := e], cur, n)
  {
    hide LiteralsAfter;
  }

  lemma ByMatchPut(t: seq<Entry>, before: int, ll: nat, cur: nat, n: nat, e: Entry)
    requires ByMatch(t, before, ll, cur, n) && MINMATCH <= n + 1 && cur + n + 1 < |t|
    requires e.price <= before + SequencePrice(ll, n + 1)
    ensures ByMatch(t[cur + n + 1 := e], before, ll, cur, n + 1)
  {
    hide SequencePrice;
  }

  /** Literals behind the last match. */
  method AddTrailing(opt: array<Entry>, ghost src: seq<Byte>, ghost ip: nat, last: nat)
    requires last + TRAILING_LITERALS < opt.Length && TableOk(src, opt[..], ip, last)
    modifies opt
    ensures TableOk(src, opt[..], ip, last + TRAILING_LITERALS)
    ensures forall k | 1 <= k <= TRAILING_LITERALS :: opt[last + k] == Literal(opt[last].price + LiteralsPrice(k), k)
    ensures opt[..last + 1] == old(opt[..last + 1])
  {
    hide TableOk, EntryOk, LiteralsPrice;
    var addLit := 1;
    while addLit <= TRAILING_LITERALS
      invariant 1 <= addLit <= TRAILING_LITERALS + 1 && opt[..last + 1] == old(opt[..last + 1])
      invariant forall k | 1 <= k < addLit :: opt[last + k] == Literal(opt[last].price + LiteralsPrice(k), k)
      invariant TableOk(src, opt[..], ip, last + addLit - 1)
    {
      PutLiteral(opt, src, ip, last + addLit - 1, last + addLit, opt[last].price + LiteralsPrice(addLit), addLit);
      addLit := addLit + 1;
    }
  }

  lemma LiteralOk(src: seq<Byte>, ip: nat, pos: nat, price: int, litlen: nat)
    ensures EntryOk(src, Literal(price, litlen), ip, pos)
  {
  }

  method PutLiteral(opt: array<Entry>, ghost src: seq<Byte>, ghost ip: nat, ghost last: nat, pos: nat, price: int,
                    litlen: nat)
    requires TableOk(src, opt[..], ip, last) && pos <= last + 1 && pos < opt.Length
    modifies opt
    ensures TableOk(src, opt[..], ip, if pos == last + 1 then pos else last)
    ensures opt[..] == old(opt[..])[pos := Literal(price, litlen)]
  {
    hide TableOk, EntryOk;
    LiteralOk(src, ip, pos, price, litlen);
    TablePutOk(src, opt[..], ip, last, pos, Literal(price, litlen));
    ghost var t := opt[..];
    opt[pos] := Literal(price, litlen);
    assert opt[..] == t[pos := Literal(price, litlen)];
  }

  method PutMatch(opt: array<Entry>, ghost src: seq<Byte>, ghost ip: nat, ghost last: nat, cur: nat, ml: nat,
                  ghost whole: nat, off: nat, price: int, litlen: nat)
    requires TableOk(src, opt[..], ip, last) && cur + ml <= last + 1 && cur + ml < opt.Length
    requires MatchFrom(src, ip + cur, whole, off) && MINMATCH <= ml <= whole
    modifies opt
    ensures TableOk(src, opt[..], ip, if cur + ml == last + 1 then cur + ml else last)
    ensures opt[..] == old(opt[..])[cur + ml := Entry(price, off, ml, litlen)]
  {
    hide TableOk, EntryOk, MatchFrom;
    var e := Entry(price, off, ml, litlen);
    MatchEntry(src, ip, cur, ml, whole, off, price, litlen);
    TablePutOk(src, opt[..], ip, last, cur + ml, e);
    ghost var t := opt[..];
    opt[cur + ml] := e;
    assert opt[..] == t[cur + ml := e];
  }

  lemma TableOne(src: seq<Byte>, t: seq<Entry>, ip: nat)
    requires |t| > 0 && t[0].mlen == 1
    ensures TableOk(src, t, ip, 0)
  {
  }

  /** The table for a first match: literals, then every length of the match, then literals again. */
  method StartTable(opt: array<Entry>, ghost src: seq<Byte>, ghost ip: nat, llen: nat, off: nat, matchML: nat)
    requires opt.Length == OPT_NUM + TRAILING_LITERALS
    requires MINMATCH <= matchML < OPT_NUM && MatchFrom(src, ip, matchML, off)
    modifies opt
    ensures TableOk(src, opt[..], ip, matchML + TRAILING_LITERALS) && FirstFour(opt[..], llen)
    ensures forall k | 0 <= k < MINMATCH :: opt[k] == Literal(LiteralsPrice(llen + k), llen + k)
    ensures forall k | MINMATCH <= k <= matchML :: opt[k] == Entry(SequencePrice(llen, k), off, k, llen)
    ensures forall k | 1 <= k <= TRAILING_LITERALS :: opt[matchML + k] == Literal(opt[matchML].price + LiteralsPrice(k), k)
  {
    hide TableOk, EntryOk, MatchFrom, LiteralsPrice, SequencePrice;
    opt[0] := Literal(LiteralsPrice(llen), llen);
    TableOne(src, opt[..], ip);
    var rPos := 1;
    while rPos < MINMATCH
      invariant 1 <= rPos <= MINMATCH && TableOk(src, opt[..], ip, rPos - 1)
      invariant forall k | 0 <= k < rPos :: opt[k] == Literal(LiteralsPrice(llen + k), llen + k)
    {
      PutLiteral(opt, src, ip, rPos - 1, rPos, LiteralsPrice(llen + rPos), llen + rPos);
      rPos := rPos + 1;
    }
    var mlen := MINMATCH;
    while mlen <= matchML
      invariant MINMATCH <= mlen <= matchML + 1 && TableOk(src, opt[..], ip, mlen - 1)
      invariant forall k | 0 <= k < MINMATCH :: opt[k] == Literal(LiteralsPrice(llen + k), llen + k)
      invariant forall k | MINMATCH <= k < mlen :: opt[k] == Entry(SequencePrice(llen, k), off, k, llen)
    {
      PutMatch(opt, src, ip, mlen - 1, 0, mlen, matchML, off, SequencePrice(llen, mlen), llen);
      mlen := mlen + 1;
    }
    ghost var t := opt[..];
    AddTrailing(opt, src, ip, matchML);
    SameEntries(t, opt[..], matchML + 1);
    FourPrice(llen);
  }

  lemma SameEntries(t: seq<Entry>, t': seq<Entry>, n: nat)
    requires n <= |t| && n <= |t'| && t'[..n] == t[..n]
    ensures forall k | 0 <= k < n :: t'[k] == t[k]
  {
    forall k | 0 <= k < n ensures t'[k] == t[k] {
      assert t'[..n][k] == t[..n][k];
    }
  }

  lemma FourPrice(llen: nat)
    ensures SequencePrice(llen, MINMATCH) == LiteralsPrice(llen) + 3
  {
  }

  /** A match found at position cur: no way gets dearer, and every position up to the last is no dearer than by
      literals or by the match from there. */
  method Relax(opt: array<Entry>, ghost src: seq<Byte>, ghost ip: nat, cur: nat, last0: nat, off: nat, matchML: nat,
               favorDecSpeed: bool, ghost llen: nat) returns (last: nat)
    requires opt.Length == OPT_NUM + TRAILING_LITERALS && FirstFour(opt[..], llen)
    requires 1 <= cur < last0 < OPT_NUM && TableOk(src, opt[..], ip, last0 + TRAILING_LITERALS)
    requires MINMATCH <= matchML && cur + matchML < OPT_NUM && MatchFrom(src, ip + cur, matchML, off) && MINMATCH <= last0
    modifies opt
    ensures TableOk(src, opt[..], ip, last + TRAILING_LITERALS) && FirstFour(opt[..], llen)
    ensures last == last0 || last0 < last == cur + matchML
    ensures Cheaper(old(opt[..]), opt[..], last0)
    ensures ByMatch(opt[..last + 1], old(Before(opt[..], cur)), old(LiteralsBefore(opt[..], cur)), cur,
                    if cur + matchML <= last then matchML else last - cur)
    ensures ByLiterals(old(opt[..]), opt[..last0 + 1], cur, if cur + 3 <= last0 then 3 else last0 - cur)
  {
    hide TableOk, EntryOk, MatchFrom, LiteralsPrice, SequencePrice, FirstFour, Cheaper, ByMatch, ByLiterals, Before,
         LiteralsBefore;
    ghost var t0 := opt[..];
    RelaxLiterals(opt, src, ip, cur, last0, llen);
    ghost var t1 := opt[..];
    last := RelaxMatch(opt, src, ip, cur, last0, off, matchML, favorDecSpeed, llen);
    ghost var t2 := opt[..];
    AddTrailing(opt, src, ip, last);
    RelaxedKept(t0, t1, t2, opt[..], llen, cur, last0, last, matchML);
  }

  method RelaxLiterals(opt: array<Entry>, ghost src: seq<Byte>, ghost ip: nat, cur: nat, ghost last0: nat, ghost llen: nat)
    requires opt.Length == OPT_NUM + TRAILING_LITERALS && FirstFour(opt[..], llen)
    requires 1 <= cur < last0 < OPT_NUM && TableOk(src, opt[..], ip, last0 + TRAILING_LITERALS)
    modifies opt
    ensures TableOk(src, opt[..], ip, last0 + TRAILING_LITERALS) && FirstFour(opt[..], llen)
    ensures opt[..cur + 1] == old(opt[..cur + 1]) && Cheaper(old(opt[..]), opt[..], last0 + TRAILING_LITERALS)
    ensures ByLiterals(old(opt[..]), opt[..], cur, 3)
  {
    hide TableOk, EntryOk, LiteralsPrice, FirstFour, Cheaper, ByLiterals;
    ghost var t0 := opt[..];
    var baseLitlen := opt[cur].litlen;
    var litlen := 1;
    CheaperSame(t0, last0 + TRAILING_LITERALS);
    ByLiteralsNone(t0, cur);
    while litlen < MINMATCH
      invariant 1 <= litlen <= MINMATCH && TableOk(src, opt[..], ip, last0 + TRAILING_LITERALS)
      invariant FirstFour(opt[..], llen) && opt[..cur + 1] == t0[..cur + 1]
      invariant Cheaper(t0, opt[..], last0 + TRAILING_LITERALS) && ByLiterals(t0, opt[..], cur, litlen - 1)
    {
      var price := opt[cur].price - LiteralsPrice(baseLitlen) + LiteralsPrice(baseLitlen + litlen);
      var pos := cur + litlen;
      assert opt[cur] == opt[..cur + 1][cur] == t0[cur];
      ghost var t := opt[..];
      LiteralsChecked(t, llen, cur, litlen);
      if price < opt[pos].price {
        FirstFourPut(t, llen, pos, Literal(price, baseLitlen + litlen));
        CheaperPut(t0, t, last0 + TRAILING_LITERALS, pos, Literal(price, baseLitlen + litlen));
        ByLiteralsPut(t0, t, cur, litlen - 1, pos, Literal(price, baseLitlen + litlen));
        PutLiteral(opt, src, ip, last0 + TRAILING_LITERALS, pos, price, baseLitlen + litlen);
        assert opt[..cur + 1] == t[..cur + 1];
      }
      ByLiteralsMore(t0, opt[..], cur, litlen);
      litlen := litlen + 1;
    }
  }

  lemma ByLiteralsNone(t0: seq<Entry>, cur: nat)
    requires cur < |t0|
    ensures ByLiterals(t0, t0, cur, 0)
  {
  }

  lemma ByLiteralsMore(t0: seq<Entry>, t: seq<Entry>, cur: nat, n: nat)
    requires n >= 1 && ByLiterals(t0, t, cur, n - 1) && cur + n < |t| && t[cur + n].price <= LiteralsAfter(t0, cur, n)
    ensures ByLiterals(t0, t, cur, n)
  {
    hide LiteralsAfter;
  }

  /** Only positions behind the fourth can get cheaper by literals. */
  lemma LiteralsChecked(t: seq<Entry>, llen: nat, cur: nat, n: nat)
    requires FirstFour(t, llen) && 1 <= cur && 1 <= n && cur + n < |t|
    ensures LiteralsAfter(t, cur, n) < t[cur + n].price ==> MINMATCH < cur + n
  {
    if cur + n <= MINMATCH {
      FirstFourKeeps(t, llen, cur, n);
    }
  }

  method RelaxMatch(opt: array<Entry>, ghost src: seq<Byte>, ghost ip: nat, cur: nat, last0: nat, off: nat, matchML: nat,
                    favorDecSpeed: bool, ghost llen: nat) returns (last: nat)
    requires opt.Length == OPT_NUM + TRAILING_LITERALS && FirstFour(opt[..], llen)
    requires 1 <= cur < last0 < OPT_NUM && TableOk(src, opt[..], ip, last0 + TRAILING_LITERALS)
    requires MINMATCH <= matchML && cur + matchML < OPT_NUM && MatchFrom(src, ip + cur, matchML, off)
    modifies opt
    ensures TableOk(src, opt[..], ip, last) && FirstFour(opt[..], llen)
    ensures last == last0 || last0 < last == cur + matchML
    ensures Cheaper(old(opt[..]), opt[..], last0)
    ensures ByMatch(opt[..], old(Before(opt[..], cur)), old(LiteralsBefore(opt[..], cur)), cur, matchML)
  {
    hide TableOk, EntryOk, MatchFrom, SequencePrice, FirstFour, Cheaper, ByMatch, LiteralsPrice;
    ghost var t0 := opt[..];
    last := last0;
    ghost var known: nat := last0 + TRAILING_LITERALS;
    CheaperSame(t0, last0);
    ByMatchNone(t0, Before(t0, cur), LiteralsBefore(t0, cur), cur);
    var ml := MINMATCH;
    while ml <= matchML
      invariant MINMATCH <= ml <= matchML + 1 && TableOk(src, opt[..], ip, known)
      invariant known == if cur + ml > last0 + TRAILING_LITERALS + 1 then cur + ml - 1 else last0 + TRAILING_LITERALS
      invariant last == last0 || (ml == matchML + 1 && last0 < last == cur + matchML)
      invariant FirstFour(opt[..], llen) && opt[..cur + 1] == t0[..cur + 1] && Cheaper(t0, opt[..], last0)
      invariant ByMatch(opt[..], Before(t0, cur), LiteralsBefore(t0, cur), cur, ml - 1)
    {
      ghost var t := opt[..];
      SameBefore(t0, t, cur);
      var pos := cur + ml;
      var ll := if opt[cur].mlen == 1 then opt[cur].litlen else 0;
      var before := if opt[cur].mlen == 1 then if cur > ll then opt[cur - ll].price else 0 else opt[cur].price;
      var price := before + SequencePrice(ll, ml);
      if pos > last + TRAILING_LITERALS || price <= opt[pos].price - (if favorDecSpeed then 1 else 0) {
        if ml == matchML && last < pos {
          last := pos;
        }
        FirstFourPut(t, llen, pos, Entry(price, off, ml, ll));
        CheaperPut(t0, t, last0, pos, Entry(price, off, ml, ll));
        ByMatchPut(t, before, ll, cur, ml - 1, Entry(price, off, ml, ll));
        PutMatch(opt, src, ip, known, cur, ml, matchML, off, price, ll);
        known := if pos == known + 1 then pos else known;
        assert opt[..cur + 1] == t[..cur + 1];
      } else {
        ByMatchMore(t, before, ll, cur, ml);
      }
      ml := ml + 1;
    }
    TableLess(src, opt[..], ip, known, last);
  }

  lemma ByMatchNone(t: seq<Entry>, before: int, ll: nat, cur: nat)
    requires cur + MINMATCH <= |t|
    ensures ByMatch(t, before, ll, cur, MINMATCH - 1)
  {
  }

  lemma ByMatchMore(t: seq<Entry>, before: int, ll: nat, cur: nat, ml: nat)
    requires MINMATCH <= ml && ByMatch(t, before, ll, cur, ml - 1) && cur + ml < |t|
    requires t[cur + ml].price <= before + SequencePrice(ll, ml)
    ensures ByMatch(t, before, ll, cur, ml)
  {
    hide SequencePrice;
  }

  lemma SameBefore(t0: seq<Entry>, t: seq<Entry>, cur: nat)
    requires cur < |t0| && cur < |t| && t[..cur + 1] == t0[..cur + 1]
    ensures Before(t, cur) == Before(t0, cur) && LiteralsBefore(t, cur) == LiteralsBefore(t0, cur)
  {
    assert forall k | 0 <= k <= cur :: t[k] == t[..cur + 1][k] == t0[k];
  }

  /** The trailing literals touch nothing up to the last match. */
  lemma RelaxedKept(t0: seq<Entry>, t1: seq<Entry>, t2: seq<Entry>, t3: seq<Entry>, llen: nat, cur: nat, last0: nat,
                    last: nat, matchML: nat)
    requires cur < last0 <= last && last + TRAILING_LITERALS < |t0| == |t1| == |t2| == |t3| && MINMATCH <= last0
    requires t1[..cur + 1] == t0[..cur + 1] && t3[..last + 1] == t2[..last + 1]
    requires Cheaper(t0, t1, last0 + TRAILING_LITERALS) && Cheaper(t1, t2, last0)
    requires ByLiterals(t0, t1, cur, 3) && FirstFour(t2, llen)
    requires ByMatch(t2, Before(t1, cur), LiteralsBefore(t1, cur), cur, matchML)
    ensures FirstFour(t3, llen) && Cheaper(t0, t3, last0)
    ensures ByMatch(t3[..last + 1], Before(t0, cur), LiteralsBefore(t0, cur), cur,
                    if cur + matchML <= last then matchML else last - cur)
    ensures ByLiterals(t0, t3[..last0 + 1], cur, if cur + 3 <= last0 then 3 else last0 - cur)
  {
    SameBefore(t0, t1, cur);
    hide Before, LiteralsBefore, LiteralsAfter, SequencePrice, LiteralsPrice;
    assert forall k | 0 <= k <= last :: t3[k] == t3[..last + 1][k] == t2[k];
  }

  // ---- The search.

  /** LZ4HC_match_t: length 0 when nothing was found. */
  datatype Match = Match(off: nat, len: nat)

  /** LZ4HC_FindLongerMatch: unless the attempts run out, the longest match that starts at ip. */
  method FindLongerMatch(ctx: Context, src: seq<Byte>, hash: nat -> nat, ip: nat, minLen: nat, nbSearches: nat,
                         favorDecSpeed: bool) returns (f: Match)
    requires ctx.Ok() && HashOk4(src, hash, ctx.heads.Length) && ctx.nextToUpdate <= ctx.base + ip
    requires ip + MFLIMIT <= |src| && 1 <= minLen && ip + minLen + LASTLITERALS <= |src|
    modifies ctx, ctx.heads, ctx.chain
    ensures ctx.Ok() && ctx.nextToUpdate == ctx.base + ip
    ensures f.len > 0 ==> f.len >= MINMATCH && ip + f.len + LASTLITERALS <= |src| && MatchFrom(src, ip, f.len, f.off)
    ensures old(ctx.Tables(hash)) ==> ctx.Tables(hash)
    ensures old(ctx.Tables(hash)) && Bytewise(src, hash) && Exhaustive(ip, ip, nbSearches, true, favorDecSpeed)
            ==> NoneLonger(src, ip, ip, |src| - LASTLITERALS, if f.len > 0 then f.len else minLen)
  {
    hide HashOk4, Best, TableBelow, DeltasOk, Genuine, Exact, Bytewise, NoneLonger;
    BestLonger(src, ip, minLen);
    var g := ctx.GetWiderMatch(src, hash, ip, ip, |src| - LASTLITERALS, Found(minLen, 0, 0), nbSearches, true, true,
                               favorDecSpeed);
    if g.length <= minLen {
      return Match(0, 0);
    }
    Located(src, ip, minLen, g);
    var len := g.length;
    if favorDecSpeed && 18 < len <= 36 {
      TrimOk(src, g, 18);
      len := 18;
    }
    f := Match(ip - g.m, len);
  }

  lemma BestLonger(src: seq<Byte>, ip: nat, known: nat)
    requires LASTLITERALS <= |src|
    ensures forall f :: Best(src, ip, ip, |src| - LASTLITERALS, known, f) ==> f.length >= known
  {
    hide Usable;
  }

  lemma Located(src: seq<Byte>, ip: nat, known: nat, f: Found)
    requires ip + MFLIMIT <= |src| && Best(src, ip, ip, |src| - LASTLITERALS, known, f) && f.length > known
    ensures f.s == ip && f.length >= MINMATCH && f.m < ip && MatchOk(src, f)
  {
    hide Genuine;
    UsableOk(src, f);
  }

  // ---- The way back and the way forward.

  /** From position pos on, the table says which literal or match comes next, up to position last. */
  ghost predicate Forward(src: seq<Byte>, t: seq<Entry>, ip: nat, pos: nat, last: nat)
    decreases last - pos
  {
    pos >= last || (pos < |t| && NextOk(src, t[pos], ip, pos) && Forward(src, t, ip, pos + t[pos].mlen, last))
  }

  ghost predicate NextOk(src: seq<Byte>, e: Entry, ip: nat, pos: nat) {
    e.mlen == 1 || (MINMATCH <= e.mlen && MatchFrom(src, ip + pos, e.mlen, e.off))
  }

  /** And it comes over a match. */
  ghost predicate OverMatch(t: seq<Entry>, pos: nat, last: nat)
    decreases last - pos
  {
    pos < last && pos < |t| && (t[pos].mlen != 1 || OverMatch(t, pos + 1, last))
  }

  lemma {:induction false} OverSame(t: seq<Entry>, t': seq<Entry>, pos: nat, last: nat)
    requires OverMatch(t, pos, last) && |t| == |t'|
    requires forall k | pos <= k < |t| :: t'[k] == t[k]
    ensures OverMatch(t', pos, last)
    decreases last - pos
  {
    if t[pos].mlen == 1 {
      OverSame(t, t', pos + 1, last);
    }
  }

  /** On the way back at pos, with len selected there: a match is behind, or the fourth position still before. */
  ghost predicate MatchAhead(t: seq<Entry>, pos: nat, len: nat, last: nat) {
    pos < last && (len != 1 || OverMatch(t, pos + 1, last)
                   || (MINMATCH <= pos && |t| > MINMATCH && t[MINMATCH].mlen == MINMATCH))
  }

  /** One step back. */
  lemma MatchBack(t: seq<Entry>, t': seq<Entry>, pos: nat, len: nat, last: nat)
    requires MatchAhead(t, pos, len, last) && pos < |t| == |t'| && 1 <= t[pos].mlen
    requires t'[pos].mlen == len && forall k | 0 <= k < |t| && k != pos :: t'[k] == t[k]
    ensures t[pos].mlen > pos ==> (pos == 0 ==> OverMatch(t', 0, last))
    ensures t[pos].mlen <= pos ==> MatchAhead(t', pos - t[pos].mlen, t[pos].mlen, last)
  {
    if OverMatch(t, pos + 1, last) {
      OverSame(t, t', pos + 1, last);
    }
  }

  lemma {:induction false} ForwardSame(src: seq<Byte>, t: seq<Entry>, t': seq<Entry>, ip: nat, pos: nat, last: nat)
    requires Forward(src, t, ip, pos, last) && |t| == |t'|
    requires forall k | pos <= k < |t| :: t'[k] == t[k]
    ensures Forward(src, t', ip, pos, last)
    decreases last - pos
  {
    hide MatchFrom;
    if pos < last {
      ForwardSame(src, t, t', ip, pos + t[pos].mlen, last);
    }
  }

  /** The reverse traversal: each position on the way learns what comes next instead of what came
      before. */
  method Reverse(opt: array<Entry>, ghost src: seq<Byte>, ghost ip: nat, cur: nat, bestLen: nat, bestOff: nat,
                 ghost last: nat)
    requires cur < opt.Length && TableOk(src, opt[..], ip, cur)
    requires NextOk(src, Entry(0, bestOff, bestLen, 0), ip, cur) && last <= cur + bestLen
    requires MatchAhead(opt[..], cur, bestLen, last)
    modifies opt
    ensures Forward(src, opt[..], ip, 0, last) && OverMatch(opt[..], 0, last)
  {
    hide TableOk, EntryOk, NextOk, MatchFrom, MatchAhead, OverMatch, Forward;
    var candidate: nat := cur;
    var selectedLen: nat, selectedOff: nat := bestLen, bestOff;
    NextPositive(src, ip, cur, bestLen, bestOff);
    ForwardEnd(src, opt[..], ip, cur + bestLen, last);
    while true
      invariant candidate < opt.Length && TableOk(src, opt[..], ip, candidate) && selectedLen >= 1
      invariant NextOk(src, Entry(0, selectedOff, selectedLen, 0), ip, candidate)
      invariant Forward(src, opt[..], ip, candidate + selectedLen, last)
      invariant MatchAhead(opt[..], candidate, selectedLen, last)
      decreases candidate
    {
      ghost var t := opt[..];
      EntryOf(src, t, ip, candidate, candidate);
      StepBack(src, t[candidate], ip, candidate);
      var nextLen, nextOff := opt[candidate].mlen, opt[candidate].off;
      opt[candidate] := opt[candidate].(mlen := selectedLen, off := selectedOff);
      ForwardMore(src, t, opt[..], ip, candidate, selectedLen, selectedOff, last);
      MatchBack(t, opt[..], candidate, selectedLen, last);
      selectedLen, selectedOff := nextLen, nextOff;
      if nextLen > candidate {
        break;
      }
      TableBefore(src, t, opt[..], ip, candidate, candidate - nextLen);
      candidate := candidate - nextLen;
    }
  }

  lemma ForwardEnd(src: seq<Byte>, t: seq<Entry>, ip: nat, pos: nat, last: nat)
    requires pos >= last
    ensures Forward(src, t, ip, pos, last)
  {
  }

  lemma NextPositive(src: seq<Byte>, ip: nat, pos: nat, len: nat, off: nat)
    requires NextOk(src, Entry(0, off, len, 0), ip, pos)
    ensures len >= 1
  {
  }

  /** An entry read as the last step to pos is the next step from where it began. */
  lemma StepBack(src: seq<Byte>, e: Entry, ip: nat, pos: nat)
    requires EntryOk(src, e, ip, pos)
    ensures e.mlen >= 1 && (e.mlen > pos ==> pos == 0)
    ensures e.mlen <= pos ==> NextOk(src, Entry(0, e.off, e.mlen, 0), ip, pos - e.mlen)
  {
    hide MatchFrom;
  }

  lemma ForwardMore(src: seq<Byte>, t: seq<Entry>, t': seq<Entry>, ip: nat, pos: nat, len: nat, off: nat, last: nat)
    requires pos < |t| == |t'| && Forward(src, t, ip, pos + len, last) && len >= 1
    requires NextOk(src, Entry(0, off, len, 0), ip, pos)
    requires t'[pos].mlen == len && t'[pos].off == off && forall k | 0 <= k < |t| && k != pos :: t'[k] == t[k]
    ensures Forward(src, t', ip, pos, last)
  {
    hide MatchFrom;
    ForwardSame(src, t, t', ip, pos + len, last);
  }

  lemma TableBefore(src: seq<Byte>, t: seq<Entry>, t': seq<Entry>, ip: nat, pos: nat, less: nat)
    requires TableOk(src, t, ip, pos) && less < pos && |t| == |t'|
    requires forall k | 0 <= k < |t| && k != pos :: t'[k] == t[k]
    ensures TableOk(src, t', ip, less)
  {
    hide EntryOk;
  }

  /** Not worth a search: the next position is no dearer. */
  method Skippable(opt: array<Entry>, cur: nat, fullUpdate: bool) returns (skip: bool)
    requires cur + MINMATCH < opt.Length
    ensures skip <==> opt[cur + 1].price <= opt[cur].price
                      && (fullUpdate ==> opt[cur + MINMATCH].price < opt[cur].price + 3)
  {
    if fullUpdate {
      skip := opt[cur + 1].price <= opt[cur].price && opt[cur + MINMATCH].price < opt[cur].price + 3;
    } else {
      skip := opt[cur + 1].price <= opt[cur].price;
    }
  }

  /** The search of further positions, up to the moment the path is chosen: where the reverse traversal
      begins, what is selected there, and how far the path goes. */
  method Explore(ctx: Context, src: seq<Byte>, hash: nat -> nat, opt: array<Entry>, ip: nat, last0: nat, nbSearches: nat,
                 sufficient: nat, fullUpdate: bool, favorDecSpeed: bool, ghost llen: nat)
    returns (cur: nat, bestLen: nat, bestOff: nat, last: nat)
    requires ctx.Ok() && ctx.Tables(hash) && HashOk4(src, hash, ctx.heads.Length) && ctx.nextToUpdate == ctx.base + ip
    requires opt.Length == OPT_NUM + TRAILING_LITERALS && MINMATCH <= last0 < OPT_NUM && FirstFour(opt[..], llen)
    requires TableOk(src, opt[..], ip, last0 + TRAILING_LITERALS) && ip + last0 + LASTLITERALS <= |src|
    modifies ctx, ctx.heads, ctx.chain, opt
    ensures ctx.Ok() && ctx.Tables(hash) && cur < opt.Length && TableOk(src, opt[..], ip, cur)
    ensures NextOk(src, Entry(0, bestOff, bestLen, 0), ip, cur) && 1 <= last <= cur + bestLen
    ensures MatchAhead(opt[..], cur, bestLen, last)
    ensures ctx.nextToUpdate - ctx.base < ip + last && ip + last <= |src|
  {
    hide HashOk4, TableBelow, DeltasOk, MatchFrom, TableOk, EntryOk, NextOk, Exact, Bytewise, NoneLonger, FirstFour, Cheaper,
         ByMatch, ByLiterals, OverMatch, MatchAhead;
    last := last0;
    cur := 1;
    while cur < last && ip + cur + MFLIMIT <= |src|
      invariant 1 <= cur <= last < OPT_NUM && MINMATCH <= last && ip + last + LASTLITERALS <= |src|
      invariant TableOk(src, opt[..], ip, last + TRAILING_LITERALS) && FirstFour(opt[..], llen)
      invariant ctx.Ok() && ctx.Tables(hash) && ctx.nextToUpdate - ctx.base < ip + cur
      decreases |src| - cur
    {
      var skip := Skippable(opt, cur, fullUpdate);
      if !skip {
        var minLen := if fullUpdate then MINMATCH - 1 else last - cur;
        var f := FindLongerMatch(ctx, src, hash, ip + cur, minLen, nbSearches, favorDecSpeed);
        if f.len > 0 {
          if f.len > sufficient || f.len + cur >= OPT_NUM {
            MatchNext(src, ip, cur, f.len, f.off);
            TableLess(src, opt[..], ip, last + TRAILING_LITERALS, cur);
            AheadMatch(opt[..], cur, f.len);
            return cur, f.len, f.off, cur + 1;
          }
          last := Relax(opt, src, ip, cur, last, f.off, f.len, favorDecSpeed, llen);
        }
      }
      cur := cur + 1;
    }
    EntryOf(src, opt[..], ip, last + TRAILING_LITERALS, last);
    StepBack(src, opt[last], ip, last);
    bestLen, bestOff := opt[last].mlen, opt[last].off;
    cur := last - bestLen;
    TableLess(src, opt[..], ip, last + TRAILING_LITERALS, cur);
    AheadLast(opt[..], llen, last);
  }

  lemma AheadMatch(t: seq<Entry>, cur: nat, len: nat)
    requires len >= MINMATCH
    ensures MatchAhead(t, cur, len, cur + 1)
  {
  }

  lemma AheadLast(t: seq<Entry>, llen: nat, last: nat)
    requires FirstFour(t, llen) && MINMATCH <= last < |t| && 1 <= t[last].mlen <= last
    ensures MatchAhead(t, last - t[last].mlen, t[last].mlen, last)
  {
  }

  lemma MatchNext(src: seq<Byte>, ip: nat, cur: nat, len: nat, off: nat)
    requires MatchFrom(src, ip + cur, len, off) && len >= MINMATCH
    ensures NextOk(src, Entry(0, off, len, 0), ip, cur)
  {
  }

  /** The sequences of the path, in order. */
  method EncodePath(src: seq<Byte>, dst: array<Byte>, ghost seqs0: seq<Sequence>, op0: nat, anchor0: nat, opt: array<Entry>,
                    ip0: nat, last: nat, limited: bool)
    returns (ok: bool, op: nat, anchor: nat, ip: nat, ghost seqs: seq<Sequence>)
    requires Emitted(src, dst[..], seqs0, op0, anchor0) && Roomy(limited, dst.Length, |src|, op0, anchor0)
    requires anchor0 <= ip0 && ip0 + last <= |src| && Forward(src, opt[..], ip0, 0, last) && OverMatch(opt[..], 0, last)
    modifies dst
    ensures !ok ==> limited && Refused(src, dst.Length, seqs)
    ensures ok ==> Emitted(src, dst[..], seqs, op, anchor) && Roomy(limited, dst.Length, |src|, op, anchor)
    ensures ok ==> anchor <= ip <= |src| && ip0 + last <= ip && |seqs| > |seqs0|
  {
    hide Emitted, Roomy, MatchFrom, NextOk, Refused, SequenceFits, MatchOk;
    ghost var t := opt[..];
    var rPos := 0;
    ip, op, anchor, seqs, ok := ip0, op0, anchor0, seqs0, true;
    while rPos < last
      invariant 0 <= rPos && ip == ip0 + rPos && anchor <= ip <= |src|
      invariant opt[..] == t && Forward(src, t, ip0, rPos, last)
      invariant |seqs| > |seqs0| || (seqs == seqs0 && OverMatch(t, rPos, last))
      invariant Emitted(src, dst[..], seqs, op, anchor) && Roomy(limited, dst.Length, |src|, op, anchor)
      decreases last - rPos
    {
      var ml, offset := opt[rPos].mlen, opt[rPos].off;
      assert t[rPos] == opt[rPos];
      if ml == 1 {
        ip, rPos := ip + 1, rPos + 1;
      } else {
        PathMatch(src, t[rPos], ip0, rPos);
        rPos := rPos + ml;
        ghost var s;
        var f := Found(ml, ip - offset, ip);
        ok, op, s := EncodeSequence(src, dst, seqs, op, anchor, f, limited);
        seqs := seqs + [s];
        if !ok {
          return;
        }
        ip := ip + ml;
        anchor := ip;
      }
    }
  }

  lemma PathMatch(src: seq<Byte>, e: Entry, ip: nat, pos: nat)
    requires NextOk(src, e, ip, pos) && e.mlen != 1
    ensures MINMATCH <= e.mlen && e.off <= ip + pos && MatchOk(src, Found(e.mlen, ip + pos - e.off, ip + pos))
  {
  }

  lemma FirstMatch(src: seq<Byte>, ip: nat, f: Match)
    requires MatchFrom(src, ip, f.len, f.off)
    ensures f.off <= ip && MatchOk(src, Found(f.len, ip - f.off, ip))
  {
  }

  /** No match that starts at ip is longer than three bytes, if equal bytes have equal hashes, the attempts last
      and no candidate is passed over for the speed of decoding. */
  ghost predicate NoMatchAt(src: seq<Byte>, hash: nat -> nat, ip: nat, nbSearches: nat, favorDecSpeed: bool) {
    Bytewise(src, hash) && Exhaustive(ip, ip, nbSearches, true, favorDecSpeed) && ip + MFLIMIT <= |src| ==>
      NoneLonger(src, ip, ip, |src| - LASTLITERALS, MINMATCH - 1)
  }

  /** One round of the main loop: a sequence at least, or no match and on to the next position. */
  method Round(ctx: Context, src: seq<Byte>, hash: nat -> nat, dst: array<Byte>, opt: array<Entry>,
               ghost seqs0: seq<Sequence>, op0: nat, anchor0: nat, ip0: nat, nbSearches: nat, sufficient: nat, limited: bool,
               fullUpdate: bool, favorDecSpeed: bool)
    returns (ok: bool, op: nat, anchor: nat, ip: nat, ghost seqs: seq<Sequence>)
    requires ctx.Ok() && ctx.Tables(hash) && HashOk4(src, hash, ctx.heads.Length) && ctx.nextToUpdate <= ctx.base + ip0
    requires opt.Length == OPT_NUM + TRAILING_LITERALS && sufficient < OPT_NUM
    requires Emitted(src, dst[..], seqs0, op0, anchor0) && Roomy(limited, dst.Length, |src|, op0, anchor0)
    requires anchor0 <= ip0 && ip0 + MFLIMIT <= |src|
    modifies ctx, ctx.heads, ctx.chain, dst, opt
    ensures ctx.Ok() && ctx.Tables(hash) && (!ok ==> limited && Refused(src, dst.Length, seqs))
    ensures ok ==> Emitted(src, dst[..], seqs, op, anchor) && Roomy(limited, dst.Length, |src|, op, anchor)
    ensures ok ==> anchor <= ip <= |src| && ip0 < ip && ctx.nextToUpdate <= ctx.base + ip
    ensures ok && |seqs| <= |seqs0| ==>
              seqs == seqs0 && ip == ip0 + 1 && NoMatchAt(src, hash, ip0, nbSearches, favorDecSpeed)
  {
    hide HashOk4, TableBelow, DeltasOk, MatchFrom, TableOk, NextOk, Emitted, Roomy, MatchOk, Exact, Bytewise, NoneLonger,
         Refused, SequenceFits, FirstFour, OverMatch, MatchAhead, Forward;
    ok, op, anchor, ip, seqs := true, op0, anchor0, ip0, seqs0;
    var first := FindLongerMatch(ctx, src, hash, ip, MINMATCH - 1, nbSearches, favorDecSpeed);
    if first.len == 0 {
      ip := ip + 1;
      return;
    }
    if first.len > sufficient {
      FirstMatch(src, ip, first);
      ghost var s;
      var f := Found(first.len, ip - first.off, ip);
      ok, op, s := EncodeSequence(src, dst, seqs, op, anchor, f, limited);
      seqs := seqs + [s];
      ip := ip + first.len;
      anchor := ip;
      return;
    }
    StartTable(opt, src, ip, ip - anchor, first.off, first.len);
    var cur, bestLen, bestOff, last := Explore(ctx, src, hash, opt, ip, first.len, nbSearches, sufficient, fullUpdate,
                                               favorDecSpeed, ip - anchor);
    Reverse(opt, src, ip, cur, bestLen, bestOff, last);
    ok, op, anchor, ip, seqs := EncodePath(src, dst, seqs, op, anchor, opt, ip, last, limited);
  }

  /** No position up to ip has a match. */
  ghost predicate NoMatchBefore(src: seq<Byte>, hash: nat -> nat, ip: nat, nbSearches: nat, favorDecSpeed: bool) {
    forall i: nat | i < ip :: NoMatchAt(src, hash, i, nbSearches, favorDecSpeed)
  }

  /** LZ4HC_compress_optimal, for outputs that are limited to the size of dst or known to be large
      enough; without a sequence in the result, no position has a match. */
  method CompressOptimal(ctx: Context, src: seq<Byte>, hash: nat -> nat, dst: array<Byte>, nbSearches: nat,
                         sufficientLen: nat, limited: bool, fullUpdate: bool, favorDecSpeed: bool)
    returns (r: nat, ghost b: Block)
    requires ctx.Ok() && HashOk4(src, hash, ctx.heads.Length) && ctx.nextToUpdate == ctx.base
    requires !limited ==> Bound(|src|) <= dst.Length
    modifies ctx, ctx.heads, ctx.chain, dst
    ensures r > 0 ==> r <= dst.Length && Compressed(src, dst[..r], b)
    ensures r > 0 && b.seqs == [] ==> NoMatchBefore(src, hash, |src|, nbSearches, favorDecSpeed)
    ensures r == 0 ==> limited && TooLarge(src, dst.Length, b)
    ensures !limited ==> r <= Bound(|src|)
  {
    hide HashOk4, TableBelow, DeltasOk, Emitted, Roomy, Compressed, Exact, Bytewise, NoneLonger, Refused, NoMatchAt,
         BlockBytes;
    b := Block([], [], 0);
    var opt := new Entry[OPT_NUM + TRAILING_LITERALS](_ => Literal(0, 0));
    var sufficient := if sufficientLen >= OPT_NUM then OPT_NUM - 1 else sufficientLen;
    ghost var seqs: seq<Sequence> := [];
    var op: nat, anchor: nat, ip: nat := 0, 0, 0;
    ctx.FreshTables(hash);
    EmittedNone(src, dst[..]);
    RoomyFirst(limited, dst.Length, |src|);
    while ip + MFLIMIT <= |src|
      invariant ctx.Ok() && ctx.Tables(hash) && anchor <= ip <= |src| && ctx.nextToUpdate <= ctx.base + ip
      invariant Emitted(src, dst[..], seqs, op, anchor) && Roomy(limited, dst.Length, |src|, op, anchor)
      invariant seqs == [] ==> NoMatchBefore(src, hash, ip, nbSearches, favorDecSpeed)
      decreases |src| - ip
    {
      var ok;
      ok, op, anchor, ip, seqs := Round(ctx, src, hash, dst, opt, seqs, op, anchor, ip, nbSearches, sufficient, limited,
                                        fullUpdate, favorDecSpeed);
      if !ok {
        return 0, Block(seqs, [], 0);
      }
    }
    NoMatchAfter(src, hash, ip, nbSearches, favorDecSpeed);
    b := Block(seqs, src[anchor..], 0);
    LastLarge(src, dst[..], seqs, op, anchor);
    RoomyRoom(limited, dst.Length, |src|, op, anchor);
    r := EncodeLast(src, dst, seqs, op, anchor, limited);
  }

  lemma NoMatchAfter(src: seq<Byte>, hash: nat -> nat, ip: nat, nbSearches: nat, favorDecSpeed: bool)
    requires ip + MFLIMIT > |src|
    ensures NoMatchBefore(src, hash, ip, nbSearches, favorDecSpeed) ==>
              NoMatchBefore(src, hash, |src|, nbSearches, favorDecSpeed)
  {
    hide Bytewise, NoneLonger;
  }

  lemma RoomyFirst(limited: bool, cap: nat, n: nat)
    requires !limited ==> Bound(n) <= cap
    ensures Roomy(limited, cap, n, 0, 0)
  {
  }

  lemma RoomyRoom(limited: bool, cap: nat, n: nat, op: nat, anchor: nat)
    requires Roomy(limited, cap, n, op, anchor)
    ensures limited || Room(limited, cap, n, op, anchor)
  {
  }

  // ---- Compression levels.

  const LEVEL_DEFAULT := 9
  const LEVEL_MAX := 12

  /** clTable: whether a level uses the optimal parser, how many candidates it looks at and how long a
      match is good enough. */
  function Level(level: nat): (bool, nat, nat)
    requires 1 <= level <= LEVEL_MAX
  {
    if level <= 2 then (false, 2, 16)
    else if level == 3 then (false, 4, 16)
    else if level == 4 then (false, 8, 16)
    else if level == 5 then (false, 16, 16)
    else if level == 6 then (false, 32, 16)
    else if level == 7 then (false, 64, 16)
    else if level == 8 then (false, 128, 16)
    else if level == 9 then (false, 256, 16)
    else if level == 10 then (true, 96, 64)
    else if level == 11 then (true, 512, 128)
    else (true, 16384, OPT_NUM)
  }

  /** The level that is used for the one asked for. */
  function UsedLevel(compressionLevel: int): (l: nat)
    ensures 1 <= l <= LEVEL_MAX
  {
    if compressionLevel < 1 then LEVEL_DEFAULT
    else if compressionLevel > LEVEL_MAX then LEVEL_MAX else compressionLevel
  }

  /** LZ4_compress_HC: at every level the result is a block of the input, up to level 9 the one that a run of the
      hash-chain parser ends with; it is 0 only for an input that is too large or an output smaller than the
      bound that has no room for the sequences. */
  method CompressHC(src: seq<Byte>, dst: array<Byte>, tableSize: nat, hash: nat -> nat, compressionLevel: int,
                    favorDecSpeed: bool) returns (r: nat, ghost b: Block, ghost trace: seq<State>)
    requires HashOk4(src, hash, tableSize)
    modifies dst
    ensures r > 0 ==> r <= dst.Length && Compressed(src, dst[..r], b)
    ensures var (optimal, nbSearches, _) := Level(UsedLevel(compressionLevel));
      && (r > 0 && !optimal ==> ParserRun(src, hash, nbSearches, trace) && RunEnds(src, trace[|trace| - 1], b))
      && (r > 0 && optimal && b.seqs == [] ==> NoMatchBefore(src, hash, |src|, nbSearches, favorDecSpeed))
    ensures r == 0 ==> |src| > MAX_INPUT_SIZE
                       || (dst.Length < CompressBound(|src|) && TooLarge(src, dst.Length, b))
    ensures r > 0 && dst.Length >= CompressBound(|src|) ==> r <= Bound(|src|)
  {
    hide HashOk4, Compressed, TableBelow, DeltasOk, NoMatchBefore, ParserRun, RunEnds, TooLarge;
    b, trace := Block([], [], 0), [START];
    if |src| > MAX_INPUT_SIZE {
      return 0, b, trace;
    }
    var heads := new nat[tableSize](_ => 0);
    var chain := new nat[CHAIN_SIZE](_ => 0);
    FreshTables(heads[..], chain[..]);
    var ctx := new Context(heads, chain, CHAIN_SIZE);
    var level := if compressionLevel < 1 then LEVEL_DEFAULT
                 else if compressionLevel > LEVEL_MAX then LEVEL_MAX else compressionLevel;
    var (optimal, nbSearches, targetLength) := Level(level);
    var limited := dst.Length < CompressBound(|src|);
    if optimal {
      r, b := CompressOptimal(ctx, src, hash, dst, nbSearches, targetLength, limited, level == LEVEL_MAX, favorDecSpeed);
    } else {
      r, b, trace := CompressHashChain(ctx, src, hash, dst, nbSearches, limited);
    }
  }

  lemma FreshTables(heads: seq<nat>, chain: seq<nat>)
    requires forall i | 0 <= i < |heads| :: heads[i] == 0
    requires |chain| == CHAIN_SIZE && forall i | 0 <= i < |chain| :: chain[i] == 0
    ensures TableBelow(heads, CHAIN_SIZE) && DeltasOk(chain)
  {
  }
}
