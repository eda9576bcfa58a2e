/** XXH64 loses no difference behind its stripes: every step there is one-to-one in what it mixes in. A
    difference in the stripes stays in one lane until the lanes are merged. */
module Xxh64Mixing {
  import Bits
  import M = Xxh32Mixing
  import opened Bytes
  import opened Xxh64

  const TWO64 := 0x1_0000_0000_0000_0000

  // ---- The steps are one-to-one.

  /** The primes are odd, so multiplying by them can be undone. */
  lemma Inverses(a: U64)
    ensures Mul(Mul(a, PRIME1), 614540362697595703) == a && Mul(Mul(a, PRIME2), 839798700976720815) == a
    ensures Mul(Mul(a, PRIME3), 16855272203555305545) == a && Mul(Mul(a, PRIME5), 14236653164957433613) == a
  {
    Bits.MulBack(a, PRIME1, 614540362697595703, TWO64, 379806830464837242);
    Bits.MulBack(a, PRIME2, 839798700976720815, TWO64, 638699622168397319);
    Bits.MulBack(a, PRIME3, 16855272203555305545, TWO64, 1470722560960728959);
    Bits.MulBack(a, PRIME5, 14236653164957433613, TWO64, 2215118327355546487);
  }

  lemma MulOneToOne(a: U64, b: U64)
    requires a != b
    ensures Mul(a, PRIME1) != Mul(b, PRIME1) && Mul(a, PRIME2) != Mul(b, PRIME2) && Mul(a, PRIME3) != Mul(b, PRIME3)
    ensures Mul(a, PRIME5) != Mul(b, PRIME5)
  {
    hide Mul;
    Inverses(a);
    Inverses(b);
  }

  lemma AddOneToOne(a: U64, b: U64, c: int)
    requires a != b
    ensures Wrap(a + c) != Wrap(b + c) && Wrap(c + a) != Wrap(c + b)
  {
  }

  lemma RotlOneToOne(a: U64, b: U64, n: nat)
    requires a != b
    ensures Rotl(a, n) != Rotl(b, n)
  {
    if Rotl(a, n) == Rotl(b, n) {
      Bits.RotlOneToOne(a, b, n, TWO64);
    }
  }

  lemma XorOneToOne(a: U64, b: U64, c: U64)
    requires a != b
    ensures Xor(a, c) != Xor(b, c) && Xor(c, a) != Xor(c, b)
  {
    hide Bits.Xor;
    Bits.XorBack(a, c);
    Bits.XorBack(b, c);
    Bits.XorBack(c, a);
    Bits.XorBack(c, b);
  }

  lemma MixOneToOne(a: U64, b: U64, n: nat)
    requires a != b && n > 0
    ensures Xor(a, ShiftRight(a, n)) != Xor(b, ShiftRight(b, n))
  {
    if Xor(a, ShiftRight(a, n)) == Xor(b, ShiftRight(b, n)) {
      Bits.ShiftMixes(a, b, n);
    }
  }

  lemma RoundOneToOne(a: U64, b: U64, w: U64)
    requires a != b
    ensures Round(a, w) != Round(b, w) && Round(w, a) != Round(w, b)
  {
    hide Mul, Rotl, Wrap;
    MulOneToOne(a, b);
    AddOneToOne(a, b, Mul(w, PRIME2));
    AddOneToOne(Mul(a, PRIME2), Mul(b, PRIME2), w);
    RotlOneToOne(Wrap(a + Mul(w, PRIME2)), Wrap(b + Mul(w, PRIME2)), 31);
    RotlOneToOne(Wrap(w + Mul(a, PRIME2)), Wrap(w + Mul(b, PRIME2)), 31);
    MulOneToOne(Rotl(Wrap(a + Mul(w, PRIME2)), 31), Rotl(Wrap(b + Mul(w, PRIME2)), 31));
    MulOneToOne(Rotl(Wrap(w + Mul(a, PRIME2)), 31), Rotl(Wrap(w + Mul(b, PRIME2)), 31));
  }

  lemma AvalancheOneToOne(a: U64, b: U64)
    requires a != b
    ensures Avalanche(a) != Avalanche(b)
  {
    hide Mul, Xor, ShiftRight;
    MixOneToOne(a, b, 33);
    MulOneToOne(Xor(a, ShiftRight(a, 33)), Xor(b, ShiftRight(b, 33)));
    var a1, b1 := Mul(Xor(a, ShiftRight(a, 33)), PRIME2), Mul(Xor(b, ShiftRight(b, 33)), PRIME2);
    MixOneToOne(a1, b1, 29);
    MulOneToOne(Xor(a1, ShiftRight(a1, 29)), Xor(b1, ShiftRight(b1, 29)));
    MixOneToOne(Mul(Xor(a1, ShiftRight(a1, 29)), PRIME3), Mul(Xor(b1, ShiftRight(b1, 29)), PRIME3), 32);
  }

  /** Rotating, multiplying and adding. */
  lemma TurnOneToOne(a: U64, b: U64, n: nat, c: U64)
    requires a != b
    ensures Wrap(Mul(Rotl(a, n), PRIME1) + c) != Wrap(Mul(Rotl(b, n), PRIME1) + c)
    ensures Wrap(Mul(Rotl(a, n), PRIME2) + c) != Wrap(Mul(Rotl(b, n), PRIME2) + c)
    ensures Mul(Rotl(a, n), PRIME1) != Mul(Rotl(b, n), PRIME1)
  {
    hide Mul, Rotl, Wrap;
    RotlOneToOne(a, b, n);
    MulOneToOne(Rotl(a, n), Rotl(b, n));
    AddOneToOne(Mul(Rotl(a, n), PRIME1), Mul(Rotl(b, n), PRIME1), c);
    AddOneToOne(Mul(Rotl(a, n), PRIME2), Mul(Rotl(b, n), PRIME2), c);
  }

  lemma Process8OneToOne(a: U64, b: U64, w: U64)
    requires a != b
    ensures Process8(a, w) != Process8(b, w) && Process8(w, a) != Process8(w, b)
  {
    hide Mul, Rotl, Wrap, Xor, Round;
    RoundOneToOne(a, b, 0);
    XorOneToOne(a, b, Round(0, w));
    XorOneToOne(Round(0, a), Round(0, b), w);
    TurnOneToOne(Xor(a, Round(0, w)), Xor(b, Round(0, w)), 27, PRIME4);
    TurnOneToOne(Xor(w, Round(0, a)), Xor(w, Round(0, b)), 27, PRIME4);
  }

  lemma Process4Hash(a: U64, b: U64, w: U32)
    requires a != b
    ensures Process4(a, w) != Process4(b, w)
  {
    hide Mul, Rotl, Wrap, Xor;
    XorOneToOne(a, b, Mul(w, PRIME1));
    TurnOneToOne(Xor(a, Mul(w, PRIME1)), Xor(b, Mul(w, PRIME1)), 23, PRIME3);
  }

  lemma Process4Word(h: U64, a: U32, b: U32)
    requires a != b
    ensures Process4(h, a) != Process4(h, b)
  {
    hide Mul, Rotl, Wrap, Xor;
    MulOneToOne(a, b);
    XorOneToOne(Mul(a, PRIME1), Mul(b, PRIME1), h);
    TurnOneToOne(Xor(h, Mul(a, PRIME1)), Xor(h, Mul(b, PRIME1)), 23, PRIME3);
  }

  lemma Process1Hash(a: U64, b: U64, c: Byte)
    requires a != b
    ensures Process1(a, c) != Process1(b, c)
  {
    hide Mul, Rotl, Wrap, Xor;
    XorOneToOne(a, b, Mul(c, PRIME5));
    TurnOneToOne(Xor(a, Mul(c, PRIME5)), Xor(b, Mul(c, PRIME5)), 11, 0);
  }

  lemma Process1Byte(h: U64, a: Byte, b: Byte)
    requires a != b
    ensures Process1(h, a) != Process1(h, b)
  {
    hide Mul, Rotl, Wrap, Xor;
    MulOneToOne(a, b);
    XorOneToOne(Mul(a, PRIME5), Mul(b, PRIME5), h);
    TurnOneToOne(Xor(h, Mul(a, PRIME5)), Xor(h, Mul(b, PRIME5)), 11, 0);
  }

  // ---- The tail.

  lemma FinishUnfolds(h: U64, s: seq<Byte>)
    ensures |s| >= 8 ==> Finish(h, s) == Finish(Process8(h, Read64(s, 0)), s[8..])
    ensures 4 <= |s| < 8 ==> Finish(h, s) == Finish(Process4(h, Read32(s, 0)), s[4..])
    ensures 1 <= |s| < 4 ==> Finish(h, s) == Finish(Process1(h, s[0]), s[1..])
    ensures |s| == 0 ==> Finish(h, s) == Avalanche(h)
  {
    hide Process8, Process4, Process1, Avalanche, Read64, Read32;
  }

  lemma {:induction false} FinishOneToOne(a: U64, b: U64, s: seq<Byte>)
    requires a != b
    ensures Finish(a, s) != Finish(b, s)
    decreases |s|
  {
    hide Process8, Process4, Process1, Avalanche, Read64, Read32, Finish;
    FinishUnfolds(a, s);
    FinishUnfolds(b, s);
    if |s| >= 8 {
      Process8OneToOne(a, b, Read64(s, 0));
      FinishOneToOne(Process8(a, Read64(s, 0)), Process8(b, Read64(s, 0)), s[8..]);
    } else if |s| >= 4 {
      Process4Hash(a, b, Read32(s, 0));
      FinishOneToOne(Process4(a, Read32(s, 0)), Process4(b, Read32(s, 0)), s[4..]);
    } else if |s| >= 1 {
      Process1Hash(a, b, s[0]);
      FinishOneToOne(Process1(a, s[0]), Process1(b, s[0]), s[1..]);
    } else {
      AvalancheOneToOne(a, b);
    }
  }

  /** A long word of the tail, the word behind the long words, or one of the last bytes. */
  predicate OnePart(p: nat, n: nat, size: nat) {
    || (n == 8 && p % 8 == 0)
    || (n == 4 && p == size - size % 8 && size % 8 >= 4)
    || (n == 1 && p >= size - size % 4)
  }

  lemma LongWordsDiffer(s: seq<Byte>, t: seq<Byte>, p: nat)
    requires M.DifferAt(s, t, p, 8)
    ensures Read64(s, p) != Read64(t, p)
  {
    hide M.DifferAt;
    M.DifferInside(s, t, p, 8);
    hide Read64, Read32;
    if Read64(s, p) == Read64(t, p) {
      BothHalves(s, t, p);
      FourBack(s, t, p);
      FourBack(s, t, p + 4);
      NotDiffer(s, t, p);
    }
  }

  lemma BothHalves(s: seq<Byte>, t: seq<Byte>, p: nat)
    requires p + 8 <= |s| == |t| && Read64(s, p) == Read64(t, p)
    ensures Read32(s, p) == Read32(t, p) && Read32(s, p + 4) == Read32(t, p + 4)
  {
    hide Read32;
  }

  lemma FourBack(s: seq<Byte>, t: seq<Byte>, p: nat)
    requires p + 4 <= |s| == |t| && Read32(s, p) == Read32(t, p)
    ensures s[p] == t[p] && s[p + 1] == t[p + 1] && s[p + 2] == t[p + 2] && s[p + 3] == t[p + 3]
  {
    M.FourBytes(s[p], s[p + 1], s[p + 2], s[p + 3], t[p], t[p + 1], t[p + 2], t[p + 3]);
  }

  lemma NotDiffer(s: seq<Byte>, t: seq<Byte>, p: nat)
    requires p + 8 <= |s| == |t|
    requires s[p] == t[p] && s[p + 1] == t[p + 1] && s[p + 2] == t[p + 2] && s[p + 3] == t[p + 3]
    requires s[p + 4] == t[p + 4] && s[p + 5] == t[p + 5] && s[p + 6] == t[p + 6] && s[p + 7] == t[p + 7]
    ensures !M.DifferAt(s, t, p, 8)
  {
    assert s[p..p + 8] == t[p..p + 8];
  }

  lemma LongWordSame(s: seq<Byte>, t: seq<Byte>, p: nat, n: nat, q: nat)
    requires M.DifferAt(s, t, p, n) && q + 8 <= |s| && (q + 8 <= p || p + n <= q)
    ensures Read64(s, q) == Read64(t, q)
  {
    hide Read32;
    M.WordSame(s, t, p, n, q);
    M.WordSame(s, t, p, n, q + 4);
  }

  lemma PartLater(p: nat, n: nat, size: nat, d: nat)
    requires OnePart(p, n, size) && p + n <= size && d <= p && d % 8 == 0
    ensures OnePart(p - d, n, size - d)
  {
    var k := d / 8;
    SameMods(size, d, k);
    SameMods(p, d, k);
  }

  lemma SameMods(m: nat, d: nat, k: nat)
    requires d == 8 * k && d <= m
    ensures (m - d) % 8 == m % 8 && (m - d) % 4 == m % 4
  {
    Bits.QuotientIs(m - d, 8, m / 8 - k, m % 8);
    Bits.QuotientIs(m - d, 4, m / 4 - 2 * k, m % 4);
  }

  lemma {:induction false} FinishDiffers(h: U64, s: seq<Byte>, t: seq<Byte>, p: nat, n: nat)
    requires M.DifferAt(s, t, p, n) && OnePart(p, n, |s|)
    ensures Finish(h, s) != Finish(h, t)
    decreases |s|
  {
    hide Process8, Process4, Process1, Avalanche, Read64, Read32, Finish, M.DifferAt;
    M.DifferInside(s, t, p, n);
    FinishUnfolds(h, s);
    FinishUnfolds(h, t);
    if |s| >= 8 {
      if p == 0 {
        LongWordsDiffer(s, t, 0);
        M.DifferFirst(s, t, 8);
        Process8OneToOne(Read64(s, 0), Read64(t, 0), h);
        FinishOneToOne(Process8(h, Read64(s, 0)), Process8(h, Read64(t, 0)), s[8..]);
      } else {
        PartBehind(p, n, |s|);
        LongWordSame(s, t, p, n, 0);
        M.DifferLater(s, t, p, n, 8);
        PartLater(p, n, |s|, 8);
        FinishDiffers(Process8(h, Read64(s, 0)), s[8..], t[8..], p - 8, n);
      }
    } else {
      FinishShort(h, s, t, p, n);
    }
  }

  lemma PartBehind(p: nat, n: nat, size: nat)
    requires OnePart(p, n, size) && size >= 8 && p > 0
    ensures p >= 8
  {
  }

  lemma FinishShort(h: U64, s: seq<Byte>, t: seq<Byte>, p: nat, n: nat)
    requires M.DifferAt(s, t, p, n) && OnePart(p, n, |s|) && |s| < 8
    ensures Finish(h, s) != Finish(h, t)
  {
    hide Process8, Process4, Process1, Avalanche, Read64, Read32, Finish, M.DifferAt;
    M.DifferInside(s, t, p, n);
    FinishUnfolds(h, s);
    FinishUnfolds(h, t);
    if |s| < 4 {
      FinishBytes(h, s, t, p);
    } else if p == 0 {
      M.WordsDiffer(s, t, 0);
      M.DifferFirst(s, t, 4);
      Process4Word(h, Read32(s, 0), Read32(t, 0));
      FinishOneToOne(Process4(h, Read32(s, 0)), Process4(h, Read32(t, 0)), s[4..]);
    } else {
      M.WordSame(s, t, p, n, 0);
      M.DifferLater(s, t, p, n, 4);
      FinishBytes(Process4(h, Read32(s, 0)), s[4..], t[4..], p - 4);
    }
  }

  lemma {:induction false} FinishBytes(h: U64, s: seq<Byte>, t: seq<Byte>, p: nat)
    requires M.DifferAt(s, t, p, 1) && |s| < 4
    ensures Finish(h, s) != Finish(h, t)
    decreases |s|
  {
    hide Process8, Process4, Process1, Avalanche, Read64, Read32, Finish, M.DifferAt;
    M.DifferInside(s, t, p, 1);
    FinishUnfolds(h, s);
    FinishUnfolds(h, t);
    if p == 0 {
      M.DifferFirst(s, t, 1);
      M.DifferByte(s, t);
      Process1Byte(h, s[0], t[0]);
      FinishOneToOne(Process1(h, s[0]), Process1(h, t[0]), s[1..]);
    } else {
      M.SameFirst(s, t, p, 1);
      M.DifferLater(s, t, p, 1, 1);
      FinishBytes(Process1(h, s[0]), s[1..], t[1..], p - 1);
    }
  }

  // ---- The stripes.

  /** Exactly one lane differs. */
  predicate OneLane(v: Lanes, w: Lanes) {
    || (v.v1 != w.v1 && v.v2 == w.v2 && v.v3 == w.v3 && v.v4 == w.v4)
    || (v.v1 == w.v1 && v.v2 != w.v2 && v.v3 == w.v3 && v.v4 == w.v4)
    || (v.v1 == w.v1 && v.v2 == w.v2 && v.v3 != w.v3 && v.v4 == w.v4)
    || (v.v1 == w.v1 && v.v2 == w.v2 && v.v3 == w.v3 && v.v4 != w.v4)
  }

  lemma StripeOneLane(v: Lanes, w: Lanes, s: seq<Byte>, t: seq<Byte>, p: nat)
    requires OneLane(v, w) && p + 32 <= |s| == |t|
    requires forall q: nat | p <= q <= p + 24 :: Read64(s, q) == Read64(t, q)
    ensures OneLane(Stripe(v, s, p), Stripe(w, t, p))
  {
    hide Round, Read64;
    if v.v1 != w.v1 { RoundOneToOne(v.v1, w.v1, Read64(s, p)); }
    if v.v2 != w.v2 { RoundOneToOne(v.v2, w.v2, Read64(s, p + 8)); }
    if v.v3 != w.v3 { RoundOneToOne(v.v3, w.v3, Read64(s, p + 16)); }
    if v.v4 != w.v4 { RoundOneToOne(v.v4, w.v4, Read64(s, p + 24)); }
  }

  lemma StripeDiffers(v: Lanes, s: seq<Byte>, t: seq<Byte>, p: nat, q: nat)
    requires M.DifferAt(s, t, q, 8) && p <= q && p + 32 <= |s| && (q == p || q == p + 8 || q == p + 16 || q == p + 24)
    ensures OneLane(Stripe(v, s, p), Stripe(v, t, p))
  {
    hide Round, Read64;
    LongWordsDiffer(s, t, q);
    if q != p { LongWordSame(s, t, q, 8, p); }
    if q != p + 8 { LongWordSame(s, t, q, 8, p + 8); }
    if q != p + 16 { LongWordSame(s, t, q, 8, p + 16); }
    if q != p + 24 { LongWordSame(s, t, q, 8, p + 24); }
    var a, b := Read64(s, q), Read64(t, q);
    RoundOneToOne(a, b, v.v1);
    RoundOneToOne(a, b, v.v2);
    RoundOneToOne(a, b, v.v3);
    RoundOneToOne(a, b, v.v4);
  }

  lemma {:induction false} StripesOneLane(v: Lanes, w: Lanes, s: seq<Byte>, t: seq<Byte>, p: nat, q: nat)
    requires OneLane(v, w) && M.DifferAt(s, t, q, 8) && q + 8 <= p
    ensures OneLane(Stripes(v, s, p), Stripes(w, t, p))
    decreases |s| - p
  {
    hide Stripe, OneLane, Read64;
    if p + 32 <= |s| {
      forall k: nat | p <= k <= p + 24 ensures Read64(s, k) == Read64(t, k) {
        LongWordSame(s, t, q, 8, k);
      }
      StripeOneLane(v, w, s, t, p);
      StripesOneLane(Stripe(v, s, p), Stripe(w, t, p), s, t, p + 32, q);
    }
  }

  lemma StripeSame(v: Lanes, s: seq<Byte>, t: seq<Byte>, p: nat, q: nat, n: nat)
    requires M.DifferAt(s, t, q, n) && p + 32 <= |s| && p + 32 <= q
    ensures Stripe(v, s, p) == Stripe(v, t, p)
  {
    hide Round, Read64;
    LongWordSame(s, t, q, n, p);
    LongWordSame(s, t, q, n, p + 8);
    LongWordSame(s, t, q, n, p + 16);
    LongWordSame(s, t, q, n, p + 24);
  }

  /** A long word of the stripes changes exactly one lane, whatever follows. */
  lemma {:induction false} StripesDiffer(v: Lanes, s: seq<Byte>, t: seq<Byte>, p: nat, q: nat)
    requires M.DifferAt(s, t, q, 8) && p % 32 == 0 && q % 8 == 0 && p <= q && p <= |s| && q < Remainder(s, p)
    ensures OneLane(Stripes(v, s, p), Stripes(v, t, p))
    decreases |s| - p
  {
    hide Stripe, OneLane;
    if q < p + 32 {
      StripeDiffers(v, s, t, p, q);
      StripesOneLane(Stripe(v, s, p), Stripe(v, t, p), s, t, p + 32, q);
    } else {
      StripeSame(v, s, t, p, q, 8);
      StripesDiffer(Stripe(v, s, p), s, t, p + 32, q);
    }
  }

  lemma {:induction false} StripesSame(v: Lanes, s: seq<Byte>, t: seq<Byte>, p: nat, q: nat, n: nat)
    requires M.DifferAt(s, t, q, n) && p <= |s| && Remainder(s, p) <= q
    ensures Stripes(v, s, p) == Stripes(v, t, p)
    decreases |s| - p
  {
    hide Stripe;
    if p + 32 <= |s| {
      StripeSame(v, s, t, p, q, n);
      StripesSame(Stripe(v, s, p), s, t, p + 32, q, n);
    }
  }

  lemma {:induction false} SameRemainder(s: seq<Byte>, t: seq<Byte>, p: nat)
    requires |s| == |t| && p <= |s|
    ensures Remainder(s, p) == Remainder(t, p)
    decreases |s| - p
  {
    if p + 32 <= |s| {
      SameRemainder(s, t, p + 32);
    }
  }

  // ---- The hash.

  function Head(s: seq<Byte>, seed: U64): U64 {
    if |s| >= 32 then Merge(Stripes(Start(seed), s, 0)) else Wrap(seed + PRIME5)
  }

  lemma HashIs(s: seq<Byte>, seed: U64)
    ensures Hash(s, seed) == Finish(Wrap(Head(s, seed) + |s|), s[Remainder(s, 0)..])
  {
    hide Stripes, Finish, Merge, Start, Wrap;
  }

  lemma HeadSame(s: seq<Byte>, t: seq<Byte>, p: nat, n: nat, seed: U64)
    requires M.DifferAt(s, t, p, n) && Remainder(s, 0) <= p
    ensures Head(s, seed) == Head(t, seed)
  {
    hide Stripe, Merge, Start, Wrap;
    StripesSame(Start(seed), s, t, 0, p, n);
  }

  /** Two inputs of one length that differ in one word or byte behind the stripes have different hashes, whatever
      the seed: shorter ones than 32 bytes wherever they differ. */
  lemma HashDiffers(s: seq<Byte>, t: seq<Byte>, p: nat, n: nat, seed: U64)
    requires M.DifferAt(s, t, p, n) && OnePart(p, n, |s|) && p >= Remainder(s, 0)
    ensures Hash(s, seed) != Hash(t, seed)
  {
    hide Hash, Head, Finish, Remainder, Wrap, M.DifferAt, OnePart;
    var r := Remainder(s, 0);
    RemainderWhole(s);
    M.DifferInside(s, t, p, n);
    SameRemainder(s, t, 0);
    HashIs(s, seed);
    HashIs(t, seed);
    HeadSame(s, t, p, n, seed);
    TailDiffers(Wrap(Head(s, seed) + |s|), s, t, p, n, r);
  }

  lemma TailDiffers(h: U64, s: seq<Byte>, t: seq<Byte>, p: nat, n: nat, r: nat)
    requires M.DifferAt(s, t, p, n) && OnePart(p, n, |s|) && r <= p && r % 8 == 0 && p + n <= |s| == |t|
    ensures Finish(h, s[r..]) != Finish(h, t[r..])
  {
    hide Finish, M.DifferAt, OnePart;
    M.DifferLater(s, t, p, n, r);
    PartLater(p, n, |s|, r);
    FinishDiffers(h, s[r..], t[r..], p - r, n);
  }

  lemma RemainderWhole(s: seq<Byte>)
    ensures Remainder(s, 0) % 8 == 0
  {
    var r := Remainder(s, 0);
    assert r == 8 * (4 * (r / 32));
  }

  /** So changing any one byte behind the stripes changes the hash. */
  lemma ByteMatters(s: seq<Byte>, p: nat, b: Byte, seed: U64)
    requires Remainder(s, 0) <= p < |s| && b != s[p]
    ensures Hash(s[p := b], seed) != Hash(s, seed)
  {
    hide Hash, Remainder, OnePart;
    RemainderWhole(s);
    var t := s[p := b];
    var q, n := PartOf(p, |s|, Remainder(s, 0));
    assert s[q..q + n][p - q] == s[p] && t[q..q + n][p - q] == b;
    assert M.DifferAt(s, t, q, n);
    HashDiffers(s, t, q, n, seed);
  }

  /** The part with position p, behind the last stripe. */
  lemma PartOf(p: nat, size: nat, r: nat) returns (q: nat, n: nat)
    requires r <= p < size && r % 8 == 0
    ensures r <= q <= p < q + n <= size && OnePart(q, n, size)
  {
    if p < size - size % 8 {
      q, n := p - p % 8, 8;
    } else if p < size - size % 4 {
      q, n := size - size % 8, 4;
    } else {
      q, n := p, 1;
    }
  }
}
