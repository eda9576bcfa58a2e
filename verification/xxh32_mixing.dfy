/** XXH32 loses no difference: every step is one-to-one in what it mixes in, so that inputs that differ in one
    word, or in one byte, have different hashes. And some values of it. */
module Xxh32Mixing {
  import Bits
  import opened Bytes
  import opened Xxh32

  // ---- The steps are one-to-one.

  /** The primes are odd, so multiplying by them can be undone. */
  lemma Inverses(a: U32)
    ensures Mul(Mul(a, PRIME1), 244002641) == a && Mul(Mul(a, PRIME2), 3066638151) == a
    ensures Mul(Mul(a, PRIME3), 2828982549) == a && Mul(Mul(a, PRIME4), 2701016015) == a
    ensures Mul(Mul(a, PRIME5), 2923004241) == a
  {
    Bits.MulBack(a, PRIME1, 244002641, 0x1_0000_0000, 150801925);
    Bits.MulBack(a, PRIME2, 3066638151, 0x1_0000_0000, 1604247758);
    Bits.MulBack(a, PRIME3, 2828982549, 0x1_0000_0000, 2151551417);
    Bits.MulBack(a, PRIME4, 2701016015, 0x1_0000_0000, 420258189);
    Bits.MulBack(a, PRIME5, 2923004241, 0x1_0000_0000, 255049472);
  }

  lemma MulOneToOne(a: U32, b: U32)
    requires a != b
    ensures Mul(a, PRIME1) != Mul(b, PRIME1) && Mul(a, PRIME2) != Mul(b, PRIME2) && Mul(a, PRIME3) != Mul(b, PRIME3)
    ensures Mul(a, PRIME4) != Mul(b, PRIME4) && Mul(a, PRIME5) != Mul(b, PRIME5)
  {
    hide Mul;
    Inverses(a);
    Inverses(b);
  }

  lemma AddOneToOne(a: U32, b: U32, c: int)
    requires a != b
    ensures Wrap(a + c) != Wrap(b + c) && Wrap(c + a) != Wrap(c + b)
  {
  }

  lemma RotlOneToOne(a: U32, b: U32, n: nat)
    requires a != b
    ensures Rotl(a, n) != Rotl(b, n)
  {
    if Rotl(a, n) == Rotl(b, n) {
      Bits.RotlOneToOne(a, b, n, 0x1_0000_0000);
    }
  }

  lemma MixOneToOne(a: U32, b: U32, n: nat)
    requires a != b && n > 0
    ensures Xor(a, ShiftRight(a, n)) != Xor(b, ShiftRight(b, n))
  {
    if Xor(a, ShiftRight(a, n)) == Xor(b, ShiftRight(b, n)) {
      Bits.ShiftMixes(a, b, n);
    }
  }

  lemma RoundOneToOne(a: U32, b: U32, w: U32)
    requires a != b
    ensures Round(a, w) != Round(b, w) && Round(w, a) != Round(w, b)
  {
    hide Mul, Rotl, Wrap;
    MulOneToOne(a, b);
    AddOneToOne(a, b, Mul(w, PRIME2));
    AddOneToOne(Mul(a, PRIME2), Mul(b, PRIME2), w);
    RotlOneToOne(Wrap(a + Mul(w, PRIME2)), Wrap(b + Mul(w, PRIME2)), 13);
    RotlOneToOne(Wrap(w + Mul(a, PRIME2)), Wrap(w + Mul(b, PRIME2)), 13);
    MulOneToOne(Rotl(Wrap(a + Mul(w, PRIME2)), 13), Rotl(Wrap(b + Mul(w, PRIME2)), 13));
    MulOneToOne(Rotl(Wrap(w + Mul(a, PRIME2)), 13), Rotl(Wrap(w + Mul(b, PRIME2)), 13));
  }

  lemma AvalancheOneToOne(a: U32, b: U32)
    requires a != b
    ensures Avalanche(a) != Avalanche(b)
  {
    hide Mul, Xor, ShiftRight;
    MixOneToOne(a, b, 15);
    MulOneToOne(Xor(a, ShiftRight(a, 15)), Xor(b, ShiftRight(b, 15)));
    var a1, b1 := Mul(Xor(a, ShiftRight(a, 15)), PRIME2), Mul(Xor(b, ShiftRight(b, 15)), PRIME2);
    MixOneToOne(a1, b1, 13);
    MulOneToOne(Xor(a1, ShiftRight(a1, 13)), Xor(b1, ShiftRight(b1, 13)));
    MixOneToOne(Mul(Xor(a1, ShiftRight(a1, 13)), PRIME3), Mul(Xor(b1, ShiftRight(b1, 13)), PRIME3), 16);
  }

  /** A word or byte of the tail, in the hash so far and in what is mixed in. */
  lemma Process4OneToOne(a: U32, b: U32, w: U32)
    requires a != b
    ensures Process4(a, w) != Process4(b, w) && Process4(w, a) != Process4(w, b)
  {
    hide Mul, Rotl, Wrap;
    MulOneToOne(a, b);
    AddOneToOne(a, b, Mul(w, PRIME3));
    AddOneToOne(Mul(a, PRIME3), Mul(b, PRIME3), w);
    RotlOneToOne(Wrap(a + Mul(w, PRIME3)), Wrap(b + Mul(w, PRIME3)), 17);
    RotlOneToOne(Wrap(w + Mul(a, PRIME3)), Wrap(w + Mul(b, PRIME3)), 17);
    MulOneToOne(Rotl(Wrap(a + Mul(w, PRIME3)), 17), Rotl(Wrap(b + Mul(w, PRIME3)), 17));
    MulOneToOne(Rotl(Wrap(w + Mul(a, PRIME3)), 17), Rotl(Wrap(w + Mul(b, PRIME3)), 17));
  }

  lemma Process1Hash(a: U32, b: U32, c: Byte)
    requires a != b
    ensures Process1(a, c) != Process1(b, c)
  {
    hide Mul, Rotl, Wrap;
    AddOneToOne(a, b, Mul(c, PRIME5));
    RotlOneToOne(Wrap(a + Mul(c, PRIME5)), Wrap(b + Mul(c, PRIME5)), 11);
    MulOneToOne(Rotl(Wrap(a + Mul(c, PRIME5)), 11), Rotl(Wrap(b + Mul(c, PRIME5)), 11));
  }

  lemma Process1Byte(h: U32, a: Byte, b: Byte)
    requires a != b
    ensures Process1(h, a) != Process1(h, b)
  {
    hide Mul, Rotl, Wrap;
    MulOneToOne(a, b);
    AddOneToOne(Mul(a, PRIME5), Mul(b, PRIME5), h);
    RotlOneToOne(Wrap(h + Mul(a, PRIME5)), Wrap(h + Mul(b, PRIME5)), 11);
    MulOneToOne(Rotl(Wrap(h + Mul(a, PRIME5)), 11), Rotl(Wrap(h + Mul(b, PRIME5)), 11));
  }

  // ---- The tail.

  lemma {:induction false} FinishOneToOne(a: U32, b: U32, s: seq<Byte>)
    requires a != b
    ensures Finish(a, s) != Finish(b, s)
    decreases |s|
  {
    hide Process4, Process1, Avalanche, Read32;
    if |s| >= 4 {
      Process4OneToOne(a, b, Read32(s, 0));
      FinishOneToOne(Process4(a, Read32(s, 0)), Process4(b, Read32(s, 0)), s[4..]);
    } else if |s| >= 1 {
      Process1Hash(a, b, s[0]);
      FinishOneToOne(Process1(a, s[0]), Process1(b, s[0]), s[1..]);
    } else {
      AvalancheOneToOne(a, b);
    }
  }

  /** Two strings of the same length that differ in the n bytes at p, and nowhere else. */
  ghost predicate DifferAt(s: seq<Byte>, t: seq<Byte>, p: nat, n: nat) {
    && p + n <= |s| == |t| && s[p..p + n] != t[p..p + n]
    && (forall k :: 0 <= k < p ==> s[k] == t[k]) && (forall k :: p + n <= k < |s| ==> s[k] == t[k])
  }

  lemma WordsDiffer(s: seq<Byte>, t: seq<Byte>, p: nat)
    requires DifferAt(s, t, p, 4)
    ensures Read32(s, p) != Read32(t, p)
  {
    hide DifferAt;
    DifferInside(s, t, p, 4);
    if Read32(s, p) == Read32(t, p) {
      FourBytes(s[p], s[p + 1], s[p + 2], s[p + 3], t[p], t[p + 1], t[p + 2], t[p + 3]);
      FourSame(s, t, p);
      NotDiffer(s, t, p);
    }
  }

  lemma NotDiffer(s: seq<Byte>, t: seq<Byte>, p: nat)
    requires p + 4 <= |s| == |t| && s[p..p + 4] == t[p..p + 4]
    ensures !DifferAt(s, t, p, 4)
  {
  }

  lemma FourBytes(a: Byte, b: Byte, c: Byte, d: Byte, w: Byte, x: Byte, y: Byte, z: Byte)
    requires a + 0x100 * b + 0x1_0000 * c + 0x100_0000 * d == w + 0x100 * x + 0x1_0000 * y + 0x100_0000 * z
    ensures a == w && b == x && c == y && d == z
  {
    OneByte(a, b + 256 * (c + 256 * d), w, x + 256 * (y + 256 * z));
    OneByte(b, c + 256 * d, x, y + 256 * z);
    OneByte(c, d, y, z);
  }

  lemma OneByte(a: Byte, x: int, b: Byte, y: int)
    requires a + 256 * x == b + 256 * y
    ensures a == b && x == y
  {
  }

  lemma FourSame(s: seq<Byte>, t: seq<Byte>, p: nat)
    requires p + 4 <= |s| == |t|
    requires s[p] == t[p] && s[p + 1] == t[p + 1] && s[p + 2] == t[p + 2] && s[p + 3] == t[p + 3]
    ensures s[p..p + 4] == t[p..p + 4]
  {
  }

  lemma DifferInside(s: seq<Byte>, t: seq<Byte>, p: nat, n: nat)
    requires DifferAt(s, t, p, n)
    ensures |s| == |t| && p + n <= |s|
  {
  }

  lemma DifferBefore(s: seq<Byte>, t: seq<Byte>, p: nat, n: nat, r: nat)
    requires DifferAt(s, t, p, n) && p + n <= r <= |s|
    ensures s[r..] == t[r..]
  {
  }

  lemma DifferByte(s: seq<Byte>, t: seq<Byte>)
    requires DifferAt(s, t, 0, 1)
    ensures |s| == |t| >= 1 && s[0] != t[0]
  {
    assert s[0..1] == [s[0]] && t[0..1] == [t[0]];
  }

  lemma SameFirst(s: seq<Byte>, t: seq<Byte>, p: nat, n: nat)
    requires DifferAt(s, t, p, n) && p > 0
    ensures |s| == |t| >= 1 && s[0] == t[0]
  {
  }

  lemma FinishUnfolds(h: U32, s: seq<Byte>)
    ensures |s| >= 4 ==> Finish(h, s) == Finish(Process4(h, Read32(s, 0)), s[4..])
    ensures 1 <= |s| < 4 ==> Finish(h, s) == Finish(Process1(h, s[0]), s[1..])
  {
    hide Process4, Process1, Avalanche, Read32;
  }

  lemma WordSame(s: seq<Byte>, t: seq<Byte>, p: nat, n: nat, q: nat)
    requires DifferAt(s, t, p, n) && q + 4 <= |s| && (q + 4 <= p || p + n <= q)
    ensures Read32(s, q) == Read32(t, q)
  {
  }

  lemma DifferLater(s: seq<Byte>, t: seq<Byte>, p: nat, n: nat, d: nat)
    requires DifferAt(s, t, p, n) && d <= p
    ensures DifferAt(s[d..], t[d..], p - d, n)
  {
    assert s[d..][p - d..p - d + n] == s[p..p + n] && t[d..][p - d..p - d + n] == t[p..p + n];
  }

  lemma DifferFirst(s: seq<Byte>, t: seq<Byte>, n: nat)
    requires DifferAt(s, t, 0, n)
    ensures s[n..] == t[n..]
  {
  }

  /** In a whole word, or in one of the bytes behind the last word. */
  lemma {:induction false} FinishDiffers(h: U32, s: seq<Byte>, t: seq<Byte>, p: nat, n: nat)
    requires DifferAt(s, t, p, n) && ((n == 4 && p % 4 == 0) || (n == 1 && p >= |s| - |s| % 4))
    ensures Finish(h, s) != Finish(h, t)
    decreases |s|
  {
    hide Process4, Process1, Avalanche, Read32, Finish, DifferAt;
    DifferInside(s, t, p, n);
    FinishUnfolds(h, s);
    FinishUnfolds(h, t);
    if |s| >= 4 {
      if p == 0 {
        WordsDiffer(s, t, 0);
        DifferFirst(s, t, 4);
        Process4OneToOne(Read32(s, 0), Read32(t, 0), h);
        FinishOneToOne(Process4(h, Read32(s, 0)), Process4(h, Read32(t, 0)), s[4..]);
      } else {
        WordSame(s, t, p, n, 0);
        DifferLater(s, t, p, n, 4);
        FinishDiffers(Process4(h, Read32(s, 0)), s[4..], t[4..], p - 4, n);
      }
    } else if p == 0 {
      DifferFirst(s, t, 1);
      DifferByte(s, t);
      Process1Byte(h, s[0], t[0]);
      FinishOneToOne(Process1(h, s[0]), Process1(h, t[0]), s[1..]);
    } else {
      SameFirst(s, t, p, n);
      DifferLater(s, t, p, n, 1);
      FinishDiffers(Process1(h, s[0]), s[1..], t[1..], p - 1, n);
    }
  }

  // ---- The stripes.

  /** Exactly one lane differs. */
  predicate OneLane(v: Lanes, w: Lanes) {
    || (v.v1 != w.v1 && v.v2 == w.v2 && v.v3 == w.v3 && v.v4 == w.v4)
    || (v.v1 == w.v1 && v.v2 != w.v2 && v.v3 == w.v3 && v.v4 == w.v4)
    || (v.v1 == w.v1 && v.v2 == w.v2 && v.v3 != w.v3 && v.v4 == w.v4)
    || (v.v1 == w.v1 && v.v2 == w.v2 && v.v3 == w.v3 && v.v4 != w.v4)
  }

  lemma MergeOneLane(v: Lanes, w: Lanes)
    requires OneLane(v, w)
    ensures Merge(v) != Merge(w)
  {
    hide Rotl;
    if v.v1 != w.v1 { RotlOneToOne(v.v1, w.v1, 1); }
    if v.v2 != w.v2 { RotlOneToOne(v.v2, w.v2, 7); }
    if v.v3 != w.v3 { RotlOneToOne(v.v3, w.v3, 12); }
    if v.v4 != w.v4 { RotlOneToOne(v.v4, w.v4, 18); }
  }

  lemma StripeOneLane(v: Lanes, w: Lanes, s: seq<Byte>, t: seq<Byte>, p: nat)
    requires OneLane(v, w) && p + 16 <= |s| == |t|
    requires forall q: nat | p <= q <= p + 12 :: Read32(s, q) == Read32(t, q)
    ensures OneLane(Stripe(v, s, p), Stripe(w, t, p))
  {
    hide Round, Read32;
    if v.v1 != w.v1 { RoundOneToOne(v.v1, w.v1, Read32(s, p)); }
    if v.v2 != w.v2 { RoundOneToOne(v.v2, w.v2, Read32(s, p + 4)); }
    if v.v3 != w.v3 { RoundOneToOne(v.v3, w.v3, Read32(s, p + 8)); }
    if v.v4 != w.v4 { RoundOneToOne(v.v4, w.v4, Read32(s, p + 12)); }
  }

  /** The stripe with the difference changes the lane of its word. */
  lemma StripeDiffers(v: Lanes, s: seq<Byte>, t: seq<Byte>, p: nat, q: nat)
    requires DifferAt(s, t, q, 4) && p <= q && p + 16 <= |s| && (q == p || q == p + 4 || q == p + 8 || q == p + 12)
    ensures OneLane(Stripe(v, s, p), Stripe(v, t, p))
  {
    hide Round, Read32;
    WordsDiffer(s, t, q);
    if q != p { WordSame(s, t, q, 4, p); }
    if q != p + 4 { WordSame(s, t, q, 4, p + 4); }
    if q != p + 8 { WordSame(s, t, q, 4, p + 8); }
    if q != p + 12 { WordSame(s, t, q, 4, p + 12); }
    var a, b := Read32(s, q), Read32(t, q);
    RoundOneToOne(a, b, v.v1);
    RoundOneToOne(a, b, v.v2);
    RoundOneToOne(a, b, v.v3);
    RoundOneToOne(a, b, v.v4);
  }

  lemma {:induction false} StripesOneLane(v: Lanes, w: Lanes, s: seq<Byte>, t: seq<Byte>, p: nat, q: nat)
    requires OneLane(v, w) && DifferAt(s, t, q, 4) && q + 4 <= p
    ensures OneLane(Stripes(v, s, p), Stripes(w, t, p))
    decreases |s| - p
  {
    hide Stripe, OneLane;
    if p + 16 <= |s| {
      forall k: nat | p <= k <= p + 12 ensures Read32(s, k) == Read32(t, k) {
        WordSame(s, t, q, 4, k);
      }
      StripeOneLane(v, w, s, t, p);
      StripesOneLane(Stripe(v, s, p), Stripe(w, t, p), s, t, p + 16, q);
    }
  }

  lemma StripeSame(v: Lanes, s: seq<Byte>, t: seq<Byte>, p: nat, q: nat, n: nat)
    requires DifferAt(s, t, q, n) && p + 16 <= |s| && p + 16 <= q
    ensures Stripe(v, s, p) == Stripe(v, t, p)
  {
    hide Round;
  }

  lemma {:induction false} StripesDiffer(v: Lanes, s: seq<Byte>, t: seq<Byte>, p: nat, q: nat)
    requires DifferAt(s, t, q, 4) && p % 16 == 0 && q % 4 == 0 && p <= q && p <= |s| && q < Remainder(s, p)
    ensures OneLane(Stripes(v, s, p), Stripes(v, t, p))
    decreases |s| - p
  {
    hide Stripe, OneLane;
    if q < p + 16 {
      StripeDiffers(v, s, t, p, q);
      StripesOneLane(Stripe(v, s, p), Stripe(v, t, p), s, t, p + 16, q);
    } else {
      StripeSame(v, s, t, p, q, 4);
      StripesDiffer(Stripe(v, s, p), s, t, p + 16, q);
    }
  }

  lemma {:induction false} StripesSame(v: Lanes, s: seq<Byte>, t: seq<Byte>, p: nat, q: nat, n: nat)
    requires DifferAt(s, t, q, n) && p <= |s| && Remainder(s, p) <= q
    ensures Stripes(v, s, p) == Stripes(v, t, p)
    decreases |s| - p
  {
    hide Stripe;
    if p + 16 <= |s| {
      StripeSame(v, s, t, p, q, n);
      StripesSame(Stripe(v, s, p), s, t, p + 16, q, n);
    }
  }

  lemma {:induction false} SameRemainder(s: seq<Byte>, t: seq<Byte>, p: nat)
    requires |s| == |t| && p <= |s|
    ensures Remainder(s, p) == Remainder(t, p)
    decreases |s| - p
  {
    if p + 16 <= |s| {
      SameRemainder(s, t, p + 16);
    }
  }

  // ---- The hash.

  /** What the stripes leave of the input, or the seed alone if there are none. */
  function Head(s: seq<Byte>, seed: U32): U32 {
    if |s| >= 16 then Merge(Stripes(Start(seed), s, 0)) else Wrap(seed + PRIME5)
  }

  lemma HashIs(s: seq<Byte>, seed: U32)
    ensures Hash(s, seed) == Finish(Wrap(Head(s, seed) + |s|), s[Remainder(s, 0)..])
  {
    hide Stripes, Finish, Merge, Start, Wrap;
  }

  lemma HeadSame(s: seq<Byte>, t: seq<Byte>, p: nat, n: nat, seed: U32)
    requires DifferAt(s, t, p, n) && Remainder(s, 0) <= p
    ensures Head(s, seed) == Head(t, seed)
  {
    hide Stripe, Merge, Start, Wrap;
    StripesSame(Start(seed), s, t, 0, p, n);
  }

  lemma HeadDiffers(s: seq<Byte>, t: seq<Byte>, p: nat, seed: U32)
    requires DifferAt(s, t, p, 4) && p % 4 == 0 && p < Remainder(s, 0) && |s| >= 16
    ensures Head(s, seed) != Head(t, seed)
  {
    hide Stripes, Merge, Start, Wrap, OneLane;
    StripesDiffer(Start(seed), s, t, 0, p);
    MergeOneLane(Stripes(Start(seed), s, 0), Stripes(Start(seed), t, 0));
  }

  /** Two inputs of one length that differ in one word, or in one byte behind the last word, have different
      hashes, whatever the seed. */
  lemma HashDiffers(s: seq<Byte>, t: seq<Byte>, p: nat, n: nat, seed: U32)
    requires DifferAt(s, t, p, n) && ((n == 4 && p % 4 == 0) || (n == 1 && p >= |s| - |s| % 4))
    ensures Hash(s, seed) != Hash(t, seed)
  {
    hide Hash, Head, Finish, Remainder, Wrap, DifferAt;
    DifferInside(s, t, p, n);
    SameRemainder(s, t, 0);
    HashIs(s, seed);
    HashIs(t, seed);
    var r := Remainder(s, 0);
    RemainderLow(s, r, p, n);
    if p >= r {
      HeadSame(s, t, p, n, seed);
      DifferLater(s, t, p, n, r);
      FinishDiffers(Wrap(Head(s, seed) + |s|), s[r..], t[r..], p - r, n);
    } else {
      HeadDiffers(s, t, p, seed);
      AddOneToOne(Head(s, seed), Head(t, seed), |s|);
      DifferBefore(s, t, p, n, r);
      FinishOneToOne(Wrap(Head(s, seed) + |s|), Wrap(Head(t, seed) + |s|), s[r..]);
    }
  }

  lemma RemainderLow(s: seq<Byte>, r: nat, p: nat, n: nat)
    requires r == Remainder(s, 0) && p + n <= |s|
    requires (n == 4 && p % 4 == 0) || (n == 1 && p >= |s| - |s| % 4)
    ensures p < r ==> |s| >= 16 && n == 4 && p + 4 <= r
    ensures p >= r ==> (n == 4 && (p - r) % 4 == 0) || (n == 1 && p - r >= (|s| - r) - (|s| - r) % 4)
  {
    var k := r / 16;
    assert r == 16 * k;
    hide Remainder;
    ModLess(|s|, r, 4 * k);
    if n == 4 {
      FourSteps(p, r, 4 * k);
    }
  }

  lemma FourSteps(p: nat, r: nat, k: nat)
    requires r == 4 * k && p % 4 == 0
    ensures (p < r ==> p + 4 <= r) && (p >= r ==> (p - r) % 4 == 0)
  {
    var j := p / 4;
    assert p == 4 * j;
    if p >= r {
      assert p - r == 4 * (j - k);
    }
  }

  lemma ModLess(m: nat, r: nat, k: nat)
    requires r == 4 * k && r <= m
    ensures (m - r) % 4 == m % 4 && m - m % 4 >= r
  {
  }

  /** So changing any one byte changes the hash. */
  lemma ByteMatters(s: seq<Byte>, p: nat, b: Byte, seed: U32)
    requires p < |s| && b != s[p]
    ensures Hash(s[p := b], seed) != Hash(s, seed)
  {
    hide Hash;
    var t := s[p := b];
    if p < |s| - |s| % 4 {
      var q := p - p % 4;
      assert q + 4 <= |s| by { WordInside(p, |s|); }
      assert s[q..q + 4][p - q] == s[p] && t[q..q + 4][p - q] == b;
      assert DifferAt(s, t, q, 4);
      HashDiffers(s, t, q, 4, seed);
    } else {
      assert s[p..p + 1][0] == s[p] && t[p..p + 1][0] == b;
      assert DifferAt(s, t, p, 1);
      HashDiffers(s, t, p, 1, seed);
    }
  }

  lemma WordInside(p: nat, n: nat)
    requires p < n - n % 4
    ensures p - p % 4 + 4 <= n
  {
  }
}
