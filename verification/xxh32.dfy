/** XXH32: the one-shot hash, and the resumable one that hashes the same bytes in pieces. */
module Xxh32 {
  import Bits
  import opened Bytes

  const PRIME1: U32 := 2654435761
  const PRIME2: U32 := 2246822519
  const PRIME3: U32 := 3266489917
  const PRIME4: U32 := 668265263
  const PRIME5: U32 := 374761393

  // ---- Arithmetic on 32 bits.

  function Wrap(x: int): U32 { x % 0x1_0000_0000 }

  function Mul(a: U32, b: U32): U32 { Wrap(a * b) }

  function Xor(a: U32, b: U32): U32 {
    Bits.XorBelow32(a, b);
    Bits.Xor(a, b)
  }

  function ShiftRight(a: U32, n: nat): U32 { Bits.ShiftRight(a, n) }

  function Rotl(a: U32, n: nat): U32 { Bits.Rotl(a, n, 0x1_0000_0000) }

  // ---- The hash.

  datatype Lanes = Lanes(v1: U32, v2: U32, v3: U32, v4: U32)

  function Round(seed: U32, input: U32): U32 {
    Mul(Rotl(Wrap(seed + Mul(input, PRIME2)), 13), PRIME1)
  }

  function Avalanche(h0: U32): U32 {
    var h1 := Mul(Xor(h0, ShiftRight(h0, 15)), PRIME2);
    var h2 := Mul(Xor(h1, ShiftRight(h1, 13)), PRIME3);
    Xor(h2, ShiftRight(h2, 16))
  }

  function Start(seed: U32): Lanes {
    Lanes(Wrap(seed + PRIME1 + PRIME2), Wrap(seed + PRIME2), seed, Wrap(seed - PRIME1))
  }

  /** One stripe of sixteen bytes. */
  function Stripe(v: Lanes, s: seq<Byte>, p: nat): Lanes
    requires p + 16 <= |s|
  {
    Lanes(Round(v.v1, Read32(s, p)), Round(v.v2, Read32(s, p + 4)),
          Round(v.v3, Read32(s, p + 8)), Round(v.v4, Read32(s, p + 12)))
  }

  /** All the whole stripes from p on. */
  function Stripes(v: Lanes, s: seq<Byte>, p: nat): Lanes
    decreases |s| - p
  {
    if p + 16 > |s| then v else Stripes(Stripe(v, s, p), s, p + 16)
  }

  /** Where the last, partial stripe begins. */
  function Remainder(s: seq<Byte>, p: nat): (r: nat)
    requires p <= |s|
    ensures p <= r <= |s| < r + 16
    ensures r % 16 == p % 16
    decreases |s| - p
  {
    if p + 16 > |s| then p else Remainder(s, p + 16)
  }

  function Process4(h: U32, w: U32): U32 { Mul(Rotl(Wrap(h + Mul(w, PRIME3)), 17), PRIME4) }

  function Process1(h: U32, b: Byte): U32 { Mul(Rotl(Wrap(h + Mul(b, PRIME5)), 11), PRIME1) }

  /** The bytes behind the last stripe: words while there are any, then bytes. */
  function Finish(h: U32, s: seq<Byte>): U32
    decreases |s|
  {
    if |s| >= 4 then Finish(Process4(h, Read32(s, 0)), s[4..])
    else if |s| >= 1 then Finish(Process1(h, s[0]), s[1..])
    else Avalanche(h)
  }

  function Merge(v: Lanes): U32 {
    Wrap(Rotl(v.v1, 1) + Rotl(v.v2, 7) + Rotl(v.v3, 12) + Rotl(v.v4, 18))
  }

  /** XXH32 of a byte string, as its definition reads. */
  function Hash(s: seq<Byte>, seed: U32): U32 {
    var h := if |s| >= 16 then Merge(Stripes(Start(seed), s, 0)) else Wrap(seed + PRIME5);
    Finish(Wrap(h + |s|), s[Remainder(s, 0)..])
  }

  // ---- One-shot.

  /** XXH32_finalize: the switch on len & 15 with its fall-through labels grouped. */
  method Finalize(h0: U32, s: seq<Byte>, p0: nat, len: nat) returns (h: U32)
    requires p0 + len % 16 <= |s|
    ensures h == Finish(h0, s[p0..p0 + len % 16])
  {
    hide Process4, Process1, Avalanche, Read32, Finish;
    h := h0;
    var p, r := p0, len % 16;
    ghost var end := p0 + r;
    if r >= 12 {
      FinishWord(h, s, p, end);
      h := Process4(h, Read32(s, p));
      p := p + 4;
    }
    if r >= 8 {
      FinishWord(h, s, p, end);
      h := Process4(h, Read32(s, p));
      p := p + 4;
    }
    if r >= 4 {
      FinishWord(h, s, p, end);
      h := Process4(h, Read32(s, p));
      p := p + 4;
    }
    h := FinalizeBytes(h, s, p, r % 4);
  }

  method FinalizeBytes(h0: U32, s: seq<Byte>, p0: nat, n: nat) returns (h: U32)
    requires n < 4 && p0 + n <= |s|
    ensures h == Finish(h0, s[p0..p0 + n])
  {
    hide Process4, Process1, Avalanche, Read32, Finish;
    h := h0;
    var p := p0;
    ghost var end := p0 + n;
    if n >= 3 {
      FinishByte(h, s, p, end);
      h := Process1(h, s[p]);
      p := p + 1;
    }
    if n >= 2 {
      FinishByte(h, s, p, end);
      h := Process1(h, s[p]);
      p := p + 1;
    }
    if n >= 1 {
      FinishByte(h, s, p, end);
      h := Process1(h, s[p]);
      p := p + 1;
    }
    FinishEmpty(h, s, p);
    h := Avalanche(h);
  }

  lemma FinishWord(h: U32, s: seq<Byte>, p: nat, end: nat)
    requires p + 4 <= end <= |s|
    ensures Finish(h, s[p..end]) == Finish(Process4(h, Read32(s, p)), s[p + 4..end])
  {
    hide Process4, Process1, Avalanche;
    assert s[p..end][4..] == s[p + 4..end];
    assert Read32(s[p..end], 0) == Read32(s, p);
  }

  lemma FinishByte(h: U32, s: seq<Byte>, p: nat, end: nat)
    requires p < end <= |s| && end < p + 4
    ensures Finish(h, s[p..end]) == Finish(Process1(h, s[p]), s[p + 1..end])
  {
    hide Process4, Process1, Avalanche, Read32;
    assert s[p..end][1..] == s[p + 1..end];
  }

  lemma FinishEmpty(h: U32, s: seq<Byte>, p: nat)
    requires p <= |s|
    ensures Finish(h, s[p..p]) == Avalanche(h)
  {
    hide Process4, Process1, Avalanche, Read32;
    assert s[p..p] == [];
  }

  /** XXH32. */
  method OneShot(s: seq<Byte>, seed: U32) returns (h: U32)
    ensures h == Hash(s, seed)
  {
    hide Finish, Stripe, Start, Merge, Wrap;
    var p := 0;
    if |s| >= 16 {
      var v := Start(seed);
      p, v := ConsumeStripes(v, s, p);
      h := Merge(v);
    } else {
      h := Wrap(seed + PRIME5);
    }
    RemainderIs(s, p);
    h := Wrap(h + |s|);
    h := Finalize(h, s, p, |s|);
    assert s[p..p + |s| % 16] == s[p..];
  }

  lemma RemainderIs(s: seq<Byte>, p: nat)
    requires p % 16 == 0 && p <= |s| < p + 16
    ensures p == Remainder(s, 0) && p + |s| % 16 == |s|
  {
  }

  /** The loop over whole stripes, at least one. */
  method ConsumeStripes(v0: Lanes, s: seq<Byte>, p0: nat) returns (p: nat, v: Lanes)
    requires p0 + 16 <= |s|
    ensures v == Stripes(v0, s, p0) && p == Remainder(s, p0)
  {
    hide Stripe;
    v := Stripe(v0, s, p0);
    p := p0 + 16;
    while p + 16 <= |s|
      invariant p <= |s|
      invariant Stripes(v0, s, p0) == Stripes(v, s, p)
      invariant Remainder(s, p0) == Remainder(s, p)
    {
      v := Stripe(v, s, p);
      p := p + 16;
    }
  }

  // ---- In pieces.

  /** The stripes of a longer string: those of the first part, then those that begin in its
      remainder. */
  lemma {:induction false} StripesJoin(v: Lanes, a: seq<Byte>, b: seq<Byte>, p: nat)
    requires p <= |a|
    ensures var r := Remainder(a, p);
            Stripes(v, a + b, p) == Stripes(Stripes(v, a, p), a[r..] + b, 0)
            && Remainder(a + b, p) == r + Remainder(a[r..] + b, 0)
    decreases |a| - p
  {
    hide Stripe;
    if p + 16 <= |a| {
      StripePrefix(v, a, b, p);
      StripesJoin(Stripe(v, a, p), a, b, p + 16);
    } else {
      StripesShift(v, a + b, a[p..] + b, p, 0);
    }
  }

  lemma StripePrefix(v: Lanes, a: seq<Byte>, b: seq<Byte>, p: nat)
    requires p + 16 <= |a|
    ensures Stripe(v, a + b, p) == Stripe(v, a, p)
  {
    hide Round;
    forall q: nat | q + 4 <= |a| ensures Read32(a + b, q) == Read32(a, q) {
    }
  }

  /** Stripes depend on the bytes alone, not on where they stand. */
  lemma {:induction false} StripesShift(v: Lanes, s: seq<Byte>, t: seq<Byte>, k: nat, p: nat)
    requires k <= |s| && t == s[k..] && p <= |t|
    ensures Stripes(v, s, k + p) == Stripes(v, t, p)
    ensures Remainder(s, k + p) == k + Remainder(t, p)
    decreases |t| - p
  {
    hide Stripe;
    if p + 16 <= |t| {
      StripeShift(v, s, t, k, p);
      StripesShift(Stripe(v, t, p), s, t, k, p + 16);
    }
  }

  lemma StripeShift(v: Lanes, s: seq<Byte>, t: seq<Byte>, k: nat, p: nat)
    requires k <= |s| && t == s[k..] && p + 16 <= |t|
    ensures Stripe(v, s, k + p) == Stripe(v, t, p)
  {
    hide Round;
  }

  /** The stripes of a string with its first stripe taken from a buffer. */
  lemma Refill(v: Lanes, t: seq<Byte>, input: seq<Byte>, p: nat)
    requires 16 <= |t| && p <= |input| && t[16..] == input[p..]
    ensures Stripes(v, t, 0) == Stripes(Stripe(v, t, 0), input, p)
    ensures |t| - Remainder(t, 0) == |input| - Remainder(input, p)
  {
    hide Stripe;
    var v1 := Stripe(v, t, 0);
    StripesShift(v1, t, t[16..], 16, 0);
    StripesShift(v1, input, t[16..], p, 0);
  }

  /** What is left over after the stripes of a string. */
  ghost function Leftover(s: seq<Byte>): seq<Byte> { s[Remainder(s, 0)..] }

  lemma LeftoverJoin(v: Lanes, a: seq<Byte>, b: seq<Byte>)
    ensures Stripes(v, a + b, 0) == Stripes(Stripes(v, a, 0), Leftover(a) + b, 0)
    ensures Leftover(a + b) == Leftover(Leftover(a) + b)
  {
    hide Stripes, Remainder;
    StripesJoin(v, a, b, 0);
    var r := Remainder(a, 0);
    assert (a + b)[r..] == a[r..] + b;
  }

  lemma Tails(t: seq<Byte>, input: seq<Byte>, p: nat)
    requires 16 <= |t| && p <= |input| && t[16..] == input[p..]
    requires |t| - Remainder(t, 0) == |input| - Remainder(input, p)
    ensures Leftover(t) == input[Remainder(input, p)..]
  {
    var r, q := Remainder(t, 0), Remainder(input, p);
    assert r >= 16;
    assert t[r..] == t[16..][r - 16..];
    assert input[q..] == input[p..][q - p..];
  }

  /** XXH32_state_t. The bytes hashed so far and the seed are ghosts. */
  class State {
    var totalLen: U32
    var largeLen: bool
    var v: Lanes
    const mem: array<Byte>
    var memsize: nat
    ghost var seed: U32
    ghost var data: seq<Byte>

    ghost predicate Valid()
      reads this, mem
    {
      && mem.Length == 16 && memsize < 16
      && totalLen == Wrap(|data|)
      && (largeLen <==> |data| >= 16)
      && v == Stripes(Start(seed), data, 0)
      && mem[..memsize] == Leftover(data)
    }

    /** XXH32_reset. */
    constructor (seed: U32)
      ensures Valid() && fresh(mem) && this.seed == seed && data == []
    {
      totalLen, largeLen, memsize := 0, false, 0;
      v := Start(seed);
      mem := new Byte[16](_ => 0);
      this.seed, data := seed, [];
      new;
      assert mem[..0] == [];
    }

    /** Bytes copied into the buffer from position at. */
    method Fill(input: seq<Byte>, from: nat, n: nat, at: nat)
      requires from + n <= |input| && at + n <= mem.Length
      modifies mem
      ensures mem[..at + n] == old(mem[..at]) + input[from..from + n]
    {
      var i := 0;
      while i < n
        invariant 0 <= i <= n
        invariant forall k :: 0 <= k < at ==> mem[k] == old(mem[k])
        invariant forall k :: at <= k < at + i ==> mem[k] == input[from + k - at]
      {
        mem[at + i] := input[from + i];
        i := i + 1;
      }
    }

    /** The part of XXH32_update that moves bytes: into the buffer, or through it and the input. */
    method Absorb(input: seq<Byte>)
      requires mem.Length == 16 && memsize < 16
      modifies this`v, this`memsize, mem
      ensures memsize < 16
      ensures v == Stripes(old(v), old(mem[..memsize]) + input, 0)
      ensures mem[..memsize] == Leftover(old(mem[..memsize]) + input)
    {
      hide Stripes, Leftover, Remainder, Stripe;
      ghost var t := mem[..memsize] + input;
      ghost var v0 := v;
      if memsize + |input| < 16 {
        Fill(input, 0, |input|, memsize);
        memsize := memsize + |input|;
        ShortString(v, t);
        assert mem[..memsize] == t by { assert input[0..|input|] == input; }
        return;
      }
      var p := EmptyBuffer(input);
      if p + 16 <= |input| {
        p, v := ConsumeStripes(v, input, p);
      } else {
        AtRemainder(v, input, p);
      }
      if p < |input| {
        Fill(input, p, |input| - p, 0);
        memsize := |input| - p;
      }
      assert mem[..memsize] == input[p..];
    }

    /** A partly filled buffer is filled up and hashed. */
    method EmptyBuffer(input: seq<Byte>) returns (p: nat)
      requires mem.Length == 16 && memsize < 16 <= memsize + |input|
      modifies this`v, this`memsize, mem
      ensures memsize == 0 && p <= |input|
      ensures var t := old(mem[..memsize]) + input;
              Stripes(old(v), t, 0) == Stripes(v, input, p) && Leftover(t) == input[Remainder(input, p)..]
    {
      hide Stripes, Leftover, Remainder, Stripe;
      ghost var t := mem[..memsize] + input;
      if memsize == 0 {
        assert t == input;
        AtStart(t);
        return 0;
      }
      ghost var v0 := v;
      p := 16 - memsize;
      Fill(input, 0, p, memsize);
      assert mem[..] == t[..16];
      v := Stripe(v, mem[..], 0);
      StripePrefix(v0, t[..16], t[16..], 0);
      assert t[..16] + t[16..] == t;
      memsize := 0;
      assert t[16..] == input[p..];
      Refill(v0, t, input, p);
      Tails(t, input, p);
    }

    /** XXH32_update. */
    method Update(input: seq<Byte>)
      requires Valid()
      modifies this`totalLen, this`largeLen, this`v, this`memsize, this`data, mem
      ensures Valid() && data == old(data) + input
    {
      hide Stripes, Leftover, Remainder, Start, Wrap;
      LeftoverJoin(Start(seed), data, input);
      Counted(|data|, |input|, totalLen, largeLen);
      totalLen := Wrap(totalLen + |input|);
      largeLen := largeLen || |input| >= 16 || totalLen >= 16;
      data := data + input;
      Absorb(input);
    }

    /** XXH32_digest. */
    method Digest() returns (h: U32)
      requires Valid()
      ensures h == Hash(data, seed)
    {
      hide Stripes, Leftover, Remainder, Start, Wrap, Finish, Merge, Hash;
      DigestIs(data, seed, v, totalLen, largeLen);
      if largeLen {
        h := Merge(v);
      } else {
        h := Wrap(v.v3 + PRIME5);
      }
      h := Wrap(h + totalLen);
      h := Finalize(h, mem[..], 0, memsize);
      assert mem[..][0..memsize] == mem[..memsize];
    }
  }

  /** The length wraps at 32 bits; the flag remembers that sixteen bytes were seen. */
  lemma Counted(n: nat, k: nat, total: U32, large: bool)
    requires total == Wrap(n) && (large <==> n >= 16)
    ensures Wrap(total + k) == Wrap(n + k)
    ensures (large || k >= 16 || Wrap(total + k) >= 16) <==> n + k >= 16
  {
  }

  lemma AddWrapped(h: U32, n: nat)
    ensures Wrap(h + Wrap(n)) == Wrap(h + n)
  {
  }

  lemma StartSeed(seed: U32)
    ensures Start(seed).v3 == seed
  {
  }

  lemma DigestIs(data: seq<Byte>, seed: U32, v: Lanes, total: U32, large: bool)
    requires v == Stripes(Start(seed), data, 0) && total == Wrap(|data|) && (large <==> |data| >= 16)
    ensures Hash(data, seed) ==
            Finish(Wrap((if large then Merge(v) else Wrap(v.v3 + PRIME5)) + total), Leftover(data))
  {
    hide Stripes, Leftover, Remainder, Finish, Merge, Wrap, Start, Rotl, Round, Stripe;
    StartSeed(seed);
    AtStart(data);
    if |data| < 16 {
      ShortString(Start(seed), data);
      AddWrapped(Wrap(seed + PRIME5), |data|);
    } else {
      AddWrapped(Merge(v), |data|);
    }
  }

  lemma ShortString(v: Lanes, t: seq<Byte>)
    requires |t| < 16
    ensures Stripes(v, t, 0) == v && Leftover(t) == t
  {
  }

  lemma AtStart(t: seq<Byte>)
    ensures Leftover(t) == t[Remainder(t, 0)..]
  {
  }

  lemma AtRemainder(v: Lanes, s: seq<Byte>, p: nat)
    requires p <= |s| < p + 16
    ensures Stripes(v, s, p) == v && Remainder(s, p) == p
  {
  }

  function Concat(chunks: seq<seq<Byte>>): seq<Byte> {
    if chunks == [] then [] else chunks[0] + Concat(chunks[1..])
  }

  lemma {:induction false} ConcatSnoc(chunks: seq<seq<Byte>>, i: nat)
    requires i < |chunks|
    ensures Concat(chunks[..i + 1]) == Concat(chunks[..i]) + chunks[i]
    decreases i
  {
    if i > 0 {
      ConcatSnoc(chunks[1..], i - 1);
      assert chunks[..i + 1][1..] == chunks[1..][..i];
      assert chunks[..i][1..] == chunks[1..][..i - 1];
    } else {
      assert chunks[..1] == [chunks[0]];
      assert Concat([chunks[0]][1..]) == [];
    }
  }

  /** However the input is cut into pieces, the resumable hash is the hash of the whole. */
  method HashInPieces(chunks: seq<seq<Byte>>, seed: U32) returns (h: U32, whole: U32)
    ensures h == whole == Hash(Concat(chunks), seed)
  {
    hide Hash, Concat, Stripes, Remainder, Leftover, Start, Wrap;
    var state := new State(seed);
    var all := [];
    var i := 0;
    assert Concat(chunks[..0]) == [] by { ConcatNone(chunks); }
    while i < |chunks|
      invariant 0 <= i <= |chunks| && fresh(state) && fresh(state.mem)
      invariant state.Valid() && state.seed == seed && state.data == all == Concat(chunks[..i])
    {
      ConcatSnoc(chunks, i);
      state.Update(chunks[i]);
      all := all + chunks[i];
      i := i + 1;
    }
    assert chunks[..i] == chunks;
    h := state.Digest();
    whole := OneShot(all, seed);
  }

  lemma ConcatNone(chunks: seq<seq<Byte>>)
    ensures Concat(chunks[..0]) == []
  {
  }
}
