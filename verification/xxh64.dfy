/** XXH64: as XXH32, on words of 64 bits and stripes of 32 bytes. */
module Xxh64 {
  import Bits
  import opened Bytes
  import X = Xxh32

  const PRIME1: U64 := 11400714785074694791
  const PRIME2: U64 := 14029467366897019727
  const PRIME3: U64 := 1609587929392839161
  const PRIME4: U64 := 9650029242287828579
  const PRIME5: U64 := 2870177450012600261

  // ---- Arithmetic on 64 bits.

  function Wrap(x: int): U64 { x % 0x1_0000_0000_0000_0000 }

  function Mul(a: U64, b: U64): U64 { Wrap(a * b) }

  function Xor(a: U64, b: U64): U64 {
    Bits.XorBelow64(a, b);
    Bits.Xor(a, b)
  }

  function ShiftRight(a: U64, n: nat): U64 { Bits.ShiftRight(a, n) }

  function Rotl(a: U64, n: nat): U64 { Bits.Rotl(a, n, 0x1_0000_0000_0000_0000) }

  // ---- The hash.

  datatype Lanes = Lanes(v1: U64, v2: U64, v3: U64, v4: U64)

  function Round(acc: U64, input: U64): U64 {
    Mul(Rotl(Wrap(acc + Mul(input, PRIME2)), 31), PRIME1)
  }

  function MergeRound(acc: U64, val: U64): U64 {
    Wrap(Mul(Xor(acc, Round(0, val)), PRIME1) + PRIME4)
  }

  function Avalanche(h0: U64): U64 {
    var h1 := Mul(Xor(h0, ShiftRight(h0, 33)), PRIME2);
    var h2 := Mul(Xor(h1, ShiftRight(h1, 29)), PRIME3);
    Xor(h2, ShiftRight(h2, 32))
  }

  function Start(seed: U64): Lanes {
    Lanes(Wrap(seed + PRIME1 + PRIME2), Wrap(seed + PRIME2), seed, Wrap(seed - PRIME1))
  }

  /** One stripe of 32 bytes. */
  function Stripe(v: Lanes, s: seq<Byte>, p: nat): Lanes
    requires p + 32 <= |s|
  {
    Lanes(Round(v.v1, Read64(s, p)), Round(v.v2, Read64(s, p + 8)),
          Round(v.v3, Read64(s, p + 16)), Round(v.v4, Read64(s, p + 24)))
  }

  /** All the whole stripes from p on. */
  function Stripes(v: Lanes, s: seq<Byte>, p: nat): Lanes
    decreases |s| - p
  {
    if p + 32 > |s| then v else Stripes(Stripe(v, s, p), s, p + 32)
  }

  /** Where the last, partial stripe begins. */
  function Remainder(s: seq<Byte>, p: nat): (r: nat)
    requires p <= |s|
    ensures p <= r <= |s| < r + 32
    ensures r % 32 == p % 32
    decreases |s| - p
  {
    if p + 32 > |s| then p else Remainder(s, p + 32)
  }

  function Process8(h: U64, w: U64): U64 { Wrap(Mul(Rotl(Xor(h, Round(0, w)), 27), PRIME1) + PRIME4) }

  function Process4(h: U64, w: U32): U64 { Wrap(Mul(Rotl(Xor(h, Mul(w, PRIME1)), 23), PRIME2) + PRIME3) }

  function Process1(h: U64, b: Byte): U64 { Mul(Rotl(Xor(h, Mul(b, PRIME5)), 11), PRIME1) }

  /** The bytes behind the last stripe: long words while there are any, a word, then bytes. */
  function Finish(h: U64, s: seq<Byte>): U64
    decreases |s|
  {
    if |s| >= 8 then Finish(Process8(h, Read64(s, 0)), s[8..])
    else if |s| >= 4 then Finish(Process4(h, Read32(s, 0)), s[4..])
    else if |s| >= 1 then Finish(Process1(h, s[0]), s[1..])
    else Avalanche(h)
  }

  function Merge(v: Lanes): U64 {
    var h := Wrap(Rotl(v.v1, 1) + Rotl(v.v2, 7) + Rotl(v.v3, 12) + Rotl(v.v4, 18));
    MergeRound(MergeRound(MergeRound(MergeRound(h, v.v1), v.v2), v.v3), v.v4)
  }

  /** XXH64 of a byte string, as its definition reads. */
  function Hash(s: seq<Byte>, seed: U64): U64 {
    var h := if |s| >= 32 then Merge(Stripes(Start(seed), s, 0)) else Wrap(seed + PRIME5);
    Finish(Wrap(h + |s|), s[Remainder(s, 0)..])
  }

  // ---- One-shot.

  /** XXH64_finalize: the switch on len & 31 with its fall-through labels grouped. */
  method Finalize(h0: U64, s: seq<Byte>, p0: nat, len: nat) returns (h: U64)
    requires p0 + len % 32 <= |s|
    ensures h == Finish(h0, s[p0..p0 + len % 32])
  {
    hide Process8, Process4, Process1, Avalanche, Read64, Read32, Finish;
    h := h0;
    var p, r := p0, len % 32;
    ghost var end := p0 + r;
    if r >= 24 {
      FinishLong(h, s, p, end);
      h := Process8(h, Read64(s, p));
      p := p + 8;
    }
    if r >= 16 {
      FinishLong(h, s, p, end);
      h := Process8(h, Read64(s, p));
      p := p + 8;
    }
    if r >= 8 {
      FinishLong(h, s, p, end);
      h := Process8(h, Read64(s, p));
      p := p + 8;
    }
    h := FinalizeShort(h, s, p, r % 8);
  }

  method FinalizeShort(h0: U64, s: seq<Byte>, p0: nat, n: nat) returns (h: U64)
    requires n < 8 && p0 + n <= |s|
    ensures h == Finish(h0, s[p0..p0 + n])
  {
    hide Process8, Process4, Process1, Avalanche, Read64, Read32, Finish;
    h := h0;
    var p := p0;
    ghost var end := p0 + n;
    if n >= 4 {
      FinishWord(h, s, p, end);
      h := Process4(h, Read32(s, p));
      p := p + 4;
    }
    if n % 4 >= 3 {
      FinishByte(h, s, p, end);
      h := Process1(h, s[p]);
      p := p + 1;
    }
    if n % 4 >= 2 {
      FinishByte(h, s, p, end);
      h := Process1(h, s[p]);
      p := p + 1;
    }
    if n % 4 >= 1 {
      FinishByte(h, s, p, end);
      h := Process1(h, s[p]);
      p := p + 1;
    }
    FinishEmpty(h, s, p);
    h := Avalanche(h);
  }

  lemma FinishLong(h: U64, s: seq<Byte>, p: nat, end: nat)
    requires p + 8 <= end <= |s|
    ensures Finish(h, s[p..end]) == Finish(Process8(h, Read64(s, p)), s[p + 8..end])
  {
    hide Process8, Process4, Process1, Avalanche;
    assert s[p..end][8..] == s[p + 8..end];
    assert Read64(s[p..end], 0) == Read64(s, p);
  }

  lemma FinishWord(h: U64, s: seq<Byte>, p: nat, end: nat)
    requires p + 4 <= end <= |s| && end < p + 8
    ensures Finish(h, s[p..end]) == Finish(Process4(h, Read32(s, p)), s[p + 4..end])
  {
    hide Process8, Process4, Process1, Avalanche, Read64;
    assert s[p..end][4..] == s[p + 4..end];
    assert Read32(s[p..end], 0) == Read32(s, p);
  }

  lemma FinishByte(h: U64, s: seq<Byte>, p: nat, end: nat)
    requires p < end <= |s| && end < p + 4
    ensures Finish(h, s[p..end]) == Finish(Process1(h, s[p]), s[p + 1..end])
  {
    hide Process8, Process4, Process1, Avalanche, Read64, Read32;
    assert s[p..end][1..] == s[p + 1..end];
  }

  lemma FinishEmpty(h: U64, s: seq<Byte>, p: nat)
    requires p <= |s|
    ensures Finish(h, s[p..p]) == Avalanche(h)
  {
    hide Process8, Process4, Process1, Avalanche, Read64, Read32;
    assert s[p..p] == [];
  }

  /** XXH64. */
  method OneShot(s: seq<Byte>, seed: U64) returns (h: U64)
    ensures h == Hash(s, seed)
  {
    hide Finish, Stripe, Start, Merge, Wrap;
    var p := 0;
    if |s| >= 32 {
      var v := Start(seed);
      p, v := ConsumeStripes(v, s, p);
      h := Merge(v);
    } else {
      h := Wrap(seed + PRIME5);
    }
    RemainderIs(s, p);
    h := Wrap(h + |s|);
    h := Finalize(h, s, p, |s|);
    assert s[p..p + |s| % 32] == s[p..];
  }

  lemma RemainderIs(s: seq<Byte>, p: nat)
    requires p % 32 == 0 && p <= |s| < p + 32
    ensures p == Remainder(s, 0) && p + |s| % 32 == |s|
  {
  }

  /** The loop over whole stripes, at least one. */
  method ConsumeStripes(v0: Lanes, s: seq<Byte>, p0: nat) returns (p: nat, v: Lanes)
    requires p0 + 32 <= |s|
    ensures v == Stripes(v0, s, p0) && p == Remainder(s, p0)
  {
    hide Stripe;
    v := Stripe(v0, s, p0);
    p := p0 + 32;
    while p + 32 <= |s|
      invariant p <= |s|
      invariant Stripes(v0, s, p0) == Stripes(v, s, p)
      invariant Remainder(s, p0) == Remainder(s, p)
    {
      v := Stripe(v, s, p);
      p := p + 32;
    }
  }

  // ---- In pieces.

  /** The stripes of a longer string: those of the first part, then those that begin in its
      remainder. */
  lemma {:induction false} StripesJoin(v: Lanes, a: seq<Byte>, b: seq<Byte>, p: nat)
    requires p <= |a|
    ensures var r := Remainder(a, p);
            Stripes(v, a + b, p) == Stripes(Stripes(v, a, p), a[r..] + b, 0)
            && Remainder(a + b, p) == r + Remainder(a[r..] + b, 0)
    decreases |a| - p
  {
    hide Stripe;
    if p + 32 <= |a| {
      StripePrefix(v, a, b, p);
      StripesJoin(Stripe(v, a, p), a, b, p + 32);
    } else {
      StripesShift(v, a + b, a[p..] + b, p, 0);
    }
  }

  lemma StripePrefix(v: Lanes, a: seq<Byte>, b: seq<Byte>, p: nat)
    requires p + 32 <= |a|
    ensures Stripe(v, a + b, p) == Stripe(v, a, p)
  {
    hide Round;
    forall q: nat | q + 8 <= |a| ensures Read64(a + b, q) == Read64(a, q) {
    }
  }

  /** Stripes depend on the bytes alone, not on where they stand. */
  lemma {:induction false} StripesShift(v: Lanes, s: seq<Byte>, t: seq<Byte>, k: nat, p: nat)
    requires k <= |s| && t == s[k..] && p <= |t|
    ensures Stripes(v, s, k + p) == Stripes(v, t, p)
    ensures Remainder(s, k + p) == k + Remainder(t, p)
    decreases |t| - p
  {
    hide Stripe;
    if p + 32 <= |t| {
      StripeShift(v, s, t, k, p);
      StripesShift(Stripe(v, t, p), s, t, k, p + 32);
    }
  }

  lemma StripeShift(v: Lanes, s: seq<Byte>, t: seq<Byte>, k: nat, p: nat)
    requires k <= |s| && t == s[k..] && p + 32 <= |t|
    ensures Stripe(v, s, k + p) == Stripe(v, t, p)
  {
    hide Round;
  }

  /** The stripes of a string with its first stripe taken from a buffer. */
  lemma Refill(v: Lanes, t: seq<Byte>, input: seq<Byte>, p: nat)
    requires 32 <= |t| && p <= |input| && t[32..] == input[p..]
    ensures Stripes(v, t, 0) == Stripes(Stripe(v, t, 0), input, p)
    ensures |t| - Remainder(t, 0) == |input| - Remainder(input, p)
  {
    hide Stripe;
    var v1 := Stripe(v, t, 0);
    StripesShift(v1, t, t[32..], 32, 0);
    StripesShift(v1, input, t[32..], p, 0);
  }

  /** What is left over after the stripes of a string. */
  ghost function Leftover(s: seq<Byte>): seq<Byte> { s[Remainder(s, 0)..] }

  lemma LeftoverJoin(v: Lanes, a: seq<Byte>, b: seq<Byte>)
    ensures Stripes(v, a + b, 0) == Stripes(Stripes(v, a, 0), Leftover(a) + b, 0)
    ensures Leftover(a + b) == Leftover(Leftover(a) + b)
  {
    hide Stripes, Remainder;
    StripesJoin(v, a, b, 0);
    var r := Remainder(a, 0);
    assert (a + b)[r..] == a[r..] + b;
  }

  lemma Tails(t: seq<Byte>, input: seq<Byte>, p: nat)
    requires 32 <= |t| && p <= |input| && t[32..] == input[p..]
    requires |t| - Remainder(t, 0) == |input| - Remainder(input, p)
    ensures Leftover(t) == input[Remainder(input, p)..]
  {
    var r, q := Remainder(t, 0), Remainder(input, p);
    assert r >= 32;
    assert t[r..] == t[32..][r - 32..];
    assert input[q..] == input[p..][q - p..];
  }

  /** XXH64_state_t. The bytes hashed so far and the seed are ghosts. */
  class State {
    var totalLen: U64
    var v: Lanes
    const mem: array<Byte>
    var memsize: nat
    ghost var seed: U64
    ghost var data: seq<Byte>

    ghost predicate Valid()
      reads this, mem
    {
      && mem.Length == 32 && memsize < 32
      && totalLen == Wrap(|data|)
      && v == Stripes(Start(seed), data, 0)
      && mem[..memsize] == Leftover(data)
    }

    /** XXH64_reset. */
    constructor (seed: U64)
      ensures Valid() && fresh(mem) && this.seed == seed && data == []
    {
      totalLen, memsize := 0, 0;
      v := Start(seed);
      mem := new Byte[32](_ => 0);
      this.seed, data := seed, [];
      new;
      assert mem[..0] == [];
    }

    /** Bytes copied into the buffer from position at. */
    method Fill(input: seq<Byte>, from: nat, n: nat, at: nat)
      requires from + n <= |input| && at + n <= mem.Length
      modifies mem
      ensures mem[..at + n] == old(mem[..at]) + input[from..from + n]
    {
      var i := 0;
      while i < n
        invariant 0 <= i <= n
        invariant forall k :: 0 <= k < at ==> mem[k] == old(mem[k])
        invariant forall k :: at <= k < at + i ==> mem[k] == input[from + k - at]
      {
        mem[at + i] := input[from + i];
        i := i + 1;
      }
    }

    /** The part of XXH64_update that moves bytes: into the buffer, or through it and the input. */
    method Absorb(input: seq<Byte>)
      requires mem.Length == 32 && memsize < 32
      modifies this`v, this`memsize, mem
      ensures memsize < 32
      ensures v == Stripes(old(v), old(mem[..memsize]) + input, 0)
      ensures mem[..memsize] == Leftover(old(mem[..memsize]) + input)
    {
      hide Stripes, Leftover, Remainder, Stripe;
      ghost var t := mem[..memsize] + input;
      ghost var v0 := v;
      if memsize + |input| < 32 {
        Fill(input, 0, |input|, memsize);
        memsize := memsize + |input|;
        ShortString(v, t);
        assert mem[..memsize] == t by { assert input[0..|input|] == input; }
        return;
      }
      var p := EmptyBuffer(input);
      if p + 32 <= |input| {
        p, v := ConsumeStripes(v, input, p);
      } else {
        AtRemainder(v, input, p);
      }
      if p < |input| {
        Fill(input, p, |input| - p, 0);
        memsize := |input| - p;
      }
      assert mem[..memsize] == input[p..];
    }

    /** A partly filled buffer is filled up and hashed. */
    method EmptyBuffer(input: seq<Byte>) returns (p: nat)
      requires mem.Length == 32 && memsize < 32 <= memsize + |input|
      modifies this`v, this`memsize, mem
      ensures memsize == 0 && p <= |input|
      ensures var t := old(mem[..memsize]) + input;
              Stripes(old(v), t, 0) == Stripes(v, input, p) && Leftover(t) == input[Remainder(input, p)..]
    {
      hide Stripes, Leftover, Remainder, Stripe;
      ghost var t := mem[..memsize] + input;
      if memsize == 0 {
        assert t == input;
        AtStart(t);
        return 0;
      }
      ghost var v0 := v;
      p := 32 - memsize;
      Fill(input, 0, p, memsize);
      assert mem[..] == t[..32];
      v := Stripe(v, mem[..], 0);
      StripePrefix(v0, t[..32], t[32..], 0);
      assert t[..32] + t[32..] == t;
      memsize := 0;
      assert t[32..] == input[p..];
      Refill(v0, t, input, p);
      Tails(t, input, p);
    }

    /** XXH64_update. */
    method Update(input: seq<Byte>)
      requires Valid()
      modifies this`totalLen, this`v, this`memsize, this`data, mem
      ensures Valid() && data == old(data) + input
    {
      hide Stripes, Leftover, Remainder, Start, Wrap;
      LeftoverJoin(Start(seed), data, input);
      Counted(|data|, |input|, totalLen);
      totalLen := Wrap(totalLen + |input|);
      data := data + input;
      Absorb(input);
    }

    /** XXH64_digest; the length it keeps has 64 bits. */
    method Digest() returns (h: U64)
      requires Valid()
      ensures |data| < 0x1_0000_0000_0000_0000 ==> h == Hash(data, seed)
    {
      hide Stripes, Leftover, Remainder, Start, Wrap, Finish, Merge, Hash;
      if |data| < 0x1_0000_0000_0000_0000 {
        DigestIs(data, seed, v, totalLen);
      }
      if totalLen >= 32 {
        h := Merge(v);
      } else {
        h := Wrap(v.v3 + PRIME5);
      }
      h := Wrap(h + totalLen);
      LengthMod(data);
      h := Finalize(h, mem[..], 0, totalLen);
      assert mem[..][0..memsize] == mem[..memsize];
    }
  }

  lemma LengthMod(data: seq<Byte>)
    ensures Wrap(|data|) % 32 == |Leftover(data)|
  {
  }

  lemma Counted(n: nat, k: nat, total: U64)
    requires total == Wrap(n)
    ensures Wrap(total + k) == Wrap(n + k)
  {
  }

  lemma AddWrapped(h: U64, n: nat)
    ensures Wrap(h + Wrap(n)) == Wrap(h + n)
  {
  }

  lemma StartSeed(seed: U64)
    ensures Start(seed).v3 == seed
  {
  }

  lemma WrapSmall(n: nat)
    requires n < 0x1_0000_0000_0000_0000
    ensures Wrap(n) == n
  {
  }

  lemma DigestIs(data: seq<Byte>, seed: U64, v: Lanes, total: U64)
    requires v == Stripes(Start(seed), data, 0) && total == Wrap(|data|) && |data| < 0x1_0000_0000_0000_0000
    ensures Hash(data, seed) ==
            Finish(Wrap((if total >= 32 then Merge(v) else Wrap(v.v3 + PRIME5)) + total), Leftover(data))
  {
    hide Stripes, Leftover, Remainder, Finish, Merge, Wrap, Start, Rotl, Round, Stripe;
    StartSeed(seed);
    AtStart(data);
    WrapSmall(|data|);
    if |data| < 32 {
      ShortString(Start(seed), data);
      AddWrapped(Wrap(seed + PRIME5), |data|);
    } else {
      AddWrapped(Merge(v), |data|);
    }
  }

  lemma ShortString(v: Lanes, t: seq<Byte>)
    requires |t| < 32
    ensures Stripes(v, t, 0) == v && Leftover(t) == t
  {
  }

  lemma AtStart(t: seq<Byte>)
    ensures Leftover(t) == t[Remainder(t, 0)..]
  {
  }

  lemma AtRemainder(v: Lanes, s: seq<Byte>, p: nat)
    requires p <= |s| < p + 32
    ensures Stripes(v, s, p) == v && Remainder(s, p) == p
  {
  }

  /** However the input is cut into pieces, the resumable hash is the hash of the whole. */
  method HashInPieces(chunks: seq<seq<Byte>>, seed: U64) returns (h: U64, whole: U64)
    requires |X.Concat(chunks)| < 0x1_0000_0000_0000_0000
    ensures h == whole == Hash(X.Concat(chunks), seed)
  {
    hide Hash, X.Concat, Stripes, Remainder, Leftover, Start, Wrap;
    var state := new State(seed);
    var all := [];
    var i := 0;
    assert X.Concat(chunks[..0]) == [] by { X.ConcatNone(chunks); }
    while i < |chunks|
      invariant 0 <= i <= |chunks| && fresh(state) && fresh(state.mem)
      invariant state.Valid() && state.seed == seed && state.data == all == X.Concat(chunks[..i])
    {
      X.ConcatSnoc(chunks, i);
      state.Update(chunks[i]);
      all := all + chunks[i];
      i := i + 1;
    }
    assert chunks[..i] == chunks;
    h := state.Digest();
    whole := OneShot(all, seed);
  }
}
