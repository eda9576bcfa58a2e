/** Exclusive or, shifts and rotations of machine words, and that they lose nothing. */
module Bits {

  /** Exclusive or, bit by bit. */
  function Xor(a: nat, b: nat): (r: nat)
    decreases a + b
  {
    if a == 0 && b == 0 then 0 else 2 * Xor(a / 2, b / 2) + (a + b) % 2
  }

  function ShiftRight(a: nat, n: nat): (r: nat)
    ensures r <= a
  {
    if n == 0 then a else ShiftRight(a / 2, n - 1)
  }

  /** Rotation to the left by n bits of a word below m, a power of two. */
  function Rotl(a: nat, n: nat, m: nat): (r: nat)
    requires a < m
    ensures r < m
    decreases n
  {
    if n == 0 then a else Rotl(if 2 * a < m then 2 * a else 2 * a + 1 - m, n - 1, m)
  }

  function Pow2(n: nat): nat { if n == 0 then 1 else 2 * Pow2(n - 1) }

  // ---- Exclusive or.

  lemma XorHalf(a: nat, b: nat)
    ensures Xor(a, b) / 2 == Xor(a / 2, b / 2) && Xor(a, b) % 2 == (a + b) % 2
    ensures Xor(a, b) == 2 * Xor(a / 2, b / 2) + (a + b) % 2
  {
  }

  lemma {:induction false} XorBelow(a: nat, b: nat, n: nat)
    requires a < Pow2(n) && b < Pow2(n)
    ensures Xor(a, b) < Pow2(n)
    decreases n
  {
    if n > 0 {
      XorHalf(a, b);
      XorBelow(a / 2, b / 2, n - 1);
    } else {
      XorZero(0);
    }
  }

  lemma {:induction false} XorSame(a: nat)
    ensures Xor(a, a) == 0
    decreases a
  {
    if a > 0 {
      XorSame(a / 2);
      assert (a + a) % 2 == 0;
    }
  }

  lemma {:induction false} XorZero(a: nat)
    ensures Xor(a, 0) == a
    decreases a
  {
    if a > 0 {
      XorZero(a / 2);
    }
  }

  lemma {:induction false} XorCommutes(a: nat, b: nat)
    ensures Xor(a, b) == Xor(b, a)
    decreases a + b
  {
    if a != 0 || b != 0 {
      XorCommutes(a / 2, b / 2);
    }
  }

  /** Two numbers whose exclusive or is 0 are the same. */
  lemma {:induction false} XorNothing(a: nat, b: nat)
    requires Xor(a, b) == 0
    ensures a == b
    decreases a + b
  {
    if a != 0 || b != 0 {
      XorNothing(a / 2, b / 2);
    }
  }

  lemma {:induction false} XorAssociates(a: nat, b: nat, c: nat)
    ensures Xor(Xor(a, b), c) == Xor(a, Xor(b, c))
    decreases a + b + c
  {
    hide Xor;
    if a + b + c > 0 {
      XorAssociates(a / 2, b / 2, c / 2);
      XorHalf(a, b);
      XorHalf(b, c);
      XorHalf(Xor(a, b), c);
      XorHalf(a, Xor(b, c));
      Parity(a, b, c, Xor(a, b), Xor(b, c));
    } else {
      XorZero(0);
    }
  }

  lemma Parity(a: nat, b: nat, c: nat, x: nat, y: nat)
    requires x % 2 == (a + b) % 2 && y % 2 == (b + c) % 2
    ensures (x + c) % 2 == (a + y) % 2
  {
  }

  /** What is mixed in can be taken out again. */
  lemma XorBack(a: nat, b: nat)
    ensures Xor(Xor(a, b), b) == a && Xor(a, Xor(a, b)) == b
  {
    hide Xor;
    XorAssociates(a, b, b);
    XorSame(b);
    XorZero(a);
    XorAssociates(a, a, b);
    XorSame(a);
    XorCommutes(0, b);
    XorZero(b);
  }

  /** Shifting two numbers shifts their exclusive or. */
  lemma {:induction false} XorShifts(a: nat, b: nat, n: nat)
    ensures Xor(ShiftRight(a, n), ShiftRight(b, n)) == ShiftRight(Xor(a, b), n)
    decreases n
  {
    hide Xor;
    if n > 0 {
      XorHalf(a, b);
      XorShifts(a / 2, b / 2, n - 1);
    }
  }

  /** A number mixed with itself, shifted, keeps all it holds. */
  lemma ShiftMixes(a: nat, b: nat, n: nat)
    requires n > 0 && Xor(a, ShiftRight(a, n)) == Xor(b, ShiftRight(b, n))
    ensures a == b
  {
    hide Xor, ShiftRight;
    var s, t := ShiftRight(a, n), ShiftRight(b, n);
    var c := Xor(a, s);
    calc {
      Xor(a, b);
      { XorBack(a, s); XorBack(b, t); }
      Xor(Xor(c, s), Xor(c, t));
      { XorAssociates(c, s, Xor(c, t)); }
      Xor(c, Xor(s, Xor(c, t)));
      { XorAssociates(s, c, t); XorCommutes(s, c); XorAssociates(c, s, t); }
      Xor(c, Xor(c, Xor(s, t)));
      { XorBack(c, Xor(s, t)); }
      Xor(s, t);
      { XorShifts(a, b, n); }
      ShiftRight(Xor(a, b), n);
    }
    ShiftSmaller(Xor(a, b), n);
    XorNothing(a, b);
  }

  lemma ShiftSmaller(d: nat, n: nat)
    requires n > 0 && d == ShiftRight(d, n)
    ensures d == 0
  {
    assert ShiftRight(d / 2, n - 1) <= d / 2;
  }

  // ---- Rotation.

  /** A rotation loses nothing. */
  lemma {:induction false} RotlOneToOne(a: nat, b: nat, n: nat, m: nat)
    requires a < m && b < m && m % 2 == 0 && Rotl(a, n, m) == Rotl(b, n, m)
    ensures a == b
    decreases n
  {
    if n > 0 {
      var a1, b1 := if 2 * a < m then 2 * a else 2 * a + 1 - m, if 2 * b < m then 2 * b else 2 * b + 1 - m;
      RotlOneToOne(a1, b1, n - 1, m);
    }
  }

  // ---- Multiplication.

  lemma QuotientIs(a: int, m: int, d: int, r: int)
    requires m > 0 && a == m * d + r && 0 <= r < m
    ensures a / m == d && a % m == r
  {
    var q, s := a / m, a % m;
    assert a == m * q + s;
    OneQuotient(m, q, s, d, r);
  }

  lemma OneQuotient(m: int, q: int, s: int, d: int, r: int)
    requires m > 0 && m * q + s == m * d + r && 0 <= r < m && 0 <= s < m
    ensures q == d && s == r
  {
    if q > d {
      Scaled(m, d + 1, q);
    } else if q < d {
      Scaled(m, q + 1, d);
    }
  }

  lemma Scaled(m: int, x: int, y: int)
    requires m > 0 && x <= y
    ensures m * x <= m * y && m * x + m == m * (x + 1) && m * x - m == m * (x - 1)
  {
    assert m * (y - x) >= 0;
  }

  /** Multiplication by p modulo m is undone by an inverse q of p. */
  lemma MulBack(a: nat, p: nat, q: nat, m: nat, c: nat)
    requires 0 <= a < m && p * q == 1 + c * m
    ensures a * p % m * q % m == a
  {
    var k, w := a * p / m, a * p % m;
    assert a * p == m * k + w;
    assert w * q == a + (a * c - k * q) * m by {
      assert w * q == (a * p - m * k) * q;
      assert (a * p - m * k) * q == a * (p * q) - k * q * m;
      assert a * (p * q) == a + a * c * m;
    }
    QuotientIs(w * q, m, a * c - k * q, a);
  }

  // ---- Values.

  /** Rotation moves the low bits up and the high bits down. */
  lemma {:induction false} RotlIs(hi: nat, lo: nat, n: nat, p: nat, q: nat, m: nat)
    requires lo < p && hi < q == Pow2(n) && p * q == m
    ensures hi * p + lo < m && Rotl(hi * p + lo, n, m) == lo * q + hi
    decreases n
  {
    hide Rotl;
    PartsBelow(hi, lo, p, q, m);
    if n == 0 {
      assert hi * p == 0;
      RotlNone(lo, m);
    } else {
      var h := Pow2(n - 1);
      var t := if hi < h then 0 else 1;
      var rest: nat := if hi < h then hi else hi - h;
      RotlStep(hi, lo, rest, t, p, h, m);
      RotlOne(hi * p + lo, n, m);
      RotlIs(rest, 2 * lo + t, n - 1, 2 * p, h, m);
      RotlSum(lo, t, h, rest, q, hi);
    }
  }

  lemma RotlNone(a: nat, m: nat)
    requires a < m
    ensures Rotl(a, 0, m) == a
  {
  }

  lemma RotlOne(a: nat, n: nat, m: nat)
    requires a < m && n > 0
    ensures Rotl(a, n, m) == Rotl(if 2 * a < m then 2 * a else 2 * a + 1 - m, n - 1, m)
  {
  }

  lemma PartsBelow(hi: nat, lo: nat, p: nat, q: nat, m: nat)
    requires lo < p && hi < q && p * q == m
    ensures hi * p + lo < m
  {
    Scaled(p, hi + 1, q);
  }

  lemma RotlSum(lo: nat, t: nat, h: nat, rest: nat, q: nat, hi: nat)
    requires q == 2 * h && t <= 1 && hi == (if t == 0 then rest else h + rest)
    ensures (2 * lo + t) * h + rest == lo * q + hi
  {
    assert lo * q == 2 * (lo * h);
    assert (2 * lo + t) * h == 2 * (lo * h) + t * h;
  }

  lemma RotlStep(hi: nat, lo: nat, rest: nat, t: nat, p: nat, h: nat, m: nat)
    requires lo < p && p * (2 * h) == m && rest < h && t <= 1 && hi == (if t == 0 then rest else h + rest)
    ensures 2 * p * h == m
    ensures var a := hi * p + lo;
      (if 2 * a < m then 2 * a else 2 * a + 1 - m) == rest * (2 * p) + (2 * lo + t)
  {
    var hp, rp := h * p, rest * p;
    Products(h, rest, p);
    Scaled(p, rest + 1, h);
    assert hi * p == if t == 0 then rp else hp + rp;
  }

  lemma Products(h: nat, rest: nat, p: nat)
    ensures (h + rest) * p == h * p + rest * p && p * (2 * h) == 2 * (h * p) && 2 * p * h == 2 * (h * p)
    ensures rest * (2 * p) == 2 * (rest * p) && p * (rest + 1) == rest * p + p && p * h == h * p
  {
  }

  function Low(x: nat, p: nat): nat { if x >= p then x - p else x }

  /** Exclusive or from the highest bit p on down, n bits behind those in r. */
  function XorDown(x: int, y: int, p: int, r: int, n: nat): int
    decreases n
  {
    if n == 0 then r
    else XorDown(if x >= p then 2 * (x - p) else 2 * x, if y >= p then 2 * (y - p) else 2 * y, p,
                 if (x >= p) == (y >= p) then 2 * r else 2 * r + 1, n - 1)
  }

  lemma {:induction false} TopBit(x: nat, y: nat, n: nat, p: nat)
    requires p == Pow2(n) && x < 2 * p && y < 2 * p
    ensures Xor(x, y) == (if (x >= p) == (y >= p) then 0 else p) + Xor(Low(x, p), Low(y, p))
    decreases n
  {
    hide Xor;
    XorHalf(x, y);
    XorHalf(Low(x, p), Low(y, p));
    if n == 0 {
      XorZero(0);
    } else {
      TopBit(x / 2, y / 2, n - 1, Pow2(n - 1));
      LowHalf(x, p, Pow2(n - 1));
      LowHalf(y, p, Pow2(n - 1));
      hide Low;
      SameParity(x, y, Low(x, p), Low(y, p));
    }
  }

  lemma LowHalf(x: nat, p: nat, h: nat)
    requires p == 2 * h && x < 2 * p
    ensures Low(x, p) / 2 == Low(x / 2, h) && ((x >= p) == (x / 2 >= h)) && Low(x, p) % 2 == x % 2
  {
  }

  lemma SameParity(x: nat, y: nat, x': nat, y': nat)
    requires x' % 2 == x % 2 && y' % 2 == y % 2
    ensures (x' + y') % 2 == (x + y) % 2
  {
  }

  lemma {:induction false} XorDownIs(x: nat, y: nat, s: nat, p: nat, r: nat, n: nat)
    requires x < Pow2(n) && y < Pow2(n) && s >= 1 && 2 * p == s * Pow2(n)
    ensures XorDown(s * x, s * y, p, r, n) == r * Pow2(n) + Xor(x, y)
    decreases n
  {
    hide Xor, XorDown, Low;
    if n == 0 {
      XorDownLast(s * x, s * y, p, r);
      XorZero(0);
    } else {
      var h := Pow2(n - 1);
      var b := if (x >= h) == (y >= h) then 0 else 1;
      Doubled(s, h);
      TopBit(x, y, n - 1, h);
      XorDownRound(x, y, s, p, r, n, h, b);
      assert 2 * p == (2 * s) * h by { Doubled(h, s); }
      XorDownIs(Low(x, h), Low(y, h), 2 * s, p, 2 * r + b, n - 1);
      DownSum(r, b, h, Xor(Low(x, h), Low(y, h)));
    }
  }

  lemma DownSum(r: nat, b: nat, h: nat, z: nat)
    requires b <= 1
    ensures (2 * r + b) * h + z == r * (2 * h) + (if b == 0 then 0 else h) + z
  {
    assert (2 * r + b) * h == 2 * r * h + b * h;
    assert r * (2 * h) == 2 * r * h;
  }

  lemma XorDownRound(x: nat, y: nat, s: nat, p: nat, r: nat, n: nat, h: nat, b: nat)
    requires x < 2 * h && y < 2 * h && s >= 1 && p == s * h && n > 0 && b == (if (x >= h) == (y >= h) then 0 else 1)
    ensures Low(x, h) < h && Low(y, h) < h
    ensures XorDown(s * x, s * y, p, r, n) == XorDown(2 * s * Low(x, h), 2 * s * Low(y, h), p, 2 * r + b, n - 1)
  {
    hide XorDown, Low;
    XorDownStep(s * x, s * y, p, r, n);
    LowScaled(x, s, h);
    LowScaled(y, s, h);
  }

  lemma XorDownLast(x: int, y: int, p: int, r: int)
    ensures XorDown(x, y, p, r, 0) == r
  {
  }

  lemma XorDownStep(x: int, y: int, p: int, r: int, n: nat)
    requires n > 0
    ensures XorDown(x, y, p, r, n)
         == XorDown(if x >= p then 2 * (x - p) else 2 * x, if y >= p then 2 * (y - p) else 2 * y, p,
                    if (x >= p) == (y >= p) then 2 * r else 2 * r + 1, n - 1)
  {
  }

  lemma LowScaled(x: nat, s: nat, h: nat)
    requires s >= 1 && x < 2 * h
    ensures (s * x >= s * h) == (x >= h) && Low(x, h) < h
    ensures 2 * s * Low(x, h) == if s * x >= s * h then 2 * (s * x - s * h) else 2 * (s * x)
  {
    Differs(s, x, h);
    if x >= h {
      Scaled(s, h, x);
    } else {
      Scaled(s, x + 1, h);
    }
  }

  lemma Differs(s: nat, x: nat, h: nat)
    ensures 2 * s * (x - h) == 2 * (s * x - s * h) && 2 * s * x == 2 * (s * x)
  {
  }

  /** The exclusive or of two bytes. */
  function XorByte(x: int, y: int): int { XorDown(x, y, 128, 0, 8) }

  lemma XorByteIs(x: nat, y: nat)
    requires x < 256 && y < 256
    ensures XorByte(x, y) == Xor(x, y)
  {
    hide Xor, XorDown, Pow2;
    Powers();
    XorDownIs(x, y, 1, 128, 0, 8);
  }

  /** It goes through a number part by part. */
  lemma {:induction false} XorParts(a: nat, b: nat, x: nat, y: nat, n: nat, p: nat)
    requires p == Pow2(n) && x < p && y < p
    ensures Xor(a * p + x, b * p + y) == Xor(a, b) * p + Xor(x, y)
    decreases n
  {
    hide Xor;
    if n == 0 {
      XorZero(0);
    } else {
      var h := Pow2(n - 1);
      XorParts(a, b, x / 2, y / 2, n - 1, h);
      XorHalfParts(a * h, b * h, x, y, Xor(a, b) * h);
      Doubled(a, h);
      Doubled(b, h);
      Doubled(Xor(a, b), h);
    }
  }

  lemma Doubled(a: nat, h: nat)
    ensures a * (2 * h) == 2 * (a * h)
  {
  }

  lemma XorHalfParts(a: nat, b: nat, x: nat, y: nat, c: nat)
    requires Xor(a + x / 2, b + y / 2) == c + Xor(x / 2, y / 2)
    ensures Xor(2 * a + x, 2 * b + y) == 2 * c + Xor(x, y)
  {
    hide Xor;
    XorHalf(2 * a + x, 2 * b + y);
    XorHalf(x, y);
    assert (2 * a + x) / 2 == a + x / 2 && (2 * b + y) / 2 == b + y / 2;
    SameParity(x, y, 2 * a + x, 2 * b + y);
  }

  lemma {:induction false} ShiftedIs(a: nat, n: nat, q: nat, r: nat, p: nat)
    requires a == q * p + r && r < p && p == Pow2(n)
    ensures ShiftRight(a, n) == q
    decreases n
  {
    if n > 0 {
      var h := Pow2(n - 1);
      assert a / 2 == q * h + r / 2;
      ShiftedIs(a / 2, n - 1, q, r / 2, h);
    }
  }

  lemma Powers()
    ensures Pow2(8) == 256 && Pow2(16) == 65536 && Pow2(24) == 0x100_0000 && Pow2(32) == 0x1_0000_0000
    ensures Pow2(40) == 0x100_0000_0000 && Pow2(48) == 0x1_0000_0000_0000 && Pow2(56) == 0x100_0000_0000_0000
    ensures Pow2(64) == 0x1_0000_0000_0000_0000
  {
    assert Pow2(8) == 256;
    assert Pow2(16) == 65536;
    assert Pow2(24) == 0x100_0000;
    assert Pow2(32) == 0x1_0000_0000;
    assert Pow2(40) == 0x100_0000_0000;
    assert Pow2(48) == 0x1_0000_0000_0000;
    assert Pow2(56) == 0x100_0000_0000_0000;
  }

  lemma XorBelow32(a: nat, b: nat)
    requires a < 0x1_0000_0000 && b < 0x1_0000_0000
    ensures Xor(a, b) < 0x1_0000_0000
  {
    hide Xor, Pow2;
    Powers();
    XorBelow(a, b, 32);
  }

  lemma XorBelow64(a: nat, b: nat)
    requires a < 0x1_0000_0000_0000_0000 && b < 0x1_0000_0000_0000_0000
    ensures Xor(a, b) < 0x1_0000_0000_0000_0000
  {
    hide Xor, Pow2;
    Powers();
    XorBelow(a, b, 64);
  }

  function Word(a: int, b: int, c: int, d: int): int { ((a * 256 + b) * 256 + c) * 256 + d }

  lemma XorWords(a: nat, b: nat, c: nat, d: nat, x: nat, y: nat, z: nat, w: nat)
    requires a < 256 && b < 256 && c < 256 && d < 256 && x < 256 && y < 256 && z < 256 && w < 256
    ensures Xor(Word(a, b, c, d), Word(x, y, z, w)) == Word(XorByte(a, x), XorByte(b, y), XorByte(c, z), XorByte(d, w))
  {
    hide Xor, XorByte, Pow2;
    Powers();
    XorParts((a * 256 + b) * 256 + c, (x * 256 + y) * 256 + z, d, w, 8, 256);
    XorParts(a * 256 + b, x * 256 + y, c, z, 8, 256);
    XorParts(a, x, b, y, 8, 256);
    XorByteIs(a, x);
    XorByteIs(b, y);
    XorByteIs(c, z);
    XorByteIs(d, w);
  }
}
