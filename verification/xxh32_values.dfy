/** Some values of XXH32, worked out step by step. */
module Xxh32Values {
  import Bits
  import opened Bytes
  import opened Xxh32

  // ---- Steps on numbers.

  lemma MulIs(a: U32, b: U32, k: int, r: U32)
    requires a * b == k * 0x1_0000_0000 + r
    ensures Mul(a, b) == r
  {
    Bits.QuotientIs(a * b, 0x1_0000_0000, k, r);
  }

  lemma RotlIs(a: U32, n: nat, hi: nat, lo: nat, p: nat, q: nat)
    requires a == hi * p + lo && lo < p && hi < q && p * q == 0x1_0000_0000 && q == Bits.Pow2(n)
    ensures Rotl(a, n) == lo * q + hi
  {
    Bits.RotlIs(hi, lo, n, p, q, 0x1_0000_0000);
  }

  lemma ShiftIs(a: U32, n: nat, q: nat, r: nat, p: nat)
    requires a == q * p + r && r < p && p == Bits.Pow2(n)
    ensures ShiftRight(a, n) == q
  {
    Bits.ShiftedIs(a, n, q, r, p);
  }

  lemma XorIs(a: Byte, b: Byte, c: Byte, d: Byte, x: Byte, y: Byte, z: Byte, w: Byte)
    ensures var p, q := Bits.Word(a, b, c, d), Bits.Word(x, y, z, w);
      Xor(p, q) == Bits.Word(Bits.XorByte(a, x), Bits.XorByte(b, y), Bits.XorByte(c, z), Bits.XorByte(d, w))
  {
    hide Bits.Xor, Bits.XorByte;
    Bits.XorWords(a, b, c, d, x, y, z, w);
  }

  lemma FinishWordIs(h: U32, s: seq<Byte>)
    requires |s| >= 4
    ensures Finish(h, s) == Finish(Process4(h, Read32(s, 0)), s[4..])
  {
    hide Avalanche, Process4, Process1, Read32;
  }

  lemma FinishByteIs(h: U32, s: seq<Byte>)
    requires 1 <= |s| < 4
    ensures Finish(h, s) == Finish(Process1(h, s[0]), s[1..])
  {
    hide Avalanche, Process4, Process1, Read32;
  }

  lemma FinishNone(h: U32)
    ensures Finish(h, []) == Avalanche(h)
  {
    hide Avalanche, Process4, Process1, Read32;
  }

  lemma PowersUsed()
    ensures Bits.Pow2(1) == 0x2 && Bits.Pow2(7) == 0x80 && Bits.Pow2(11) == 0x800 && Bits.Pow2(12) == 0x1000
    ensures Bits.Pow2(13) == 0x2000 && Bits.Pow2(15) == 0x8000 && Bits.Pow2(16) == 0x1_0000 && Bits.Pow2(17) == 0x2_0000
    ensures Bits.Pow2(18) == 0x4_0000
  {
    assert Bits.Pow2(7) == 0x80;
    assert Bits.Pow2(11) == 0x800;
    assert Bits.Pow2(15) == 0x8000;
  }

  // ---- Values.

  lemma MixEmptyA()
    ensures Xor(0x165667B1, ShiftRight(0x165667B1, 15)) == 0x16564B1D
  {
    hide Bits.Xor, Bits.ShiftRight, Bits.Pow2;
    PowersUsed();
    XorIs(0x16, 0x56, 0x67, 0xB1, 0x00, 0x00, 0x2C, 0xAC);
    ShiftIs(0x165667B1, 15, 0x2CAC, 0x67B1, 0x8000);
  }

  lemma MixEmptyB()
    ensures Xor(0x7E00CC7B, ShiftRight(0x7E00CC7B, 13)) == 0x7E033C7D
  {
    hide Bits.Xor, Bits.ShiftRight, Bits.Pow2;
    PowersUsed();
    XorIs(0x7E, 0x00, 0xCC, 0x7B, 0x00, 0x03, 0xF0, 0x06);
    ShiftIs(0x7E00CC7B, 13, 0x3F006, 0xC7B, 0x2000);
  }

  lemma MixEmptyC()
    ensures Xor(0x2CC5FC9, ShiftRight(0x2CC5FC9, 16)) == 0x2CC5D05
  {
    hide Bits.Xor, Bits.ShiftRight, Bits.Pow2;
    PowersUsed();
    XorIs(0x02, 0xCC, 0x5F, 0xC9, 0x00, 0x00, 0x02, 0xCC);
    ShiftIs(0x2CC5FC9, 16, 0x2CC, 0x5FC9, 0x10000);
  }

  lemma AvalancheEmpty()
    ensures Avalanche(0x165667B1) == 0x2CC5D05
  {
    hide Xor, ShiftRight, Mul;
    MixEmptyA();
    MulIs(0x16564B1D, 0x85EBCA77, 0xBAF67E7, 0x7E00CC7B);
    MixEmptyB();
    MulIs(0x7E033C7D, 0xC2B2AE3D, 0x5FD667DB, 0x2CC5FC9);
    MixEmptyC();
  }

  /** The hash of nothing. */
  lemma HashOfNothing()
    ensures Hash([], 0) == 0x2CC5D05
  {
    hide Avalanche, Process4, Process1;
    AvalancheEmpty();
  }

  lemma AbcA()
    ensures Process1(0x165667B4, 0x61) == 0xDCA1DBE8
  {
    hide Mul, Rotl, Bits.Pow2;
    PowersUsed();
    MulIs(0x61, 0x165667B1, 0x8, 0x76BD4A11);
    RotlIs(0x8D13B1C5, 11, 0x468, 0x13B1C5, 0x200000, 0x800);
    MulIs(0x9D8E2C68, 0x9E3779B1, 0x615FE3D8, 0xDCA1DBE8);
  }

  lemma AbcB()
    ensures Process1(0xDCA1DBE8, 0x62) == 0x4F80FD3D
  {
    hide Mul, Rotl, Bits.Pow2;
    PowersUsed();
    MulIs(0x62, 0x165667B1, 0x8, 0x8D13B1C2);
    RotlIs(0x69B58DAA, 11, 0x34D, 0x158DAA, 0x200000, 0x800);
    MulIs(0xAC6D534D, 0x9E3779B1, 0x6A90D6DD, 0x4F80FD3D);
  }

  lemma AbcC()
    ensures Process1(0x4F80FD3D, 0x63) == 0x760A1E67
  {
    hide Mul, Rotl, Bits.Pow2;
    PowersUsed();
    MulIs(0x63, 0x165667B1, 0x8, 0xA36A1973);
    RotlIs(0xF2EB16B0, 11, 0x797, 0xB16B0, 0x200000, 0x800);
    MulIs(0x58B58797, 0x9E3779B1, 0x36D342DA, 0x760A1E67);
  }

  lemma MixAbcA()
    ensures Xor(0x760A1E67, ShiftRight(0x760A1E67, 15)) == 0x760AF273
  {
    hide Bits.Xor, Bits.ShiftRight, Bits.Pow2;
    PowersUsed();
    XorIs(0x76, 0x0A, 0x1E, 0x67, 0x00, 0x00, 0xEC, 0x14);
    ShiftIs(0x760A1E67, 15, 0xEC14, 0x1E67, 0x8000);
  }

  lemma MixAbcB()
    ensures Xor(0xD0F67175, ShiftRight(0xD0F67175, 13)) == 0xD0F0F6C6
  {
    hide Bits.Xor, Bits.ShiftRight, Bits.Pow2;
    PowersUsed();
    XorIs(0xD0, 0xF6, 0x71, 0x75, 0x00, 0x06, 0x87, 0xB3);
    ShiftIs(0xD0F67175, 13, 0x687B3, 0x1175, 0x2000);
  }

  lemma MixAbcC()
    ensures Xor(0x32D1612E, ShiftRight(0x32D1612E, 16)) == 0x32D153FF
  {
    hide Bits.Xor, Bits.ShiftRight, Bits.Pow2;
    PowersUsed();
    XorIs(0x32, 0xD1, 0x61, 0x2E, 0x00, 0x00, 0x32, 0xD1);
    ShiftIs(0x32D1612E, 16, 0x32D1, 0x612E, 0x10000);
  }

  lemma AvalancheAbc()
    ensures Avalanche(0x760A1E67) == 0x32D153FF
  {
    hide Xor, ShiftRight, Mul;
    MixAbcA();
    MulIs(0x760AF273, 0x85EBCA77, 0x3DC0695D, 0xD0F67175);
    MixAbcB();
    MulIs(0xD0F0F6C6, 0xC2B2AE3D, 0x9EE870C3, 0x32D1612E);
    MixAbcC();
  }

  /** The hash of "abc". */
  lemma HashOfAbc()
    ensures Hash([0x61, 0x62, 0x63], 0) == 0x32D153FF
  {
    hide Avalanche, Process4, Process1;
    var s: seq<Byte> := [0x61, 0x62, 0x63];
    assert s[1..] == [0x62, 0x63] && s[1..][1..] == [0x63] && s[1..][1..][1..] == [];
    assert s[0..] == s;
    FinishByteIs(0x165667B4, s);
    FinishByteIs(0xDCA1DBE8, [0x62, 0x63]);
    FinishByteIs(0x4F80FD3D, [0x63]);
    FinishNone(0x760A1E67);
    AbcA();
    AbcB();
    AbcC();
    AvalancheAbc();
  }

  lemma Lane1()
    ensures Round(0x24234428, 0x4030201) == 0x56F04F51
  {
    hide Mul, Rotl, Bits.Pow2;
    PowersUsed();
    MulIs(0x4030201, 0x85EBCA77, 0x21941F9, 0x98E5B877);
    RotlIs(0xBD08FC9F, 13, 0x17A1, 0xFC9F, 0x80000, 0x2000);
    MulIs(0x1F93F7A1, 0x9E3779B1, 0x13842AA2, 0x56F04F51);
  }

  lemma Lane2()
    ensures Round(0x85EBCA77, 0x8070605) == 0xC2C38A70
  {
    hide Mul, Rotl, Bits.Pow2;
    PowersUsed();
    MulIs(0x8070605, 0x85EBCA77, 0x4330AEC, 0x659ABE53);
    RotlIs(0xEB8688CA, 13, 0x1D70, 0x688CA, 0x80000, 0x2000);
    MulIs(0xD1195D70, 0x9E3779B1, 0x813AF783, 0xC2C38A70);
  }

  lemma Lane3()
    ensures Round(0x0, 0xC0B0A09) == 0xA61BB979
  {
    hide Mul, Rotl, Bits.Pow2;
    PowersUsed();
    MulIs(0xC0B0A09, 0x85EBCA77, 0x64CD3DF, 0x324FC42F);
    RotlIs(0x324FC42F, 13, 0x649, 0x7C42F, 0x80000, 0x2000);
    MulIs(0xF885E649, 0x9E3779B1, 0x99987F08, 0xA61BB979);
  }

  lemma Lane4()
    ensures Round(0x61C8864F, 0x100F0E0D) == 0xB0266E49
  {
    hide Mul, Rotl, Bits.Pow2;
    PowersUsed();
    MulIs(0x100F0E0D, 0x85EBCA77, 0x8669CD1, 0xFF04CA0B);
    RotlIs(0x60CD505A, 13, 0xC19, 0x5505A, 0x80000, 0x2000);
    MulIs(0xAA0B4C19, 0x9E3779B1, 0x6917D239, 0xB0266E49);
  }

  lemma MergeTwenty()
    ensures Merge(Lanes(0x56F04F51, 0xC2C38A70, 0xA61BB979, 0xB0266E49)) == 0x846431FD
  {
    hide Rotl, Bits.Pow2;
    PowersUsed();
    RotlIs(0x56F04F51, 1, 0x0, 0x56F04F51, 0x80000000, 0x2);
    RotlIs(0xC2C38A70, 7, 0x61, 0xC38A70, 0x2000000, 0x80);
    RotlIs(0xA61BB979, 12, 0xA61, 0xBB979, 0x100000, 0x1000);
    RotlIs(0xB0266E49, 18, 0x2C099, 0x2E49, 0x4000, 0x40000);
  }

  lemma Word5()
    ensures Process4(0x84643211, 0x14131211) == 0x248CFF4E
  {
    hide Mul, Rotl, Bits.Pow2;
    PowersUsed();
    MulIs(0x14131211, 0xC2B2AE3D, 0xF44769D, 0x30A4DC0D);
    RotlIs(0xB5090E1E, 17, 0x16A12, 0xE1E, 0x8000, 0x20000);
    MulIs(0x1C3D6A12, 0x27D4EB2F, 0x464D7F6, 0x248CFF4E);
  }

  lemma MixTwentyA()
    ensures Xor(0x248CFF4E, ShiftRight(0x248CFF4E, 15)) == 0x248CB657
  {
    hide Bits.Xor, Bits.ShiftRight, Bits.Pow2;
    PowersUsed();
    XorIs(0x24, 0x8C, 0xFF, 0x4E, 0x00, 0x00, 0x49, 0x19);
    ShiftIs(0x248CFF4E, 15, 0x4919, 0x7F4E, 0x8000);
  }

  lemma MixTwentyB()
    ensures Xor(0x9A266871, ShiftRight(0x9A266871, 13)) == 0x9A22B942
  {
    hide Bits.Xor, Bits.ShiftRight, Bits.Pow2;
    PowersUsed();
    XorIs(0x9A, 0x26, 0x68, 0x71, 0x00, 0x04, 0xD1, 0x33);
    ShiftIs(0x9A266871, 13, 0x4D133, 0x871, 0x2000);
  }

  lemma MixTwentyC()
    ensures Xor(0x281500BA, ShiftRight(0x281500BA, 16)) == 0x281528AF
  {
    hide Bits.Xor, Bits.ShiftRight, Bits.Pow2;
    PowersUsed();
    XorIs(0x28, 0x15, 0x00, 0xBA, 0x00, 0x00, 0x28, 0x15);
    ShiftIs(0x281500BA, 16, 0x2815, 0xBA, 0x10000);
  }

  lemma AvalancheTwenty()
    ensures Avalanche(0x248CFF4E) == 0x281528AF
  {
    hide Xor, ShiftRight, Mul;
    MixTwentyA();
    MulIs(0x248CB657, 0x85EBCA77, 0x131EC4CE, 0x9A266871);
    MixTwentyB();
    MulIs(0x9A22B942, 0xC2B2AE3D, 0x7539E571, 0x281500BA);
    MixTwentyC();
  }

  const TWENTY: seq<Byte> := [1, 2, 3, 4, 5, 6, 7, 8, 9, 10, 11, 12, 13, 14, 15, 16, 17, 18, 19, 20]

  lemma TwentyWords()
    ensures |TWENTY| == 20
    ensures Read32(TWENTY, 0) == 0x4030201 && Read32(TWENTY, 4) == 0x8070605 && Read32(TWENTY, 8) == 0xC0B0A09
    ensures Read32(TWENTY, 12) == 0x100F0E0D && Read32(TWENTY[16..], 0) == 0x14131211
  {
  }

  lemma TwentyLanes()
    ensures Stripes(Start(0), TWENTY, 0) == Lanes(0x56F04F51, 0xC2C38A70, 0xA61BB979, 0xB0266E49)
    ensures Remainder(TWENTY, 0) == 16
  {
    hide Round, Read32;
    TwentyWords();
    assert Start(0) == Lanes(0x24234428, 0x85EBCA77, 0x0, 0x61C8864F);
    Lane1();
    Lane2();
    Lane3();
    Lane4();
    assert Stripes(Start(0), TWENTY, 0) == Stripes(Stripe(Start(0), TWENTY, 0), TWENTY, 16);
  }

  /** The hash of the twenty bytes from 1 to 20: a stripe and a word. */
  lemma HashOfTwenty()
    ensures Hash(TWENTY, 0) == 0x281528AF
  {
    hide Avalanche, Process4, Process1, Stripes, Remainder, Merge, Read32, Start;
    TwentyWords();
    TwentyLanes();
    MergeTwenty();
    FinishWordIs(0x84643211, TWENTY[16..]);
    assert TWENTY[16..][4..] == [];
    FinishNone(0x248CFF4E);
    Word5();
    AvalancheTwenty();
  }
}
