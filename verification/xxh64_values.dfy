/** Some values of XXH64, worked out step by step. */
module Xxh64Values {
  import Bits
  import opened Bytes
  import opened Xxh64

  // ---- Steps on numbers.

  lemma MulIs(a: U64, b: U64, k: int, r: U64)
    requires a * b == k * 0x1_0000_0000_0000_0000 + r
    ensures Mul(a, b) == r
  {
    Bits.QuotientIs(a * b, 0x1_0000_0000_0000_0000, k, r);
  }

  lemma RotlIs(a: U64, n: nat, hi: nat, lo: nat, p: nat, q: nat)
    requires a == hi * p + lo && lo < p && hi < q && p * q == 0x1_0000_0000_0000_0000 && q == Bits.Pow2(n)
    ensures Rotl(a, n) == lo * q + hi
  {
    Bits.RotlIs(hi, lo, n, p, q, 0x1_0000_0000_0000_0000);
  }

  lemma ShiftIs(a: U64, n: nat, q: nat, r: nat, p: nat)
    requires a == q * p + r && r < p && p == Bits.Pow2(n)
    ensures ShiftRight(a, n) == q
  {
    Bits.ShiftedIs(a, n, q, r, p);
  }

  lemma WordXorIs(a: Byte, b: Byte, c: Byte, d: Byte, x: Byte, y: Byte, z: Byte, w: Byte)
    ensures var p, q := Bits.Word(a, b, c, d), Bits.Word(x, y, z, w);
      Bits.Xor(p, q) == Bits.Word(Bits.XorByte(a, x), Bits.XorByte(b, y), Bits.XorByte(c, z), Bits.XorByte(d, w))
  {
    hide Bits.Xor, Bits.XorByte;
    Bits.XorWords(a, b, c, d, x, y, z, w);
  }

  lemma HalvesXor(a: U32, b: U32, c: U32, d: U32)
    ensures Xor(a * 0x1_0000_0000 + b, c * 0x1_0000_0000 + d) == Bits.Xor(a, c) * 0x1_0000_0000 + Bits.Xor(b, d)
  {
    hide Bits.Xor, Bits.Pow2;
    Bits.Powers();
    Bits.XorParts(a, c, b, d, 32, 0x1_0000_0000);
  }

  lemma FinishIs(h: U64, s: seq<Byte>)
    ensures |s| >= 8 ==> Finish(h, s) == Finish(Process8(h, Read64(s, 0)), s[8..])
    ensures 4 <= |s| < 8 ==> Finish(h, s) == Finish(Process4(h, Read32(s, 0)), s[4..])
    ensures 1 <= |s| < 4 ==> Finish(h, s) == Finish(Process1(h, s[0]), s[1..])
    ensures |s| == 0 ==> Finish(h, s) == Avalanche(h)
  {
    hide Process8, Process4, Process1, Avalanche, Read64, Read32;
  }

  lemma PowersUsed()
    ensures Bits.Pow2(1) == 0x2 && Bits.Pow2(7) == 0x80 && Bits.Pow2(11) == 0x800 && Bits.Pow2(12) == 0x1000
    ensures Bits.Pow2(18) == 0x4_0000 && Bits.Pow2(23) == 0x80_0000 && Bits.Pow2(27) == 0x800_0000
    ensures Bits.Pow2(29) == 0x2000_0000 && Bits.Pow2(31) == 0x8000_0000 && Bits.Pow2(32) == 0x1_0000_0000
    ensures Bits.Pow2(33) == 0x2_0000_0000
  {
    assert Bits.Pow2(7) == 0x80;
    assert Bits.Pow2(12) == 0x1000;
    assert Bits.Pow2(18) == 0x4_0000;
    assert Bits.Pow2(23) == 0x80_0000;
    assert Bits.Pow2(27) == 0x800_0000;
    assert Bits.Pow2(31) == 0x8000_0000;
  }

  // ---- Values.

  lemma MixEmptyAX()
    ensures Xor(0x27D4EB2F165667C5, 0x13EA7597) == 0x27D4EB2F05BC1252
  {
    hide Bits.Xor;
    WordXorIs(0x27, 0xD4, 0xEB, 0x2F, 0x00, 0x00, 0x00, 0x00);
    WordXorIs(0x16, 0x56, 0x67, 0xC5, 0x13, 0xEA, 0x75, 0x97);
    HalvesXor(0x27D4EB2F, 0x165667C5, 0x0, 0x13EA7597);
  }

  lemma MixEmptyBX()
    ensures Xor(0xBEB13DDA13C2ED4E, 0x5F589EED0) == 0xBEB13DDFE64B039E
  {
    hide Bits.Xor;
    WordXorIs(0xBE, 0xB1, 0x3D, 0xDA, 0x00, 0x00, 0x00, 0x05);
    WordXorIs(0x13, 0xC2, 0xED, 0x4E, 0xF5, 0x89, 0xEE, 0xD0);
    HalvesXor(0xBEB13DDA, 0x13C2ED4E, 0x5, 0xF589EED0);
  }

  lemma MixEmptyCX()
    ensures Xor(0xEF46DB37BE9E32AE, 0xEF46DB37) == 0xEF46DB3751D8E999
  {
    hide Bits.Xor;
    WordXorIs(0xEF, 0x46, 0xDB, 0x37, 0x00, 0x00, 0x00, 0x00);
    WordXorIs(0xBE, 0x9E, 0x32, 0xAE, 0xEF, 0x46, 0xDB, 0x37);
    HalvesXor(0xEF46DB37, 0xBE9E32AE, 0x0, 0xEF46DB37);
  }

  lemma AvalancheEmpty()
    ensures Avalanche(0x27D4EB2F165667C5) == 0xEF46DB3751D8E999
  {
    hide Xor, ShiftRight, Mul, Bits.Pow2;
    PowersUsed();
    MixEmptyAX();
    ShiftIs(0x27D4EB2F165667C5, 33, 0x13EA7597, 0x1165667C5, 0x200000000);
    MulIs(0x27D4EB2F05BC1252, 0xC2B2AE3D27D4EB4F, 0x1E4B276164D31384, 0xBEB13DDA13C2ED4E);
    MixEmptyBX();
    ShiftIs(0xBEB13DDA13C2ED4E, 29, 0x5F589EED0, 0x13C2ED4E, 0x20000000);
    MulIs(0xBEB13DDFE64B039E, 0x165667B19E3779F9, 0x10A39819A54D6418, 0xEF46DB37BE9E32AE);
    MixEmptyCX();
    ShiftIs(0xEF46DB37BE9E32AE, 32, 0xEF46DB37, 0xBE9E32AE, 0x100000000);
  }

  /** The hash of nothing. */
  lemma HashOfNothing()
    ensures Hash([], 0) == 0xEF46DB3751D8E999
  {
    hide Avalanche, Process8, Process4, Process1;
    AvalancheEmpty();
  }

  lemma AbcAX()
    ensures Xor(0x27D4EB2F165667C8, 0x17AD1CD776BD51A5) == 0x3079F7F860EB366D
  {
    hide Bits.Xor;
    WordXorIs(0x27, 0xD4, 0xEB, 0x2F, 0x17, 0xAD, 0x1C, 0xD7);
    WordXorIs(0x16, 0x56, 0x67, 0xC8, 0x76, 0xBD, 0x51, 0xA5);
    HalvesXor(0x27D4EB2F, 0x165667C8, 0x17AD1CD7, 0x76BD51A5);
  }

  lemma AbcA()
    ensures Process1(0x27D4EB2F165667C8, 0x61) == 0xE6D11BDC91F0215
  {
    hide Mul, Rotl, Xor, Bits.Pow2;
    PowersUsed();
    MulIs(0x61, 0x27D4EB2F165667C5, 0xF, 0x17AD1CD776BD51A5);
    AbcAX();
    RotlIs(0x3079F7F860EB366D, 11, 0x183, 0x19F7F860EB366D, 0x20000000000000, 0x800);
    MulIs(0xCFBFC30759B36983, 0x9E3779B185EBCA87, 0x80655F5323634BDB, 0xE6D11BDC91F0215);
  }

  lemma AbcBX()
    ensures Xor(0xE6D11BDC91F0215, 0x3F8208068D13B96A) == 0x31EF19BB440CBB7F
  {
    hide Bits.Xor;
    WordXorIs(0x0E, 0x6D, 0x11, 0xBD, 0x3F, 0x82, 0x08, 0x06);
    WordXorIs(0xC9, 0x1F, 0x02, 0x15, 0x8D, 0x13, 0xB9, 0x6A);
    HalvesXor(0xE6D11BD, 0xC91F0215, 0x3F820806, 0x8D13B96A);
  }

  lemma AbcB()
    ensures Process1(0xE6D11BDC91F0215, 0x62) == 0x791983E9AB307069
  {
    hide Mul, Rotl, Xor, Bits.Pow2;
    PowersUsed();
    MulIs(0x62, 0x27D4EB2F165667C5, 0xF, 0x3F8208068D13B96A);
    AbcBX();
    RotlIs(0x31EF19BB440CBB7F, 11, 0x18F, 0xF19BB440CBB7F, 0x20000000000000, 0x800);
    MulIs(0x78CDDA2065DBF98F, 0x9E3779B185EBCA87, 0x4AA93A46ED72FDB0, 0x791983E9AB307069);
  }

  lemma AbcCX()
    ensures Xor(0x791983E9AB307069, 0x6756F335A36A212F) == 0x1E4F70DC085A5146
  {
    hide Bits.Xor;
    WordXorIs(0x79, 0x19, 0x83, 0xE9, 0x67, 0x56, 0xF3, 0x35);
    WordXorIs(0xAB, 0x30, 0x70, 0x69, 0xA3, 0x6A, 0x21, 0x2F);
    HalvesXor(0x791983E9, 0xAB307069, 0x6756F335, 0xA36A212F);
  }

  lemma AbcC()
    ensures Process1(0x791983E9AB307069, 0x63) == 0xE87A46F8B9A4C39E
  {
    hide Mul, Rotl, Xor, Bits.Pow2;
    PowersUsed();
    MulIs(0x63, 0x27D4EB2F165667C5, 0xF, 0x6756F335A36A212F);
    AbcCX();
    RotlIs(0x1E4F70DC085A5146, 11, 0xF2, 0xF70DC085A5146, 0x20000000000000, 0x800);
    MulIs(0x7B86E042D28A30F2, 0x9E3779B185EBCA87, 0x4C58031BD52C02A8, 0xE87A46F8B9A4C39E);
  }

  lemma MixAbcAX()
    ensures Xor(0xE87A46F8B9A4C39E, 0x743D237C) == 0xE87A46F8CD99E0E2
  {
    hide Bits.Xor;
    WordXorIs(0xE8, 0x7A, 0x46, 0xF8, 0x00, 0x00, 0x00, 0x00);
    WordXorIs(0xB9, 0xA4, 0xC3, 0x9E, 0x74, 0x3D, 0x23, 0x7C);
    HalvesXor(0xE87A46F8, 0xB9A4C39E, 0x0, 0x743D237C);
  }

  lemma MixAbcBX()
    ensures Xor(0xDFE7320E5D13DBBE, 0x6FF399072) == 0xDFE73208A22A4BCC
  {
    hide Bits.Xor;
    WordXorIs(0xDF, 0xE7, 0x32, 0x0E, 0x00, 0x00, 0x00, 0x06);
    WordXorIs(0x5D, 0x13, 0xDB, 0xBE, 0xFF, 0x39, 0x90, 0x72);
    HalvesXor(0xDFE7320E, 0x5D13DBBE, 0x6, 0xFF399072);
  }

  lemma MixAbcCX()
    ensures Xor(0x44BC2CF5E9CB256C, 0x44BC2CF5) == 0x44BC2CF5AD770999
  {
    hide Bits.Xor;
    WordXorIs(0x44, 0xBC, 0x2C, 0xF5, 0x00, 0x00, 0x00, 0x00);
    WordXorIs(0xE9, 0xCB, 0x25, 0x6C, 0x44, 0xBC, 0x2C, 0xF5);
    HalvesXor(0x44BC2CF5, 0xE9CB256C, 0x0, 0x44BC2CF5);
  }

  lemma AvalancheAbc()
    ensures Avalanche(0xE87A46F8B9A4C39E) == 0x44BC2CF5AD770999
  {
    hide Xor, ShiftRight, Mul, Bits.Pow2;
    PowersUsed();
    MixAbcAX();
    ShiftIs(0xE87A46F8B9A4C39E, 33, 0x743D237C, 0xB9A4C39E, 0x200000000);
    MulIs(0xE87A46F8CD99E0E2, 0xC2B2AE3D27D4EB4F, 0xB0CEED088A599233, 0xDFE7320E5D13DBBE);
    MixAbcBX();
    ShiftIs(0xDFE7320E5D13DBBE, 29, 0x6FF399072, 0x1D13DBBE, 0x20000000);
    MulIs(0xDFE73208A22A4BCC, 0x165667B19E3779F9, 0x138970A8EB32642B, 0x44BC2CF5E9CB256C);
    MixAbcCX();
    ShiftIs(0x44BC2CF5E9CB256C, 32, 0x44BC2CF5, 0xE9CB256C, 0x100000000);
  }

  /** The hash of "abc". */
  lemma HashOfAbc()
    ensures Hash([0x61, 0x62, 0x63], 0) == 0x44BC2CF5AD770999
  {
    hide Avalanche, Process8, Process4, Process1;
    var s: seq<Byte> := [0x61, 0x62, 0x63];
    assert s[1..] == [0x62, 0x63] && s[1..][1..] == [0x63] && s[1..][1..][1..] == [];
    assert s[0..] == s;
    FinishIs(0x27D4EB2F165667C8, s);
    FinishIs(0xE6D11BDC91F0215, [0x62, 0x63]);
    FinishIs(0x791983E9AB307069, [0x63]);
    FinishIs(0xE87A46F8B9A4C39E, []);
    AbcA();
    AbcB();
    AbcC();
    AvalancheAbc();
  }

  lemma Lane1()
    ensures Round(0x60EA27EEADC0B5D6, 0x807060504030201) == 0x84067DD7D1F3B82F
  {
    hide Mul, Rotl, Bits.Pow2;
    PowersUsed();
    MulIs(0x807060504030201, 0xC2B2AE3D27D4EB4F, 0x61AECE8AD8AA8A4, 0xD33B6643CF98894F);
    RotlIs(0x34258E327D593F25, 31, 0x1A12C719, 0x7D593F25, 0x200000000, 0x80000000);
    MulIs(0x3EAC9F929A12C719, 0x9E3779B185EBCA87, 0x26BC1F5DD126B90C, 0x84067DD7D1F3B82F);
  }

  lemma Lane2()
    ensures Round(0xC2B2AE3D27D4EB4F, 0x100F0E0D0C0B0A09) == 0x53248DD1B14B7EF7
  {
    hide Mul, Rotl, Bits.Pow2;
    PowersUsed();
    MulIs(0x100F0E0D0C0B0A09, 0xC2B2AE3D27D4EB4F, 0xC369E0BB9D59AF1, 0x91E479E588125BC7);
    RotlIs(0x54972822AFE74716, 31, 0x2A4B9411, 0xAFE74716, 0x200000000, 0x80000000);
    MulIs(0x57F3A38B2A4B9411, 0x9E3779B185EBCA87, 0x365B6E172CC42C08, 0x53248DD1B14B7EF7);
  }

  lemma Lane3()
    ensures Round(0x0, 0x1817161514131211) == 0x5A7802885A29AED5
  {
    hide Mul, Rotl, Bits.Pow2;
    PowersUsed();
    MulIs(0x1817161514131211, 0xC2B2AE3D27D4EB4F, 0x12524F2EC6208D3E, 0x508D8D87408C2E3F);
    RotlIs(0x508D8D87408C2E3F, 31, 0x2846C6C3, 0x1408C2E3F, 0x200000000, 0x80000000);
    MulIs(0xA046171FA846C6C3, 0x9E3779B185EBCA87, 0x630DFD84C6E4D274, 0x5A7802885A29AED5);
  }

  lemma Lane4()
    ensures Round(0x61C8864E7A143579, 0x201F1E1D1C1B1A19) == 0x299612823981759D
  {
    hide Mul, Rotl, Bits.Pow2;
    PowersUsed();
    MulIs(0x201F1E1D1C1B1A19, 0xC2B2AE3D27D4EB4F, 0x186E0051D26B7F8B, 0xF36A128F90600B7);
    RotlIs(0x70FF2777731A3630, 31, 0x387F93BB, 0x1731A3630, 0x200000000, 0x80000000);
    MulIs(0xB98D1B18387F93BB, 0x9E3779B185EBCA87, 0x72AD4C3E22824570, 0x299612823981759D);
  }

  lemma Merge1R()
    ensures Round(0x0, 0x84067DD7D1F3B82F) == 0xC26854E752A26673
  {
    hide Mul, Rotl, Bits.Pow2;
    PowersUsed();
    MulIs(0x84067DD7D1F3B82F, 0xC2B2AE3D27D4EB4F, 0x646911BD00CA2611, 0x282CC76B3434FB81);
    RotlIs(0x282CC76B3434FB81, 31, 0x141663B5, 0x13434FB81, 0x200000000, 0x80000000);
    MulIs(0x9A1A7DC0941663B5, 0x9E3779B185EBCA87, 0x5F3DBE8F42244E0E, 0xC26854E752A26673);
  }

  lemma Merge1X()
    ensures Xor(0x64855030BB08E807, 0xC26854E752A26673) == 0xA6ED04D7E9AA8E74
  {
    hide Bits.Xor;
    WordXorIs(0x64, 0x85, 0x50, 0x30, 0xC2, 0x68, 0x54, 0xE7);
    WordXorIs(0xBB, 0x08, 0xE8, 0x07, 0x52, 0xA2, 0x66, 0x73);
    HalvesXor(0x64855030, 0xBB08E807, 0xC26854E7, 0x52A26673);
  }

  lemma Merge1()
    ensures MergeRound(0x64855030BB08E807, 0x84067DD7D1F3B82F) == 0x9082247B9887558F
  {
    hide Mul, Xor, Round;
    Merge1R();
    Merge1X();
    MulIs(0xA6ED04D7E9AA8E74, 0x9E3779B185EBCA87, 0x672A75431517C171, 0xA965A03D5D4A72C);
  }

  lemma Merge2R()
    ensures Round(0x0, 0x53248DD1B14B7EF7) == 0x2F2D801A2EF281A
  {
    hide Mul, Rotl, Bits.Pow2;
    PowersUsed();
    MulIs(0x53248DD1B14B7EF7, 0xC2B2AE3D27D4EB4F, 0x3F3BBB7A3932867A, 0x9F27B72DC964EB39);
    RotlIs(0x9F27B72DC964EB39, 31, 0x4F93DB96, 0x1C964EB39, 0x200000000, 0x80000000);
    MulIs(0xE4B2759CCF93DB96, 0x9E3779B185EBCA87, 0x8D57B3A4FD6BA5AD, 0x2F2D801A2EF281A);
  }

  lemma Merge2X()
    ensures Xor(0x9082247B9887558F, 0x2F2D801A2EF281A) == 0x9270FC7A3A687D95
  {
    hide Bits.Xor;
    WordXorIs(0x90, 0x82, 0x24, 0x7B, 0x02, 0xF2, 0xD8, 0x01);
    WordXorIs(0x98, 0x87, 0x55, 0x8F, 0xA2, 0xEF, 0x28, 0x1A);
    HalvesXor(0x9082247B, 0x9887558F, 0x2F2D801, 0xA2EF281A);
  }

  lemma Merge2()
    ensures MergeRound(0x9082247B9887558F, 0x53248DD1B14B7EF7) == 0xE1E28931B3AB79F6
  {
    hide Mul, Xor, Round;
    Merge2R();
    Merge2X();
    MulIs(0x9270FC7A3A687D95, 0x9E3779B185EBCA87, 0x5A8177B6A25EF4D0, 0x5BF6BEB9F0F8CB93);
  }

  lemma Merge3R()
    ensures Round(0x0, 0x5A7802885A29AED5) == 0x8125E21C6FEF9420
  {
    hide Mul, Rotl, Bits.Pow2;
    PowersUsed();
    MulIs(0x5A7802885A29AED5, 0xC2B2AE3D27D4EB4F, 0x44CE16F04587162B, 0xBEE065C051BE7ABB);
    RotlIs(0xBEE065C051BE7ABB, 31, 0x5F7032E0, 0x51BE7ABB, 0x200000000, 0x80000000);
    MulIs(0x28DF3D5DDF7032E0, 0x9E3779B185EBCA87, 0x1942A343FACEAD29, 0x8125E21C6FEF9420);
  }

  lemma Merge3X()
    ensures Xor(0xE1E28931B3AB79F6, 0x8125E21C6FEF9420) == 0x60C76B2DDC44EDD6
  {
    hide Bits.Xor;
    WordXorIs(0xE1, 0xE2, 0x89, 0x31, 0x81, 0x25, 0xE2, 0x1C);
    WordXorIs(0xB3, 0xAB, 0x79, 0xF6, 0x6F, 0xEF, 0x94, 0x20);
    HalvesXor(0xE1E28931, 0xB3AB79F6, 0x8125E21C, 0x6FEF9420);
  }

  lemma Merge3()
    ensures MergeRound(0xE1E28931B3AB79F6, 0x5A7802885A29AED5) == 0x2D3D1941D028F63D
  {
    hide Mul, Xor, Round;
    Merge3R();
    Merge3X();
    MulIs(0x60C76B2DDC44EDD6, 0x9E3779B185EBCA87, 0x3BD00CFFB2F763B9, 0xA7514ECA0D7647DA);
  }

  lemma Merge4R()
    ensures Round(0x0, 0x299612823981759D) == 0xFEBA7FF3403C55C7
  {
    hide Mul, Rotl, Bits.Pow2;
    PowersUsed();
    MulIs(0x299612823981759D, 0xC2B2AE3D27D4EB4F, 0x1FA0C0AD7DEF7695, 0x35DB5582E6EE6A73);
    RotlIs(0x35DB5582E6EE6A73, 31, 0x1AEDAAC1, 0xE6EE6A73, 0x200000000, 0x80000000);
    MulIs(0x737735399AEDAAC1, 0x9E3779B185EBCA87, 0x475C985966FA47EE, 0xFEBA7FF3403C55C7);
  }

  lemma Merge4X()
    ensures Xor(0x2D3D1941D028F63D, 0xFEBA7FF3403C55C7) == 0xD38766B29014A3FA
  {
    hide Bits.Xor;
    WordXorIs(0x2D, 0x3D, 0x19, 0x41, 0xFE, 0xBA, 0x7F, 0xF3);
    WordXorIs(0xD0, 0x28, 0xF6, 0x3D, 0x40, 0x3C, 0x55, 0xC7);
    HalvesXor(0x2D3D1941, 0xD028F63D, 0xFEBA7FF3, 0x403C55C7);
  }

  lemma Merge4()
    ensures MergeRound(0x2D3D1941D028F63D, 0x299612823981759D) == 0xDA9D5E4F6F766B39
  {
    hide Mul, Xor, Round;
    Merge4R();
    Merge4X();
    MulIs(0xD38766B29014A3FA, 0x9E3779B185EBCA87, 0x82BB6806F41A4631, 0x54B193D7ACC3BCD6);
  }

  lemma MergeLong()
    ensures Merge(Lanes(0x84067DD7D1F3B82F, 0x53248DD1B14B7EF7, 0x5A7802885A29AED5, 0x299612823981759D)) == 0xDA9D5E4F6F766B39
  {
    hide Rotl, MergeRound, Bits.Pow2;
    PowersUsed();
    RotlIs(0x84067DD7D1F3B82F, 1, 0x1, 0x4067DD7D1F3B82F, 0x8000000000000000, 0x2);
    RotlIs(0x53248DD1B14B7EF7, 7, 0x29, 0x1248DD1B14B7EF7, 0x200000000000000, 0x80);
    RotlIs(0x5A7802885A29AED5, 12, 0x5A7, 0x802885A29AED5, 0x10000000000000, 0x1000);
    RotlIs(0x299612823981759D, 18, 0xA658, 0x12823981759D, 0x400000000000, 0x40000);
    Merge1();
    Merge2();
    Merge3();
    Merge4();
  }

  lemma Long5R()
    ensures Round(0x0, 0x2827262524232221) == 0xE0B462CCFE86DD43
  {
    hide Mul, Rotl, Bits.Pow2;
    PowersUsed();
    MulIs(0x2827262524232221, 0xC2B2AE3D27D4EB4F, 0x1E89B174DEB671D7, 0xCDDFB4CAB17FD32F);
    RotlIs(0xCDDFB4CAB17FD32F, 31, 0x66EFDA65, 0xB17FD32F, 0x200000000, 0x80000000);
    MulIs(0x58BFE997E6EFDA65, 0x9E3779B185EBCA87, 0x36D9AD9730B1673D, 0xE0B462CCFE86DD43);
  }

  lemma Long5X()
    ensures Xor(0xDA9D5E4F6F766B65, 0xE0B462CCFE86DD43) == 0x3A293C8391F0B626
  {
    hide Bits.Xor;
    WordXorIs(0xDA, 0x9D, 0x5E, 0x4F, 0xE0, 0xB4, 0x62, 0xCC);
    WordXorIs(0x6F, 0x76, 0x6B, 0x65, 0xFE, 0x86, 0xDD, 0x43);
    HalvesXor(0xDA9D5E4F, 0x6F766B65, 0xE0B462CC, 0xFE86DD43);
  }

  lemma Long5()
    ensures Process8(0xDA9D5E4F6F766B65, 0x2827262524232221) == 0x93406D5E74AA8D9F
  {
    hide Mul, Rotl, Xor, Round, Bits.Pow2;
    PowersUsed();
    Long5R();
    Long5X();
    RotlIs(0x3A293C8391F0B626, 27, 0x1D149E4, 0x391F0B626, 0x2000000000, 0x8000000);
    MulIs(0x1C8F85B131D149E4, 0x9E3779B185EBCA87, 0x11A6C4ECBA2DEE6E, 0xD54A2E6B1F7DF3C);
  }

  lemma Word6X()
    ensures Xor(0x93406D5E74AA8D9F, 0x64AFA2D15AAA959F) == 0xF7EFCF8F2E001800
  {
    hide Bits.Xor;
    WordXorIs(0x93, 0x40, 0x6D, 0x5E, 0x64, 0xAF, 0xA2, 0xD1);
    WordXorIs(0x74, 0xAA, 0x8D, 0x9F, 0x5A, 0xAA, 0x95, 0x9F);
    HalvesXor(0x93406D5E, 0x74AA8D9F, 0x64AFA2D1, 0x5AAA959F);
  }

  lemma Word6()
    ensures Process4(0x93406D5E74AA8D9F, 0x2C2B2A29) == 0xF5A4CD500D560742
  {
    hide Mul, Rotl, Xor, Bits.Pow2;
    PowersUsed();
    MulIs(0x2C2B2A29, 0x9E3779B185EBCA87, 0x1B4C364A, 0x64AFA2D15AAA959F);
    Word6X();
    RotlIs(0xF7EFCF8F2E001800, 23, 0x7BF7E7, 0x18F2E001800, 0x20000000000, 0x800000);
    MulIs(0xC797000C007BF7E7, 0xC2B2AE3D27D4EB4F, 0x97CBBCDF70C774C2, 0xDF4E659E6F1E8D49);
  }

  lemma MixLongAX()
    ensures Xor(0xF5A4CD500D560742, 0x7AD266A8) == 0xF5A4CD50778461EA
  {
    hide Bits.Xor;
    WordXorIs(0xF5, 0xA4, 0xCD, 0x50, 0x00, 0x00, 0x00, 0x00);
    WordXorIs(0x0D, 0x56, 0x07, 0x42, 0x7A, 0xD2, 0x66, 0xA8);
    HalvesXor(0xF5A4CD50, 0xD560742, 0x0, 0x7AD266A8);
  }

  lemma MixLongBX()
    ensures Xor(0x3CF8BED923840536, 0x1E7C5F6C9) == 0x3CF8BED8C441F3FF
  {
    hide Bits.Xor;
    WordXorIs(0x3C, 0xF8, 0xBE, 0xD9, 0x00, 0x00, 0x00, 0x01);
    WordXorIs(0x23, 0x84, 0x05, 0x36, 0xE7, 0xC5, 0xF6, 0xC9);
    HalvesXor(0x3CF8BED9, 0x23840536, 0x1, 0xE7C5F6C9);
  }

  lemma MixLongCX()
    ensures Xor(0xC64840ABDE42DA07, 0xC64840AB) == 0xC64840AB180A9AAC
  {
    hide Bits.Xor;
    WordXorIs(0xC6, 0x48, 0x40, 0xAB, 0x00, 0x00, 0x00, 0x00);
    WordXorIs(0xDE, 0x42, 0xDA, 0x07, 0xC6, 0x48, 0x40, 0xAB);
    HalvesXor(0xC64840AB, 0xDE42DA07, 0x0, 0xC64840AB);
  }

  lemma AvalancheLong()
    ensures Avalanche(0xF5A4CD500D560742) == 0xC64840AB180A9AAC
  {
    hide Xor, ShiftRight, Mul, Bits.Pow2;
    PowersUsed();
    MixLongAX();
    ShiftIs(0xF5A4CD500D560742, 33, 0x7AD266A8, 0xD560742, 0x200000000);
    MulIs(0xF5A4CD50778461EA, 0xC2B2AE3D27D4EB4F, 0xBAD2575E6E8F7333, 0x3CF8BED923840536);
    MixLongBX();
    ShiftIs(0x3CF8BED923840536, 29, 0x1E7C5F6C9, 0x3840536, 0x20000000);
    MulIs(0x3CF8BED8C441F3FF, 0x165667B19E3779F9, 0x551F4A92023803D, 0xC64840ABDE42DA07);
    MixLongCX();
    ShiftIs(0xC64840ABDE42DA07, 32, 0xC64840AB, 0xDE42DA07, 0x100000000);
  }

  const LONG: seq<Byte> :=
    [1, 2, 3, 4, 5, 6, 7, 8, 9, 10, 11, 12, 13, 14, 15, 16]
    + [17, 18, 19, 20, 21, 22, 23, 24, 25, 26, 27, 28, 29, 30, 31, 32, 33, 34, 35, 36, 37, 38, 39, 40, 41, 42, 43, 44]

  lemma LongSize()
    ensures |LONG| == 44
  {
  }

  lemma LongWord1()
    requires |LONG| == 44
    ensures Read64(LONG, 0) == 0x807060504030201
  {
    assert Read32(LONG, 0) == 0x4030201 && Read32(LONG, 4) == 0x8070605;
  }

  lemma LongWord2()
    requires |LONG| == 44
    ensures Read64(LONG, 8) == 0x100F0E0D0C0B0A09
  {
    assert Read32(LONG, 8) == 0xC0B0A09 && Read32(LONG, 12) == 0x100F0E0D;
  }

  lemma LongWord3()
    requires |LONG| == 44
    ensures Read64(LONG, 16) == 0x1817161514131211
  {
    assert Read32(LONG, 16) == 0x14131211 && Read32(LONG, 20) == 0x18171615;
  }

  lemma LongWord4()
    requires |LONG| == 44
    ensures Read64(LONG, 24) == 0x201F1E1D1C1B1A19
  {
    assert Read32(LONG, 24) == 0x1C1B1A19 && Read32(LONG, 28) == 0x201F1E1D;
  }

  lemma LongTail()
    ensures |LONG| == 44 && LONG[32..] == [33, 34, 35, 36, 37, 38, 39, 40, 41, 42, 43, 44]
    ensures Read64(LONG[32..], 0) == 0x2827262524232221
    ensures LONG[32..][8..] == [41, 42, 43, 44] && Read32(LONG[32..][8..], 0) == 0x2C2B2A29
  {
    var s: seq<Byte> := [33, 34, 35, 36, 37, 38, 39, 40, 41, 42, 43, 44];
    assert LONG[32..] == s;
    assert Read32(s, 0) == 0x24232221 && Read32(s, 4) == 0x28272625;
    assert s[8..] == [41, 42, 43, 44];
  }

  lemma LongLanes()
    ensures |LONG| == 44 && Stripes(Start(0), LONG, 0) == Lanes(0x84067DD7D1F3B82F, 0x53248DD1B14B7EF7, 0x5A7802885A29AED5, 0x299612823981759D)
    ensures Remainder(LONG, 0) == 32
  {
    hide Round, Read64;
    LongSize();
    LongWord1();
    LongWord2();
    LongWord3();
    LongWord4();
    assert Start(0) == Lanes(0x60EA27EEADC0B5D6, 0xC2B2AE3D27D4EB4F, 0x0, 0x61C8864E7A143579);
    Lane1();
    Lane2();
    Lane3();
    Lane4();
    assert Stripes(Start(0), LONG, 0) == Stripes(Stripe(Start(0), LONG, 0), LONG, 32);
  }

  /** The hash of the forty-four bytes from 1 to 44: a stripe, a long word and a word. */
  lemma HashOfLong()
    ensures Hash(LONG, 0) == 0xC64840AB180A9AAC
  {
    hide Avalanche, Process8, Process4, Process1, Stripes, Remainder, Merge, Read64, Read32, Start, Finish;
    LongTail();
    LongLanes();
    MergeLong();
    FinishIs(0xDA9D5E4F6F766B65, LONG[32..]);
    FinishIs(0x93406D5E74AA8D9F, LONG[32..][8..]);
    assert LONG[32..][8..][4..] == [];
    FinishIs(0xF5A4CD500D560742, []);
    Long5();
    Word6();
    AvalancheLong();
  }
}
