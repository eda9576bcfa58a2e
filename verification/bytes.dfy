/** Bytes, machine words and the bytes of a word. */
module Bytes {

  type Byte = x: int | 0 <= x < 256
  type U32 = x: int | 0 <= x < 0x1_0000_0000
  type U64 = x: int | 0 <= x < 0x1_0000_0000_0000_0000

  datatype Option<+T> = None | Some(value: T)

  /** Four bytes, the least significant first. */
  function WordBytes(x: U32): (r: seq<Byte>)
    ensures |r| == 4
  {
    [x % 256, x / 256 % 256, x / 65536 % 256, x / 16777216]
  }

  function Read32(s: seq<Byte>, p: nat): U32
    requires p + 4 <= |s|
  {
    s[p] as int + 0x100 * s[p + 1] as int + 0x1_0000 * s[p + 2] as int + 0x100_0000 * s[p + 3] as int
  }

  function Read64(s: seq<Byte>, p: nat): U64
    requires p + 8 <= |s|
  {
    Read32(s, p) as int + 0x1_0000_0000 * Read32(s, p + 4) as int
  }

  /** A word reads back. */
  lemma WordBack(x: U32)
    ensures Read32(WordBytes(x), 0) == x
  {
    var a := x / 256;
    var b := a / 256;
    assert x == 256 * a + x % 256 && a == 256 * b + a % 256;
    assert b == x / 65536;
    assert b == 256 * (x / 16777216) + b % 256;
  }

  lemma WordAt(s: seq<Byte>, p: nat, w: seq<Byte>)
    requires p + 4 <= |s| && |w| == 4 && s[p] == w[0] && s[p + 1] == w[1] && s[p + 2] == w[2] && s[p + 3] == w[3]
    ensures Read32(s, p) == Read32(w, 0)
  {
  }
}
