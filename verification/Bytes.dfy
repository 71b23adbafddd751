/** Bytes, fixed-width unsigned integers and their little-endian representation. */
module Bytes {

  type Byte = b: int | 0 <= b < 256
  type Uint32 = u: int | 0 <= u < 0x1_0000_0000

  /** The four bytes of an unsigned int, as the machine stores it. */
  function Encode32(i: Uint32): (s: seq<Byte>)
    ensures |s| == 4
  {
    [i % 256, i / 256 % 256, i / 0x1_0000 % 256, i / 0x100_0000]
  }

  function Decode32(s: seq<Byte>): Uint32
    requires |s| >= 4
  {
    var a: int, b: int, c: int, d: int := s[0], s[1], s[2], s[3];
    a + 256 * b + 0x1_0000 * c + 0x100_0000 * d
  }

  lemma DecodeEncode(i: Uint32, rest: seq<Byte>)
    ensures Decode32(Encode32(i) + rest) == i
  {
    var q, r := i / 256, i / 0x1_0000;
    assert i == 256 * q + i % 256 && q == 256 * r + q % 256;
    assert r == 256 * (i / 0x100_0000) + r % 256;
  }

  lemma EncodeDecode(s: seq<Byte>)
    requires |s| == 4
    ensures Encode32(Decode32(s)) == s
  {
    Parts(s[0], s[1], s[2], s[3]);
  }

  lemma Parts(a: Byte, b: Byte, c: Byte, d: Byte)
    ensures var u: int := a + 256 * b + 0x1_0000 * c + 0x100_0000 * d;
      u % 256 == a && u / 256 % 256 == b && u / 0x1_0000 % 256 == c && u / 0x100_0000 == d
  {
    var u: int := a + 256 * b + 0x1_0000 * c + 0x100_0000 * d;
    assert u / 256 == b + 256 * c + 0x1_0000 * d;
    assert u / 0x1_0000 == c + 256 * d;
  }

  /** The low byte comes first. */
  lemma LowByteFirst(i: Uint32, b: Byte)
    requires i < 0x100_0000
    ensures Encode32(256 * i + b) == [b] + Encode32(i)[..3]
  {
    var n: int := 256 * i + b;
    assert n / 256 == i && n / 0x1_0000 == i / 256 && n / 0x100_0000 == i / 0x1_0000;
  }
}
