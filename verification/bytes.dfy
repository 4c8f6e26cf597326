/**
 * Fixed-width unsigned integers of the wire format and their big-endian
 * byte encodings (`u16::to_be_bytes`, `u32::to_be_bytes` and
 * `BigEndian::read_u16` in the driver).
 */
module Bytes {
  type byte = x: int | 0 <= x < 0x100
  type u16 = x: int | 0 <= x < 0x1_0000
  type u32 = x: int | 0 <= x < 0x1_0000_0000

  /** The two bytes of `x`, most significant first. */
  function BE16(x: u16): (s: seq<byte>)
    ensures |s| == 2 && (s[0] as int) * 0x100 + s[1] == x
  {
    [x / 0x100, x % 0x100]
  }

  /** The value of the big-endian pair `hi lo`. */
  function FromBE16(hi: byte, lo: byte): (x: u16)
    ensures x / 0x100 == hi && x % 0x100 == lo
  {
    (hi as int) * 0x100 + lo
  }

  /** The four bytes of `x`, most significant first. */
  function BE32(x: u32): (s: seq<byte>)
    ensures |s| == 4
    ensures ((s[0] as int) * 0x100 + s[1]) * 0x1_0000 + (s[2] as int) * 0x100 + s[3] == x
  {
    BE16(x / 0x1_0000) + BE16(x % 0x1_0000)
  }

  /** The value of the big-endian quadruple `b0 b1 b2 b3`. */
  function FromBE32(b0: byte, b1: byte, b2: byte, b3: byte): (x: u32)
    ensures x / 0x1_0000 == FromBE16(b0, b1) && x % 0x1_0000 == FromBE16(b2, b3)
  {
    (FromBE16(b0, b1) as int) * 0x1_0000 + FromBE16(b2, b3)
  }

  /** Reading back the encoding of a 16-bit value gives the value. */
  lemma BE16RoundTrip(x: u16)
    ensures FromBE16(BE16(x)[0], BE16(x)[1]) == x
  {
  }

  /** Encoding a decoded pair gives the pair back. */
  lemma FromBE16RoundTrip(hi: byte, lo: byte)
    ensures BE16(FromBE16(hi, lo)) == [hi, lo]
  {
  }

  /** Reading back the encoding of a 32-bit value gives the value. */
  lemma BE32RoundTrip(x: u32)
    ensures var s := BE32(x); FromBE32(s[0], s[1], s[2], s[3]) == x
  {
    var s := BE32(x);
    BE16RoundTrip(x / 0x1_0000);
    BE16RoundTrip(x % 0x1_0000);
    assert FromBE16(s[0], s[1]) == x / 0x1_0000;
    assert FromBE16(s[2], s[3]) == x % 0x1_0000;
  }

  /** Encoding a decoded quadruple gives the quadruple back. */
  lemma FromBE32RoundTrip(b0: byte, b1: byte, b2: byte, b3: byte)
    ensures BE32(FromBE32(b0, b1, b2, b3)) == [b0, b1, b2, b3]
  {
    FromBE16RoundTrip(b0, b1);
    FromBE16RoundTrip(b2, b3);
  }
}
