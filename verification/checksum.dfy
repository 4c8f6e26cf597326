/**
 * The protocol's additive checksum: the sum of a range of bytes, modulo 2^16,
 * with no carry folding.
 */
module Checksums {
  import opened Bytes

  /** The plain (unbounded) sum of the bytes of `s`. */
  function Sum(s: seq<byte>): nat
  {
    if s == [] then 0 else Sum(s[..|s| - 1]) + s[|s| - 1]
  }

  /** Each byte adds at most 0xFF. */
  lemma {:induction false} SumBound(s: seq<byte>)
    ensures Sum(s) <= 0xFF * |s|
  {
    if s != [] {
      SumBound(s[..|s| - 1]);
    }
  }

  /** The sum is additive over concatenation. */
  lemma {:induction false} SumAppend(s: seq<byte>, t: seq<byte>)
    ensures Sum(s + t) == Sum(s) + Sum(t)
    decreases |t|
  {
    if t != [] {
      assert (s + t)[..|s + t| - 1] == s + t[..|t| - 1];
      SumAppend(s, t[..|t| - 1]);
    } else {
      assert s + t == s;
    }
  }

  /** The sum can equally be taken from the first byte on. */
  lemma SumFront(s: seq<byte>)
    requires s != []
    ensures Sum(s) == s[0] + Sum(s[1..])
  {
    SumAppend([s[0]], s[1..]);
    assert [s[0]] + s[1..] == s;
    assert [s[0]][..0] == [];
  }

  /**
   * The 16-bit checksum of `s`. Over a range of at most 257 bytes the sum
   * cannot reach 2^16, so no wrap-around takes place.
   */
  function Checksum(s: seq<byte>): (c: u16)
    ensures |s| <= 257 ==> c == Sum(s)
  {
    SumBound(s);
    Sum(s) % 0x1_0000
  }

  /** Appending one byte adds it to the checksum, modulo 2^16. */
  lemma ChecksumAppendByte(s: seq<byte>, b: byte)
    ensures Checksum(s + [b]) == (Checksum(s) + b) % 0x1_0000
  {
    assert (s + [b])[..|s + [b]| - 1] == s;
  }

  /** The checksum of a concatenation is the wrapped sum of the parts' checksums. */
  lemma ChecksumConcat(s: seq<byte>, t: seq<byte>)
    ensures Checksum(s + t) == (Checksum(s) + Checksum(t)) % 0x1_0000
  {
    SumAppend(s, t);
    WrapAdd(Sum(s), Sum(t));
  }

  /** Wrapping the parts first does not change a wrapped sum. */
  lemma WrapAdd(a: nat, b: nat)
    ensures (a + b) % 0x1_0000 == (a % 0x1_0000 + b % 0x1_0000) % 0x1_0000
  {
    var q := a / 0x1_0000 + b / 0x1_0000;
    assert a + b == q * 0x1_0000 + (a % 0x1_0000 + b % 0x1_0000);
  }
}
