/** Bytes and the fixed-width 32-bit unsigned length field of the jstore
    header. The format fixes the byte order of that field to little-endian. */
module Bytes {

  /** One octet of a file. */
  newtype byte = x: int | 0 <= x < 256

  /** Number of distinct values of a 32-bit unsigned integer. */
  const Uint32Limit: nat := 0x1_0000_0000

  /** A value that fits the 32-bit unsigned length field. */
  type uint32 = x: nat | x < Uint32Limit

  /** Width in bytes of one header field. */
  const FieldWidth: nat := 4

  /** The conversion `numpy.uint32(n)` of a non-negative length: it keeps
      the low 32 bits and silently drops the rest. */
  function Wrap32(n: nat): (r: uint32)
    ensures n < Uint32Limit <==> r == n
    ensures n >= Uint32Limit ==> r < n
    ensures (n - r) % Uint32Limit == 0
  {
    n % Uint32Limit
  }

  /** Little-endian encoding of one header field: byte `j` carries the
      place value 256^j, so the least significant byte comes first. */
  function EncodeU32(x: uint32): (r: seq<byte>)
    ensures |r| == FieldWidth
    ensures x == r[0] as nat + 0x100 * r[1] as nat + 0x1_0000 * r[2] as nat + 0x100_0000 * r[3] as nat
  {
    var x1 := x / 0x100;
    var x2 := x1 / 0x100;
    assert x == x % 0x100 + 0x100 * (x1 % 0x100) + 0x1_0000 * (x2 % 0x100) + 0x100_0000 * (x2 / 0x100);
    [(x % 0x100) as byte, (x1 % 0x100) as byte, (x2 % 0x100) as byte, (x2 / 0x100) as byte]
  }

  /** Little-endian decoding of four bytes: the first byte is the least
      significant one and the last the most significant. */
  function DecodeU32(b: seq<byte>): (r: uint32)
    requires |b| == FieldWidth
    ensures r % 0x100 == b[0] as nat
    ensures r / 0x100_0000 == b[3] as nat
  {
    LowByte(b[0] as nat, b[1] as nat + 0x100 * (b[2] as nat + 0x100 * b[3] as nat));
    b[0] as nat + 0x100 * (b[1] as nat + 0x100 * (b[2] as nat + 0x100 * b[3] as nat))
  }

  /** Splitting off the low byte of `lo + 256 * hi`. */
  lemma LowByte(lo: nat, hi: nat)
    requires lo < 0x100
    ensures (lo + 0x100 * hi) % 0x100 == lo
    ensures (lo + 0x100 * hi) / 0x100 == hi
  {
  }

  /** Decoding undoes encoding: a length survives the trip through the header. */
  lemma DecodeEncodeU32(x: uint32)
    ensures DecodeU32(EncodeU32(x)) == x
  {
  }

  /** Encoding undoes decoding: every four-byte group is the encoding of
      exactly one value, so the header format has no redundant spellings. */
  lemma EncodeDecodeU32(b: seq<byte>)
    requires |b| == FieldWidth
    ensures EncodeU32(DecodeU32(b)) == b
  {
    var hi2 := b[2] as nat + 0x100 * b[3] as nat;
    var hi1 := b[1] as nat + 0x100 * hi2;
    LowByte(b[0] as nat, hi1);
    LowByte(b[1] as nat, hi2);
    LowByte(b[2] as nat, b[3] as nat);
  }
}
