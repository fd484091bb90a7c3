/**
 * Byte-level value types and the big-endian 32-bit layout that the command
 * buffers use for tariff energy readings.
 */
module Bytes {

  /** An element of a `Uint8Array`. */
  type byte = x: int | 0 <= x < 0x100

  /** An unsigned 32-bit integer, the range of `getUint32`/`setUint32`. */
  type uint32 = x: int | 0 <= x < 0x1_0000_0000

  /** Big-endian bytes of `v`: the most significant byte first. */
  function Uint32ToBytes(v: uint32): (r: seq<byte>)
    ensures |r| == 4
  {
    var b3 := v % 0x100;
    var v1 := v / 0x100;
    var b2 := v1 % 0x100;
    var v2 := v1 / 0x100;
    var b1 := v2 % 0x100;
    var b0 := v2 / 0x100;
    [b0, b1, b2, b3]
  }

  /** The value of four bytes read in big-endian order: each byte carries its positional weight. */
  function BytesToUint32(s: seq<byte>): (v: uint32)
    requires |s| == 4
    ensures v == s[0] as int * 0x100_0000 + s[1] as int * 0x1_0000 + s[2] as int * 0x100 + s[3]
  {
    ((s[0] as int * 0x100 + s[1]) * 0x100 + s[2]) * 0x100 + s[3]
  }

  /** Splitting off the low byte of n*256 + d gives back n and d. */
  lemma SplitLowByte(n: nat, d: byte)
    ensures (n * 0x100 + d) / 0x100 == n && (n * 0x100 + d) % 0x100 == d
  {
  }

  /** Reading back what was written gives the value written. */
  lemma Uint32RoundTrip(v: uint32)
    ensures BytesToUint32(Uint32ToBytes(v)) == v
  {
    var v1 := v / 0x100;
    var v2 := v1 / 0x100;
    assert v == v1 * 0x100 + v % 0x100;
    assert v1 == v2 * 0x100 + v1 % 0x100;
    assert v2 == (v2 / 0x100) * 0x100 + v2 % 0x100;
  }

  /** Writing what was read gives back the four bytes read. */
  lemma BytesRoundTrip(s: seq<byte>)
    requires |s| == 4
    ensures Uint32ToBytes(BytesToUint32(s)) == s
  {
    var hi: nat := s[0] as int * 0x100 + s[1];
    var mid: nat := hi * 0x100 + s[2];
    SplitLowByte(mid, s[3]);
    SplitLowByte(hi, s[2]);
    SplitLowByte(s[0], s[1]);
  }
}
