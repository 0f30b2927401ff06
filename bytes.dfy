/**
  Fixed-width integers and their little-endian byte layout.

  C#'s `byte`, `short`, `ushort`, `int`, `uint`, `long` and `ulong` become
  subset types of `int`. A signed value travels as its two's-complement bit
  pattern, and every multi-byte value is laid out least significant byte first.
*/
module Bytes {

  type byte = x: int | 0 <= x < 0x100
  type sbyte = x: int | -0x80 <= x < 0x80
  type uint16 = x: int | 0 <= x < 0x1_0000
  type int16 = x: int | -0x8000 <= x < 0x8000
  type uint32 = x: int | 0 <= x < 0x1_0000_0000
  type int32 = x: int | -0x8000_0000 <= x < 0x8000_0000
  type uint64 = x: int | 0 <= x < 0x1_0000_0000_0000_0000
  type int64 = x: int | -0x8000_0000_0000_0000 <= x < 0x8000_0000_0000_0000

  /** 256 to the power n: one more than the largest value n bytes can hold. */
  function Pow256(n: nat): (r: nat)
    ensures r > 0
  {
    if n == 0 then 1 else 0x100 * Pow256(n - 1)
  }

  lemma Pow256Values()
    ensures Pow256(1) == 0x100 && Pow256(2) == 0x1_0000 && Pow256(3) == 0x100_0000
    ensures Pow256(4) == 0x1_0000_0000 && Pow256(5) == 0x100_0000_0000
    ensures Pow256(6) == 0x1_0000_0000_0000 && Pow256(7) == 0x100_0000_0000_0000
    ensures Pow256(8) == 0x1_0000_0000_0000_0000
  {
  }

  /**
    The n low-order bytes of u, least significant first. Byte k is
    `(u >> 8k) & 0xFF`, the byte the writer emits k-th for a fixed-width value.
  */
  function LittleEndian(u: nat, n: nat): (r: seq<byte>)
    ensures |r| == n
  {
    if n == 0 then [] else [u % 0x100] + LittleEndian(u / 0x100, n - 1)
  }

  /** The value the reader assembles from bytes taken least significant first. */
  function FromLittleEndian(bs: seq<byte>): nat
  {
    if bs == [] then 0 else bs[0] + 0x100 * FromLittleEndian(bs[1..])
  }

  lemma {:induction false} FromLittleEndianBound(bs: seq<byte>)
    ensures FromLittleEndian(bs) < Pow256(|bs|)
  {
    if bs != [] {
      FromLittleEndianBound(bs[1..]);
    }
  }

  /** Reading back n little-endian bytes gives the value written, for any value that fits. */
  lemma {:induction false} LittleEndianRoundTrip(u: nat, n: nat)
    requires u < Pow256(n)
    ensures FromLittleEndian(LittleEndian(u, n)) == u
  {
    if n > 0 {
      LittleEndianRoundTrip(u / 0x100, n - 1);
      var bs := LittleEndian(u, n);
      assert bs[1..] == LittleEndian(u / 0x100, n - 1);
    }
  }

  /** Conversely, writing back the value of a byte string reproduces those bytes. */
  lemma {:induction false} FromLittleEndianRoundTrip(bs: seq<byte>)
    ensures LittleEndian(FromLittleEndian(bs), |bs|) == bs
  {
    if bs != [] {
      FromLittleEndianRoundTrip(bs[1..]);
      var v := FromLittleEndian(bs);
      assert v % 0x100 == bs[0] && v / 0x100 == FromLittleEndian(bs[1..]);
    }
  }

  /** A prefix of little-endian bytes is the little-endian form of the value modulo the prefix's range. */
  lemma {:induction false} LittleEndianPrefix(u: nat, n: nat, k: nat)
    requires k <= n
    ensures LittleEndian(u, n)[..k] == LittleEndian(u, k)
  {
    if k > 0 {
      LittleEndianPrefix(u / 0x100, n - 1, k - 1);
      assert LittleEndian(u, n)[..k] == [u % 0x100] + LittleEndian(u / 0x100, n - 1)[..k - 1];
    }
  }

  // Two's complement: the unsigned bit pattern of a signed value and back.
  // `(byte)v` on an sbyte, the shifts-and-masks on a short, int or long, and
  // the casts `(short)`, `(int)`, `(long)` on the reassembled pattern.

  function SByteBits(v: sbyte): byte { if v < 0 then v + 0x100 else v }
  function SByteFromBits(u: byte): sbyte { if u >= 0x80 then u - 0x100 else u }
  function Int16Bits(v: int16): uint16 { if v < 0 then v + 0x1_0000 else v }
  function Int16FromBits(u: uint16): int16 { if u >= 0x8000 then u - 0x1_0000 else u }
  function Int32Bits(v: int32): uint32 { if v < 0 then v + 0x1_0000_0000 else v }
  function Int32FromBits(u: uint32): int32 { if u >= 0x8000_0000 then u - 0x1_0000_0000 else u }
  function Int64Bits(v: int64): uint64 { if v < 0 then v + 0x1_0000_0000_0000_0000 else v }
  function Int64FromBits(u: uint64): int64
  {
    if u >= 0x8000_0000_0000_0000 then u - 0x1_0000_0000_0000_0000 else u
  }
}
