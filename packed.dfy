/**
  The packed unsigned integer format of `WritePackedUInt32`/`WritePackedUInt64`
  and `ReadPackedUInt32`/`ReadPackedUInt64`, adapted from the SQLite4 varint.

  The first byte alone says how many bytes follow:
    0..240    the value itself
    241..248  one more byte:    value = 240 + 256 * (first - 241) + next
    249       two more bytes:   value = 2288 + 256 * next + next'
    250..255  3..8 more bytes:  the value, least significant byte first
  The last tier differs from SQLite4, which stores those bytes big-endian.
  The 32-bit reader knows only five tiers and treats 251..255 alike.
*/
module Packed {
  import opened Bytes
  import opened Codec

  /** The bytes `WritePackedUInt32` emits for v. */
  function PackedUInt32(v: uint32): (r: seq<byte>)
  {
    if v <= 240 then [v]
    else if v <= 2287 then [(v - 240) / 256 + 241, (v - 240) % 256]
    else if v <= 67823 then [249, (v - 2288) / 256, (v - 2288) % 256]
    else if v <= 16777215 then [250] + LittleEndian(v, 3)
    else [251] + LittleEndian(v, 4)
  }

  /** The bytes `WritePackedUInt64` emits for v. */
  function PackedUInt64(v: uint64): (r: seq<byte>)
  {
    if v <= 240 then [v]
    else if v <= 2287 then [(v - 240) / 256 + 241, (v - 240) % 256]
    else if v <= 67823 then [249, (v - 2288) / 256, (v - 2288) % 256]
    else if v <= 16777215 then [250] + LittleEndian(v, 3)
    else if v <= 4294967295 then [251] + LittleEndian(v, 4)
    else if v <= 1099511627775 then [252] + LittleEndian(v, 5)
    else if v <= 281474976710655 then [253] + LittleEndian(v, 6)
    else if v <= 72057594037927935 then [254] + LittleEndian(v, 7)
    else [255] + LittleEndian(v, 8)
  }

  /** Total length of a packed 32-bit value, read off its first byte. */
  function PackedLength32(first: byte): (n: nat)
  {
    if first <= 240 then 1
    else if first <= 248 then 2
    else if first == 249 then 3
    else if first == 250 then 4
    else 5
  }

  /** Total length of a packed 64-bit value, read off its first byte. */
  function PackedLength64(first: byte): (n: nat)
  {
    if first <= 240 then 1
    else if first <= 248 then 2
    else if first == 249 then 3
    else first - 246
  }

  /** The value a reader assembles from a first byte and the bytes its tier adds. */
  function PackedValue(first: byte, tail: seq<byte>): nat
    requires 241 <= first <= 248 ==> |tail| >= 1
    requires first == 249 ==> |tail| >= 2
  {
    if first <= 240 then first
    else if first <= 248 then 240 + 256 * (first - 241) + tail[0]
    else if first == 249 then 2288 + 256 * tail[0] + tail[1]
    else FromLittleEndian(tail)
  }

  /**
    What `ReadPackedUInt32` returns from the bytes after the cursor. It reads one
    byte at a time, so on running out it fails having taken what was left.
  */
  function DecodePacked32(bs: seq<byte>): (r: Read<uint32>)
    ensures r.Got? ==> bs != [] && 1 <= r.used == PackedLength32(bs[0]) <= |bs|
    ensures r.Failed? ==> r.used == |bs|
  {
    if bs == [] then Failed(0)
    else
      var n := PackedLength32(bs[0]);
      if |bs| < n then Failed(|bs|)
      else
        FromLittleEndianBound(bs[1..n]);
        Pow256Values();
        Got(PackedValue(bs[0], bs[1..n]), n)
  }

  /** What `ReadPackedUInt64` returns from the bytes after the cursor. */
  function DecodePacked64(bs: seq<byte>): (r: Read<uint64>)
    ensures r.Got? ==> bs != [] && 1 <= r.used == PackedLength64(bs[0]) <= |bs|
    ensures r.Failed? ==> r.used == |bs|
  {
    if bs == [] then Failed(0)
    else
      var n := PackedLength64(bs[0]);
      if |bs| < n then Failed(|bs|)
      else
        FromLittleEndianBound(bs[1..n]);
        Pow256Values();
        Got(PackedValue(bs[0], bs[1..n]), n)
  }

  /**
    The size table of `WritePackedUInt32`: 1 byte up to 240, 2 up to 2287
    (first byte 241..248), 3 up to 67823 (first byte 249), 4 up to 2^24 - 1
    (first byte 250), otherwise 5 (first byte 251). The first byte always
    announces the length the reader will take.
  */
  lemma PackedUInt32Layout(v: uint32)
    ensures var r := PackedUInt32(v);
      && (v <= 240 ==> r == [v])
      && (240 < v <= 2287 ==> |r| == 2 && 241 <= r[0] <= 248)
      && (2287 < v <= 67823 ==> |r| == 3 && r[0] == 249)
      && (67823 < v <= 16777215 ==> |r| == 4 && r[0] == 250)
      && (16777215 < v ==> |r| == 5 && r[0] == 251)
      && |r| == PackedLength32(r[0])
  {
  }

  /**
    The size table of `WritePackedUInt64`: the first five tiers as for 32 bits,
    then first bytes 252, 253, 254, 255 for 6, 7, 8 and 9 bytes, each followed by
    the value least significant byte first.
  */
  lemma PackedUInt64Layout(v: uint64)
    ensures var r := PackedUInt64(v);
      && (v <= 4294967295 ==> r == PackedUInt32(v))
      && (4294967295 < v <= 1099511627775 ==> r == [252] + LittleEndian(v, 5))
      && (1099511627775 < v <= 281474976710655 ==> r == [253] + LittleEndian(v, 6))
      && (281474976710655 < v <= 72057594037927935 ==> r == [254] + LittleEndian(v, 7))
      && (72057594037927935 < v ==> r == [255] + LittleEndian(v, 8))
      && |r| == PackedLength64(r[0])
  {
  }

  /** `ReadPackedUInt32` inverts `WritePackedUInt32` for every 32-bit value and consumes exactly the bytes written. */
  lemma PackedUInt32RoundTrip(v: uint32, rest: seq<byte>)
    ensures DecodePacked32(PackedUInt32(v) + rest) == Got(v, |PackedUInt32(v)|)
  {
    var p := PackedUInt32(v);
    var bs := p + rest;
    Pow256Values();
    if v > 67823 {
      var n := |p|;
      assert bs[1..n] == LittleEndian(v, n - 1);
      LittleEndianRoundTrip(v, n - 1);
    }
  }

  /** `ReadPackedUInt64` inverts `WritePackedUInt64` for every 64-bit value, so at every tier boundary. */
  lemma PackedUInt64RoundTrip(v: uint64, rest: seq<byte>)
    ensures DecodePacked64(PackedUInt64(v) + rest) == Got(v, |PackedUInt64(v)|)
  {
    var p := PackedUInt64(v);
    var bs := p + rest;
    Pow256Values();
    if v > 67823 {
      var n := |p|;
      assert bs[1..n] == LittleEndian(v, n - 1);
      LittleEndianRoundTrip(v, n - 1);
    }
  }

  /**
    The 32-bit reader takes every first byte from 251 to 255 as the five-byte
    form, so the exception after its last branch can never be thrown: any five
    bytes starting with such a byte decode to a 32-bit value.
  */
  lemma Packed32AcceptsEveryFirstByte(bs: seq<byte>)
    requires |bs| >= 5
    ensures DecodePacked32(bs).Got?
    ensures bs[0] >= 251 ==> DecodePacked32(bs) == Got(FromLittleEndian(bs[1..5]), 5)
  {
  }
}
