/**
  `NetReader`: a cursor over a received byte array (the `NetworkBuffer`).
  Each `Read…` method takes bytes from the cursor and is proved to return what
  the matching `Decode…` function of `Codec` or `Packed` says of the bytes
  that were after the cursor, moving the cursor by the bytes it consumed (also
  when it throws, which the result reports as `Failed`).
*/
module NetReading {
  import opened Wrappers
  import opened Bytes
  import opened Codec
  import opened Packed
  import opened Dictionaries

  class NetReader {
    /** The bytes the reader was made over. */
    const data: seq<byte>
    /** The `NetworkBuffer`'s position. */
    var pos: nat

    /** `NetReader(byte[])`: reading starts at the first byte. */
    constructor (buffer: seq<byte>)
      ensures data == buffer && pos == 0
      ensures Rest() == buffer
    {
      data := buffer;
      pos := 0;
    }

    /** The bytes after the cursor, none when it stands at or beyond the end. */
    function Rest(): (r: seq<byte>)
      reads this
      ensures |r| == if pos <= |data| then |data| - pos else 0
    {
      if pos <= |data| then data[pos..] else []
    }

    /** `Length`: the number of bytes read from. */
    function Length(): (r: nat)
      reads this
      ensures pos <= r ==> |Rest()| == r - pos
      ensures pos >= r ==> Rest() == []
    {
      |data|
    }

    /** `SeekZero`: back to the first byte. */
    method SeekZero()
      modifies this
      ensures pos == 0 && Rest() == data
    {
      pos := 0;
    }

    /** `Position`: where the next read starts. */
    function Position(): (r: nat)
      reads this
      ensures r <= |data| ==> Rest() == data[r..]
    {
      pos
    }

    /** `SetPosition`: the cursor to p (a `uint` there, unbounded here); reading from beyond the end fails. */
    method SetPosition(p: nat)
      modifies this
      ensures pos == p
      ensures p <= |data| ==> Rest() == data[p..]
    {
      pos := p;
    }

    /** `ReadByte`: the byte at the cursor; at the end it throws and the cursor stays. */
    method ReadByte() returns (r: Read<byte>)
      modifies this
      ensures r == DecodeByte(old(Rest()))
      ensures pos == old(pos) + r.used
    {
      if pos < |data| {
        r := Got(data[pos], 1);
        pos := pos + 1;
      } else {
        r := Failed(0);
      }
    }

    /**
      n bytes one `ReadByte` at a time, as the multi-byte reads take them:
      all n when that many remain, otherwise a failure after every remaining
      byte was taken.
    */
    method ReadEach(n: nat) returns (r: Read<seq<byte>>)
      modifies this
      ensures n <= |old(Rest())| ==> r == Got(old(Rest())[..n], n)
      ensures |old(Rest())| < n ==> r == Failed(|old(Rest())|)
      ensures pos == old(pos) + r.used
    {
      ghost var bs := Rest();
      ghost var p0 := pos;
      var got: seq<byte> := [];
      var i := 0;
      while i < n
        invariant 0 <= i <= n && i <= |bs|
        invariant got == bs[..i] && pos == p0 + i
        invariant p0 <= |data| ==> bs == data[p0..]
        invariant p0 > |data| ==> bs == []
      {
        assert Rest() == bs[i..];
        var b := ReadByte();
        if b.Failed? {
          return Failed(i);
        }
        assert bs[..i + 1] == got + [b.value];
        got := got + [b.value];
        i := i + 1;
      }
      r := Got(got, n);
    }

    /** The fixed-width reads: n bytes or'ed together, byte k shifted left by 8k. */
    method ReadUnsigned(n: nat) returns (r: Read<nat>)
      modifies this
      ensures r == DecodeUnsigned(old(Rest()), n)
      ensures pos == old(pos) + r.used
    {
      var bs := ReadEach(n);
      match bs
      case Failed(k) =>
        r := Failed(k);
      case Got(got, k) =>
        FromLittleEndianBound(got);
        r := Got(FromLittleEndian(got), k);
    }

    method ReadSByte() returns (r: Read<sbyte>)
      modifies this
      ensures r.Got? <==> old(Rest()) != []
      ensures r.Got? ==> SByteBits(r.value) == old(Rest())[0] && r.used == 1
      ensures pos == old(pos) + r.used
    {
      var b := ReadByte();
      r := match b case Got(u, k) => Got(SByteFromBits(u), k) case Failed(k) => Failed(k);
    }

    /** `ReadChar`: a byte widened to a character. */
    method ReadChar() returns (r: Read<char>)
      modifies this
      ensures r.Got? <==> old(Rest()) != []
      ensures r.Got? ==> r.value as int == old(Rest())[0] && r.used == 1
      ensures pos == old(pos) + r.used
    {
      var b := ReadByte();
      r := match b case Got(u, k) => Got(u as char, k) case Failed(k) => Failed(k);
    }

    method ReadUInt16() returns (r: Read<uint16>)
      modifies this
      ensures r == DecodeUInt16(old(Rest()))
      ensures pos == old(pos) + r.used
    {
      Pow256Values();
      var u := ReadUnsigned(2);
      r := match u case Got(v, k) => Got(v, k) case Failed(k) => Failed(k);
    }

    method ReadInt16() returns (r: Read<int16>)
      modifies this
      ensures r == DecodeInt16(old(Rest()))
      ensures pos == old(pos) + r.used
    {
      var u := ReadUInt16();
      r := match u case Got(v, k) => Got(Int16FromBits(v), k) case Failed(k) => Failed(k);
    }

    method ReadUInt32() returns (r: Read<uint32>)
      modifies this
      ensures r == DecodeUInt32(old(Rest()))
      ensures pos == old(pos) + r.used
    {
      Pow256Values();
      var u := ReadUnsigned(4);
      r := match u case Got(v, k) => Got(v, k) case Failed(k) => Failed(k);
    }

    method ReadInt32() returns (r: Read<int32>)
      modifies this
      ensures r == DecodeInt32(old(Rest()))
      ensures pos == old(pos) + r.used
    {
      var u := ReadUInt32();
      r := match u case Got(v, k) => Got(Int32FromBits(v), k) case Failed(k) => Failed(k);
    }

    method ReadUInt64() returns (r: Read<uint64>)
      modifies this
      ensures r == DecodeUInt64(old(Rest()))
      ensures pos == old(pos) + r.used
    {
      Pow256Values();
      var u := ReadUnsigned(8);
      r := match u case Got(v, k) => Got(v, k) case Failed(k) => Failed(k);
    }

    method ReadInt64() returns (r: Read<int64>)
      modifies this
      ensures r == DecodeInt64(old(Rest()))
      ensures pos == old(pos) + r.used
    {
      var u := ReadUInt64();
      r := match u case Got(v, k) => Got(Int64FromBits(v), k) case Failed(k) => Failed(k);
    }

    /**
      `ReadPackedUInt32`: the first byte, then one `ReadByte` at a time as
      many more as its tier needs. The tiers from 250 up add the bytes least
      significant first (`a1 + (a2 << 8) + …`); every first byte from 251 up
      takes four, so the exception after the last tier is never thrown.
    */
    method ReadPackedUInt32() returns (r: Read<uint32>)
      modifies this
      ensures r == DecodePacked32(old(Rest()))
      ensures pos == old(pos) + r.used
    {
      var a0 := ReadByte();
      if a0.Failed? {
        return Failed(0);
      }
      var first := a0.value;
      if first < 241 {
        return Got(first, 1);
      }
      var more := ReadEach(PackedLength32(first) - 1);
      if more.Failed? {
        return Failed(1 + more.used);
      }
      var a := more.value;
      var v: nat;
      if first <= 248 {
        v := 240 + 256 * (first as int - 241) + a[0] as int;
      } else if first == 249 {
        v := 2288 + 256 * (a[0] as int) + a[1] as int;
      } else {
        v := FromLittleEndian(a);
      }
      assert old(Rest())[1..PackedLength32(first)] == a;
      assert v == DecodePacked32(old(Rest())).value;
      r := Got(v, PackedLength32(first));
    }

    /** `ReadPackedUInt64`: as the 32-bit reader, with first bytes 251 to 255 taking four to eight more bytes. */
    method ReadPackedUInt64() returns (r: Read<uint64>)
      modifies this
      ensures r == DecodePacked64(old(Rest()))
      ensures pos == old(pos) + r.used
    {
      var a0 := ReadByte();
      if a0.Failed? {
        return Failed(0);
      }
      var first := a0.value;
      if first < 241 {
        return Got(first, 1);
      }
      var more := ReadEach(PackedLength64(first) - 1);
      if more.Failed? {
        return Failed(1 + more.used);
      }
      var a := more.value;
      var v: nat;
      if first <= 248 {
        v := 240 + 256 * (first as int - 241) + a[0] as int;
      } else if first == 249 {
        v := 2288 + 256 * (a[0] as int) + a[1] as int;
      } else {
        v := FromLittleEndian(a);
      }
      assert old(Rest())[1..PackedLength64(first)] == a;
      assert v == DecodePacked64(old(Rest())).value;
      r := Got(v, PackedLength64(first));
    }

    /** `ReadBoolean`: true exactly for the byte 1. */
    method ReadBoolean() returns (r: Read<bool>)
      modifies this
      ensures r == DecodeBoolean(old(Rest()))
      ensures pos == old(pos) + r.used
    {
      var b := ReadByte();
      r := match b case Got(u, k) => Got(u == 1, k) case Failed(k) => Failed(k);
    }

    /**
      `ReadBytes`: a negative count throws before reading; otherwise the buffer
      hands over count bytes at once, or throws without moving when fewer remain.
    */
    method ReadBytes(count: int) returns (r: Read<seq<byte>>)
      modifies this
      ensures r == DecodeBytes(old(Rest()), count)
      ensures pos == old(pos) + r.used
    {
      if count < 0 {
        return Failed(0);
      }
      if |Rest()| < count {
        return Failed(0);
      }
      r := Got(Rest()[..count], count);
      pos := pos + count;
    }

    /**
      `ReadString`: a 16-bit length, then that many bytes. Length 0 is the
      empty string; a length of `MaxStringLength` or more throws after the
      length was read, and so does a length running past the data.
    */
    method ReadString() returns (r: Read<Str>)
      modifies this
      ensures r == DecodeString(old(Rest()))
      ensures pos == old(pos) + r.used
    {
      ghost var bs := Rest();
      ghost var p0 := pos;
      var size := ReadUInt16();
      if size.Failed? {
        return Failed(size.used);
      }
      assert Rest() == bs[2..] by {
        assert data[p0 + 2..] == data[p0..][2..];
      }
      var n := size.value;
      if n == 0 {
        return Got([], 2);
      }
      if n >= MaxStringLength {
        return Failed(2);
      }
      var b := ReadBytes(n);
      if b.Got? {
        assert bs[2..][..n] == bs[2..2 + n];
      }
      r := match b case Got(s, k) => Got(s, 2 + k) case Failed(k) => Failed(2 + k);
    }

    /** `ReadBytesAndSize`: a 16-bit size, then that many bytes; size 0 reads as null. */
    method ReadBytesAndSize() returns (r: Read<Option<seq<byte>>>)
      modifies this
      ensures r == DecodeBlock(old(Rest()))
      ensures pos == old(pos) + r.used
    {
      ghost var bs := Rest();
      ghost var p0 := pos;
      var size := ReadUInt16();
      if size.Failed? {
        return Failed(size.used);
      }
      assert Rest() == bs[2..] by {
        assert data[p0 + 2..] == data[p0..][2..];
      }
      if size.value == 0 {
        return Got(None, 2);
      }
      var b := ReadBytes(size.value);
      r := match b case Got(s, k) => Got(Some(s), 2 + k) case Failed(k) => Failed(2 + k);
    }

    /**
      `ReadDictionary`: a 32-bit count, then count keys each followed by its
      value, stored with `Add`. A negative count, a short read or a repeated
      key throws (here: null), leaving the cursor after what was read.
    */
    method ReadDictionary() returns (d: Dictionary?<Str, Str>)
      modifies this
      ensures var r := DecodeDictionary(old(Rest()));
        && pos == old(pos) + r.used
        && (d != null <==> r.Got?)
        && (d != null ==> fresh(d) && d.Valid() && d.entries == r.value)
    {
      var count := ReadInt32();
      if count.Failed? || count.value < 0 {
        return null;
      }
      d := new Dictionary();
      var ok := AddEntries(d, count.value);
      if !ok {
        return null;
      }
    }

    /**
      The loop of `ReadDictionary`: n times a key, then its value, then
      `Add`, stopping at the first that throws.
    */
    method AddEntries(d: Dictionary<Str, Str>, n: nat) returns (ok: bool)
      requires d.Valid() && pos <= |data|
      modifies this, d
      ensures d.Valid()
      ensures var r := DecodeAdd(old(d.entries), old(Rest()), n);
        && pos == old(pos) + r.used
        && (ok <==> r.Got?)
        && (ok ==> d.entries == r.value)
    {
      ghost var p1 := pos;
      ghost var target := DecodeAdd(d.entries, Rest(), n);
      ghost var left := n;
      var i := 0;
      while i < n
        invariant 0 <= i <= n && left == n - i
        invariant d.Valid() && Adding(d.entries, data, pos, p1, left, target)
      {
        var added := AddEntry(d, left, p1, target);
        if !added {
          return false;
        }
        left := left - 1;
        i := i + 1;
      }
      ok := true;
    }

    /** A key and then its value. */
    method ReadPair() returns (r: Read<(Str, Str)>)
      modifies this
      ensures r == DecodePair(old(Rest()))
      ensures pos == old(pos) + r.used
    {
      ghost var bs := Rest();
      ghost var q := pos;
      var k := ReadString();
      if k.Failed? {
        return Failed(k.used);
      }
      assert Rest() == bs[k.used..] by {
        assert data[q + k.used..] == data[q..][k.used..];
      }
      var v := ReadString();
      r := match v case Failed(u) => Failed(k.used + u) case Got(x, u) => Got((k.value, x), k.used + u);
    }

    /**
      One turn of `ReadDictionary`'s loop, with n entries still to read, when
      the loop from p1 on is to give target.
    */
    method AddEntry(d: Dictionary<Str, Str>, ghost n: nat, ghost p1: nat, ghost target: Read<Entries>) returns (ok: bool)
      requires d.Valid() && n > 0 && Adding(d.entries, data, pos, p1, n, target)
      modifies this, d
      ensures d.Valid() && p1 <= pos <= |data|
      ensures ok ==> Adding(d.entries, data, pos, p1, n - 1, target)
      ensures !ok ==> target == Failed(pos - p1)
    {
      ghost var q := pos;
      assert DecodeAdd(d.entries, data[q..], n) == AddNext(d.entries, data[q..], n);
      var p := ReadPair();
      if p.Failed? {
        return false;
      }
      assert data[pos..] == data[q..][p.used..];
      ok := d.Add(p.value.0, p.value.1);
      if ok {
        AfterAfter(q - p1, p.used, DecodeAdd(d.entries, data[pos..], n - 1));
      }
    }
  }

  /** `ReadDictionary`'s loop from p1 on gives target, once the n entries from pos on are added to entries. */
  ghost predicate Adding(entries: Entries, data: seq<byte>, pos: nat, p1: nat, n: nat, target: Read<Entries>)
  {
    p1 <= pos <= |data| && After(pos - p1, DecodeAdd(entries, data[pos..], n)) == target
  }
}
