/**
  `NetWriter`: a cursor over a growable byte store (the `NetworkBuffer`).
  Every write puts its bytes at the cursor, over whatever was there, and
  moves the cursor past them; the message is the bytes before the cursor.
  Each method is proved against the layout functions of `Codec` and `Packed`.
*/
module NetWriting {
  import opened Wrappers
  import opened Bytes
  import opened Codec
  import opened Packed
  import opened Dictionaries

  /** What is left of s once its first n bytes are written over (nothing when n reaches its end). */
  function Skip(s: seq<byte>, n: nat): (r: seq<byte>)
    ensures |r| == if n < |s| then |s| - n else 0
  {
    if n < |s| then s[n..] else []
  }

  /** Writing over x bytes and then y more is writing over x + y. */
  lemma SkipSkip(s: seq<byte>, x: nat, y: nat)
    ensures Skip(Skip(s, x), y) == Skip(s, x + y)
  {
    if x + y < |s| {
      assert Skip(s, x)[y..] == s[x + y..];
    }
  }

  function Zeros(n: nat): (r: seq<byte>)
    ensures |r| == n && forall i :: 0 <= i < n ==> r[i] == 0
  {
    seq(n, _ => 0)
  }

  /**
    Code handed a writer (an `Action<NetWriter>`): the bytes it writes, and
    whether it then throws.
  */
  datatype WriteAction = WriteAction(bytes: seq<byte>, throws: bool)

  class NetWriter {
    /** The stored bytes before the cursor: the message so far. */
    var written: seq<byte>
    /** The stored bytes after the cursor, left by earlier writes; a write goes over them. */
    var ahead: seq<byte>

    /** Since the state before the call, bs was written at the cursor and the cursor moved past it. */
    twostate predicate Appended(bs: seq<byte>)
      reads this
    {
      written == old(written) + bs && ahead == Skip(old(ahead), |bs|)
    }

    /** Nothing was written and the cursor did not move. */
    twostate predicate Unmoved()
      reads this
    {
      written == old(written) && ahead == old(ahead)
    }

    constructor ()
      ensures written == [] && ahead == []
    {
      written := [];
      ahead := [];
    }

    /** `NetWriter(byte[])`: writes go over the given bytes, from the start. */
    constructor FromBuffer(buffer: seq<byte>)
      ensures written == [] && ahead == buffer
    {
      written := [];
      ahead := buffer;
    }

    /** `ToArray`: the message written so far, from the start up to the cursor. */
    function ToArray(): (r: seq<byte>)
      reads this
      ensures |r| == |written|
    {
      written
    }

    /** `Position`: the cursor cast to a 16-bit signed number. */
    function Position(): (r: int16)
      reads this
      ensures |written| < 0x8000 ==> r == |written|
      ensures (|written| - r) % 0x1_0000 == 0
    {
      Int16FromBits(|written| % 0x1_0000)
    }

    /** `NetworkBuffer.WriteByte`, `WriteByte2` … `WriteBytes`: bs at the cursor. */
    method Put(bs: seq<byte>)
      modifies this
      ensures Appended(bs)
    {
      written := written + bs;
      ahead := Skip(ahead, |bs|);
    }

    method WriteByte(v: byte)
      modifies this
      ensures Appended([v])
    {
      Put([v]);
    }

    /** `Write(char)`: only the low byte of the UTF-16 code unit. */
    method WriteChar(c: char)
      modifies this
      ensures Appended([c as int % 0x100])
    {
      Put([c as int % 0x100]);
    }

    method WriteSByte(v: sbyte)
      modifies this
      ensures Appended([SByteBits(v)])
    {
      Put([SByteBits(v)]);
    }

    method WriteInt16(v: int16)
      modifies this
      ensures Appended(Int16Bytes(v))
    {
      Put(Int16Bytes(v));
    }

    method WriteUInt16(v: uint16)
      modifies this
      ensures Appended(UInt16Bytes(v))
    {
      Put(UInt16Bytes(v));
    }

    method WriteInt32(v: int32)
      modifies this
      ensures Appended(Int32Bytes(v))
    {
      Put(Int32Bytes(v));
    }

    method WriteUInt32(v: uint32)
      modifies this
      ensures Appended(UInt32Bytes(v))
    {
      Put(UInt32Bytes(v));
    }

    method WriteInt64(v: int64)
      modifies this
      ensures Appended(Int64Bytes(v))
    {
      Put(Int64Bytes(v));
    }

    method WriteUInt64(v: uint64)
      modifies this
      ensures Appended(UInt64Bytes(v))
    {
      Put(UInt64Bytes(v));
    }

    /** The n low bytes of u, least significant first, one `Write(byte)` each (the `>>` and `& 0xFF` of the packed writers). */
    method WriteLowBytes(u: nat, n: nat)
      modifies this
      ensures Appended(LittleEndian(u, n))
    {
      var x, i := u, 0;
      ghost var done: seq<byte> := [];
      while i < n
        invariant 0 <= i <= n && |done| == i
        invariant Appended(done)
        invariant done + LittleEndian(x, n - i) == LittleEndian(u, n)
      {
        SkipSkip(old(ahead), |done|, 1);
        WriteByte(x % 0x100);
        done := done + [x % 0x100];
        x, i := x / 0x100, i + 1;
      }
    }

    /** `WritePackedUInt32`: the bytes of `PackedUInt32(v)`, one `Write(byte)` at a time. */
    method WritePackedUInt32(v: uint32)
      modifies this
      ensures Appended(PackedUInt32(v))
    {
      if v <= 240 {
        WriteByte(v);
      } else if v <= 2287 {
        WriteByte((v - 240) / 256 + 241);
        WriteByte((v - 240) % 256);
        SkipSkip(old(ahead), 1, 1);
      } else if v <= 67823 {
        WriteByte(249);
        WriteByte((v - 2288) / 256);
        SkipSkip(old(ahead), 1, 1);
        WriteByte((v - 2288) % 256);
        SkipSkip(old(ahead), 2, 1);
      } else if v <= 16777215 {
        WriteTagged(250, v, 3);
      } else {
        WriteTagged(251, v, 4);
      }
    }

    /** A tier announced by its first byte, then the value's n low bytes. */
    method WriteTagged(tag: byte, u: nat, n: nat)
      modifies this
      ensures Appended([tag] + LittleEndian(u, n))
    {
      WriteByte(tag);
      WriteLowBytes(u, n);
      SkipSkip(old(ahead), 1, n);
    }

    /** `WritePackedUInt64`: the bytes of `PackedUInt64(v)`, one `Write(byte)` at a time. */
    method WritePackedUInt64(v: uint64)
      modifies this
      ensures Appended(PackedUInt64(v))
    {
      if v <= 4294967295 {
        // the first five tiers are those of the 32-bit writer, byte for byte
        WritePackedUInt32(v);
      } else if v <= 1099511627775 {
        WriteTagged(252, v, 5);
      } else if v <= 281474976710655 {
        WriteTagged(253, v, 6);
      } else if v <= 72057594037927935 {
        WriteTagged(254, v, 7);
      } else {
        WriteTagged(255, v, 8);
      }
    }

    /**
      `Write(string)`: null is two zero bytes; a string whose encoding is 32 KiB
      or longer throws before anything is written (ok is false); any other is
      its byte count and its bytes.
    */
    method WriteString(s: Option<Str>) returns (ok: bool)
      modifies this
      ensures ok <==> s.None? || Fits(s.value)
      ensures s.None? ==> Appended(NullStringBytes)
      ensures s.Some? && ok ==> Appended(StringBytes(s.value))
      ensures s.Some? && ok ==> ToArray() == old(ToArray()) + StringBytes(s.value)
      ensures !ok ==> Unmoved()
    {
      if s.None? {
        Put([0, 0]);
        return true;
      }
      var str := s.value;
      if |str| >= MaxStringLength {
        return false;
      }
      WriteUInt16(|str|);
      Put(str);
      SkipSkip(old(ahead), |UInt16Bytes(|str|)|, |str|);
      ok := true;
    }

    /** `Write(bool)`: one byte, 1 for true and 0 for false. */
    method WriteBool(b: bool)
      modifies this
      ensures Appended([BoolByte(b)])
    {
      if b {
        Put([1]);
      } else {
        Put([0]);
      }
    }

    /** Runs code handed this writer; ok is false when it throws. */
    method Run(action: WriteAction) returns (ok: bool)
      modifies this
      ensures Appended(action.bytes)
      ensures ok <==> !action.throws
    {
      Put(action.bytes);
      ok := !action.throws;
    }

    /**
      `Write(INetSerializable)`: a presence byte (false for null), then what
      the object's own `Serialize` writes.
    */
    method WriteSerializable(item: Option<WriteAction>) returns (ok: bool)
      modifies this
      ensures item.None? ==> ok && Appended([0])
      ensures item.Some? ==> Appended([1] + item.value.bytes) && (ok <==> !item.value.throws)
    {
      if item.None? {
        WriteBool(false);
        return true;
      }
      WriteBool(true);
      ok := Run(item.value);
      SkipSkip(old(ahead), |[1]|, |item.value.bytes|);
    }

    /** One turn of the dictionary loop: the key, then the value, stopping at the first that throws. */
    method WritePair(k: Str, v: Str) returns (ok: bool)
      modifies this
      ensures ok <==> Fits(k) && Fits(v)
      ensures ok ==> Appended(StringBytes(k) + StringBytes(v))
      ensures !ok ==> Appended(if Fits(k) then StringBytes(k) else [])
    {
      ok := WriteString(Some(k));
      if !ok {
        assert old(written) + [] == written;
        return;
      }
      ok := WriteString(Some(v));
      if ok {
        SkipSkip(old(ahead), |StringBytes(k)|, |StringBytes(v)|);
      }
    }

    /**
      One turn of the loop of `Write(Dictionary)` over pair i, when the pairs
      before it were written since (w0, a0): afterwards either the pairs up to
      and including i are written, or the writes stopped for good where
      `EmitEntries` stops.
    */
    method WriteEntryAt(e: Entries, i: nat, ghost w0: seq<byte>, ghost a0: seq<byte>) returns (ok: bool)
      requires i < |e| && AllFit(e[..i])
      requires written == w0 + EntriesBytes(e[..i]) && ahead == Skip(a0, |EntriesBytes(e[..i])|)
      modifies this
      ensures ok ==> AllFit(e[..i + 1])
      ensures ok ==> written == w0 + EntriesBytes(e[..i + 1]) && ahead == Skip(a0, |EntriesBytes(e[..i + 1])|)
      ensures !ok ==> !AllFit(e)
      ensures !ok ==> written == w0 + EmitEntries(e).bytes && ahead == Skip(a0, |EmitEntries(e).bytes|)
    {
      ghost var before := EntriesBytes(e[..i]);
      var k, v := e[i].0, e[i].1;
      EntryTurn(e, i);
      ok := WritePair(k, v);
      ghost var part := if ok then StringBytes(k) + StringBytes(v) else if Fits(k) then StringBytes(k) else [];
      assert w0 + before + part == w0 + (before + part);
      SkipSkip(a0, |before|, |part|);
    }

    /** The loop of `Write(Dictionary)`: each key and then its value, until one is too long to write. */
    method WriteEntries(e: Entries) returns (ok: bool)
      modifies this
      ensures ok == AllFit(e) && Appended(EmitEntries(e).bytes)
    {
      var i := 0;
      ok := true;
      while i < |e|
        invariant 0 <= i <= |e| && AllFit(e[..i])
        invariant written == old(written) + EntriesBytes(e[..i])
        invariant ahead == Skip(old(ahead), |EntriesBytes(e[..i])|)
      {
        ok := WriteEntryAt(e, i, old(written), old(ahead));
        if !ok {
          return;
        }
        i := i + 1;
      }
      assert e[..i] == e;
    }

    /**
      `Write(Dictionary<string, string>)`: a null dictionary is a zero int32
      count; otherwise its count, then each key and value in enumeration order.
      A key or value too long to write throws, leaving what came before it.
    */
    method WriteDictionary(d: Dictionary?<Str, Str>) returns (ok: bool)
      requires d != null ==> |d.entries| < 0x8000_0000
      modifies this
      ensures d == null ==> ok && Appended(Int32Bytes(0))
      ensures d != null ==> ok == AllFit(d.entries)
      ensures d != null ==> Appended(Int32Bytes(|d.entries|) + EmitEntries(d.entries).bytes)
      ensures d != null && ok ==> ToArray() == old(ToArray()) + DictionaryBytes(d.entries)
    {
      if d == null {
        WriteInt32(0);
        return true;
      }
      var e := d.entries;
      WriteInt32(|e|);
      ok := WriteEntries(e);
      SkipSkip(old(ahead), |Int32Bytes(|e|)|, |EmitEntries(e).bytes|);
    }

    /**
      `Write(byte[] buffer, int count)`: nothing at all for a count above
      65535; otherwise the first count bytes of the buffer, count taken as a
      16-bit unsigned number (so a negative count wraps). A buffer shorter than
      that throws (ok is false) without writing.
    */
    method WriteBytes(buffer: seq<byte>, count: int) returns (ok: bool)
      modifies this
      ensures count > 0xFFFF ==> ok && Unmoved()
      ensures count <= 0xFFFF ==> (ok <==> count % 0x1_0000 <= |buffer|)
      ensures count <= 0xFFFF && ok ==> Appended(buffer[..count % 0x1_0000])
      ensures !ok ==> Unmoved()
    {
      if count > 0xFFFF {
        return true;
      }
      var n := count % 0x1_0000;
      if n > |buffer| {
        return false;
      }
      Put(buffer[..n]);
      ok := true;
    }

    /**
      `Write(byte[] buffer, int offset, int count)`: as `Write(buffer, count)`,
      but starting at offset (also taken as a 16-bit unsigned number).
    */
    method WriteBytesAt(buffer: seq<byte>, offset: int, count: int) returns (ok: bool)
      modifies this
      ensures count > 0xFFFF ==> ok && Unmoved()
      ensures count <= 0xFFFF ==> (ok <==> offset % 0x1_0000 + count % 0x1_0000 <= |buffer|)
      ensures count <= 0xFFFF && ok ==>
        Appended(buffer[offset % 0x1_0000..offset % 0x1_0000 + count % 0x1_0000])
      ensures !ok ==> Unmoved()
    {
      if count > 0xFFFF {
        return true;
      }
      var o, n := offset % 0x1_0000, count % 0x1_0000;
      if o + n > |buffer| {
        return false;
      }
      Put(buffer[o..o + n]);
      ok := true;
    }

    /**
      `WriteBytesAndSize(buffer, count)`: a zero size alone for a null buffer or
      a zero count; nothing for a count above 65535; otherwise the 16-bit size
      and then the first count bytes. With count within the buffer this is
      the block `buffer[..count]`.
    */
    method WriteBytesAndSize(buffer: Option<seq<byte>>, count: int) returns (ok: bool)
      modifies this
      ensures buffer.None? || count == 0 ==> ok && Appended(BlockBytes([]))
      ensures buffer.Some? && count > 0xFFFF ==> ok && Unmoved()
      ensures buffer.Some? && 0 < count <= 0xFFFF ==>
        (ok <==> count <= |buffer.value|) &&
        (ok ==> Appended(BlockBytes(buffer.value[..count]))) &&
        (!ok ==> Appended(UInt16Bytes(count)))
      ensures buffer.Some? && count < 0 ==>
        (ok <==> count % 0x1_0000 <= |buffer.value|) &&
        Appended(UInt16Bytes(count % 0x1_0000) + if ok then buffer.value[..count % 0x1_0000] else [])
    {
      if buffer.None? || count == 0 {
        WriteUInt16(0);
        return true;
      }
      if count > 0xFFFF {
        return true;
      }
      var n := count % 0x1_0000;
      WriteUInt16(n);
      if n > |buffer.value| {
        assert UInt16Bytes(n) + [] == UInt16Bytes(n);
        return false;
      }
      Put(buffer.value[..n]);
      SkipSkip(old(ahead), 2, n);
      ok := true;
    }

    /** `WriteBytesFull`: the whole buffer with its 16-bit size; a zero size for null; nothing when longer than 65535. */
    method WriteBytesFull(buffer: Option<seq<byte>>)
      modifies this
      ensures buffer.None? ==> Appended(BlockBytes([]))
      ensures buffer.Some? && |buffer.value| <= 0xFFFF ==> Appended(BlockBytes(buffer.value))
      ensures buffer.Some? && |buffer.value| > 0xFFFF ==> Unmoved()
    {
      if buffer.None? {
        WriteUInt16(0);
        return;
      }
      var b := buffer.value;
      if |b| > 0xFFFF {
        return;
      }
      WriteUInt16(|b|);
      Put(b);
      SkipSkip(old(ahead), 2, |b|);
    }

    /** `SeekZero`: the cursor back to the start; the stored bytes stay until overwritten. */
    method SeekZero()
      modifies this
      ensures written == [] && ahead == old(written) + old(ahead)
    {
      ahead := written + ahead;
      written := [];
    }

    /**
      `SetPosition`: the cursor to p, over the stored bytes; a store shorter
      than p is extended with zero bytes.
    */
    method SetPosition(p: uint32)
      modifies this
      ensures |written| == p
      ensures var all := old(written) + old(ahead);
        written + ahead == if p <= |all| then all else all + Zeros(p - |all|)
    {
      var all := written + ahead;
      if |all| < p {
        all := all + Zeros(p - |all|);
      }
      written, ahead := all[..p], all[p..];
    }

    /**
      `StartMessage`: from the start, two placeholder bytes for the size and
      then the 16-bit message type.
    */
    method StartMessage(msgType: int16)
      modifies this
      ensures written == [0, 0] + Int16Bytes(msgType)
      ensures ahead == Skip(old(written) + old(ahead), 4)
    {
      SeekZero();
      Put([0, 0]);
      WriteInt16(msgType);
      SkipSkip(old(written) + old(ahead), 2, 2);
    }
  }
}
