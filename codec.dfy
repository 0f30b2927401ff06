/**
  The byte layout of the binary codec shared by `NetWriter` and `NetReader`:
  what each `Write…` call appends, and what each `Read…` call takes back from
  the bytes after the cursor. The two classes are proved against these
  functions; the round-trip and layout theorems live here.
*/
module Codec {
  import opened Wrappers
  import opened Bytes
  import opened Dictionaries

  /** `k_MaxStringLength`: an encoded string must be strictly shorter than 32 KiB. */
  const MaxStringLength: nat := 1024 * 32

  /** A string as the codec sees it: the bytes of its UTF-8 encoding. */
  type Str = seq<byte>

  /**
    The outcome of reading from a cursor: the value and the number of bytes
    consumed, or a failure (an exception in the source) and the number of bytes
    consumed before it was thrown.
  */
  datatype Read<+T> = Got(value: T, used: nat) | Failed(used: nat)

  // ---------------------------------------------------------------------------
  // Fixed-width values

  function UInt16Bytes(v: uint16): seq<byte> { LittleEndian(v, 2) }
  function Int16Bytes(v: int16): seq<byte> { LittleEndian(Int16Bits(v), 2) }
  function UInt32Bytes(v: uint32): seq<byte> { LittleEndian(v, 4) }
  function Int32Bytes(v: int32): seq<byte> { LittleEndian(Int32Bits(v), 4) }
  function UInt64Bytes(v: uint64): seq<byte> { LittleEndian(v, 8) }
  function Int64Bytes(v: int64): seq<byte> { LittleEndian(Int64Bits(v), 8) }

  /**
    Reading n bytes one `ReadByte` at a time: the little-endian value when n
    bytes remain, otherwise a failure after every remaining byte was taken.
  */
  function DecodeUnsigned(bs: seq<byte>, n: nat): (r: Read<nat>)
    ensures r.Got? ==> r.used == n <= |bs| && r.value < Pow256(n)
    ensures r.Failed? ==> r.used == |bs| < n
  {
    if |bs| >= n then
      FromLittleEndianBound(bs[..n]);
      Got(FromLittleEndian(bs[..n]), n)
    else
      Failed(|bs|)
  }

  function DecodeUInt16(bs: seq<byte>): (r: Read<uint16>)
    ensures r.Got? <==> |bs| >= 2
  {
    Pow256Values();
    match DecodeUnsigned(bs, 2)
    case Got(u, k) => Got(u, k)
    case Failed(k) => Failed(k)
  }

  function DecodeInt16(bs: seq<byte>): (r: Read<int16>)
    ensures r.Got? <==> |bs| >= 2
  {
    match DecodeUInt16(bs)
    case Got(u, k) => Got(Int16FromBits(u), k)
    case Failed(k) => Failed(k)
  }

  function DecodeUInt32(bs: seq<byte>): (r: Read<uint32>)
    ensures r.Got? <==> |bs| >= 4
  {
    Pow256Values();
    match DecodeUnsigned(bs, 4)
    case Got(u, k) => Got(u, k)
    case Failed(k) => Failed(k)
  }

  function DecodeInt32(bs: seq<byte>): (r: Read<int32>)
    ensures r.Got? <==> |bs| >= 4
  {
    match DecodeUInt32(bs)
    case Got(u, k) => Got(Int32FromBits(u), k)
    case Failed(k) => Failed(k)
  }

  function DecodeUInt64(bs: seq<byte>): (r: Read<uint64>)
    ensures r.Got? <==> |bs| >= 8
  {
    Pow256Values();
    match DecodeUnsigned(bs, 8)
    case Got(u, k) => Got(u, k)
    case Failed(k) => Failed(k)
  }

  function DecodeInt64(bs: seq<byte>): (r: Read<int64>)
    ensures r.Got? <==> |bs| >= 8
  {
    match DecodeUInt64(bs)
    case Got(u, k) => Got(Int64FromBits(u), k)
    case Failed(k) => Failed(k)
  }

  /** Reading back any n-byte little-endian value consumes exactly n bytes and returns it. */
  lemma UnsignedRoundTrip(u: nat, n: nat, rest: seq<byte>)
    requires u < Pow256(n)
    ensures DecodeUnsigned(LittleEndian(u, n) + rest, n) == Got(u, n)
  {
    var bs := LittleEndian(u, n) + rest;
    assert bs[..n] == LittleEndian(u, n);
    LittleEndianRoundTrip(u, n);
  }

  lemma UInt16RoundTrip(v: uint16, rest: seq<byte>)
    ensures DecodeUInt16(UInt16Bytes(v) + rest) == Got(v, 2)
  {
    Pow256Values();
    UnsignedRoundTrip(v, 2, rest);
  }

  lemma Int16RoundTrip(v: int16, rest: seq<byte>)
    ensures DecodeInt16(Int16Bytes(v) + rest) == Got(v, 2)
  {
    Pow256Values();
    UnsignedRoundTrip(Int16Bits(v), 2, rest);
  }

  lemma Int32RoundTrip(v: int32, rest: seq<byte>)
    ensures DecodeInt32(Int32Bytes(v) + rest) == Got(v, 4)
  {
    Pow256Values();
    UnsignedRoundTrip(Int32Bits(v), 4, rest);
  }

  /** `ReadInt16`, `ReadUInt16`, … `ReadUInt64` invert the matching writes, whatever follows. */
  lemma FixedWidthRoundTrip(rest: seq<byte>)
    ensures forall v: uint16 {:trigger UInt16Bytes(v)} :: DecodeUInt16(UInt16Bytes(v) + rest) == Got(v, 2)
    ensures forall v: int16 {:trigger Int16Bytes(v)} :: DecodeInt16(Int16Bytes(v) + rest) == Got(v, 2)
    ensures forall v: uint32 {:trigger UInt32Bytes(v)} :: DecodeUInt32(UInt32Bytes(v) + rest) == Got(v, 4)
    ensures forall v: int32 {:trigger Int32Bytes(v)} :: DecodeInt32(Int32Bytes(v) + rest) == Got(v, 4)
    ensures forall v: uint64 {:trigger UInt64Bytes(v)} :: DecodeUInt64(UInt64Bytes(v) + rest) == Got(v, 8)
    ensures forall v: int64 {:trigger Int64Bytes(v)} :: DecodeInt64(Int64Bytes(v) + rest) == Got(v, 8)
  {
    Pow256Values();
    forall v: uint16 ensures DecodeUInt16(UInt16Bytes(v) + rest) == Got(v, 2) {
      UnsignedRoundTrip(v, 2, rest);
    }
    forall v: int16 ensures DecodeInt16(Int16Bytes(v) + rest) == Got(v, 2) {
      UnsignedRoundTrip(Int16Bits(v), 2, rest);
    }
    forall v: uint32 ensures DecodeUInt32(UInt32Bytes(v) + rest) == Got(v, 4) {
      UnsignedRoundTrip(v, 4, rest);
    }
    forall v: int32 ensures DecodeInt32(Int32Bytes(v) + rest) == Got(v, 4) {
      UnsignedRoundTrip(Int32Bits(v), 4, rest);
    }
    forall v: uint64 ensures DecodeUInt64(UInt64Bytes(v) + rest) == Got(v, 8) {
      UnsignedRoundTrip(v, 8, rest);
    }
    forall v: int64 ensures DecodeInt64(Int64Bytes(v) + rest) == Got(v, 8) {
      UnsignedRoundTrip(Int64Bits(v), 8, rest);
    }
  }

  // ---------------------------------------------------------------------------
  // Strings

  /** A string the writer accepts: its encoding is shorter than 32 KiB. */
  predicate Fits(s: Str)
  {
    |s| < MaxStringLength
  }

  /** `Write(string)` of a non-null string: a two-byte little-endian byte count, then the bytes. */
  function StringBytes(s: Str): seq<byte>
    requires Fits(s)
  {
    UInt16Bytes(|s|) + s
  }

  /** `Write(string)` of null: two zero bytes, the same as an empty string. */
  const NullStringBytes: seq<byte> := [0, 0]

  /**
    What `ReadString` returns from the bytes after the cursor: a zero count
    gives the empty string, a count of 32 KiB or more fails after the count,
    and otherwise that many bytes are taken at once (or, if fewer remain,
    none are and the read fails).
  */
  function DecodeString(bs: seq<byte>): (r: Read<Str>)
    ensures r.used <= |bs|
    ensures r.Got? ==> Fits(r.value) && r.used == 2 + |r.value| && bs[2..r.used] == r.value
  {
    match DecodeUInt16(bs)
    case Failed(k) => Failed(k)
    case Got(n, k) =>
      if n == 0 then Got([], k)
      else if n >= MaxStringLength then Failed(k)
      else if |bs| - k < n then Failed(k)
      else Got(bs[k..k + n], k + n)
  }

  /** A string shorter than 32 KiB reads back as itself and consumes its count and bytes. */
  lemma StringRoundTrip(s: Str, rest: seq<byte>)
    requires Fits(s)
    ensures DecodeString(StringBytes(s) + rest) == Got(s, 2 + |s|)
  {
    var bs := StringBytes(s) + rest;
    UInt16RoundTrip(|s|, s + rest);
    assert bs == UInt16Bytes(|s|) + (s + rest);
    assert bs[2..2 + |s|] == s;
  }

  /** A null string comes back as the empty string, not as null. */
  lemma NullStringReadsEmpty(rest: seq<byte>)
    ensures DecodeString(NullStringBytes + rest) == Got([], 2)
  {
    Pow256Values();
    assert (NullStringBytes + rest)[..2] == [0, 0];
  }

  /** A count of 32 KiB or more is refused once the count has been read, whatever follows. */
  lemma LongStringRejected(n: uint16, rest: seq<byte>)
    requires n >= MaxStringLength
    ensures DecodeString(UInt16Bytes(n) + rest) == Failed(2)
  {
    UInt16RoundTrip(n, rest);
  }

  // ---------------------------------------------------------------------------
  // Dictionaries: an int32 count, then each key and its value as strings

  type Entries = seq<(Str, Str)>

  /** Every key and value can be written. */
  predicate AllFit(e: Entries)
  {
    forall i :: 0 <= i < |e| ==> Fits(e[i].0) && Fits(e[i].1)
  }

  /** The key/value pairs of e, in enumeration order. */
  function EntriesBytes(e: Entries): seq<byte>
    requires AllFit(e)
  {
    if e == [] then [] else StringBytes(e[0].0) + StringBytes(e[0].1) + EntriesBytes(e[1..])
  }

  /** The layout of a non-null dictionary: its count, then its entries. */
  function DictionaryBytes(e: Entries): seq<byte>
    requires |e| < 0x8000_0000 && AllFit(e)
  {
    Int32Bytes(|e|) + EntriesBytes(e)
  }

  /** `Write(Dictionary)` of null: a zero count. */
  const NullDictionaryBytes: seq<byte> := [0, 0, 0, 0]

  /** Bytes emitted by a run of writes, and whether it finished without an exception. */
  datatype Emitted = Emitted(ok: bool, bytes: seq<byte>)

  /**
    Writing each key and then its value, in order: everything when all fit;
    otherwise the writes before the first oversized string (whose own write
    throws before emitting anything).
  */
  function EmitEntries(e: Entries): (r: Emitted)
    ensures r.ok <==> AllFit(e)
    ensures r.ok ==> r.bytes == EntriesBytes(e)
  {
    if e == [] then Emitted(true, [])
    else if !Fits(e[0].0) then Emitted(false, [])
    else if !Fits(e[0].1) then Emitted(false, StringBytes(e[0].0))
    else
      var rest := EmitEntries(e[1..]);
      assert AllFit(e) <==> AllFit(e[1..]) by {
        if AllFit(e[1..]) {
          forall i | 0 <= i < |e| ensures Fits(e[i].0) && Fits(e[i].1) {
            if i > 0 { assert e[i] == e[1..][i - 1]; }
          }
        }
      }
      Emitted(rest.ok, StringBytes(e[0].0) + StringBytes(e[0].1) + rest.bytes)
  }

  /** Adds k to the bytes consumed, as when a read follows k bytes read before it. */
  function After<T>(k: nat, r: Read<T>): (r': Read<T>)
    ensures r'.used == k + r.used && r'.Got? == r.Got?
    ensures r.Got? ==> r'.value == r.value
  {
    match r
    case Got(v, u) => Got(v, k + u)
    case Failed(u) => Failed(k + u)
  }

  /** Reading after a bytes and then after b more is reading after a + b. */
  lemma AfterAfter<T>(a: nat, b: nat, r: Read<T>)
    ensures After(a, After(b, r)) == After(a + b, r)
  {
  }

  /** A key and then its value, as both dictionary loops read them. */
  function DecodePair(bs: seq<byte>): (r: Read<(Str, Str)>)
    ensures r.used <= |bs|
  {
    match DecodeString(bs)
    case Failed(u) => Failed(u)
    case Got(k, u1) =>
      match DecodeString(bs[u1..])
      case Failed(u2) => Failed(u1 + u2)
      case Got(v, u2) => Got((k, v), u1 + u2)
  }

  /**
    `ReadDictionary`'s loop from the state where `acc` has been filled: n more
    times read a key, then its value, then `Add` them, which throws when the
    key is already present.
  */
  function DecodeAdd(acc: Entries, bs: seq<byte>, n: nat): (r: Read<Entries>)
    ensures r.used <= |bs|
    decreases n, 1
  {
    if n == 0 then Got(acc, 0) else AddNext(acc, bs, n)
  }

  /** One turn of that loop, n > 0: a pair read and added, then the n - 1 turns after it. */
  function AddNext(acc: Entries, bs: seq<byte>, n: nat): (r: Read<Entries>)
    requires n > 0
    ensures r.used <= |bs|
    decreases n, 0
  {
    match DecodePair(bs)
    case Failed(u) => Failed(u)
    case Got(p, u) =>
      if p.0 in KeysOf(acc) then Failed(u)
      else After(u, DecodeAdd(acc + [p], bs[u..], n - 1))
  }

  /**
    What `ReadDictionary` returns: an int32 count (a negative one makes the
    `Dictionary` constructor throw), then that many pairs added to a new dictionary.
  */
  function DecodeDictionary(bs: seq<byte>): (r: Read<Entries>)
    ensures r.used <= |bs|
  {
    match DecodeInt32(bs)
    case Failed(u) => Failed(u)
    case Got(count, u) =>
      if count < 0 then Failed(u)
      else After(u, DecodeAdd([], bs[u..], count))
  }

  /** The state `FromReader` leaves: the dictionary's entries, whether it returned normally, bytes consumed. */
  datatype Merged = Merged(entries: Entries, ok: bool, used: nat)

  /**
    `FromReader`'s loop from the state where `acc` has been filled: n more
    times (none when n <= 0) read a key and its value and store them through
    the indexer. On an exception the pairs stored so far remain.
  */
  function MergePairs(acc: Entries, bs: seq<byte>, n: int): (r: Merged)
    ensures r.used <= |bs|
    decreases n, 1
  {
    if n <= 0 then Merged(acc, true, 0) else MergeNext(acc, bs, n)
  }

  /** One turn of that loop, n > 0: a pair read and stored, then the n - 1 turns after it. */
  function MergeNext(acc: Entries, bs: seq<byte>, n: int): (r: Merged)
    requires n > 0
    ensures r.used <= |bs|
    decreases n, 0
  {
    match DecodePair(bs)
    case Failed(u) => Merged(acc, false, u)
    case Got(p, u) => MergedAfter(u, MergePairs(Upsert(acc, p.0, p.1), bs[u..], n - 1))
  }

  /** Adds k to the bytes consumed, as when the merge follows k bytes read before it. */
  function MergedAfter(k: nat, m: Merged): (r: Merged)
    ensures r.entries == m.entries && r.ok == m.ok && r.used == k + m.used
  {
    Merged(m.entries, m.ok, k + m.used)
  }

  lemma MergedAfterAfter(a: nat, b: nat, m: Merged)
    ensures MergedAfter(a, MergedAfter(b, m)) == MergedAfter(a + b, m)
  {
  }

  /** What `FromReader` does to a dictionary holding `acc`: an int32 count, then that many pairs merged in. */
  function MergeDictionary(acc: Entries, bs: seq<byte>): (r: Merged)
    ensures r.used <= |bs|
  {
    match DecodeInt32(bs)
    case Failed(u) => Merged(acc, false, u)
    case Got(count, u) => MergedAfter(u, MergePairs(acc, bs[u..], count))
  }

  /** A key and value written back to back read back as that pair, consuming exactly their bytes. */
  lemma ReadPair(k: Str, v: Str, tail: seq<byte>)
    requires Fits(k) && Fits(v)
    ensures var bs := StringBytes(k) + StringBytes(v) + tail;
      var u1 := 2 + |k|;
      && DecodeString(bs) == Got(k, u1)
      && DecodeString(bs[u1..]) == Got(v, 2 + |v|)
      && bs[u1 + 2 + |v|..] == tail
      && DecodePair(bs) == Got((k, v), u1 + 2 + |v|)
  {
    var bs := StringBytes(k) + StringBytes(v) + tail;
    assert bs == StringBytes(k) + (StringBytes(v) + tail);
    StringRoundTrip(k, StringBytes(v) + tail);
    assert bs[2 + |k|..] == StringBytes(v) + tail;
    StringRoundTrip(v, tail);
  }

  lemma {:induction false} AllFitTail(e: Entries)
    requires e != [] && AllFit(e)
    ensures AllFit(e[1..]) && Fits(e[0].0) && Fits(e[0].1)
  {
    forall i | 0 <= i < |e| - 1 ensures Fits(e[1..][i].0) && Fits(e[1..][i].1) {
      assert e[1..][i] == e[i + 1];
    }
  }

  lemma {:induction false} EntriesBytesLength(e: Entries)
    requires AllFit(e)
    ensures |EntriesBytes(e)| >= 4 * |e|
  {
    if e != [] {
      AllFitTail(e);
      EntriesBytesLength(e[1..]);
    }
  }

  /** One turn of `ReadDictionary`'s loop over a written pair. */
  lemma DecodeAddStep(acc: Entries, k: Str, v: Str, tail: seq<byte>, n: nat)
    requires Fits(k) && Fits(v) && n > 0
    ensures DecodeAdd(acc, StringBytes(k) + StringBytes(v) + tail, n)
      == if k in KeysOf(acc) then Failed(4 + |k| + |v|)
         else After(4 + |k| + |v|, DecodeAdd(acc + [(k, v)], tail, n - 1))
  {
    ReadPair(k, v, tail);
  }

  /** The bytes of a non-empty list of entries: its first pair, then the others. */
  lemma EntriesBytesCons(e: Entries, rest: seq<byte>)
    requires e != [] && AllFit(e)
    ensures AllFit(e[1..]) && Fits(e[0].0) && Fits(e[0].1)
    ensures EntriesBytes(e) + rest == StringBytes(e[0].0) + StringBytes(e[0].1) + (EntriesBytes(e[1..]) + rest)
    ensures |EntriesBytes(e)| == 4 + |e[0].0| + |e[0].1| + |EntriesBytes(e[1..])|
  {
    AllFitTail(e);
  }

  /**
    `ReadDictionary`'s loop over written entries: it returns normally exactly
    when no key repeats one already held or one written earlier (otherwise
    `Add` throws), and then it holds the old entries followed by the written
    ones, in order, having consumed exactly their bytes.
  */
  lemma {:induction false} DecodeAddWritten(acc: Entries, e: Entries, rest: seq<byte>)
    requires AllFit(e) && DistinctKeys(acc)
    ensures var r := DecodeAdd(acc, EntriesBytes(e) + rest, |e|);
      && (r.Got? <==> DistinctKeys(acc + e))
      && (r.Got? ==> r == Got(acc + e, |EntriesBytes(e)|))
    decreases |e|
  {
    if e == [] {
      assert acc + e == acc;
    } else {
      EntriesBytesCons(e, rest);
      var k, v := e[0].0, e[0].1;
      DecodeAddStep(acc, k, v, EntriesBytes(e[1..]) + rest, |e|);
      DistinctFirst(acc, e);
      assert e[0] == (k, v);
      if k !in KeysOf(acc) {
        DecodeAddWritten(acc + [(k, v)], e[1..], rest);
        assert acc + [(k, v)] + e[1..] == acc + e;
      }
    }
  }

  /** `ReadDictionary` reads a non-negative count and then runs its loop that many times. */
  lemma DecodeDictionaryCount(count: int32, tail: seq<byte>)
    requires count >= 0
    ensures DecodeDictionary(Int32Bytes(count) + tail) == After(4, DecodeAdd([], tail, count))
  {
    Int32RoundTrip(count, tail);
  }

  /**
    A written dictionary reads back as itself: `ReadDictionary` after
    `Write(Dictionary)` gives the same entries in the same order. Entries
    that repeat a key (which a `Dictionary` never holds) make it throw.
  */
  lemma DictionaryRoundTrip(e: Entries, rest: seq<byte>)
    requires |e| < 0x8000_0000 && AllFit(e)
    ensures var r := DecodeDictionary(DictionaryBytes(e) + rest);
      && (r.Got? <==> DistinctKeys(e))
      && (r.Got? ==> r == Got(e, |DictionaryBytes(e)|))
  {
    assert DictionaryBytes(e) + rest == Int32Bytes(|e|) + (EntriesBytes(e) + rest);
    DecodeDictionaryCount(|e|, EntriesBytes(e) + rest);
    DecodeAddWritten([], e, rest);
    assert [] + e == e;
  }

  /** A null dictionary reads back as an empty one, not as null. */
  lemma NullDictionaryReadsEmpty(rest: seq<byte>)
    ensures DecodeDictionary(NullDictionaryBytes + rest) == Got([], 4)
  {
    Pow256Values();
    assert (NullDictionaryBytes + rest)[..4] == [0, 0, 0, 0];
  }

  /**
    `FromReader`'s loop over written entries stores each pair through the
    indexer and consumes exactly their bytes, never failing.
  */
  lemma {:induction false} MergePairsRoundTrip(acc: Entries, e: Entries, rest: seq<byte>)
    requires AllFit(e)
    ensures MergePairs(acc, EntriesBytes(e) + rest, |e|) == Merged(UpsertAll(acc, e), true, |EntriesBytes(e)|)
    decreases |e|
  {
    if e != [] {
      AllFitTail(e);
      var k, v := e[0].0, e[0].1;
      var tail := EntriesBytes(e[1..]) + rest;
      assert EntriesBytes(e) + rest == StringBytes(k) + StringBytes(v) + tail;
      ReadPair(k, v, tail);
      MergePairsRoundTrip(Upsert(acc, k, v), e[1..], rest);
    }
  }

  /**
    `FromBytes(empty, ToBytes(d))` rebuilds d exactly; into a dictionary that
    already holds entries, the written keys overwrite and the others stay.
  */
  lemma MergeDictionaryRoundTrip(acc: Entries, e: Entries, rest: seq<byte>)
    requires |e| < 0x8000_0000 && AllFit(e) && DistinctKeys(e)
    ensures var m := MergeDictionary(acc, DictionaryBytes(e) + rest);
      && m.ok && m.used == |DictionaryBytes(e)|
      && (forall k :: Lookup(m.entries, k) == if k in KeysOf(e) then Lookup(e, k) else Lookup(acc, k))
      && (acc == [] ==> m.entries == e)
  {
    var bs := DictionaryBytes(e) + rest;
    assert bs == Int32Bytes(|e|) + (EntriesBytes(e) + rest);
    Int32RoundTrip(|e|, EntriesBytes(e) + rest);
    assert bs[4..] == EntriesBytes(e) + rest;
    MergePairsRoundTrip(acc, e, rest);
    forall k ensures Lookup(UpsertAll(acc, e), k) == if k in KeysOf(e) then Lookup(e, k) else Lookup(acc, k) {
      UpsertAllLookup(acc, e, k);
    }
    if acc == [] {
      UpsertAllFresh(acc, e);
    }
  }

  /** A count of zero or less makes `FromReader` read no pairs and leave the dictionary as it was. */
  lemma NonPositiveCountMergesNothing(acc: Entries, count: int32, rest: seq<byte>)
    requires count <= 0
    ensures MergeDictionary(acc, Int32Bytes(count) + rest) == Merged(acc, true, 4)
  {
    Int32RoundTrip(count, rest);
  }

  // ---------------------------------------------------------------------------
  // Writing a dictionary pair by pair

  /** One more pair written after the others: its key, then its value. */
  lemma {:induction false} EntriesBytesSnoc(e: Entries, p: (Str, Str))
    requires AllFit(e) && Fits(p.0) && Fits(p.1)
    ensures AllFit(e + [p])
    ensures EntriesBytes(e + [p]) == EntriesBytes(e) + StringBytes(p.0) + StringBytes(p.1)
    decreases |e|
  {
    assert AllFit(e + [p]) by {
      forall i | 0 <= i < |e + [p]| ensures Fits((e + [p])[i].0) && Fits((e + [p])[i].1) {
        if i < |e| { assert (e + [p])[i] == e[i]; }
      }
    }
    if e == [] {
      assert e + [p] == [p];
    } else {
      assert (e + [p])[0] == e[0] && (e + [p])[1..] == e[1..] + [p];
      AllFitTail(e);
      EntriesBytesSnoc(e[1..], p);
    }
  }

  /** The pairs up to and including pair i, when it fits: those before it, then its key and value. */
  lemma EntriesBytesStep(e: Entries, i: nat)
    requires i < |e| && AllFit(e[..i]) && Fits(e[i].0) && Fits(e[i].1)
    ensures AllFit(e[..i + 1])
    ensures EntriesBytes(e[..i + 1]) == EntriesBytes(e[..i]) + (StringBytes(e[i].0) + StringBytes(e[i].1))
  {
    assert e[..i + 1] == e[..i] + [e[i]];
    EntriesBytesSnoc(e[..i], e[i]);
  }

  /**
    One turn of the dictionary writer's loop: when pair i fits, the pairs up
    to it are the pairs before it and then its key and value; otherwise the
    whole run of writes stops at it.
  */
  lemma EntryTurn(e: Entries, i: nat)
    requires i < |e| && AllFit(e[..i])
    ensures Fits(e[i].0) && Fits(e[i].1) ==>
      && AllFit(e[..i + 1])
      && EntriesBytes(e[..i + 1]) == EntriesBytes(e[..i]) + (StringBytes(e[i].0) + StringBytes(e[i].1))
    ensures !(Fits(e[i].0) && Fits(e[i].1)) ==>
      && !AllFit(e)
      && EmitEntries(e).bytes == EntriesBytes(e[..i]) + if Fits(e[i].0) then StringBytes(e[i].0) else []
  {
    if Fits(e[i].0) && Fits(e[i].1) {
      EntriesBytesStep(e, i);
    } else {
      EmitEntriesStops(e, i);
    }
  }

  /**
    When the first string too long to write belongs to pair i, the writes
    emit the pairs before it and, when only the value is too long, its key;
    then the exception stops the loop.
  */
  lemma {:induction false} EmitEntriesStops(e: Entries, i: nat)
    requires i < |e| && AllFit(e[..i]) && !(Fits(e[i].0) && Fits(e[i].1))
    ensures EmitEntries(e) == Emitted(false, EntriesBytes(e[..i]) + if Fits(e[i].0) then StringBytes(e[i].0) else [])
    decreases i
  {
    var part := if Fits(e[i].0) then StringBytes(e[i].0) else [];
    if i == 0 {
      assert e[..0] == [];
      assert [] + part == part;
    } else {
      var f := e[..i];
      AllFitTail(f);
      assert f[0] == e[0];
      assert f[1..] == e[1..][..i - 1];
      assert e[1..][i - 1] == e[i];
      EmitEntriesStops(e[1..], i - 1);
      var head := StringBytes(e[0].0) + StringBytes(e[0].1);
      var between := EntriesBytes(f[1..]);
      assert EmitEntries(e) == Emitted(false, head + (between + part));
      assert EntriesBytes(f) == head + between;
      assert head + (between + part) == head + between + part;
    }
  }

  // ---------------------------------------------------------------------------
  // Single bytes, booleans and byte blocks

  /** `ReadByte`: the byte at the cursor; at the end it throws without moving. */
  function DecodeByte(bs: seq<byte>): (r: Read<byte>)
    ensures r.Got? <==> bs != []
    ensures r.Got? ==> r.value == bs[0] && r.used == 1
    ensures r.Failed? ==> r.used == 0
  {
    if bs == [] then Failed(0) else Got(bs[0], 1)
  }

  /** `Write(bool)`: one byte, 1 for true and 0 for false. */
  function BoolByte(b: bool): byte
  {
    if b then 1 else 0
  }

  /** `ReadBoolean` is true for the byte 1 and false for every other byte. */
  function DecodeBoolean(bs: seq<byte>): (r: Read<bool>)
    ensures r.Got? <==> bs != []
    ensures r.Got? ==> r.used == 1 && (r.value <==> bs[0] == 1)
  {
    match DecodeByte(bs)
    case Failed(u) => Failed(u)
    case Got(b, u) => Got(b == 1, u)
  }

  /** A written boolean reads back as itself, and any byte other than 0 and 1 reads as false. */
  lemma BoolRoundTrip(b: bool, x: byte, rest: seq<byte>)
    ensures DecodeBoolean([BoolByte(b)] + rest) == Got(b, 1)
    ensures x != 1 ==> DecodeBoolean([x] + rest) == Got(false, 1)
  {
    assert ([BoolByte(b)] + rest)[0] == BoolByte(b);
    assert ([x] + rest)[0] == x;
  }

  /**
    `ReadBytes(count)`: a negative count throws before anything is read;
    otherwise exactly count bytes are taken at once, or none if fewer remain.
  */
  function DecodeBytes(bs: seq<byte>, count: int): (r: Read<seq<byte>>)
    ensures r.Got? <==> 0 <= count <= |bs|
    ensures r.Got? ==> |r.value| == r.used == count && bs[..count] == r.value
    ensures r.Failed? ==> r.used == 0
  {
    if count < 0 || |bs| < count then Failed(0) else Got(bs[..count], count)
  }

  /** `WriteBytesAndSize` / `WriteBytesFull` of a block b: its 16-bit size, then b. */
  function BlockBytes(b: seq<byte>): seq<byte>
    requires |b| < 0x1_0000
  {
    UInt16Bytes(|b|) + b
  }

  /**
    `ReadBytesAndSize`: a 16-bit size, then that many bytes; a size of 0
    gives null rather than an empty block.
  */
  function DecodeBlock(bs: seq<byte>): (r: Read<Option<seq<byte>>>)
    ensures r.used <= |bs|
    ensures r.Got? && r.value.Some? ==> r.value.value != [] && r.used == 2 + |r.value.value|
  {
    match DecodeUInt16(bs)
    case Failed(k) => Failed(k)
    case Got(n, k) =>
      if n == 0 then Got(None, k)
      else match DecodeBytes(bs[k..], n)
        case Failed(u) => Failed(k + u)
        case Got(b, u) => Got(Some(b), k + u)
  }

  /**
    A block written with its size reads back as itself, except that an empty
    block (like a null one) reads back as null.
  */
  lemma BlockRoundTrip(b: seq<byte>, rest: seq<byte>)
    requires |b| < 0x1_0000
    ensures DecodeBlock(BlockBytes(b) + rest) == Got(if b == [] then None else Some(b), 2 + |b|)
  {
    var bs := BlockBytes(b) + rest;
    assert bs == UInt16Bytes(|b|) + (b + rest);
    UInt16RoundTrip(|b|, b + rest);
    assert bs[2..][..|b|] == b;
  }
}
