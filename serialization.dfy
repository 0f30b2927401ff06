/**
  `SerializationExtensions`: a dictionary of strings to bytes and back. The
  bytes are those of `NetWriter.Write(Dictionary)`; reading them back merges
  into an existing dictionary, where a key already present is overwritten.
*/
module SerializationExtensions {
  import opened Wrappers
  import opened Bytes
  import opened Codec
  import opened Dictionaries
  import opened NetWriting
  import opened NetReading

  /**
    `ToBytes(dictionary)`: a new writer, the entry count, then each key and
    its value in enumeration order; the writer's bytes. A key or value too
    long to write throws (ok is false).
  */
  method ToBytes(d: Dictionary<Str, Str>) returns (bytes: seq<byte>, ok: bool)
    requires |d.entries| < 0x8000_0000
    ensures ok == AllFit(d.entries)
    ensures ok ==> bytes == DictionaryBytes(d.entries)
  {
    var writer := new NetWriter();
    writer.WriteInt32(|d.entries|);
    ok := writer.WriteEntries(d.entries);
    if !ok {
      return [], false;
    }
    bytes := writer.ToArray();
  }

  /**
    `FromReader`: an int32 count, then that many keys each followed by its
    value, each stored through the indexer (`ContainsKey` decides between
    the indexer and `Add`, which come to the same here). Returns the same
    dictionary. ok is false when a read throws, leaving what was stored.
  */
  method FromReader(d: Dictionary<Str, Str>, reader: NetReader) returns (result: Dictionary<Str, Str>, ok: bool)
    requires d.Valid()
    modifies d, reader
    ensures result == d && d.Valid()
    ensures var m := MergeDictionary(old(d.entries), old(reader.Rest()));
      && d.entries == m.entries && ok == m.ok
      && reader.pos == old(reader.pos) + m.used
  {
    result := d;
    ghost var bs := reader.Rest();
    ghost var p0 := reader.pos;
    var count := reader.ReadInt32();
    if count.Failed? {
      return d, false;
    }
    assert reader.Rest() == bs[4..] by {
      assert reader.data[p0 + 4..] == reader.data[p0..][4..];
    }
    ok := MergeEntries(d, reader, count.value);
  }

  /** The loop of `FromReader`: n times (none when n <= 0) a key and its value, stored. */
  method MergeEntries(d: Dictionary<Str, Str>, reader: NetReader, n: int) returns (ok: bool)
    requires d.Valid() && reader.pos <= |reader.data|
    modifies d, reader
    ensures d.Valid()
    ensures var m := MergePairs(old(d.entries), old(reader.Rest()), n);
      && d.entries == m.entries && ok == m.ok
      && reader.pos == old(reader.pos) + m.used
  {
    ghost var p1 := reader.pos;
    ghost var target := MergePairs(d.entries, reader.Rest(), n);
    ghost var left := n;
    var i := 0;
    while i < n
      invariant 0 <= i && (n >= 0 ==> i <= n) && (n < 0 ==> i == 0) && left == n - i
      invariant d.Valid() && Merging(d.entries, reader.data, reader.pos, p1, left, target)
    {
      var stored := MergeEntry(d, reader, left, p1, target);
      if !stored {
        return false;
      }
      left := left - 1;
      i := i + 1;
    }
    MergingDone(d.entries, reader.data, reader.pos, p1, left, target);
    ok := true;
  }

  /** Merging from p1 on gives target, once the pairs from pos on are merged into entries. */
  ghost predicate Merging(entries: Entries, data: seq<byte>, pos: nat, p1: nat, n: int, target: Merged)
  {
    p1 <= pos <= |data| && MergedAfter(pos - p1, MergePairs(entries, data[pos..], n)) == target
  }

  /** With no pairs left, the merge has stored entries and read pos - p1 bytes. */
  lemma MergingDone(entries: Entries, data: seq<byte>, pos: nat, p1: nat, n: int, target: Merged)
    requires n <= 0 && Merging(entries, data, pos, p1, n, target)
    ensures target == Merged(entries, true, pos - p1)
  {
  }

  /**
    One turn of `FromReader`'s loop, with n pairs still to read, when the
    merge from p1 on is to give target.
  */
  method MergeEntry(d: Dictionary<Str, Str>, reader: NetReader, ghost n: int, ghost p1: nat, ghost target: Merged)
    returns (ok: bool)
    requires d.Valid() && n > 0 && Merging(d.entries, reader.data, reader.pos, p1, n, target)
    modifies d, reader
    ensures d.Valid() && p1 <= reader.pos <= |reader.data|
    ensures ok ==> Merging(d.entries, reader.data, reader.pos, p1, n - 1, target)
    ensures !ok ==> target == Merged(d.entries, false, reader.pos - p1)
  {
    ghost var q := reader.pos;
    ghost var e := d.entries;
    assert MergePairs(e, reader.data[q..], n) == MergeNext(e, reader.data[q..], n);
    var p := reader.ReadPair();
    if p.Failed? {
      return false;
    }
    ghost var rest := reader.data[reader.pos..];
    assert rest == reader.data[q..][p.used..];
    var key, value := p.value.0, p.value.1;
    if d.ContainsKey(key) {
      d.Set(key, value);
    } else {
      var added := d.Add(key, value);
    }
    MergedAfterAfter(q - p1, p.used, MergePairs(d.entries, rest, n - 1));
    ok := true;
  }

  /** `FromBytes`: `FromReader` over a new reader on the bytes. */
  method FromBytes(d: Dictionary<Str, Str>, data: seq<byte>) returns (result: Dictionary<Str, Str>, ok: bool)
    requires d.Valid()
    modifies d
    ensures result == d && d.Valid()
    ensures var m := MergeDictionary(old(d.entries), data);
      d.entries == m.entries && ok == m.ok
  {
    var reader := new NetReader(data);
    result, ok := FromReader(d, reader);
  }
}
