# GameCloud.Core messaging core in Dafny

This project models the core of GameCloud.Core, a C# client/server messaging
library for game back ends. It covers:

- **The binary codec.** `NetWriter` writes little-endian fixed-width integers,
  the packed variable-length unsigned integers, length-prefixed strings,
  booleans, byte blocks and `Dictionary<string, string>` values into a byte
  buffer. `NetReader` reads them back, throwing on short or malformed input.
- **The frame header of `GcProtocol`.** `PackMessage` writes a flags byte
  (`MessageFlags`), the 16-bit operation code, then the optional peer id,
  request id and response id with its status byte, then the payload.
  `ParseMessage` reads a frame back into a `GcMessage`.
- **`GcMessage`.** A received message that can be answered at most once,
  through its sender.
- **`GcPeer`.** The server's view of a peer. Its send gate drops every message
  once the peer is disconnected. It also looks up the peer's id on relayed
  servers.
- **`GcConnection`.** The client connection. It numbers requests with a
  wrapping 32-bit counter and keeps a table from request id to the task
  waiting for the response. The table is resolved by incoming responses or
  by a timeout.
- **`SerializationExtensions`.** Converts a dictionary of strings to bytes and
  back.

How the model represents the source:

- **Bytes and integers.** Bytes are `int` subset types. Each C# integer width
  is a subset type, and two's complement is written out.
- **Strings** are the bytes of their UTF-8 encoding. A null string is `None`.
- **Reads.** A read returns `Got(value, used)` or `Failed(used)`. `used` is how
  far the cursor moved, also when the C# code throws.
- **The writer** is a class over two byte sequences: the bytes before the
  cursor and the stored bytes after it.
- **The reader** is a class over a constant byte sequence and a cursor.
- **Specifications.** Every `Read…`/`Write…` method is proved against a
  decoding or layout function. The round trips between the two are proved
  as lemmas.
- **Payload code** (`Action<NetWriter>` and `INetSerializable.Serialize`) is a
  `WriteAction`: the bytes it writes and whether it then throws.
- **Dictionaries** are insertion-ordered lists of distinct keys, as the .NET
  `Dictionary` enumerates them when no key has been removed.
- **Tasks.** The tasks of `GcConnection` are tickets into a list of resolutions.

## Model

| member | source | states |
|---|---|---|
| Bytes.LittleEndianRoundTrip | GameCloud.Core/NetReader.cs:167-175 | decoding the n little-endian bytes of a value below 256^n gives the value back |
| Bytes.FromLittleEndianRoundTrip | GameCloud.Core/NetWriter.cs:213-222 | encoding the value of n bytes as n little-endian bytes gives the same bytes |
| Bytes.LittleEndianPrefix | GameCloud.Core/NetWriter.cs:59-95 | the low k bytes of a value's n-byte encoding are its k-byte encoding (the packed writer emits a prefix of the fixed-width bytes) |
| Codec.DecodeUnsigned | GameCloud.Core/NetReader.cs:151-185 | a fixed-width read takes exactly n bytes and yields a value below 256^n when n bytes remain; otherwise it fails after taking every remaining byte |
| Codec.DecodeUInt16 | GameCloud.Core/NetReader.cs:159-165 | `ReadUInt16` succeeds exactly when two bytes remain |
| Codec.DecodeInt16 | GameCloud.Core/NetReader.cs:151-157 | `ReadInt16` succeeds exactly when two bytes remain |
| Codec.DecodeUInt32 | GameCloud.Core/NetReader.cs:177-185 | `ReadUInt32` succeeds exactly when four bytes remain |
| Codec.DecodeInt32 | GameCloud.Core/NetReader.cs:167-175 | `ReadInt32` succeeds exactly when four bytes remain |
| Codec.DecodeUInt64 | GameCloud.Core/NetReader.cs:218-245 | `ReadUInt64` succeeds exactly when eight bytes remain |
| Codec.DecodeInt64 | GameCloud.Core/NetReader.cs:187-216 | `ReadInt64` succeeds exactly when eight bytes remain |
| Codec.UnsignedRoundTrip | GameCloud.Core/NetReader.cs:167-175 | n little-endian bytes of a value below 256^n read back as that value, consuming n bytes, whatever follows |
| Codec.UInt16RoundTrip | GameCloud.Core/NetReader.cs:159-165 | `ReadUInt16` after `Write(ushort)` returns the value and consumes 2 bytes |
| Codec.Int16RoundTrip | GameCloud.Core/NetReader.cs:151-157 | `ReadInt16` after `Write(short)` returns the value, negative ones included, and consumes 2 bytes |
| Codec.Int32RoundTrip | GameCloud.Core/NetReader.cs:167-175 | `ReadInt32` after `Write(int)` returns the value and consumes 4 bytes |
| Codec.FixedWidthRoundTrip | GameCloud.Core/NetWriter.cs:201-260 | every fixed-width read inverts the matching write for every value of its type, whatever follows |
| Codec.DecodeString | GameCloud.Core/NetReader.cs:271-291 | a successful `ReadString` returns a string shorter than 32 KiB, taken from right after its two-byte count |
| Codec.StringRoundTrip | GameCloud.Core/NetWriter.cs:288-307 | a string shorter than 32 KiB reads back as itself and consumes its count and bytes |
| Codec.NullStringReadsEmpty | GameCloud.Core/NetWriter.cs:290-294 | a null string is written as a zero count and reads back as the empty string, not null |
| Codec.LongStringRejected | GameCloud.Core/NetReader.cs:273-280 | a count of 32 KiB or more throws once the count has been read |
| Codec.EmitEntries | GameCloud.Core/NetWriter.cs:331-348 | the entry loop finishes exactly when every key and value fits, and then it has written every pair in order |
| Codec.After | GameCloud.Core/NetReader.cs:298-310 | a read that follows k consumed bytes keeps its value and outcome and adds k to the bytes consumed |
| Codec.DecodeAdd | GameCloud.Core/NetReader.cs:304-307 | the `ReadDictionary` loop never consumes more bytes than remain |
| Codec.DecodeDictionary | GameCloud.Core/NetReader.cs:298-310 | `ReadDictionary` never consumes more bytes than remain |
| Codec.MergePairs | GameCloud.Core/Utils/SerializationExtensions.cs:32-44 | the `FromReader` loop never consumes more bytes than remain |
| Codec.MergedAfter | GameCloud.Core/Utils/SerializationExtensions.cs:30-44 | a merge that follows k consumed bytes keeps its entries and outcome and adds k to the bytes consumed |
| Codec.MergeDictionary | GameCloud.Core/Utils/SerializationExtensions.cs:27-47 | `FromReader` never consumes more bytes than remain |
| Codec.ReadPair | GameCloud.Core/NetReader.cs:306 | a key and value written back to back read back as that pair, consuming exactly their bytes |
| Codec.DecodeAddWritten | GameCloud.Core/NetReader.cs:298-310 | the loop over written entries succeeds exactly when no key is repeated or already present, and then the dictionary holds the old entries followed by the written ones |
| Codec.DecodeDictionaryCount | GameCloud.Core/NetReader.cs:300-302 | a non-negative count is read and the loop then runs that many times |
| Codec.DictionaryRoundTrip | GameCloud.Core/NetWriter.cs:331-348 | `ReadDictionary` after `Write(Dictionary)` succeeds exactly when the keys are distinct, and then returns the same entries in the same order, consuming exactly the written bytes |
| Codec.NullDictionaryReadsEmpty | GameCloud.Core/NetWriter.cs:333-337 | a null dictionary is written as a zero count and reads back as an empty dictionary, not null |
| Codec.MergePairsRoundTrip | GameCloud.Core/Utils/SerializationExtensions.cs:32-44 | the `FromReader` loop over written entries stores each pair through the indexer, never fails, and consumes exactly their bytes |
| Codec.MergeDictionaryRoundTrip | GameCloud.Core/Utils/SerializationExtensions.cs:8-53 | `FromBytes` of `ToBytes(d)` succeeds and consumes exactly the written bytes. Each of d's keys ends up with d's value and every other key keeps its old value. Into an empty dictionary it rebuilds d exactly |
| Codec.NonPositiveCountMergesNothing | GameCloud.Core/Utils/SerializationExtensions.cs:30-32 | a count of zero or less reads no pairs and leaves the dictionary as it was |
| Codec.EntriesBytesSnoc | GameCloud.Core/NetWriter.cs:341-345 | one more pair written after the others adds its key and then its value |
| Codec.EntryTurn | GameCloud.Core/NetWriter.cs:341-345 | one turn of the writer's loop either extends the written pairs by pair i or stops for good where `EmitEntries` stops |
| Codec.EmitEntriesStops | GameCloud.Core/NetWriter.cs:341-345 | the writes stop at the first key or value too long to write, after its key when only the value is too long |
| Codec.DecodeByte | GameCloud.Core/NetReader.cs:141-144 | `ReadByte` yields the byte at the cursor and moves one byte; at the end it throws without moving |
| Codec.DecodeBoolean | GameCloud.Core/NetReader.cs:312-316 | `ReadBoolean` is true exactly for the byte 1 |
| Codec.BoolRoundTrip | GameCloud.Core/NetWriter.cs:322-329 | a written boolean reads back as itself; any byte other than 0 and 1 reads as false |
| Codec.DecodeBytes | GameCloud.Core/NetReader.cs:318-327 | `ReadBytes(count)` succeeds exactly for 0 <= count <= remaining and returns the next count bytes; otherwise it does not move |
| Codec.DecodeBlock | GameCloud.Core/NetReader.cs:329-336 | a non-null block from `ReadBytesAndSize` is non-empty and consumes its size plus two bytes |
| Codec.BlockRoundTrip | GameCloud.Core/NetWriter.cs:372-407 | a block written with its size reads back as itself, except that an empty block reads back as null |
| Packed.PackedUInt32Layout | GameCloud.Core/NetWriter.cs:59-95 | the size table of `WritePackedUInt32`: 1 byte up to 240, 2 up to 2287, 3 up to 67823, 4 up to 16777215, else 5; the first byte gives the length |
| Packed.PackedUInt64Layout | GameCloud.Core/NetWriter.cs:97-181 | `WritePackedUInt64` agrees with the 32-bit writer below 2^32 and uses first bytes 252 to 255 for 5 to 8 further little-endian bytes |
| Packed.DecodePacked32 | GameCloud.Core/NetReader.cs:53-81 | a successful `ReadPackedUInt32` consumes the length its first byte announces; a failed one consumes every remaining byte |
| Packed.DecodePacked64 | GameCloud.Core/NetReader.cs:83-139 | a successful `ReadPackedUInt64` consumes the length its first byte announces; a failed one consumes every remaining byte |
| Packed.PackedUInt32RoundTrip | GameCloud.Core/NetReader.cs:53-81 | `ReadPackedUInt32` inverts `WritePackedUInt32` for every 32-bit value and consumes exactly the bytes written |
| Packed.PackedUInt64RoundTrip | GameCloud.Core/NetReader.cs:83-139 | `ReadPackedUInt64` inverts `WritePackedUInt64` for every 64-bit value, consuming exactly the bytes written |
| Packed.Packed32AcceptsEveryFirstByte | GameCloud.Core/NetReader.cs:73-80 | with five bytes available the 32-bit read never fails: first bytes 251 to 255 all read four bytes, so the final throw is unreachable |
| Dictionaries.Lookup | GameCloud.Core/Utils/SerializationExtensions.cs:36 | a key has a value exactly when it is one of the keys |
| Dictionaries.Upsert | GameCloud.Core/Utils/SerializationExtensions.cs:36-43 | the indexer stores v under k and leaves every other key's value alone. A present key keeps its place and a new key goes last. Distinct keys stay distinct |
| Dictionaries.DistinctConcat | GameCloud.Core/NetReader.cs:304-307 | two lists of entries laid end to end have distinct keys exactly when each does and they share none |
| Dictionaries.UpsertAllLookup | GameCloud.Core/Utils/SerializationExtensions.cs:32-44 | storing distinct-keyed entries overwrites the keys they mention and keeps the others |
| Dictionaries.UpsertAllFresh | GameCloud.Core/Utils/SerializationExtensions.cs:32-44 | storing entries whose keys are all new appends them in order |
| Dictionaries.Dictionary.Set | GameCloud.Core/Utils/SerializationExtensions.cs:38 | the indexer's setter: the entries become `Upsert` of the old ones, keys stay distinct |
| Dictionaries.Dictionary.Add | GameCloud.Core/NetReader.cs:306 | `Add` succeeds exactly when the key is absent and then appends the pair; otherwise nothing changes |
| NetWriting.NetWriter.Put | GameCloud.Core/NetWriter.cs:14 | the write of the `NetworkBuffer` the writer holds: the bytes go at the cursor, over the stored bytes, and the cursor moves past them |
| NetWriting.NetWriter.WriteByte | GameCloud.Core/NetWriter.cs:189-193 | the byte goes at the cursor and the cursor moves past it |
| NetWriting.NetWriter.constructor | GameCloud.Core/NetWriter.cs:18-26 | a new writer holds no bytes and its cursor is at the start |
| NetWriting.NetWriter.FromBuffer | GameCloud.Core/NetWriter.cs:28-36 | a writer over a given array writes over its bytes from the start |
| NetWriting.NetWriter.WriteChar | GameCloud.Core/NetWriter.cs:183-187 | only the low byte of the character is written |
| NetWriting.NetWriter.WriteSByte | GameCloud.Core/NetWriter.cs:195-199 | a signed byte is written as its two's-complement byte |
| NetWriting.NetWriter.WriteInt16 | GameCloud.Core/NetWriter.cs:201-205 | two little-endian two's-complement bytes |
| NetWriting.NetWriter.WriteUInt16 | GameCloud.Core/NetWriter.cs:207-211 | two little-endian bytes |
| NetWriting.NetWriter.WriteInt32 | GameCloud.Core/NetWriter.cs:213-222 | four little-endian two's-complement bytes |
| NetWriting.NetWriter.WriteUInt32 | GameCloud.Core/NetWriter.cs:224-232 | four little-endian bytes |
| NetWriting.NetWriter.WriteInt64 | GameCloud.Core/NetWriter.cs:234-246 | eight little-endian two's-complement bytes |
| NetWriting.NetWriter.WriteUInt64 | GameCloud.Core/NetWriter.cs:248-260 | eight little-endian bytes |
| NetWriting.NetWriter.WriteLowBytes | GameCloud.Core/NetWriter.cs:80-93 | a loop of single-byte writes emits the value's n low bytes, least significant first |
| NetWriting.NetWriter.WritePackedUInt32 | GameCloud.Core/NetWriter.cs:59-95 | writes exactly `PackedUInt32(v)`, which `ReadPackedUInt32` inverts |
| NetWriting.NetWriter.WritePackedUInt64 | GameCloud.Core/NetWriter.cs:97-181 | writes exactly `PackedUInt64(v)`, which `ReadPackedUInt64` inverts |
| NetWriting.NetWriter.WriteString | GameCloud.Core/NetWriter.cs:288-307 | null writes two zero bytes. A string whose encoding is 32 KiB or longer throws before writing anything. Any other string writes its count and bytes, which `ReadString` inverts |
| NetWriting.NetWriter.WriteBool | GameCloud.Core/NetWriter.cs:322-329 | one byte, 1 for true and 0 for false |
| NetWriting.NetWriter.Run | GameCloud.Core/GcProtocol.cs:54 | the payload code's bytes are written; the call fails exactly when that code throws |
| NetWriting.NetWriter.WriteSerializable | GameCloud.Core/NetWriter.cs:309-320 | null writes a false byte. An object writes a true byte and then its own bytes, failing exactly when its `Serialize` throws |
| NetWriting.NetWriter.WritePair | GameCloud.Core/NetWriter.cs:343-344 | the key and then the value. A too-long key writes nothing; a too-long value leaves the key written |
| NetWriting.NetWriter.WriteEntryAt | GameCloud.Core/NetWriter.cs:341-345 | one loop turn extends the written pairs by pair i, or stops where `EmitEntries` stops |
| NetWriting.NetWriter.WriteEntries | GameCloud.Core/NetWriter.cs:341-345 | the loop finishes exactly when every key and value fits, having written what `EmitEntries` says |
| NetWriting.NetWriter.WriteDictionary | GameCloud.Core/NetWriter.cs:331-348 | null writes a zero count. Otherwise it writes the count and then the pairs in enumeration order, stopping at a key or value too long to write. When all fit the message grows by `DictionaryBytes` |
| NetWriting.NetWriter.WriteBytes | GameCloud.Core/NetWriter.cs:350-359 | a count above 65535 writes nothing. Otherwise the first count bytes are written, with count taken modulo 2^16; a buffer too short throws without writing |
| NetWriting.NetWriter.WriteBytesAt | GameCloud.Core/NetWriter.cs:361-370 | as `WriteBytes`, starting at offset (modulo 2^16) |
| NetWriting.NetWriter.WriteBytesAndSize | GameCloud.Core/NetWriter.cs:372-389 | null or a zero count writes a zero size, and a count above 65535 writes nothing. Otherwise it writes the size and the first count bytes as a block. When the buffer is shorter than count it throws after the size has been written |
| NetWriting.NetWriter.WriteBytesFull | GameCloud.Core/NetWriter.cs:392-407 | the whole buffer as a sized block; null is a zero size; a buffer longer than 65535 writes nothing |
| NetWriting.NetWriter.SeekZero | GameCloud.Core/NetWriter.cs:409-413 | the cursor returns to the start; the stored bytes remain until overwritten |
| NetWriting.NetWriter.SetPosition | GameCloud.Core/NetWriter.cs:415-418 | the cursor moves to p over the stored bytes, padding with zero bytes when the store is shorter |
| NetWriting.NetWriter.StartMessage | GameCloud.Core/NetWriter.cs:420-430 | from the start: two zero placeholder bytes, then the message type |
| NetWriting.NetWriter.ToArray | GameCloud.Core/NetWriter.cs:40-45 | the bytes from the start to the cursor |
| NetWriting.NetWriter.Position | GameCloud.Core/NetWriter.cs:38 | the cursor, truncated to 16 signed bits |
| NetReading.NetReader.constructor | GameCloud.Core/NetReader.cs:22-26 | reading starts at the first byte of the given array |
| NetReading.NetReader.SeekZero | GameCloud.Core/NetReader.cs:40-43 | the cursor returns to the first byte |
| NetReading.NetReader.Position | GameCloud.Core/NetReader.cs:37 | the bytes still to read are those of the array from the position on |
| NetReading.NetReader.Length | GameCloud.Core/NetReader.cs:38 | the length less the position is the number of bytes still to read |
| NetReading.NetReader.SetPosition | GameCloud.Core/NetReader.cs:410-413 | the cursor moves to p |
| NetReading.NetReader.ReadByte | GameCloud.Core/NetReader.cs:141-144 | returns `DecodeByte` of the bytes after the cursor and moves by the bytes used |
| NetReading.NetReader.ReadEach | GameCloud.Core/NetReader.cs:167-175 | n single-byte reads return the next n bytes, or fail after taking every remaining byte |
| NetReading.NetReader.ReadUnsigned | GameCloud.Core/NetReader.cs:167-175 | or'ing n bytes shifted by 8k equals `DecodeUnsigned` |
| NetReading.NetReader.ReadSByte | GameCloud.Core/NetReader.cs:146-149 | the byte at the cursor as a signed byte |
| NetReading.NetReader.ReadChar | GameCloud.Core/NetReader.cs:293-296 | the byte at the cursor widened to a character |
| NetReading.NetReader.ReadUInt16 | GameCloud.Core/NetReader.cs:159-165 | returns `DecodeUInt16` of the bytes after the cursor, moving by the bytes used |
| NetReading.NetReader.ReadInt16 | GameCloud.Core/NetReader.cs:151-157 | returns `DecodeInt16` of the bytes after the cursor, moving by the bytes used |
| NetReading.NetReader.ReadUInt32 | GameCloud.Core/NetReader.cs:177-185 | returns `DecodeUInt32` of the bytes after the cursor, moving by the bytes used |
| NetReading.NetReader.ReadInt32 | GameCloud.Core/NetReader.cs:167-175 | returns `DecodeInt32` of the bytes after the cursor, moving by the bytes used |
| NetReading.NetReader.ReadUInt64 | GameCloud.Core/NetReader.cs:218-245 | returns `DecodeUInt64` of the bytes after the cursor, moving by the bytes used |
| NetReading.NetReader.ReadInt64 | GameCloud.Core/NetReader.cs:187-216 | returns `DecodeInt64` of the bytes after the cursor, moving by the bytes used |
| NetReading.NetReader.ReadPackedUInt32 | GameCloud.Core/NetReader.cs:53-81 | returns `DecodePacked32` of the bytes after the cursor, moving by the bytes used |
| NetReading.NetReader.ReadPackedUInt64 | GameCloud.Core/NetReader.cs:83-139 | returns `DecodePacked64` of the bytes after the cursor, moving by the bytes used |
| NetReading.NetReader.ReadBoolean | GameCloud.Core/NetReader.cs:312-316 | returns `DecodeBoolean` of the bytes after the cursor |
| NetReading.NetReader.ReadBytes | GameCloud.Core/NetReader.cs:318-327 | returns `DecodeBytes` of the bytes after the cursor |
| NetReading.NetReader.ReadString | GameCloud.Core/NetReader.cs:271-291 | returns `DecodeString` of the bytes after the cursor, moving by the bytes used, also when it throws |
| NetReading.NetReader.ReadBytesAndSize | GameCloud.Core/NetReader.cs:329-336 | returns `DecodeBlock` of the bytes after the cursor |
| NetReading.NetReader.ReadDictionary | GameCloud.Core/NetReader.cs:298-310 | returns a new dictionary holding `DecodeDictionary` of the bytes after the cursor, or null exactly when that fails; the cursor moves by the bytes used |
| NetReading.NetReader.AddEntries | GameCloud.Core/NetReader.cs:304-307 | the loop adds pairs as `DecodeAdd` says, stopping at the first throw |
| NetReading.NetReader.ReadPair | GameCloud.Core/NetReader.cs:306 | a key and then its value, as `DecodePair` says |
| Protocol.SetFlagEffect | GameCloud.Core/GcProtocol.cs:29-31 | `flags \|= flag` sets that flag and leaves every other flag as it was |
| Protocol.PackHeader | GameCloud.Core/GcProtocol.cs:22-51 | the header carries the given operation code, peer id and request id. A response id is carried with its status, `Default` when none is given |
| Protocol.PackFlagsEffect | GameCloud.Core/GcProtocol.cs:28-31 | a flag is set exactly when it is a default flag or the bit of a supplied field |
| Protocol.PackHeaderAnnounced | GameCloud.Core/GcProtocol.cs:28-51 | a packed header announces exactly its fields unless a default flag claims a field that is not supplied |
| Protocol.HeaderLength | GameCloud.Core/GcProtocol.cs:34-51 | a header is 3 bytes, plus 4 for a peer id, 4 for a request id and 5 for a response id with its status |
| Protocol.DecodeOptionalInt32 | GameCloud.Core/GcProtocol.cs:77-81 | an int is read exactly when its flag is set |
| Protocol.DecodeResponse | GameCloud.Core/GcProtocol.cs:83-89 | a response id and status are read exactly when the response flag is set |
| Protocol.DecodeIds | GameCloud.Core/GcProtocol.cs:77-89 | the request id and the response are read exactly when their flags are set |
| Protocol.DecodeFields | GameCloud.Core/GcProtocol.cs:65-89 | each optional field is read exactly when its flag is set |
| Protocol.DecodeHeader | GameCloud.Core/GcProtocol.cs:57-92 | a parsed header announces exactly the fields it carries |
| Protocol.OptionalInt32RoundTrip | GameCloud.Core/GcProtocol.cs:40-46 | an optional int written when supplied reads back as itself |
| Protocol.ResponseRoundTrip | GameCloud.Core/GcProtocol.cs:47-51 | a response id and status written when supplied read back as themselves |
| Protocol.IdsRoundTrip | GameCloud.Core/GcProtocol.cs:46-51 | the request id and response read back as written |
| Protocol.FieldsRoundTrip | GameCloud.Core/GcProtocol.cs:40-51 | the optional fields read back as written, whatever payload follows |
| Protocol.HeaderRoundTrip | GameCloud.Core/GcProtocol.cs:57-92 | `ParseMessage` recovers every header field `PackMessage` wrote and stops right before the payload |
| Protocol.PackedMessageParses | GameCloud.Core/GcProtocol.cs:22-92 | a packed message parses back to the header it was packed with, followed by exactly the payload, unless a default flag claims a field that is not supplied |
| Protocol.WriteOptionalInt32 | GameCloud.Core/GcProtocol.cs:40-46 | writes the int only when supplied |
| Protocol.WriteResponse | GameCloud.Core/GcProtocol.cs:47-51 | writes the response id and its status byte only when supplied |
| Protocol.WriteOptionalFields | GameCloud.Core/GcProtocol.cs:39-51 | peer id, request id, response, each only when supplied |
| Protocol.HeaderFlags | GameCloud.Core/GcProtocol.cs:28-31 | the default flags or'ed with the bit of each supplied field |
| Protocol.WriteHeader | GameCloud.Core/GcProtocol.cs:28-51 | writes exactly the bytes of `PackHeader` |
| Protocol.PackMessage | GameCloud.Core/GcProtocol.cs:22-55 | from the start of the writer: the header, then the payload. The call fails exactly when the payload code throws, and bytes stored beyond the message are left |
| Peers.GcPeer.constructor | GameCloud.Core/GcPeer.cs:19-25 | a connected, non-relayed peer with the given id, an empty id table and a new writer |
| Peers.GcPeer.GetPeerIdInRelayedServer | GameCloud.Core/GcPeer.cs:29-36 | never 0: -1 exactly when the connection is missing or stored with 0 or -1, and otherwise the stored id |
| Peers.GcPeer.SentPeerId | GameCloud.Core/GcPeer.cs:48 | the peer's own id exactly when it is relayed |
| Peers.GcPeer.SendBasicMessage | GameCloud.Core/GcPeer.cs:38-54 | a disconnected peer sends nothing and leaves its writer alone. Otherwise one frame is sent, the packed message, unless the payload code throws |
| Peers.GcPeer.OnDisconnected | GameCloud.Core/GcPeer.cs:56-60 | the peer is disconnected; nothing else changes |
| Messages.SerializableAction | GameCloud.Core/NetWriter.cs:309-320 | the payload's first byte reads back as whether an object was given, followed by the object's bytes; it throws exactly when `Serialize` throws |
| Messages.StringAction | GameCloud.Core/GcMessage.cs:59-63 | the payload reads back as the string (null as empty) and throws, writing nothing, exactly for a string too long to write |
| Messages.GcMessage.constructor | GameCloud.Core/GcMessage.cs:19-26 | the given sender and flags; request id, response id and operation code -1; no response required |
| Messages.GcMessage.RequiresResponse | GameCloud.Core/GcMessage.cs:11 | a response is required only of a message with a request id, and never once one has been sent |
| Messages.GcMessage.Respond | GameCloud.Core/GcMessage.cs:34-41 | refuses unless a response is required and fails on a null sender. Otherwise one response frame goes out through the sender and the message no longer requires a response; a throwing payload leaves it required |
| Messages.GcMessage.RespondSerializable | GameCloud.Core/GcMessage.cs:48-52 | `Respond` with the object behind its presence byte as payload |
| Messages.GcMessage.RespondString | GameCloud.Core/GcMessage.cs:59-63 | `Respond` with the string as payload |
| Messages.GcMessage.RespondEmpty | GameCloud.Core/GcMessage.cs:69-73 | `Respond` with an empty payload, which never throws |
| Messages.GcMessage.AsString | GameCloud.Core/GcMessage.cs:90-104 | the string at the reader's cursor with the cursor restored; on a throw the default is returned and the cursor stays where the read stopped |
| Messages.GcMessage.AsStringOrNull | GameCloud.Core/GcMessage.cs:79-82 | `AsString` with a null default |
| Messages.ReadOptionalInt32 | GameCloud.Core/GcProtocol.cs:77-81 | reads as `DecodeOptionalInt32` says |
| Messages.ReadResponse | GameCloud.Core/GcProtocol.cs:83-89 | reads as `DecodeResponse` says |
| Messages.ReadIds | GameCloud.Core/GcProtocol.cs:77-89 | reads as `DecodeIds` says |
| Messages.ParseMessage | GameCloud.Core/GcProtocol.cs:57-92 | a message exactly when `DecodeHeader` succeeds. It carries the header's flags, operation code, request id (-1 if none), response id (-1 if none) and status (the enum's zero if none), with its reader on the frame right after the header |
| Messages.ParseFields | GameCloud.Core/GcProtocol.cs:64-91 | reads the fields as `DecodeFields` says and fills in the message |
| Connections.NextRequestId | GameCloud.Core/GcConnection.cs:120 | one more, wrapping from the largest int to the smallest |
| Connections.RequestIdsCount | GameCloud.Core/GcConnection.cs:120 | the first 2^31 - 1 requests get the ids 1, 2, 3, … |
| Connections.RequestIdsIncrease | GameCloud.Core/GcConnection.cs:120 | up to then every request gets a larger id than the earlier ones, so no id repeats |
| Connections.RequestIdWraps | GameCloud.Core/GcConnection.cs:120 | the request after the 2^31 - 1st gets a negative id |
| Connections.ResponseIdOf | GameCloud.Core/GcConnection.cs:94 | the response id a parsed message carries, -1 when it has none |
| Connections.GcConnection.constructor | GameCloud.Core/GcConnection.cs:47-65 | empty tables, no request yet, a new writer, a timeout message with status `Timeout` and no sender |
| Connections.GcConnection.SendBasicMessage | GameCloud.Core/GcConnection.cs:132-144 | one frame is sent, the packed message, unless the payload code throws; the tables are untouched |
| Connections.GcConnection.Send | GameCloud.Core/GcConnection.cs:113-116 | a message with no ids, carrying peer id -1 when relays are enabled |
| Connections.GcConnection.SendRequest | GameCloud.Core/GcConnection.cs:118-130 | the next request id, a new waiting task registered under it unless the id is taken, then the request frame carrying that id and peer id 0 |
| Connections.GcConnection.OnDataReceived | GameCloud.Core/GcConnection.cs:77-106 | every case of a frame's classification: empty and internal frames ignored, a malformed header throws, a non-response is not implemented, an unclaimed response is dropped. A claimed response removes the waiting task from the table and resolves it with a new message holding the parsed flags, operation code, request id, response id and status, whose reader stands on the frame right after the header |
| Connections.GcConnection.HandleInternalMessage | GameCloud.Core/GcConnection.cs:108-111 | an internal message changes nothing |
| Connections.EstablishPeerResult | GameCloud.Core/GcConnection.cs:159-164 | a response with status `Timeout` establishes no peer, and a success is never the `Default` status |
| Connections.GcConnection.OnTimeout | GameCloud.Core/GcConnection.cs:146-157 | a task already resolved, or no longer in the table, is left alone. Otherwise it is removed and resolved with the timeout message |
| Connections.GcConnection.EstablishPeer | GameCloud.Core/GcConnection.cs:159-164 | a request with the given operation code whose payload is the int -1: the next request id becomes the counter, its task is registered as `SendRequest` does, the frame is sent, and the relayed peers are unchanged |
| Connections.GcConnection.RememberRelayedPeer | GameCloud.Core/GcConnection.cs:201-204 | the first peer stored under an id stays |
| SerializationExtensions.ToBytes | GameCloud.Core/Utils/SerializationExtensions.cs:8-20 | the count and then every pair, exactly `DictionaryBytes`, when every key and value fits |
| SerializationExtensions.FromReader | GameCloud.Core/Utils/SerializationExtensions.cs:27-47 | returns the same dictionary, whose entries, outcome and cursor movement are those of `MergeDictionary` |
| SerializationExtensions.MergeEntries | GameCloud.Core/Utils/SerializationExtensions.cs:32-44 | the loop stores pairs as `MergePairs` says, none for a count of zero or less |
| SerializationExtensions.FromBytes | GameCloud.Core/Utils/SerializationExtensions.cs:49-53 | `FromReader` over a new reader on the bytes |

## Left out

- Floating point and decimals: `Write(float)`, `Write(double)`, `Write(decimal)`, `ReadSingle`, `ReadDouble` and `ReadDecimal` are not modelled.
- UTF-8 encoding: strings are modelled as their encoded bytes, and dictionary keys are compared as those bytes. `ReadString` decodes leniently, replacing an invalid sequence by U+FFFD, so two keys that differ as bytes can decode to the same string; then `ReadDictionary`'s `Add` throws and `FromReader` overwrites, where the model keeps both entries. Likewise lone surrogates all encode to the same three bytes, so distinct strings can be written as equal keys. The dictionary results hold for keys that are valid UTF-8 of strings without lone surrogates. The scratch buffer that `Write(string)` encodes into is not modelled, and neither is the grow loop of `ReadString`'s buffer. A character in `Write(char)`/`ReadChar` is its code unit; a Dafny `char` is a Unicode scalar value, so the surrogate code units 0xD800-0xDFFF, which a C# `char` can hold, cannot be passed to `WriteChar` (`ReadChar` only yields characters below 256).
- The `NetworkBuffer` class is not part of this model. It is assumed that a write goes over the stored bytes at the cursor and that `ToArray` copies up to the cursor. A byte read at the end is assumed to throw without moving, and `ReadBytes` to check the whole range before moving. On the writing side, `WriteBytes` and `WriteBytesAtOffset` are assumed to throw before writing anything when the buffer is shorter than the range, and `SetPosition` past the stored bytes is assumed to pad the store with zero bytes; `WriteBytes`, `WriteBytesAt`, `WriteBytesAndSize` and `SetPosition` state those assumptions as what happens.
- A null array passed to `Write(byte[], int)` or `Write(byte[], int, int)` throws in the source; the model's `WriteBytes` and `WriteBytesAt` take a non-null byte sequence, so that case is not represented.
- `AsArray`, `AsArraySegment`, `FinishMessage` and `NetReader.Replace` depend on `NetworkBuffer` internals and are not modelled. Neither are `NetReader.ToString` and the commented-out vector readers.
- The reader side of `INetSerializable` (`Read<T>`, `Deserialize<T>`) and the interface's implementations are not modelled. A serializable is modelled by the bytes it writes.
- `SerializationExtensions.ToBytes(string)` is plain UTF-8 encoding, which strings already are here.
- Null dictionary values: a value of null would be written as an empty string. Dictionary values are modelled as non-null strings.
- `ResponseStatus` and `InternalOpCodes` are not part of this model. The statuses are byte constants, of which only `Default`, `Success` and `Timeout` matter; their numbers (0, 1 and 2) are assumed, and the proofs use only that they differ. The byte `PackHeader` writes for a missing status is that assumed `Default`. A message whose status is never set holds `ZeroStatus`, the enum's zero, which C# gives every enum. The `EstablishPeer` operation code is a parameter.
- `EstablishPeer` takes a timeout argument it never uses; it is dropped.
- Concurrency, locks, `async`/`await` and timers are left out. Tasks are tickets with a resolution. The timeout is the method `OnTimeout`, called in any order with the arrival of responses. Awaiting a task and returning its result is left to the caller.
- Transport and I/O: `SendRawData` is a list of frames sent. `ConnectTo`, `Disconnect`, `IsConnected`, `GetHashCode`, `ToString` and the `Disconnected` events are not modelled. Neither are `GcServer`, `GcClient`, `PeerConnection`, the implementation interfaces, `Helper` and `Logs`.
- `GcPeer._relayedPeerIds` is never written by the shown code. The model keeps it as a map that only the constructor sets, keyed by object identity.
- `NetReading.NetReader.SetPosition`: the position is an unbounded natural number, not a 32-bit `uint`.
- `Messages.ParseMessage`: the peer id is read and discarded, as in the source. When a read throws midway the partly built message is not returned, so the model returns null there.
- `Connections.GcConnection.OnDataReceived`: the exceptions of a malformed frame and of a non-response message are outcomes, not thrown.
