/**
  The message header of `GcProtocol`: a flags byte, the 16-bit operation
  code, then the optional peer id, request id, and response id with its
  status byte, each announced by a bit of the flags byte. `PackMessage`
  writes a header and the payload into a writer; the reading side is
  `DecodeHeader`, which `ParseMessage` (in `Messages`) is proved to follow.
*/
module Protocol {
  import opened Wrappers
  import opened Bytes
  import opened Codec
  import opened NetWriting

  // The bits of the flags byte (`MessageFlags`). The flags byte is handled
  // as a `bv8`, so that `|=` and `&` are the bit operations of the source.
  const InternalMessage: bv8 := 1
  const Request: bv8 := 2
  const Response: bv8 := 4
  const RelayedForward: bv8 := 8
  const RelayedBackward: bv8 := 16
  const PaddedPeerId: bv8 := 32

  /** One of the six flag bits. */
  predicate IsFlag(b: bv8)
  {
    b == InternalMessage || b == Request || b == Response
    || b == RelayedForward || b == RelayedBackward || b == PaddedPeerId
  }

  /** `(flags & flag) > 0`. */
  predicate HasFlag(flags: bv8, flag: bv8)
  {
    flags & flag != 0
  }

  /** `flags |= flag` makes that flag present and leaves every other flag bit as it was. */
  lemma SetFlagEffect(flags: bv8, flag: bv8, other: bv8)
    requires IsFlag(flag) && IsFlag(other)
    ensures HasFlag(flags | flag, other) <==> other == flag || HasFlag(flags, other)
  {
  }

  // `ResponseStatus` values the core relies on, as the byte that carries them.
  // The enum's declaration is not part of this model: these numbers are
  // assumed, and all that the proofs use is that they differ.
  const Default: byte := 0
  const Success: byte := 1
  const Timeout: byte := 2
  /** The `Status` of a message no status was stored into: a C# enum's default is its zero, whatever its members. */
  const ZeroStatus: byte := 0

  /** A header as it travels: the flags byte and the fields those flags announce. */
  datatype Header = Header(
    flags: bv8,
    opCode: int16,
    peerId: Option<int32>,
    requestId: Option<int32>,
    response: Option<(int32, byte)>)

  /** Each optional field is present exactly when its flag bit is set. */
  predicate Announced(h: Header)
  {
    && (HasFlag(h.flags, PaddedPeerId) <==> h.peerId.Some?)
    && (HasFlag(h.flags, Request) <==> h.requestId.Some?)
    && (HasFlag(h.flags, Response) <==> h.response.Some?)
  }

  /** The flags `PackMessage` sends: the default flags, or'ed with the bit of each supplied field. */
  function PackFlags(request: bool, response: bool, peer: bool, defaultFlags: bv8): bv8
  {
    var f1 := if request then defaultFlags | Request else defaultFlags;
    var f2 := if response then f1 | Response else f1;
    if peer then f2 | PaddedPeerId else f2
  }

  /**
    The header `PackMessage` writes: the given default flags with the bit of
    each supplied field set, and a missing status sent as `Default`.
  */
  function PackHeader(opCode: int16, requestId: Option<int32>, responseId: Option<int32>,
                      status: Option<byte>, peerId: Option<int32>, defaultFlags: bv8): (h: Header)
    ensures h.opCode == opCode && h.peerId == peerId && h.requestId == requestId
    ensures h.response.Some? <==> responseId.Some?
    ensures responseId.Some? ==> h.response.value == (responseId.value, status.GetOr(Default))
  {
    Header(PackFlags(requestId.Some?, responseId.Some?, peerId.Some?, defaultFlags), opCode, peerId, requestId,
      if responseId.Some? then Some((responseId.value, status.GetOr(Default))) else None)
  }

  /**
    The flags `PackMessage` sends are the default flags plus the bits of the
    supplied fields: a flag bit is set exactly when the default flags set it
    or it is the bit of a supplied field.
  */
  lemma PackFlagsEffect(request: bool, response: bool, peer: bool, defaultFlags: bv8, flag: bv8)
    requires IsFlag(flag)
    ensures HasFlag(PackFlags(request, response, peer, defaultFlags), flag) <==>
      || HasFlag(defaultFlags, flag)
      || (flag == Request && request)
      || (flag == Response && response)
      || (flag == PaddedPeerId && peer)
  {
    var f1 := if request then defaultFlags | Request else defaultFlags;
    var f2 := if response then f1 | Response else f1;
    if request { SetFlagEffect(defaultFlags, Request, flag); }
    if response { SetFlagEffect(f1, Response, flag); }
    if peer { SetFlagEffect(f2, PaddedPeerId, flag); }
  }

  /**
    A packed header announces exactly the fields it carries unless the
    default flags claim a field that was not supplied; then the reader would
    take payload bytes for that field.
  */
  lemma PackHeaderAnnounced(opCode: int16, requestId: Option<int32>, responseId: Option<int32>,
                            status: Option<byte>, peerId: Option<int32>, defaultFlags: bv8)
    ensures Announced(PackHeader(opCode, requestId, responseId, status, peerId, defaultFlags)) <==>
      && (HasFlag(defaultFlags, Request) ==> requestId.Some?)
      && (HasFlag(defaultFlags, Response) ==> responseId.Some?)
      && (HasFlag(defaultFlags, PaddedPeerId) ==> peerId.Some?)
  {
    PackFlagsEffect(requestId.Some?, responseId.Some?, peerId.Some?, defaultFlags, Request);
    PackFlagsEffect(requestId.Some?, responseId.Some?, peerId.Some?, defaultFlags, Response);
    PackFlagsEffect(requestId.Some?, responseId.Some?, peerId.Some?, defaultFlags, PaddedPeerId);
  }

  function OptionalInt32Bytes(v: Option<int32>): seq<byte>
  {
    if v.Some? then Int32Bytes(v.value) else []
  }

  function ResponseBytes(r: Option<(int32, byte)>): seq<byte>
  {
    if r.Some? then Int32Bytes(r.value.0) + [r.value.1] else []
  }

  /** The optional fields, in the order `PackMessage` writes them. */
  function FieldsBytes(peerId: Option<int32>, requestId: Option<int32>, response: Option<(int32, byte)>): seq<byte>
  {
    OptionalInt32Bytes(peerId) + OptionalInt32Bytes(requestId) + ResponseBytes(response)
  }

  /** The bytes of a header, in the order `PackMessage` writes them. */
  function HeaderBytes(h: Header): seq<byte>
  {
    [h.flags as byte] + Int16Bytes(h.opCode) + FieldsBytes(h.peerId, h.requestId, h.response)
  }

  /** A header is 3 bytes, plus 4 for a peer id, 4 for a request id, 5 for a response id and status. */
  lemma HeaderLength(h: Header)
    ensures |HeaderBytes(h)| == 3 + (if h.peerId.Some? then 4 else 0)
      + (if h.requestId.Some? then 4 else 0) + (if h.response.Some? then 5 else 0)
  {
  }

  /** An `int` read only when its flag is set. */
  function DecodeOptionalInt32(bs: seq<byte>, present: bool): (r: Read<Option<int32>>)
    ensures r.used <= |bs|
    ensures r.Got? ==> (r.value.Some? <==> present)
  {
    if !present then Got(None, 0)
    else match DecodeInt32(bs)
      case Failed(u) => Failed(u)
      case Got(v, u) => Got(Some(v), u)
  }

  /** A response id and its status byte, read only when the response flag is set. */
  function DecodeResponse(bs: seq<byte>, present: bool): (r: Read<Option<(int32, byte)>>)
    ensures r.used <= |bs|
    ensures r.Got? ==> (r.value.Some? <==> present)
  {
    if !present then Got(None, 0)
    else match DecodeInt32(bs)
      case Failed(u) => Failed(u)
      case Got(id, u) =>
        match DecodeByte(bs[u..])
        case Failed(u2) => Failed(u + u2)
        case Got(st, u2) => Got(Some((id, st)), u + u2)
  }

  /** The request id and the response fields, each read only when its flag is set. */
  function DecodeIds(bs: seq<byte>, request: bool, response: bool)
    : (r: Read<(Option<int32>, Option<(int32, byte)>)>)
    ensures r.used <= |bs|
    ensures r.Got? ==> (r.value.0.Some? <==> request) && (r.value.1.Some? <==> response)
  {
    match DecodeOptionalInt32(bs, request)
    case Failed(u) => Failed(u)
    case Got(req, u1) =>
      match DecodeResponse(bs[u1..], response)
      case Failed(u) => Failed(u1 + u)
      case Got(resp, u2) => Got((req, resp), u1 + u2)
  }

  /** The optional fields whose flags are set, in order: the peer id, then the ids. */
  function DecodeFields(bs: seq<byte>, peer: bool, request: bool, response: bool)
    : (r: Read<(Option<int32>, Option<int32>, Option<(int32, byte)>)>)
    ensures r.used <= |bs|
    ensures r.Got? ==> (r.value.0.Some? <==> peer) && (r.value.1.Some? <==> request) && (r.value.2.Some? <==> response)
  {
    match DecodeOptionalInt32(bs, peer)
    case Failed(u) => Failed(u)
    case Got(p, u1) =>
      match DecodeIds(bs[u1..], request, response)
      case Failed(u) => Failed(u1 + u)
      case Got(ids, u2) => Got((p, ids.0, ids.1), u1 + u2)
  }

  /**
    What `ParseMessage` reads before the payload: the flags byte, the
    operation code, then the peer id, request id and response fields whose
    flags are set. A failure reports the bytes taken before the exception.
  */
  function DecodeHeader(bs: seq<byte>): (r: Read<Header>)
    ensures r.used <= |bs|
    ensures r.Got? ==> Announced(r.value)
  {
    match DecodeByte(bs)
    case Failed(u) => Failed(u)
    case Got(b, _) =>
      var flags := b as bv8;
      match DecodeInt16(bs[1..])
      case Failed(u) => Failed(1 + u)
      case Got(opCode, _) =>
        match DecodeFields(bs[3..], HasFlag(flags, PaddedPeerId), HasFlag(flags, Request), HasFlag(flags, Response))
        case Failed(u) => Failed(3 + u)
        case Got(f, u) => Got(Header(flags, opCode, f.0, f.1, f.2), 3 + u)
  }

  lemma OptionalInt32RoundTrip(v: Option<int32>, rest: seq<byte>)
    ensures DecodeOptionalInt32(OptionalInt32Bytes(v) + rest, v.Some?) == Got(v, |OptionalInt32Bytes(v)|)
  {
    if v.Some? {
      Int32RoundTrip(v.value, rest);
    }
  }

  lemma ResponseRoundTrip(r: Option<(int32, byte)>, rest: seq<byte>)
    ensures DecodeResponse(ResponseBytes(r) + rest, r.Some?) == Got(r, |ResponseBytes(r)|)
  {
    if r.Some? {
      var bs := ResponseBytes(r) + rest;
      assert bs == Int32Bytes(r.value.0) + ([r.value.1] + rest);
      Int32RoundTrip(r.value.0, [r.value.1] + rest);
      assert bs[4..] == [r.value.1] + rest;
    }
  }

  lemma IdsRoundTrip(requestId: Option<int32>, response: Option<(int32, byte)>, payload: seq<byte>)
    ensures var q, r := OptionalInt32Bytes(requestId), ResponseBytes(response);
      DecodeIds(q + r + payload, requestId.Some?, response.Some?) == Got((requestId, response), |q| + |r|)
  {
    var q, r := OptionalInt32Bytes(requestId), ResponseBytes(response);
    var bs := q + r + payload;
    assert bs == q + (r + payload);
    OptionalInt32RoundTrip(requestId, r + payload);
    assert bs[|q|..] == r + payload;
    ResponseRoundTrip(response, payload);
  }

  lemma FieldsRoundTrip(h: Header, payload: seq<byte>)
    ensures var f := FieldsBytes(h.peerId, h.requestId, h.response);
      DecodeFields(f + payload, h.peerId.Some?, h.requestId.Some?, h.response.Some?)
        == Got((h.peerId, h.requestId, h.response), |f|)
  {
    var p := OptionalInt32Bytes(h.peerId);
    var q := OptionalInt32Bytes(h.requestId);
    var r := ResponseBytes(h.response);
    var ids := q + r + payload;
    var bs := FieldsBytes(h.peerId, h.requestId, h.response) + payload;
    assert bs == p + ids;
    OptionalInt32RoundTrip(h.peerId, ids);
    assert bs[|p|..] == ids;
    IdsRoundTrip(h.requestId, h.response, payload);
  }

  /**
    `ParseMessage` recovers every header field `PackMessage` wrote, whatever
    payload follows, provided the flags announce exactly the fields present;
    it stops at the first payload byte.
  */
  lemma HeaderRoundTrip(h: Header, payload: seq<byte>)
    requires Announced(h)
    ensures DecodeHeader(HeaderBytes(h) + payload) == Got(h, |HeaderBytes(h)|)
  {
    var f := FieldsBytes(h.peerId, h.requestId, h.response);
    var bs := HeaderBytes(h) + payload;
    HeaderSlices(h, payload);
    Int16RoundTrip(h.opCode, f + payload);
    FieldsRoundTrip(h, payload);
    DecodeHeaderParts(bs, h.flags, h.opCode, (h.peerId, h.requestId, h.response), |f|);
  }

  /** Where the parts of a header start in a frame. */
  lemma HeaderSlices(h: Header, payload: seq<byte>)
    ensures var bs := HeaderBytes(h) + payload;
      var f := FieldsBytes(h.peerId, h.requestId, h.response);
      && |bs| >= 3 && bs[0] == h.flags as byte
      && bs[1..] == Int16Bytes(h.opCode) + (f + payload)
      && bs[3..] == f + payload
  {
    var i := Int16Bytes(h.opCode);
    var f := FieldsBytes(h.peerId, h.requestId, h.response);
    assert |i| == 2;
    assert HeaderBytes(h) + payload == [h.flags as byte] + (i + (f + payload));
  }

  /** `DecodeHeader` of a frame whose flags byte, operation code and fields each read as given. */
  lemma DecodeHeaderParts(bs: seq<byte>, flags: bv8, opCode: int16,
                          fields: (Option<int32>, Option<int32>, Option<(int32, byte)>), u: nat)
    requires |bs| >= 3 && bs[0] as bv8 == flags
    requires DecodeInt16(bs[1..]) == Got(opCode, 2)
    requires DecodeFields(bs[3..], HasFlag(flags, PaddedPeerId), HasFlag(flags, Request), HasFlag(flags, Response))
      == Got(fields, u)
    ensures DecodeHeader(bs) == Got(Header(flags, opCode, fields.0, fields.1, fields.2), 3 + u)
  {
    assert DecodeByte(bs) == Got(bs[0], 1);
  }

  /** The message `PackMessage` leaves in the writer: the header for the supplied fields, then the payload. */
  function MessageBytes(opCode: int16, action: WriteAction, requestId: Option<int32>, responseId: Option<int32>,
                        status: Option<byte>, peerId: Option<int32>, defaultFlags: bv8): seq<byte>
  {
    HeaderBytes(PackHeader(opCode, requestId, responseId, status, peerId, defaultFlags)) + action.bytes
  }

  /**
    A message `PackMessage` wrote parses back to the header it was packed
    from, and the payload follows the header, whenever the default flags
    claim no field that was not supplied.
  */
  lemma PackedMessageParses(opCode: int16, action: WriteAction, requestId: Option<int32>, responseId: Option<int32>,
                            status: Option<byte>, peerId: Option<int32>, defaultFlags: bv8)
    requires HasFlag(defaultFlags, Request) ==> requestId.Some?
    requires HasFlag(defaultFlags, Response) ==> responseId.Some?
    requires HasFlag(defaultFlags, PaddedPeerId) ==> peerId.Some?
    ensures var h := PackHeader(opCode, requestId, responseId, status, peerId, defaultFlags);
      var m := MessageBytes(opCode, action, requestId, responseId, status, peerId, defaultFlags);
      && DecodeHeader(m) == Got(h, |HeaderBytes(h)|)
      && m[|HeaderBytes(h)|..] == action.bytes
  {
    var h := PackHeader(opCode, requestId, responseId, status, peerId, defaultFlags);
    PackHeaderAnnounced(opCode, requestId, responseId, status, peerId, defaultFlags);
    HeaderRoundTrip(h, action.bytes);
  }

  /** An `int` written only when supplied. */
  method WriteOptionalInt32(writer: NetWriter, v: Option<int32>)
    modifies writer
    ensures writer.Appended(OptionalInt32Bytes(v))
  {
    if v.Some? {
      writer.WriteInt32(v.value);
    } else {
      assert Skip(writer.ahead, 0) == writer.ahead;
    }
  }

  /** A response id and its status byte, written only when supplied. */
  method WriteResponse(writer: NetWriter, response: Option<(int32, byte)>)
    modifies writer
    ensures writer.Appended(ResponseBytes(response))
  {
    if response.Some? {
      ghost var a0 := writer.ahead;
      writer.WriteInt32(response.value.0);
      writer.WriteByte(response.value.1);
      SkipSkip(a0, 4, 1);
    } else {
      assert Skip(writer.ahead, 0) == writer.ahead;
    }
  }

  /** The optional fields of a header, each written only when supplied. */
  method WriteOptionalFields(writer: NetWriter, peerId: Option<int32>, requestId: Option<int32>,
                             response: Option<(int32, byte)>)
    modifies writer
    ensures writer.Appended(FieldsBytes(peerId, requestId, response))
  {
    ghost var w0, a0 := writer.written, writer.ahead;
    WriteOptionalInt32(writer, peerId);
    WriteOptionalInt32(writer, requestId);
    WriteResponse(writer, response);
    AppendThree(w0, a0, OptionalInt32Bytes(peerId), OptionalInt32Bytes(requestId), ResponseBytes(response));
  }

  /** Three writes in a row append their bytes laid end to end. */
  lemma AppendThree(w: seq<byte>, a: seq<byte>, x: seq<byte>, y: seq<byte>, z: seq<byte>)
    ensures w + x + y + z == w + (x + y + z)
    ensures Skip(Skip(Skip(a, |x|), |y|), |z|) == Skip(a, |x + y + z|)
  {
    SkipSkip(a, |x|, |y|);
    SkipSkip(a, |x| + |y|, |z|);
  }

  /** The flags byte of `PackMessage`: the default flags, or'ed with the bit of each supplied field. */
  method HeaderFlags(requestId: Option<int32>, responseId: Option<int32>, peerId: Option<int32>, defaultFlags: bv8)
    returns (flags: bv8)
    ensures flags == PackFlags(requestId.Some?, responseId.Some?, peerId.Some?, defaultFlags)
  {
    flags := defaultFlags;
    if requestId.Some? { flags := flags | Request; }
    if responseId.Some? { flags := flags | Response; }
    if peerId.Some? { flags := flags | PaddedPeerId; }
  }

  /** The header of `PackMessage`: the flags with a bit for each supplied field, the operation code, the fields. */
  method WriteHeader(writer: NetWriter, opCode: int16, requestId: Option<int32>, responseId: Option<int32>,
                     status: Option<byte>, peerId: Option<int32>, defaultFlags: bv8)
    modifies writer
    ensures writer.Appended(HeaderBytes(PackHeader(opCode, requestId, responseId, status, peerId, defaultFlags)))
  {
    ghost var w0, a0 := writer.written, writer.ahead;
    var flags := HeaderFlags(requestId, responseId, peerId, defaultFlags);
    var response := if responseId.Some? then Some((responseId.value, status.GetOr(Default))) else None;
    ghost var h := PackHeader(opCode, requestId, responseId, status, peerId, defaultFlags);
    assert h == Header(flags, opCode, peerId, requestId, response);

    var first: byte := flags as byte;
    writer.WriteByte(first);
    writer.WriteInt16(opCode);
    WriteOptionalFields(writer, peerId, requestId, response);
    ghost var fields := FieldsBytes(peerId, requestId, response);
    AppendThree(w0, a0, [first], Int16Bytes(opCode), fields);
    assert HeaderBytes(h) == [first] + Int16Bytes(opCode) + fields;
  }

  /**
    `PackMessage`: from the start of the writer's store, the header for
    the supplied fields, then what the payload code writes. The message
    (`ToArray`) is the header and the payload; bytes stored beyond it from
    earlier messages stay behind the cursor. ok is false when the payload
    code throws, having written what it wrote.
  */
  method PackMessage(writer: NetWriter, opCode: int16, action: WriteAction,
                     requestId: Option<int32>, responseId: Option<int32>, status: Option<byte>,
                     peerId: Option<int32>, defaultFlags: bv8) returns (ok: bool)
    modifies writer
    ensures ok <==> !action.throws
    ensures writer.written == MessageBytes(opCode, action, requestId, responseId, status, peerId, defaultFlags)
    ensures var h := PackHeader(opCode, requestId, responseId, status, peerId, defaultFlags);
      writer.ahead == Skip(old(writer.written) + old(writer.ahead), |HeaderBytes(h)| + |action.bytes|)
  {
    ghost var header := HeaderBytes(PackHeader(opCode, requestId, responseId, status, peerId, defaultFlags));
    writer.SetPosition(0);
    ghost var all := writer.ahead;
    assert all == old(writer.written) + old(writer.ahead) by {
      assert writer.written == [];
    }
    WriteHeader(writer, opCode, requestId, responseId, status, peerId, defaultFlags);
    assert writer.written == header && writer.ahead == Skip(all, |header|);
    ok := writer.Run(action);
    SkipSkip(all, |header|, |action.bytes|);
  }
}
