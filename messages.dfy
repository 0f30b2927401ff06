/**
  `GcMessage`: a received message, which the receiver may answer once, and
  `ParseMessage`, which reads one from a frame.
*/
module Messages {
  import opened Wrappers
  import opened Bytes
  import opened Codec
  import opened NetWriting
  import opened NetReading
  import opened Protocol
  import opened Peers

  /** How a call to `Respond` ended. */
  datatype Outcome =
    | Done          // returned normally (also when the peer had disconnected and dropped it)
    | NotExpecting  // "Sender is not expecting for a response": no request id, or already answered
    | NullPeer      // the message has no sender to answer through
    | PayloadThrew  // the payload code threw while the response was being packed

  /** What `writer.Write(serializable)` writes, as payload code: a presence byte, then the object's own bytes. */
  function SerializableAction(item: Option<WriteAction>): (r: WriteAction)
    ensures r.throws <==> item.Some? && item.value.throws
    ensures DecodeBoolean(r.bytes) == Got(item.Some?, 1)
    ensures item.Some? ==> r.bytes[1..] == item.value.bytes
  {
    if item.None? then WriteAction([BoolByte(false)], false)
    else WriteAction([BoolByte(true)] + item.value.bytes, item.value.throws)
  }

  /**
    What `writer.Write(message)` writes, as payload code: it throws, having
    written nothing, for a string of 32 KiB or more; otherwise the string
    reads back, a null one as the empty string.
  */
  function StringAction(message: Option<Str>): (r: WriteAction)
    ensures r.throws <==> message.Some? && !Fits(message.value)
    ensures r.throws ==> r.bytes == []
    ensures !r.throws ==> DecodeString(r.bytes) == Got(message.GetOr([]), |r.bytes|)
  {
    if message.None? then
      NullStringReadsEmpty([]);
      WriteAction(NullStringBytes, false)
    else if !Fits(message.value) then WriteAction([], true)
    else
      StringRoundTrip(message.value, []);
      assert StringBytes(message.value) + [] == StringBytes(message.value);
      WriteAction(StringBytes(message.value), false)
  }

  class GcMessage {
    const Flags: bv8
    /** The sender, through which a response goes; null for messages a client connection reads. */
    const Peer: GcPeer?
    var Reader: NetReader?
    var OpCode: int16
    var Status: byte
    var RequestId: int32
    var ResponseId: int32
    var responseSent: bool

    /** A new message: the given sender and flags, no request, no response, no operation code. */
    constructor (sender: GcPeer?, flags: bv8)
      ensures Peer == sender && Flags == flags
      ensures RequestId == -1 && ResponseId == -1 && OpCode == -1
      ensures Status == ZeroStatus && Reader == null && !responseSent
      ensures !RequiresResponse()
    {
      Peer := sender;
      Flags := flags;
      RequestId := -1;
      ResponseId := -1;
      OpCode := -1;
      Status := ZeroStatus;
      Reader := null;
      responseSent := false;
    }

    /** `RequiresResponse`: the sender asked (a request id) and no answer has gone out yet. */
    predicate RequiresResponse()
      reads this
      ensures RequiresResponse() ==> RequestId >= 0
      ensures responseSent ==> !RequiresResponse()
    {
      RequestId >= 0 && !responseSent
    }

    /**
      What a call of `Respond(status, action)` did: it refused unless a
      response was required and there is a sender; otherwise the sender sent
      the response (same operation code, the request id as response id, no
      request id, the status) unless it had disconnected, and the message
      counts as answered unless the payload code threw. Nothing else changed.
    */
    twostate predicate Responded(status: byte, action: WriteAction, outcome: Outcome)
      reads this, Peer
    {
      && OpCode == old(OpCode) && RequestId == old(RequestId) && ResponseId == old(ResponseId)
      && Status == old(Status) && Reader == old(Reader)
      && (outcome == NotExpecting <==> !old(RequiresResponse()))
      && (outcome == NullPeer <==> old(RequiresResponse()) && Peer == null)
      && (outcome == PayloadThrew <==>
            old(RequiresResponse()) && Peer != null && !old(Peer.isDisconnected) && action.throws)
      && responseSent == (old(responseSent) || outcome == Done)
      && (Peer != null ==>
            && Peer.isDisconnected == old(Peer.isDisconnected)
            && Peer.sent == old(Peer.sent) +
                 if outcome == Done && !old(Peer.isDisconnected)
                 then [MessageBytes(OpCode, action, None, Some(RequestId), Some(status), Peer.SentPeerId(), 0)]
                 else [])
    }

    /**
      `Respond(status, writeAction)`: answers the request once. A `Done`
      call leaves the message not requiring a response, so every later call
      is `NotExpecting`.
    */
    method Respond(status: byte, action: WriteAction) returns (outcome: Outcome)
      modifies this, Peer, if Peer == null then {} else {Peer.writer}
      ensures Responded(status, action, outcome)
      ensures outcome == Done ==> old(RequiresResponse()) && !RequiresResponse()
    {
      if !RequiresResponse() {
        return NotExpecting;
      }
      if Peer == null {
        return NullPeer;
      }
      var ok := Peer.SendBasicMessage(OpCode, action, None, Some(RequestId), Some(status), 0);
      if !ok {
        return PayloadThrew;
      }
      responseSent := true;
      outcome := Done;
    }

    /** `Respond(status, serializable)`: the object, behind its presence byte, as the payload. */
    method RespondSerializable(status: byte, item: Option<WriteAction>) returns (outcome: Outcome)
      modifies this, Peer, if Peer == null then {} else {Peer.writer}
      ensures Responded(status, SerializableAction(item), outcome)
    {
      outcome := Respond(status, SerializableAction(item));
      if outcome == Done {
        responseSent := true;
      }
    }

    /** `Respond(status, message)`: the string as the payload. */
    method RespondString(status: byte, message: Option<Str>) returns (outcome: Outcome)
      modifies this, Peer, if Peer == null then {} else {Peer.writer}
      ensures Responded(status, StringAction(message), outcome)
    {
      outcome := Respond(status, StringAction(message));
      if outcome == Done {
        responseSent := true;
      }
    }

    /** `Respond(status)`: an empty payload, so only an unexpected response or a missing sender fails. */
    method RespondEmpty(status: byte) returns (outcome: Outcome)
      modifies this, Peer, if Peer == null then {} else {Peer.writer}
      ensures Responded(status, WriteAction([], false), outcome)
      ensures outcome != PayloadThrew
    {
      outcome := Respond(status, WriteAction([], false));
      if outcome == Done {
        responseSent := true;
      }
    }

    /**
      `AsString(defaultMessage)`: the string at the reader's cursor, leaving
      the cursor where it was. When there is no reader or the read throws,
      the default, with the cursor left wherever the failed read stopped.
    */
    method AsString(defaultMessage: Option<Str>) returns (s: Option<Str>)
      modifies Reader
      ensures Reader == old(Reader)
      ensures Reader == null ==> s == defaultMessage
      ensures Reader != null ==>
        var r := DecodeString(old(Reader.Rest()));
        && (r.Got? ==> s == Some(r.value) && Reader.pos == old(Reader.pos))
        && (r.Failed? ==> s == defaultMessage && Reader.pos == old(Reader.pos) + r.used)
    {
      if Reader == null {
        return defaultMessage;
      }
      var prevPos := Reader.Position();
      var str := Reader.ReadString();
      if str.Failed? {
        return defaultMessage;
      }
      Reader.SetPosition(prevPos);
      s := Some(str.value);
    }

    /** `AsString()`: as `AsString(null)`. */
    method AsStringOrNull() returns (s: Option<Str>)
      modifies Reader
      ensures Reader == old(Reader)
      ensures Reader == null ==> s.None?
      ensures Reader != null ==>
        var r := DecodeString(old(Reader.Rest()));
        && (r.Got? ==> s == Some(r.value) && Reader.pos == old(Reader.pos))
        && (r.Failed? ==> s.None? && Reader.pos == old(Reader.pos) + r.used)
    {
      s := AsString(None);
    }
  }

  /** An `int` read only when its flag is set. */
  method ReadOptionalInt32(reader: NetReader, present: bool) returns (r: Read<Option<int32>>)
    modifies reader
    ensures r == DecodeOptionalInt32(old(reader.Rest()), present)
    ensures reader.pos == old(reader.pos) + r.used
  {
    if !present {
      return Got(None, 0);
    }
    var v := reader.ReadInt32();
    r := match v case Got(x, u) => Got(Some(x), u) case Failed(u) => Failed(u);
  }

  /** A response id and its status byte, read only when the response flag is set. */
  method ReadResponse(reader: NetReader, present: bool) returns (r: Read<Option<(int32, byte)>>)
    modifies reader
    ensures r == DecodeResponse(old(reader.Rest()), present)
    ensures reader.pos == old(reader.pos) + r.used
  {
    if !present {
      return Got(None, 0);
    }
    ghost var bs := reader.Rest();
    ghost var p0 := reader.pos;
    var id := reader.ReadInt32();
    if id.Failed? {
      return Failed(id.used);
    }
    assert reader.Rest() == bs[id.used..] by {
      assert reader.data[p0 + id.used..] == reader.data[p0..][id.used..];
    }
    var st := reader.ReadByte();
    r := match st case Got(x, u) => Got(Some((id.value, x)), id.used + u) case Failed(u) => Failed(id.used + u);
  }

  /** The request id, then the response id and status, each read only when its flag is set. */
  method ReadIds(reader: NetReader, request: bool, response: bool)
    returns (r: Read<(Option<int32>, Option<(int32, byte)>)>)
    modifies reader
    ensures r == DecodeIds(old(reader.Rest()), request, response)
    ensures reader.pos == old(reader.pos) + r.used
  {
    ghost var bs := reader.Rest();
    ghost var p0 := reader.pos;
    var req := ReadOptionalInt32(reader, request);
    if req.Failed? {
      return Failed(req.used);
    }
    assert reader.Rest() == bs[req.used..] by {
      if p0 <= |reader.data| {
        assert reader.data[p0 + req.used..] == reader.data[p0..][req.used..];
      }
    }
    var resp := ReadResponse(reader, response);
    r := match resp case Got(x, u) => Got((req.value, x), req.used + u) case Failed(u) => Failed(req.used + u);
  }

  /**
    `ParseMessage`: a new message over the frame, from the given sender,
    holding the header `DecodeHeader` reads (a request or response id that
    is absent stays -1, an absent status stays `ZeroStatus`; the padded peer id
    is read and dropped), with its reader at the first payload byte. A frame
    too short for its header throws (here: null).
  */
  method ParseMessage(peer: GcPeer?, data: seq<byte>) returns (msg: GcMessage?)
    ensures var d := DecodeHeader(data);
      && (msg != null <==> d.Got?)
      && (msg != null ==>
            && fresh(msg) && msg.Peer == peer && !msg.responseSent
            && msg.Flags == d.value.flags && msg.OpCode == d.value.opCode
            && msg.RequestId == d.value.requestId.GetOr(-1)
            && msg.ResponseId == (if d.value.response.Some? then d.value.response.value.0 else -1)
            && msg.Status == (if d.value.response.Some? then d.value.response.value.1 else ZeroStatus)
            && msg.Reader != null && fresh(msg.Reader)
            && msg.Reader.data == data && msg.Reader.pos == d.used)
  {
    var reader := new NetReader(data);
    var b := reader.ReadByte();
    if b.Failed? {
      return null;
    }
    var flags := b.value as bv8;
    assert reader.Rest() == data[1..];
    var opCode := reader.ReadInt16();
    if opCode.Failed? {
      return null;
    }
    assert reader.Rest() == data[3..];
    msg := ParseFields(peer, reader, flags, opCode.value);
  }

  /**
    The rest of `ParseMessage`, after the flags byte and the operation code:
    the padded peer id when flagged, then the new message, then its request
    id and response fields when flagged.
  */
  method ParseFields(peer: GcPeer?, reader: NetReader, flags: bv8, opCode: int16) returns (msg: GcMessage?)
    requires reader.pos <= |reader.data|
    modifies reader
    ensures var f := DecodeFields(old(reader.Rest()),
        HasFlag(flags, PaddedPeerId), HasFlag(flags, Request), HasFlag(flags, Response));
      && (msg != null <==> f.Got?)
      && (msg != null ==>
            && fresh(msg) && msg.Peer == peer && !msg.responseSent
            && msg.Flags == flags && msg.OpCode == opCode
            && msg.RequestId == f.value.1.GetOr(-1)
            && msg.ResponseId == (if f.value.2.Some? then f.value.2.value.0 else -1)
            && msg.Status == (if f.value.2.Some? then f.value.2.value.1 else ZeroStatus)
            && msg.Reader == reader && reader.pos == old(reader.pos) + f.used)
  {
    ghost var tail := reader.Rest();
    ghost var p0 := reader.pos;
    var peerId := ReadOptionalInt32(reader, HasFlag(flags, PaddedPeerId));
    if peerId.Failed? {
      return null;
    }
    ghost var u1 := peerId.used;
    assert reader.Rest() == tail[u1..] by {
      assert reader.data[p0 + u1..] == reader.data[p0..][u1..];
    }

    msg := new GcMessage(peer, flags);
    msg.OpCode := opCode;
    msg.Reader := reader;

    var ids := ReadIds(reader, HasFlag(flags, Request), HasFlag(flags, Response));
    ghost var f := DecodeFields(tail, HasFlag(flags, PaddedPeerId), HasFlag(flags, Request), HasFlag(flags, Response));
    if ids.Failed? {
      assert f.Failed?;
      return null;
    }
    var requestId, response := ids.value.0, ids.value.1;
    assert f == Got((peerId.value, requestId, response), u1 + ids.used);
    if requestId.Some? {
      msg.RequestId := requestId.value;
    }
    if response.Some? {
      msg.ResponseId := response.value.0;
      msg.Status := response.value.1;
    }
  }
}
