/**
  `GcConnection`: a client's connection to the cloud. Requests get ids from
  a per-connection counter and wait in a table keyed by request id until a
  response or their timeout resolves them; the two race, and the table's
  remove-then-resolve makes sure only one of them wins.

  The model is sequential: the arrival of a frame and the firing of a
  timeout are methods, and each waiting task (`TaskCompletionSource`) is a
  ticket, an index into `sources`, which records how it was resolved.
*/
module Connections {
  import opened Wrappers
  import opened Bytes
  import opened Codec
  import opened NetWriting
  import opened Protocol
  import opened Peers
  import opened Messages

  const MaxInt32: int32 := 0x7fff_ffff

  /** `Interlocked.Increment` on an `int`: one more, wrapping from the largest value to the smallest. */
  function NextRequestId(id: int32): (r: int32)
    ensures id < MaxInt32 ==> r == id + 1 && r > id
    ensures id == MaxInt32 ==> r == -0x8000_0000
  {
    if id == MaxInt32 then -0x8000_0000 else id + 1
  }

  /** The request id of the n-th request of a connection (ids start from 0). */
  function IdOfRequest(n: nat): int32
  {
    if n == 0 then 0 else NextRequestId(IdOfRequest(n - 1))
  }

  /** Requests are numbered 1, 2, 3, … for the first 2^31 - 1 requests of a connection. */
  lemma {:induction false} RequestIdsCount(n: nat)
    requires n <= MaxInt32
    ensures IdOfRequest(n) == n
  {
    if n > 0 {
      RequestIdsCount(n - 1);
    }
  }

  /** Up to that point each request gets a larger id than every earlier one, so no id repeats. */
  lemma RequestIdsIncrease(m: nat, n: nat)
    requires m < n <= MaxInt32
    ensures IdOfRequest(m) < IdOfRequest(n)
  {
    RequestIdsCount(m);
    RequestIdsCount(n);
  }

  /** The request after the 2^31 - 1st gets a negative id, which no receiver answers. */
  lemma RequestIdWraps()
    ensures IdOfRequest(MaxInt32 + 1) < 0
  {
    RequestIdsCount(MaxInt32);
  }

  /** What `OnDataReceived` did with a frame. */
  datatype Received =
    | Ignored                                    // an empty frame
    | Internal                                   // the internal-message bit: handed to a handler that does nothing
    | Malformed                                  // too short for its header: `ParseMessage` threw
    | Answered(ticket: nat, response: GcMessage) // a response to a waiting request, which it resolved
    | Unclaimed                                  // a response no request waits for (any more)
    | NotImplemented                             // not a response: "Regular message not yet handled" is thrown

  /** The response id a parsed header gives a message: -1 when it has none. */
  function ResponseIdOf(h: Header): (r: int)
    ensures r >= 0 ==> h.response.Some? && h.response.value.0 == r
    ensures h.response.None? ==> r == -1
  {
    if h.response.Some? then h.response.value.0 else -1
  }

  /** `EstablishPeer`'s answer, from the response its request resolved with. */
  predicate EstablishPeerResult(response: GcMessage): (r: bool)
    reads response
    ensures response.Status == Timeout ==> !r
    ensures r ==> response.Status != Default
  {
    response.Status == Success
  }

  class GcConnection {
    /** `_requestId`: the id of the latest request. */
    var requestId: int32
    /** `_writer`: every message of this connection is packed into it. */
    const writer: NetWriter
    /** `_responseCallbacks`: the ticket of the task waiting under each request id. */
    var callbacks: map<int32, nat>
    /** Every waiting task made so far, in order, with the message it was resolved with, if any. */
    var sources: seq<Option<GcMessage>>
    /** `_timeoutMessage`: the response a request that times out resolves with. */
    const timeoutMessage: GcMessage
    /** `_relayedPeers`. */
    var relayedPeers: map<int32, GcPeer>
    /** The frames handed to the implementation's `SendRawData`, oldest first. */
    var sent: seq<seq<byte>>

    /**
      The timeout message has status `Timeout`, and every task in the table
      is still unresolved and waits under one id only.
    */
    ghost predicate Valid()
      reads this, timeoutMessage
    {
      && timeoutMessage.Status == Timeout && timeoutMessage.Peer == null && timeoutMessage.Flags == 0
      && (forall id :: id in callbacks ==> callbacks[id] < |sources| && sources[callbacks[id]].None?)
      && (forall a, b :: a in callbacks && b in callbacks && callbacks[a] == callbacks[b] ==> a == b)
    }

    /** A resolved task keeps the message it was resolved with, and no task is forgotten. */
    twostate predicate KeepsResolved()
      reads this
    {
      && |old(sources)| <= |sources|
      && forall t :: 0 <= t < |old(sources)| && old(sources)[t].Some? ==> sources[t] == old(sources)[t]
    }

    constructor ()
      ensures Valid()
      ensures requestId == 0 && callbacks == map[] && sources == [] && relayedPeers == map[] && sent == []
      ensures fresh(writer) && writer.written == [] && writer.ahead == []
      ensures fresh(timeoutMessage) && timeoutMessage.RequestId == -1 && timeoutMessage.ResponseId == -1
    {
      requestId := 0;
      callbacks := map[];
      sources := [];
      relayedPeers := map[];
      sent := [];
      var m := new GcMessage(null, 0);
      m.Status := Timeout;
      timeoutMessage := m;
      writer := new NetWriter();
    }

    /**
      The connection's `SendBasicMessage`: packs the message and sends it;
      ok is false when the payload code throws, and then nothing is sent.
    */
    method SendBasicMessage(opCode: int16, action: WriteAction, requestId': Option<int32>,
                            responseId: Option<int32>, status: Option<byte>, peerId: Option<int32>,
                            defaultFlags: bv8) returns (ok: bool)
      modifies this, writer
      ensures ok <==> !action.throws
      ensures sent == old(sent) +
        if ok then [MessageBytes(opCode, action, requestId', responseId, status, peerId, defaultFlags)] else []
      ensures requestId == old(requestId) && callbacks == old(callbacks) && sources == old(sources)
      ensures relayedPeers == old(relayedPeers)
    {
      ok := PackMessage(writer, opCode, action, requestId', responseId, status, peerId, defaultFlags);
      if !ok {
        return;
      }
      var data := writer.ToArray();
      sent := sent + [data];
    }

    /** `Send`: no request id, no response; peer id -1 when relays are enabled, none otherwise. */
    method Send(opCode: int16, action: WriteAction, enableRelays: bool) returns (ok: bool)
      modifies this, writer
      ensures ok <==> !action.throws
      ensures sent == old(sent) +
        if ok then [MessageBytes(opCode, action, None, None, None, if enableRelays then Some(-1) else None, 0)]
        else []
      ensures requestId == old(requestId) && callbacks == old(callbacks) && sources == old(sources)
      ensures relayedPeers == old(relayedPeers)
    {
      ok := SendBasicMessage(opCode, action, None, None, None, if enableRelays then Some(-1) else None, 0);
    }

    /**
      `SendRequest`: takes the next request id, makes a waiting task and
      puts it in the table under that id (unless the id is still taken, when
      `TryAdd` leaves the table as it was), and only then sends the request,
      with peer id 0. The task stays in the table even when sending throws.
    */
    method SendRequest(opCode: int16, action: WriteAction) returns (ticket: nat, id: int32, ok: bool)
      requires Valid()
      modifies this, writer
      ensures Valid() && KeepsResolved()
      ensures id == NextRequestId(old(requestId)) && requestId == id
      ensures ticket == |old(sources)| && sources == old(sources) + [None]
      ensures callbacks == if id in old(callbacks) then old(callbacks) else old(callbacks)[id := ticket]
      ensures ok <==> !action.throws
      ensures sent == old(sent) + if ok then [MessageBytes(opCode, action, Some(id), None, None, Some(0), 0)] else []
      ensures relayedPeers == old(relayedPeers)
    {
      id := NextRequestId(requestId);
      requestId := id;
      ticket := |sources|;
      sources := sources + [None];
      if id !in callbacks {
        callbacks := callbacks[id := ticket];
      }
      ok := SendBasicMessage(opCode, action, Some(id), None, None, Some(0), 0);
    }

    /**
      `OnDataReceived`: empty frames and internal messages are left alone. Any
      other frame is parsed (without a sender); a response removes the task
      waiting under its response id, if any, and resolves it with the parsed
      message; a frame that is no response is not handled.
    */
    method OnDataReceived(data: seq<byte>) returns (outcome: Received)
      requires Valid()
      modifies this
      ensures Valid() && KeepsResolved()
      ensures requestId == old(requestId) && relayedPeers == old(relayedPeers) && sent == old(sent)
      ensures |data| == 0 ==> outcome == Ignored
      ensures |data| > 0 && HasFlag(data[0] as bv8, InternalMessage) ==> outcome == Internal
      ensures |data| > 0 && !HasFlag(data[0] as bv8, InternalMessage) ==>
        var d := DecodeHeader(data);
        && (d.Failed? ==> outcome == Malformed)
        && (d.Got? && ResponseIdOf(d.value) < 0 ==> outcome == NotImplemented)
        && (d.Got? && ResponseIdOf(d.value) >= 0 && ResponseIdOf(d.value) !in old(callbacks) ==> outcome == Unclaimed)
        && (d.Got? && ResponseIdOf(d.value) >= 0 && ResponseIdOf(d.value) in old(callbacks) ==>
              && outcome.Answered? && outcome.ticket == old(callbacks)[ResponseIdOf(d.value)]
              && callbacks == old(callbacks) - {ResponseIdOf(d.value)}
              && fresh(outcome.response) && outcome.response.Peer == null
              && outcome.response.Flags == d.value.flags && outcome.response.OpCode == d.value.opCode
              && outcome.response.RequestId == d.value.requestId.GetOr(-1)
              && outcome.response.ResponseId == ResponseIdOf(d.value)
              && outcome.response.Status == d.value.response.value.1
              && !outcome.response.responseSent
              && outcome.response.Reader != null && fresh(outcome.response.Reader)
              && outcome.response.Reader.data == data && outcome.response.Reader.pos == d.used)
      ensures outcome.Answered? ==> sources == old(sources)[outcome.ticket := Some(outcome.response)]
      ensures !outcome.Answered? ==> callbacks == old(callbacks) && sources == old(sources)
    {
      if |data| == 0 {
        return Ignored;
      }
      var flags := data[0] as bv8;
      if HasFlag(flags, InternalMessage) {
        HandleInternalMessage(data);
        return Internal;
      }
      var msg := ParseMessage(null, data);
      if msg == null {
        return Malformed;
      }
      if msg.ResponseId >= 0 {
        var rid := msg.ResponseId;
        if rid !in callbacks {
          return Unclaimed;
        }
        var t := callbacks[rid];
        callbacks := callbacks - {rid};
        if sources[t].None? {
          sources := sources[t := Some(msg)];
        }
        return Answered(t, msg);
      }
      return NotImplemented;
    }

    /** `HandleInternalMessage`: does nothing. */
    method HandleInternalMessage(data: seq<byte>)
    {
    }

    /**
      The end of `StartTimeout`, once the task is resolved or its time is
      up: nothing if the task is resolved; otherwise the task waiting under
      the request id, if any, is removed and resolved with the timeout
      message. Had a response removed it first, there is nothing to resolve.
    */
    method OnTimeout(ticket: nat, id: int32)
      requires Valid() && ticket < |sources|
      modifies this
      ensures Valid() && KeepsResolved()
      ensures requestId == old(requestId) && relayedPeers == old(relayedPeers) && sent == old(sent)
      ensures old(sources[ticket]).Some? || id !in old(callbacks) ==>
        callbacks == old(callbacks) && sources == old(sources)
      ensures old(sources[ticket]).None? && id in old(callbacks) ==>
        && callbacks == old(callbacks) - {id}
        && sources == old(sources)[old(callbacks)[id] := Some(timeoutMessage)]
    {
      if sources[ticket].Some? {
        return;
      }
      if id in callbacks {
        var t := callbacks[id];
        callbacks := callbacks - {id};
        if sources[t].None? {
          sources := sources[t := Some(timeoutMessage)];
        }
      }
    }

    /**
      `EstablishPeer`: a request with the given operation code whose payload
      is the `int` -1. Its answer is `EstablishPeerResult` of the message the
      request's task is resolved with.
    */
    method EstablishPeer(establishPeerOpCode: int16) returns (ticket: nat, id: int32, ok: bool)
      requires Valid()
      modifies this, writer
      ensures Valid() && KeepsResolved()
      ensures id == NextRequestId(old(requestId)) && requestId == id
      ensures ticket == |old(sources)| && sources == old(sources) + [None]
      ensures relayedPeers == old(relayedPeers)
      ensures callbacks == if id in old(callbacks) then old(callbacks) else old(callbacks)[id := ticket]
      ensures ok && sent == old(sent) + [MessageBytes(establishPeerOpCode, WriteAction(Int32Bytes(-1), false),
        Some(id), None, None, Some(0), 0)]
    {
      ticket, id, ok := SendRequest(establishPeerOpCode, WriteAction(Int32Bytes(-1), false));
    }

    /** `RememberRelayedPeer`: `TryAdd`, so the first peer stored under an id stays. */
    method RememberRelayedPeer(peerId: int32, peer: GcPeer)
      modifies this
      ensures relayedPeers == if peerId in old(relayedPeers) then old(relayedPeers) else old(relayedPeers)[peerId := peer]
      ensures requestId == old(requestId) && callbacks == old(callbacks) && sources == old(sources) && sent == old(sent)
    {
      if peerId !in relayedPeers {
        relayedPeers := relayedPeers[peerId := peer];
      }
    }
  }
}
