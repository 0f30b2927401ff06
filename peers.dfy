/**
  `GcPeer`: one peer as the server sees it. Its sends go through its own
  writer and are dropped once the peer has disconnected.
*/
module Peers {
  import opened Wrappers
  import opened Bytes
  import opened Codec
  import opened NetWriting
  import opened Protocol

  class GcPeer {
    /** `PeerId`: fixed when the peer is made. */
    const PeerId: int32
    /** `IsRelayed`: a getter-only property that nothing assigns, so it is false. */
    const IsRelayed: bool
    /** `_relayedPeerIds`: this peer's id in each relayed server, keyed by the connection to that server. */
    var relayedPeerIds: map<object, int32>
    /** `_writer`: the writer every message of this peer is packed into. */
    const writer: NetWriter
    var isDisconnected: bool
    /** The frames handed to the peer connection's `SendRawData`, oldest first. */
    var sent: seq<seq<byte>>

    constructor (peerId: int32)
      ensures PeerId == peerId && !IsRelayed && !isDisconnected
      ensures relayedPeerIds == map[] && sent == []
      ensures fresh(writer) && writer.written == [] && writer.ahead == []
    {
      PeerId := peerId;
      IsRelayed := false;
      relayedPeerIds := map[];
      writer := new NetWriter();
      isDisconnected := false;
      sent := [];
    }

    /**
      `GetPeerIdInRelayedServer`: the id stored for the connection; a missing
      entry reads as 0, and 0 is reported as -1. So the answer is never 0,
      and it is -1 exactly when there is no entry, or the entry is 0 or -1.
    */
    function GetPeerIdInRelayedServer(connection: object): (r: int32)
      reads this
      ensures r != 0
      ensures r == -1 <==> connection !in relayedPeerIds || relayedPeerIds[connection] in {0, -1}
      ensures r != -1 ==> connection in relayedPeerIds && relayedPeerIds[connection] == r
    {
      var result := if connection in relayedPeerIds then relayedPeerIds[connection] else 0;
      if result == 0 then -1 else result
    }

    /** The peer id a message of this peer carries: its own id only when relayed. */
    function SentPeerId(): (r: Option<int32>)
      ensures r.Some? <==> IsRelayed
      ensures r.Some? ==> r.value == PeerId
    {
      if IsRelayed then Some(PeerId) else None
    }

    /**
      `SendBasicMessage`: a disconnected peer sends nothing and touches
      nothing. Otherwise the message is packed, with the peer id only when
      relayed and every other argument passed on unchanged, and the packed
      bytes are sent; ok is false when the payload code throws, and then
      nothing is sent.
    */
    method SendBasicMessage(opCode: int16, action: WriteAction, requestId: Option<int32>,
                            responseId: Option<int32>, status: Option<byte>, defaultFlags: bv8)
      returns (ok: bool)
      modifies this, writer
      ensures isDisconnected == old(isDisconnected) && relayedPeerIds == old(relayedPeerIds)
      ensures old(isDisconnected) ==> ok && sent == old(sent) && unchanged(writer)
      ensures !old(isDisconnected) ==> (ok <==> !action.throws)
      ensures !old(isDisconnected) ==>
        sent == old(sent) + if ok then [MessageBytes(opCode, action, requestId, responseId, status, SentPeerId(), defaultFlags)] else []
    {
      if isDisconnected {
        return true;
      }
      var peerId := if IsRelayed then Some(PeerId) else None;
      ok := PackMessage(writer, opCode, action, requestId, responseId, status, peerId, defaultFlags);
      if !ok {
        return;
      }
      var data := writer.ToArray();
      sent := sent + [data];
    }

    /** `OnDisconnected`: the peer is disconnected for good; nothing clears the flag. */
    method OnDisconnected()
      modifies this
      ensures isDisconnected
      ensures relayedPeerIds == old(relayedPeerIds) && sent == old(sent)
    {
      isDisconnected := true;
    }
  }
}
