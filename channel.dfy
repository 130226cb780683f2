/**
 * The session a request arrived on (struct channel): its negotiated version, the dpid
 * it is bound to, and the packet-list send primitive.
 */
module Channels {
  import opened Wire
  import opened LagopusResult
  import opened Buffers

  class Channel {
    /** The negotiated OpenFlow version (channel_version_get). */
    const version: byte
    /** The datapath id the session is bound to (channel_dpid_get). */
    const dpid: uint64
    /** The result the socket layer reports for a send on this session. */
    const writeStatus: Status
    /** Every message the session has transmitted, in order. */
    var sent: seq<seq<byte>>
    /** Calls of channel_send_packet_list. */
    ghost var sendCalls: nat

    constructor (version: byte, dpid: uint64, writeStatus: Status)
      ensures this.version == version && this.dpid == dpid && this.writeStatus == writeStatus
      ensures sent == [] && sendCalls == 0
    {
      this.version, this.dpid, this.writeStatus := version, dpid, writeStatus;
      sent, sendCalls := [], 0;
    }

    /**
     * channel_send_packet_list: transmits the payloads of the list's segments as one
     * message and returns the socket layer's result unchanged; nothing is transmitted
     * when that result is a failure. The list must not have been freed: it must be
     * among the allocator's live lists.
     */
    method SendPacketList(list: PbufList, ghost live: set<PbufList>) returns (res: Status)
      requires list in live
      requires forall i :: 0 <= i < |list.segments| ==> list.segments[i].Valid()
      modifies this
      ensures res == writeStatus && sendCalls == old(sendCalls) + 1
      ensures sent == if res == Ok then old(sent) + [ListPayload(list.segments)] else old(sent)
    {
      res := writeStatus;
      if res == Ok {
        sent := sent + [ListPayload(list.segments)];
      }
      sendCalls := sendCalls + 1;
    }
  }
}
