/**
 * The OFPMP_DESC exchange of the agent: ofp_desc_reply_create builds the reply in a
 * freshly allocated buffer list, and ofp_desc_request_handle looks up the descriptor,
 * builds the reply, sends it and releases the buffer list.
 */
module OfpDescHandler {
  import opened Wire
  import opened LagopusResult
  import opened OpenFlow
  import opened Buffers
  import opened OpenFlow13Packet
  import opened Channels
  import opened Datapath

  /** A caller's struct pbuf_list * variable, which the builder assigns through a pointer. */
  class PbufListSlot {
    var list: PbufList?

    constructor ()
      ensures list == null
    {
      list := null;
    }
  }

  /**
   * The result ofp_desc_reply_create returns on non-null arguments: NoMemory when the
   * list or its tail segment cannot be allocated, OutOfRange when the segment cannot
   * hold the envelope or the body, and Ok otherwise.
   */
  function ReplyCreateStatus(listMemory: bool, segmentMemory: bool, segmentSize: nat): Status
  {
    if !listMemory || !segmentMemory then NoMemory
    else if segmentSize < DESC_REPLY_LEN then OutOfRange
    else Ok
  }

  /**
   * The calls the builder makes on a tail segment of the given capacity: plen is first
   * widened to that whole capacity, then the envelope encode fails when the segment is
   * smaller than the envelope, the body encode when it is smaller than the whole frame;
   * otherwise every step runs and returns Ok.
   */
  function ReplyLog(size: nat): seq<Call>
  {
    if size < MULTIPART_REPLY_LEN then
      [Call(Step.PlenSet(size), Ok), Call(EnvelopeEncode, OutOfRange)]
    else if size < DESC_REPLY_LEN then
      [Call(Step.PlenSet(size), Ok), Call(EnvelopeEncode, Ok), Call(Step.DescEncode, OutOfRange)]
    else
      [Call(Step.PlenSet(size), Ok), Call(EnvelopeEncode, Ok), Call(Step.DescEncode, Ok),
       Call(Step.LengthGet, Ok), Call(Step.HeaderLengthSet, Ok), Call(Step.PlenReset, Ok)]
  }

  /**
   * First error wins: on every capacity the builder's calls run the reply steps in
   * order, each only after its predecessor returned Ok; the result is the last call's,
   * and it is Ok exactly when the segment holds the whole frame.
   */
  lemma ReplyLogRunsInOrder(size: nat)
    ensures RanInOrder(ReplyLog(size))
    ensures FirstFailure(ReplyLog(size)) == ReplyLog(size)[|ReplyLog(size)| - 1].status
    ensures FirstFailure(ReplyLog(size)) == (if size < DESC_REPLY_LEN then OutOfRange else Ok)
  {
    ChainResultIsLastCall(ReplyLog(size));
  }

  /** The envelope as the builder fills it in: placeholder length 0, zero flags. */
  function PlaceholderReply(version: byte, xid: uint32): MultipartReply
  {
    MultipartReply(Header(version, OFPT_MULTIPART_REPLY, 0, xid), OFPMP_DESC, 0)
  }

  /**
   * The placeholder envelope on the wire: the zeroed record with only the version, the
   * message type, the request's xid and the multipart type filled in, so its length,
   * flags and pad bytes are all zero.
   */
  lemma PlaceholderReplyLayout(version: byte, xid: uint32)
    ensures var e := EncodeMultipartReply(PlaceholderReply(version, xid));
      e[0] == version && e[1] == OFPT_MULTIPART_REPLY && e[2..4] == [0, 0] &&
      ReadBE32(e, 4) == xid && e[8..10] == [0, 0] && e[10..16] == [0, 0, 0, 0, 0, 0]
  {
    var m := PlaceholderReply(version, xid);
    MultipartReplyLayout(m, []);
    assert EncodeMultipartReply(m) + [] == EncodeMultipartReply(m);
  }

  /**
   * What a build leaves in its tail segment p, with result res. The calls on p are
   * ReplyLog of its capacity, which starts by setting plen to that capacity, and res is
   * their chain's result. On success p holds exactly the reply frame and declares it as
   * its payload; on failure plen stays at the capacity set before encoding and p holds
   * only what was written before the failing step.
   */
  ghost predicate BuiltSegment(p: Pbuf, version: byte, xid: uint32, desc: Desc, res: Status)
    reads p, p.data
  {
    p.Valid() && p.log == ReplyLog(p.Size()) && res == p.log[|p.log| - 1].status &&
    (res == Ok ==> p.written == DescReplyFrame(version, xid, desc) && p.plen == p.putp) &&
    (res != Ok ==> p.plen == p.Size()) &&
    (p.Size() < MULTIPART_REPLY_LEN ==> p.written == []) &&
    (MULTIPART_REPLY_LEN <= p.Size() < DESC_REPLY_LEN ==>
       p.written == EncodeMultipartReply(PlaceholderReply(version, xid)))
  }

  /**
   * The last three steps of the build, once envelope and body are written: read the
   * written length back, patch it into the header and reset plen to it.
   */
  method PatchReplyLength(pbuf: Pbuf, ghost reply: MultipartReply, ghost desc: Desc) returns (res: Status)
    requires pbuf.Valid() && pbuf.written == EncodeMultipartReply(reply) + EncodeDesc(desc)
    modifies pbuf, pbuf.data
    ensures pbuf.Valid() && pbuf.data == old(pbuf.data) && res == Ok
    ensures pbuf.written == EncodeMultipartReply(reply.(header := reply.header.(length := DESC_REPLY_LEN)))
                            + EncodeDesc(desc)
    ensures pbuf.plen == pbuf.putp
    ensures pbuf.log == old(pbuf.log) + [Call(Step.LengthGet, Ok), Call(Step.HeaderLengthSet, Ok),
                                         Call(Step.PlenReset, Ok)]
  {
    ghost var unpatched := pbuf.written;
    var length;
    res, length := pbuf.LengthGet();
    res := OfpHeaderLengthSet(pbuf, length);
    assert pbuf.written == Overwrite(unpatched, 2, BE16(length));
    PatchLength(reply, EncodeDesc(desc), length);
    pbuf.PlenReset();
  }

  /**
   * The encoding part of ofp_desc_reply_create, on the fresh tail segment: fill in the
   * envelope, widen plen to the capacity, encode the envelope and the body, read the
   * written length back, patch it into the header and reset plen to it.
   */
  method EncodeDescReply(pbuf: Pbuf, version: byte, xid: uint32, desc: Desc) returns (res: Status)
    requires pbuf.Valid() && pbuf.putp == 0 && pbuf.log == []
    modifies pbuf, pbuf.data
    ensures pbuf.data == old(pbuf.data)
    ensures res == (if pbuf.Size() < DESC_REPLY_LEN then OutOfRange else Ok)
    ensures BuiltSegment(pbuf, version, xid, desc, res)
  {
    var reply := PlaceholderReply(version, xid);
    pbuf.PlenSet(pbuf.Size());
    res := OfpMultipartReplyEncode(pbuf, reply);
    if res == Ok {
      res := OfpDescEncode(pbuf, desc);
      if res == Ok {
        res := PatchReplyLength(pbuf, reply, desc);
      }
    }
  }

  /** ofp_desc_reply_create. */
  method OfpDescReplyCreate(channel: Channel?, pbufList: PbufListSlot?, ofpDesc: Option<Desc>,
                            xidHeader: Option<Header>, pool: Pool) returns (res: Status)
    modifies pbufList, pool
    ensures !(channel != null && pbufList != null && ofpDesc.Some? && xidHeader.Some?) ==>
      res == InvalidArgs && pool.live == old(pool.live) && pool.freeCalls == old(pool.freeCalls) &&
      (pbufList != null ==> pbufList.list == old(pbufList.list))
    ensures channel != null && pbufList != null && ofpDesc.Some? && xidHeader.Some? ==>
      res == ReplyCreateStatus(pool.listMemory, pool.segmentMemory, pool.segmentSize) &&
      pool.freeCalls == old(pool.freeCalls) &&
      (pbufList.list == null <==> !pool.listMemory) &&
      (pbufList.list == null ==> pool.live == old(pool.live)) &&
      (pbufList.list != null ==>
         fresh(pbufList.list) && pool.live == old(pool.live) + {pbufList.list} &&
         (!pool.segmentMemory ==> pbufList.list.segments == []) &&
         (pool.segmentMemory ==>
            |pbufList.list.segments| == 1 &&
            fresh(pbufList.list.segments[0]) && fresh(pbufList.list.segments[0].data) &&
            pbufList.list.segments[0].Size() == pool.segmentSize &&
            BuiltSegment(pbufList.list.segments[0], channel.version, xidHeader.value.xid,
                         ofpDesc.value, res)))
  {
    if channel != null && pbufList != null && ofpDesc.Some? && xidHeader.Some? {
      pbufList.list := pool.ListAlloc();
      if pbufList.list != null {
        var pbuf := pool.ListLastGet(pbufList.list);
        if pbuf != null {
          res := EncodeDescReply(pbuf, channel.version, xidHeader.value.xid, ofpDesc.value);
        } else {
          res := NoMemory;
        }
      } else {
        res := NoMemory;
      }
    } else {
      res := InvalidArgs;
    }
  }

  /**
   * The part of ofp_desc_request_handle after a successful lookup: build the reply into
   * the caller's list variable, send it only if the build succeeded, and free the list
   * (possibly still null) exactly once whatever happened.
   */
  method ReplyAndRelease(channel: Channel, sendPbufList: PbufListSlot, desc: Desc,
                         xidHeader: Header, pool: Pool) returns (res: Status)
    requires sendPbufList.list == null
    modifies channel, pool, sendPbufList
    ensures var built := ReplyCreateStatus(pool.listMemory, pool.segmentMemory, pool.segmentSize);
      pool.live == old(pool.live) && pool.freeCalls == old(pool.freeCalls) + 1 &&
      channel.sendCalls == old(channel.sendCalls) + (if built == Ok then 1 else 0) &&
      res == (if built == Ok then channel.writeStatus else built) &&
      channel.sent == if built == Ok && channel.writeStatus == Ok
                      then old(channel.sent) + [DescReplyFrame(channel.version, xidHeader.xid, desc)]
                      else old(channel.sent)
  {
    res := OfpDescReplyCreate(channel, sendPbufList, Some(desc), Some(xidHeader), pool);
    if res == Ok {
      var seg := sendPbufList.list.segments[0];
      assert sendPbufList.list.segments == [seg];
      ListPayloadOfOne(seg);
      res := channel.SendPacketList(sendPbufList.list, pool.live);
    }
    pool.ListFree(sendPbufList.list);
  }

  /** ofp_desc_request_handle. */
  method OfpDescRequestHandle(channel: Channel?, pbuf: Pbuf?, xidHeader: Option<Header>,
                              error: OfpError?, store: DescStore, pool: Pool) returns (res: Status)
    modifies channel, pool
    ensures !(channel != null && pbuf != null && xidHeader.Some? && error != null) ==>
      res == InvalidArgs && unchanged(pool) && (channel != null ==> unchanged(channel))
    ensures channel != null && pbuf != null && xidHeader.Some? && error != null &&
            channel.dpid !in store.descs ==>
      res == store.failure && unchanged(pool) && unchanged(channel)
    ensures channel != null && pbuf != null && xidHeader.Some? && error != null &&
            channel.dpid in store.descs ==>
      var built := ReplyCreateStatus(pool.listMemory, pool.segmentMemory, pool.segmentSize);
      pool.live == old(pool.live) && pool.freeCalls == old(pool.freeCalls) + 1 &&
      channel.sendCalls == old(channel.sendCalls) + (if built == Ok then 1 else 0) &&
      res == (if built == Ok then channel.writeStatus else built) &&
      channel.sent == if built == Ok && channel.writeStatus == Ok
                      then old(channel.sent) + [DescReplyFrame(channel.version, xidHeader.value.xid,
                                                               store.descs[channel.dpid])]
                      else old(channel.sent)
  {
    var sendPbufList := new PbufListSlot();
    if channel != null && pbuf != null && xidHeader.Some? && error != null {
      var dpid := channel.dpid;
      var ofpDesc := ZeroDesc;
      res, ofpDesc := OfpDescGet(store, dpid, ofpDesc);
      if res == Ok {
        res := ReplyAndRelease(channel, sendPbufList, ofpDesc, xidHeader.value, pool);
      }
    } else {
      res := InvalidArgs;
    }
  }
}
