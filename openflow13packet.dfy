/**
 * The encoders the reply builder calls on its segment: ofp_multipart_reply_encode,
 * ofp_desc_encode and ofp_header_length_set. Each appends (or patches) bytes only when
 * they fit; otherwise it writes nothing and returns OutOfRange.
 */
module OpenFlow13Packet {
  import opened Wire
  import opened LagopusResult
  import opened OpenFlow
  import opened Buffers

  /** ofp_multipart_reply_encode: appends the 16-byte envelope. */
  method OfpMultipartReplyEncode(pbuf: Pbuf, reply: MultipartReply) returns (res: Status)
    requires pbuf.Valid()
    modifies pbuf, pbuf.data
    ensures pbuf.Valid() && pbuf.data == old(pbuf.data) && pbuf.plen == old(pbuf.plen)
    ensures res == (if old(pbuf.putp) + MULTIPART_REPLY_LEN <= pbuf.plen then Ok else OutOfRange)
    ensures pbuf.written == if res == Ok then old(pbuf.written) + EncodeMultipartReply(reply)
                              else old(pbuf.written)
    ensures pbuf.log == old(pbuf.log) + [Call(EnvelopeEncode, res)]
  {
    res := pbuf.Put(EncodeMultipartReply(reply));
    pbuf.log := pbuf.log + [Call(EnvelopeEncode, res)];
  }

  /** ofp_desc_encode: appends the 1056-byte ofp_desc body. */
  method OfpDescEncode(pbuf: Pbuf, desc: Desc) returns (res: Status)
    requires pbuf.Valid()
    modifies pbuf, pbuf.data
    ensures pbuf.Valid() && pbuf.data == old(pbuf.data) && pbuf.plen == old(pbuf.plen)
    ensures res == (if old(pbuf.putp) + DESC_LEN <= pbuf.plen then Ok else OutOfRange)
    ensures pbuf.written == if res == Ok then old(pbuf.written) + EncodeDesc(desc)
                              else old(pbuf.written)
    ensures pbuf.log == old(pbuf.log) + [Call(Step.DescEncode, res)]
  {
    res := pbuf.Put(EncodeDesc(desc));
    pbuf.log := pbuf.log + [Call(Step.DescEncode, res)];
  }

  /**
   * ofp_header_length_set: writes length in network order over the length field at
   * offset 2 of the frame, provided a whole ofp_header has been written.
   */
  method OfpHeaderLengthSet(pbuf: Pbuf, length: uint16) returns (res: Status)
    requires pbuf.Valid()
    modifies pbuf, pbuf.data
    ensures pbuf.Valid() && pbuf.data == old(pbuf.data)
    ensures pbuf.putp == old(pbuf.putp) && pbuf.plen == old(pbuf.plen)
    ensures res == (if OFP_HEADER_LEN <= pbuf.putp then Ok else OutOfRange)
    ensures pbuf.written == if res == Ok then Overwrite(old(pbuf.written), 2, BE16(length))
                              else old(pbuf.written)
    ensures pbuf.log == old(pbuf.log) + [Call(Step.HeaderLengthSet, res)]
  {
    if OFP_HEADER_LEN <= pbuf.putp {
      pbuf.PutAt(2, BE16(length));
      res := Ok;
    } else {
      res := OutOfRange;
    }
    pbuf.log := pbuf.log + [Call(Step.HeaderLengthSet, res)];
  }
}
