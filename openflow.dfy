/**
 * The OpenFlow 1.3 wire structures this reply uses: ofp_header (section A.1 of the
 * OpenFlow Switch Specification 1.3), ofp_multipart_reply (section A.3.5) and the
 * ofp_desc body (section A.3.5.1), with their encodings and the decoding a peer applies.
 */
module OpenFlow {
  import opened Wire
  import opened LagopusResult

  const OFP_HEADER_LEN: nat := 8
  const OFPT_MULTIPART_REPLY: byte := 19
  const OFPMP_DESC: uint16 := 0
  /** ofp_multipart_reply without its body: header, type, flags, pad[4]. */
  const MULTIPART_REPLY_LEN: nat := 16
  const DESC_STR_LEN: nat := 256
  const SERIAL_NUM_LEN: nat := 32
  /** sizeof(struct ofp_desc): four DESC_STR_LEN strings and the serial number. */
  const DESC_LEN: nat := 4 * DESC_STR_LEN + SERIAL_NUM_LEN
  /** The size of a complete OFPMP_DESC reply frame. */
  const DESC_REPLY_LEN: nat := MULTIPART_REPLY_LEN + DESC_LEN

  datatype Header = Header(version: byte, msgType: byte, length: uint16, xid: uint32)

  /** The ofp_multipart_reply envelope; its pad bytes are always encoded as zero. */
  datatype MultipartReply = MultipartReply(header: Header, mpType: uint16, flags: uint16)

  /** A char[DESC_STR_LEN] field of ofp_desc. */
  type DescStr = s: seq<byte> | |s| == 256 witness seq(256, _ => 0)
  /** The char[SERIAL_NUM_LEN] field of ofp_desc. */
  type SerialNum = s: seq<byte> | |s| == 32 witness seq(32, _ => 0)

  datatype Desc = Desc(mfrDesc: DescStr, hwDesc: DescStr, swDesc: DescStr,
                       serialNum: SerialNum, dpDesc: DescStr)

  /** A struct ofp_desc after memset to zero. */
  const ZeroDesc: Desc := Desc(seq(256, _ => 0), seq(256, _ => 0), seq(256, _ => 0),
                               seq(32, _ => 0), seq(256, _ => 0))

  /** The zeroed descriptor record encodes as DESC_LEN zero bytes. */
  lemma ZeroDescEncodesZeros()
    ensures EncodeDesc(ZeroDesc) == seq(DESC_LEN, _ => 0)
  {
  }

  function EncodeHeader(h: Header): (r: seq<byte>)
    ensures |r| == OFP_HEADER_LEN
  {
    [h.version, h.msgType] + BE16(h.length) + BE32(h.xid)
  }

  function DecodeHeader(s: seq<byte>): Header
    requires |s| >= OFP_HEADER_LEN
  {
    Header(s[0], s[1], ReadBE16(s, 2), ReadBE32(s, 4))
  }

  function EncodeMultipartReply(m: MultipartReply): (r: seq<byte>)
    ensures |r| == MULTIPART_REPLY_LEN
  {
    EncodeHeader(m.header) + BE16(m.mpType) + BE16(m.flags) + [0, 0, 0, 0]
  }

  function DecodeMultipartReply(s: seq<byte>): MultipartReply
    requires |s| >= MULTIPART_REPLY_LEN
  {
    MultipartReply(DecodeHeader(s), ReadBE16(s, 8), ReadBE16(s, 10))
  }

  function EncodeDesc(d: Desc): (r: seq<byte>)
    ensures |r| == DESC_LEN
  {
    d.mfrDesc + d.hwDesc + d.swDesc + d.serialNum + d.dpDesc
  }

  function DecodeDesc(s: seq<byte>): Desc
    requires |s| >= DESC_LEN
  {
    Desc(s[0..256], s[256..512], s[512..768], s[768..800], s[800..1056])
  }

  /** A header followed by anything decodes back to itself. */
  lemma HeaderRoundTrip(h: Header, rest: seq<byte>)
    ensures DecodeHeader(EncodeHeader(h) + rest) == h
  {
    var s := EncodeHeader(h) + rest;
    assert s == [h.version, h.msgType] + BE16(h.length) + (BE32(h.xid) + rest);
    BE16Read(h.length, [h.version, h.msgType], BE32(h.xid) + rest);
    assert s == [h.version, h.msgType] + BE16(h.length) + BE32(h.xid) + rest;
    BE32Read(h.xid, [h.version, h.msgType] + BE16(h.length), rest);
  }

  /** The wire layout of an encoded envelope: every field at its fixed offset, pad zero. */
  lemma MultipartReplyLayout(m: MultipartReply, rest: seq<byte>)
    ensures var s := EncodeMultipartReply(m) + rest;
      s[0] == m.header.version && s[1] == m.header.msgType &&
      ReadBE16(s, 2) == m.header.length && ReadBE32(s, 4) == m.header.xid &&
      ReadBE16(s, 8) == m.mpType && ReadBE16(s, 10) == m.flags &&
      s[12..16] == [0, 0, 0, 0] && s[16..] == rest
  {
    var s := EncodeMultipartReply(m) + rest;
    var hb := EncodeHeader(m.header);
    assert s == hb + (BE16(m.mpType) + BE16(m.flags) + [0, 0, 0, 0] + rest);
    HeaderRoundTrip(m.header, BE16(m.mpType) + BE16(m.flags) + [0, 0, 0, 0] + rest);
    assert s == hb + BE16(m.mpType) + (BE16(m.flags) + [0, 0, 0, 0] + rest);
    BE16Read(m.mpType, hb, BE16(m.flags) + [0, 0, 0, 0] + rest);
    assert s == hb + BE16(m.mpType) + BE16(m.flags) + ([0, 0, 0, 0] + rest);
    BE16Read(m.flags, hb + BE16(m.mpType), [0, 0, 0, 0] + rest);
  }

  /** An envelope followed by anything decodes back to itself. */
  lemma MultipartReplyRoundTrip(m: MultipartReply, rest: seq<byte>)
    ensures DecodeMultipartReply(EncodeMultipartReply(m) + rest) == m
  {
    MultipartReplyLayout(m, rest);
    var s := EncodeMultipartReply(m) + rest;
    assert EncodeMultipartReply(m) + rest == EncodeHeader(m.header) + (s[8..]);
    HeaderRoundTrip(m.header, s[8..]);
  }

  /** The desc body decodes back to the record it was encoded from. */
  lemma DescRoundTrip(d: Desc)
    ensures DecodeDesc(EncodeDesc(d)) == d
  {
  }

  /**
   * The frame the OFPMP_DESC reply is meant to be: the envelope with type
   * OFPT_MULTIPART_REPLY, the true frame length, the request's xid, multipart type
   * OFPMP_DESC and zero flags, followed by the descriptor body.
   */
  function DescReplyFrame(version: byte, xid: uint32, d: Desc): (r: seq<byte>)
  {
    EncodeMultipartReply(MultipartReply(Header(version, OFPT_MULTIPART_REPLY, DESC_REPLY_LEN, xid),
                                        OFPMP_DESC, 0))
    + EncodeDesc(d)
  }

  /** What a peer learns from an OFPMP_DESC reply. */
  datatype DescReply = DescReply(version: byte, xid: uint32, flags: uint16, desc: Desc)

  /**
   * How a peer reads an OFPMP_DESC reply: it accepts the bytes only when the header's
   * length field equals the number of bytes received, the message type is
   * OFPT_MULTIPART_REPLY, the multipart type is OFPMP_DESC and the body is one ofp_desc.
   */
  function ParseDescReply(s: seq<byte>): (r: Option<DescReply>)
    ensures r.Some? ==> |s| == DESC_REPLY_LEN && ReadBE16(s, 2) == |s|
  {
    if |s| != DESC_REPLY_LEN then None
    else
      var m := DecodeMultipartReply(s);
      if m.header.length != |s| || m.header.msgType != OFPT_MULTIPART_REPLY || m.mpType != OFPMP_DESC
      then None
      else Some(DescReply(m.header.version, m.header.xid, m.flags, DecodeDesc(s[MULTIPART_REPLY_LEN..])))
  }

  /** Length correctness: the frame's length field equals the frame's size. */
  lemma DescReplyFrameLength(version: byte, xid: uint32, d: Desc)
    ensures |DescReplyFrame(version, xid, d)| == DESC_REPLY_LEN
    ensures ReadBE16(DescReplyFrame(version, xid, d), 2) == |DescReplyFrame(version, xid, d)|
  {
  }

  /**
   * A peer parsing the frame accepts it and recovers the version, the xid, zero flags
   * and the descriptor verbatim.
   */
  lemma ParseDescReplyFrame(version: byte, xid: uint32, d: Desc)
    ensures ParseDescReply(DescReplyFrame(version, xid, d)) == Some(DescReply(version, xid, 0, d))
  {
    var m := MultipartReply(Header(version, OFPT_MULTIPART_REPLY, DESC_REPLY_LEN, xid), OFPMP_DESC, 0);
    var s := DescReplyFrame(version, xid, d);
    MultipartReplyRoundTrip(m, EncodeDesc(d));
    MultipartReplyLayout(m, EncodeDesc(d));
    DescRoundTrip(d);
  }

  /**
   * Re-encoding the same descriptor for two requests gives frames of the same size that
   * agree on every byte outside the xid field, which holds each request's xid.
   */
  lemma DescReplyFramesDifferOnlyInXid(version: byte, xid1: uint32, xid2: uint32, d: Desc)
    ensures |DescReplyFrame(version, xid1, d)| == |DescReplyFrame(version, xid2, d)|
    ensures forall i :: 0 <= i < |DescReplyFrame(version, xid1, d)| && !(4 <= i < 8) ==>
      DescReplyFrame(version, xid1, d)[i] == DescReplyFrame(version, xid2, d)[i]
    ensures DescReplyFrame(version, xid1, d)[4..8] == BE32(xid1)
    ensures DescReplyFrame(version, xid2, d)[4..8] == BE32(xid2)
  {
  }

  /**
   * Back-patching: writing the true length over the placeholder length of an encoded
   * envelope gives the envelope encoded with that length, the body left as it was.
   */
  lemma PatchLength(m: MultipartReply, body: seq<byte>, length: uint16)
    ensures Overwrite(EncodeMultipartReply(m) + body, 2, BE16(length))
         == EncodeMultipartReply(m.(header := m.header.(length := length))) + body
  {
  }
}
