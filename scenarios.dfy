/**
 * Clients of the handler's contract: a request answered with a descriptor, a lookup
 * for an unknown datapath, and an allocator with no memory.
 */
module Scenarios {
  import opened Wire
  import opened LagopusResult
  import opened OpenFlow
  import opened Buffers
  import opened Channels
  import opened Datapath
  import opened OfpDescHandler

  const OFPT_MULTIPART_REQUEST: byte := 18

  /** A text field of n bytes: the characters of s, then zero padding. */
  function Text(s: string, n: nat): (r: seq<byte>)
    requires |s| <= n && forall i :: 0 <= i < |s| ==> s[i] as int < 0x100
    ensures |r| == n
    ensures forall i :: 0 <= i < n ==> r[i] == if i < |s| then s[i] as int else 0
  {
    seq(n, i requires 0 <= i < n => if i < |s| then s[i] as int as byte else 0)
  }

  function AcmeDesc(): Desc
  {
    Desc(Text("ACME", 256), Text("v1", 256), Text("v2", 256), Text("SN1", 32), Text("sw0", 256))
  }

  method DescriptorIsSent()
  {
    var channel := new Channel(4, 1, Ok);
    var pool := new Pool(true, true, 0x1_0000);
    var store := DescStore(map[1 := AcmeDesc()], NotFound);
    var inbound := new Pbuf(0);
    var error := new OfpError();
    var request := Header(4, OFPT_MULTIPART_REQUEST, 16, 0x1234);
    var res := OfpDescRequestHandle(channel, inbound, Some(request), error, store, pool);
    assert res == Ok;
    assert channel.sent == [DescReplyFrame(4, 0x1234, AcmeDesc())];
    ParseDescReplyFrame(4, 0x1234, AcmeDesc());
    DescReplyFrameLength(4, 0x1234, AcmeDesc());
    assert ParseDescReply(channel.sent[0]) == Some(DescReply(4, 0x1234, 0, AcmeDesc()));
    assert |channel.sent[0]| == MULTIPART_REPLY_LEN + DESC_LEN;
    assert pool.live == {} && pool.freeCalls == 1;
  }

  method UnknownDatapathSendsNothing()
  {
    var channel := new Channel(4, 2, Ok);
    var pool := new Pool(true, true, 0x1_0000);
    var store := DescStore(map[1 := AcmeDesc()], NotFound);
    var inbound := new Pbuf(0);
    var error := new OfpError();
    var res := OfpDescRequestHandle(channel, inbound, Some(Header(4, OFPT_MULTIPART_REQUEST, 16, 7)),
                                    error, store, pool);
    assert res == NotFound;
    assert channel.sent == [] && channel.sendCalls == 0;
    assert pool.live == {} && pool.freeCalls == 0;
  }

  method NoSegmentMemorySendsNothing()
  {
    var channel := new Channel(4, 1, Ok);
    var pool := new Pool(true, false, 0x1_0000);
    var store := DescStore(map[1 := AcmeDesc()], NotFound);
    var inbound := new Pbuf(0);
    var error := new OfpError();
    var res := OfpDescRequestHandle(channel, inbound, Some(Header(4, OFPT_MULTIPART_REQUEST, 16, 7)),
                                    error, store, pool);
    assert res == NoMemory;
    assert channel.sent == [] && channel.sendCalls == 0;
    assert pool.live == {} && pool.freeCalls == 1;
  }
}
