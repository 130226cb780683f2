# OFPMP_DESC reply path of the lagopus OpenFlow agent, in Dafny

This project models `src/agent/ofp_desc_handler.c` of the lagopus switch agent: the code
that answers an OpenFlow 1.3 "description" multipart request. `ofp_desc_request_handle`
checks its arguments, looks up the descriptor (`struct ofp_desc`) of the datapath the
channel is bound to, and asks `ofp_desc_reply_create` for a reply. The builder allocates
a buffer list, takes its tail segment (`struct pbuf`), widens the segment's declared
payload length (`plen`) to its capacity, encodes the `ofp_multipart_reply` envelope with a
placeholder length of 0 and then the 1056-byte `ofp_desc` body, reads back the number of
bytes written, patches that number into the header's length field and shrinks `plen` back
to it. The handler sends the list only when the build succeeded and frees it exactly once.

The wire formats are those of the OpenFlow Switch Specification 1.3: `ofp_header`
(section A.1), `ofp_multipart_reply` (section A.3.5) and `ofp_desc` (section A.3.5.1).

Modules, one per part of the program:

- `LagopusResult` (lagopus_result.dfy): the `lagopus_result_t` codes used here.
- `Wire` (wire.dfy): byte and fixed-width integer types, network-order encoding, and
  overwriting bytes at an offset.
- `OpenFlow` (openflow.dfy): header, envelope and descriptor records, their encoders and
  decoders, the reply frame the builder is meant to produce (`DescReplyFrame`) and the way
  a peer parses it (`ParseDescReply`), with the round-trip and layout lemmas.
- `Buffers` (pbuf.dfy): the segment class `Pbuf` (byte array, write cursor `putp`,
  declared length `plen`, a ghost record of the bytes written and a ghost log of the
  calls made on it), `PbufList`, and the allocator `Pool` with a ghost set of live lists
  and a ghost count of `pbuf_list_free` calls. `FirstFailure` gives the result of a chain
  of calls that stops at its first failure.
- `OpenFlow13Packet` (openflow13packet.dfy): the encoders the builder calls
  (`ofp_multipart_reply_encode`, `ofp_desc_encode`, `ofp_header_length_set`).
- `Channels` (channel.dfy): the channel, with its negotiated version, bound dpid and
  packet-list send.
- `Datapath` (datapath.dfy): the descriptor store behind `ofp_desc_get`.
- `OfpDescHandler` (ofp_desc_handler.dfy): the two functions of the core file.
- `Scenarios` (scenarios.dfy): three exchanges written against the handler's contract:
  a descriptor that is sent with the request's xid, an unknown datapath, and an
  allocator without memory.

The collaborators are defined outside `ofp_desc_handler.c`. Each is a method whose contract
says what the core file relies on. Their outcomes depend on parameters instead of hidden
state. The pool decides whether a list and a segment can be allocated and how large a
segment is. The channel has the result its socket layer reports. The store has the
descriptors it holds and the failure it reports for an unknown dpid. The encoders fail
with `OutOfRange` when the declared length has no room for what they append; this is an
assumption about code outside this model.

C pointers are modelled as follows. The channel and the segments are nullable objects.
The `struct pbuf_list **` out-parameter is a nullable `PbufListSlot` object whose field
the builder assigns. The request header and the descriptor are only read, so they are
`Option` values, with `None` for NULL.

## Model

| member | source | states |
|---|---|---|
| `OfpDescHandler.OfpDescReplyCreate` | src/agent/ofp_desc_handler.c:26-96 | with a null argument: `InvalidArgs`, no allocation, `*pbuf_list` not assigned; if the list cannot be allocated: `NoMemory` and `*pbuf_list` is null; if the tail segment cannot be obtained: `NoMemory`, and the empty list stays in `*pbuf_list`, live, for the caller to free; otherwise the result is `OutOfRange` or `Ok` according to the segment's capacity, and the one fresh segment satisfies `BuiltSegment` |
| `OfpDescHandler.EncodeDescReply` | src/agent/ofp_desc_handler.c:45-81 | the calls on the segment are exactly `ReplyLog` of its capacity, whose first call sets `plen` to that whole capacity (`Size()`, which models `pbuf_size_get`) on every path, and the result is the last call's result; on success the segment holds exactly `DescReplyFrame(version, xid, desc)` and `plen` equals the bytes written; on failure `plen` is still the full capacity; a failed envelope encode leaves nothing written, and a failed body encode leaves only the placeholder envelope |
| `OfpDescHandler.PatchReplyLength` | src/agent/ofp_desc_handler.c:60-65 | once the envelope and the body are written, the length read, the header patch and the plen reset all return Ok; the segment then holds the envelope encoded with length 1072 followed by the body, `plen` equals the bytes written, and the three calls are logged in order |
| `OfpDescHandler.ReplyLogRunsInOrder` | src/agent/ofp_desc_handler.c:55-81 | for every capacity the builder's calls run plen-set (to the capacity), envelope, body, length read, length patch and plen reset in that order; each call runs only after its predecessor returned Ok; the chain's result is its last call's; and it is Ok exactly when the segment can hold the whole frame |
| `OfpDescHandler.ReplyAndRelease` | src/agent/ofp_desc_handler.c:118-131 | after a successful lookup the list is freed exactly once, after the send: the list this call allocated is no longer live and no other list changes state; a send happens exactly when the build returned Ok; the result is the send's result in that case and the build's otherwise; the channel transmits `DescReplyFrame` with the request's xid only when both succeeded, and nothing otherwise |
| `OfpDescHandler.OfpDescRequestHandle` | src/agent/ofp_desc_handler.c:99-137 | with a null argument: `InvalidArgs`, and neither the allocator nor the channel changes; if the lookup of the channel's dpid fails: the store's result is returned unchanged, with no allocation, send or free; otherwise it behaves as `ReplyAndRelease` with the descriptor stored for the channel's dpid |
| `Buffers.FirstFailure` | src/agent/ofp_desc_handler.c:56-81 | a chain's result is Ok exactly when every call returned Ok; otherwise it is the result of some call all of whose predecessors returned Ok |
| `Buffers.ChainResultIsLastCall` | src/agent/ofp_desc_handler.c:56-81 | when every call but the last returned Ok, the chain's result is the last call's result; `ReplyLogRunsInOrder` applies it to the builder's log |
| `OpenFlow.PatchLength` | src/agent/ofp_desc_handler.c:47-63 | writing a length in network order over bytes 2-3 of an encoded envelope gives the envelope encoded with that length, and the body after it is unchanged |
| `OpenFlow.DescReplyFrameLength` | src/agent/ofp_desc_handler.c:61-63 | the reply frame is 16 + 1056 bytes long, and its length field holds exactly that size |
| `OpenFlow.ParseDescReply` | src/agent/ofp_desc_handler.c:61-63 | a receiver-side reference parser, not code of this file, against which the length patch is checked: a peer accepts a frame only when its length field equals the number of bytes received |
| `OpenFlow.ParseDescReplyFrame` | src/agent/ofp_desc_handler.c:46-63 | a peer parsing the reply frame accepts it and recovers the channel's version, the request's xid, zero flags and the descriptor byte for byte |
| `OpenFlow.DescReplyFramesDifferOnlyInXid` | src/agent/ofp_desc_handler.c:47-51 | replies to two requests with the same descriptor have the same size and agree on every byte except bytes 4-7, which hold each request's xid |
| `OpenFlow.MultipartReplyLayout` | src/agent/ofp_desc_handler.c:46-52 | an encoded envelope has the version at offset 0, the message type at 1, the length at 2, the xid at 4, the multipart type at 8 and the flags at 10; bytes 12-15 are zero pad; whatever follows starts at 16 |
| `OpenFlow.HeaderRoundTrip` | src/agent/ofp_desc_handler.c:47-51 | an encoded `ofp_header` decodes back to the version, type, length and xid it was filled with, whatever follows it |
| `OpenFlow.MultipartReplyRoundTrip` | src/agent/ofp_desc_handler.c:46-56 | an encoded envelope decodes back to its header, multipart type and flags, whatever follows it |
| `OpenFlow.DescRoundTrip` | src/agent/ofp_desc_handler.c:58 | the encoded `ofp_desc` body decodes back to the descriptor, field by field |
| `Wire.BE16Read` | src/agent/ofp_desc_handler.c:63 | a 16-bit value written in network order reads back as itself at any offset |
| `Wire.BE32Read` | src/agent/ofp_desc_handler.c:51 | a 32-bit value (the xid) written in network order reads back as itself at any offset |
| `OpenFlow13Packet.OfpMultipartReplyEncode` | src/agent/ofp_desc_handler.c:56 | appends the 16-byte envelope when the declared length has room for it, and otherwise writes nothing and returns `OutOfRange`; logs the call with its result |
| `OpenFlow13Packet.OfpDescEncode` | src/agent/ofp_desc_handler.c:58 | appends the 1056-byte body when the declared length has room for it, and otherwise writes nothing and returns `OutOfRange`; logs the call with its result |
| `OpenFlow13Packet.OfpHeaderLengthSet` | src/agent/ofp_desc_handler.c:63 | once a whole header has been written, overwrites bytes 2-3 with the length in network order and leaves the cursor and `plen` alone; otherwise returns `OutOfRange` |
| `Buffers.Pbuf.LengthGet` | src/agent/ofp_desc_handler.c:61 | returns the number of bytes written when it fits a `uint16_t` |
| `Buffers.Pbuf.PlenSet` | src/agent/ofp_desc_handler.c:55 | sets the declared length, within the capacity, changes nothing else, and logs the length it set |
| `OfpDescHandler.PlaceholderReplyLayout` | src/agent/ofp_desc_handler.c:46-52 | the envelope `PlaceholderReply` that the builder fills in encodes as the zeroed record with the channel's version, `OFPT_MULTIPART_REPLY`, the request's xid and `OFPMP_DESC` filled in; its length field, flags and pad are zero |
| `OpenFlow.ZeroDescEncodesZeros` | src/agent/ofp_desc_handler.c:114 | `ZeroDesc`, the descriptor record after `memset`, encodes as 1056 zero bytes |
| `OfpDescHandler.PbufListSlot.constructor` | src/agent/ofp_desc_handler.c:106 | the `struct pbuf_list *` variable whose address the handler passes to the builder (lines 28, 40, 118) starts out null |
| `Buffers.Pbuf.PlenReset` | src/agent/ofp_desc_handler.c:65 | makes the declared length equal to the bytes written |
| `Buffers.Pool.ListAlloc` | src/agent/ofp_desc_handler.c:40 | returns a fresh, empty, live list, or null when there is no memory |
| `Buffers.Pool.ListLastGet` | src/agent/ofp_desc_handler.c:43 | returns the tail segment; an empty list first gets a fresh empty segment of the pool's size, or the call returns null when there is no memory |
| `Buffers.Pool.ListFree` | src/agent/ofp_desc_handler.c:131 | only a live list (or null) may be freed, which rules out double frees; freeing removes the list from the live set; a free of null changes nothing but is counted as a call |
| `Channels.Channel.SendPacketList` | src/agent/ofp_desc_handler.c:122 | sends only a list that is still live, which orders the send before the free at line 131; returns the socket layer's result unchanged and transmits the payloads of the list only when that result is Ok |
| `Datapath.OfpDescGet` | src/agent/ofp_desc_handler.c:111-115 | succeeds exactly when the store holds the dpid, and then yields its descriptor; otherwise it returns the store's failure and leaves the zeroed record as it was |

## Left out

- Logging through `lagopus_msg_warning` and `lagopus_error_get_string` (lines 67-80 and 124-129). It has no effect on results.
- Socket I/O and session concurrency inside `channel_send_packet_list`. The send's result is the channel's `writeStatus` parameter.
- Allocator internals. Whether memory is available and the segment size are parameters of `Pool`. Lists with more than one segment never arise on this path; `ListPayload` still concatenates all the segments' payloads.
- How `ofp_desc_get` fills `struct ofp_error`. `OfpError` is only null-checked, as in the handler.
- The inbound `pbuf`. It is only null-checked, as in the handler.
- For null arguments the handler makes no lookup (line 109). The lookup has no effect in the model, so no contract can show this.
- OpenFlow13Packet.OfpMultipartReplyEncode: the encoder is not part of this model, so its failures are a modelling assumption: it fails only with `OutOfRange`, when the declared length lacks room. Any other error the real encoder may report is not modelled.
- OpenFlow13Packet.OfpDescEncode: as for the envelope encoder, it is assumed to fail only with `OutOfRange`, when the declared length lacks room.
- OpenFlow13Packet.OfpHeaderLengthSet: the precondition for the write is that a whole header has been written. Its real checks are not visible. On this path that precondition always holds.
- Buffers.Pbuf.LengthGet: reports `OutOfRange` above 0xFFFF instead of truncating to `uint16_t`. Its real checks are not visible. On this path it always returns 1072.
- The encoders are modelled as not changing `plen`. Only `PlenSet` and `PlenReset` change it.

## Results and the final free

- Results are `lagopus_result_t` codes passed on unchanged: `InvalidArgs` for a null
  argument, `NoMemory` for both allocation failures (lines 84 and 88), and otherwise the
  encoder's, the store's or the channel's own code.
- `pbuf_list_free(NULL)` is a no-op that still counts as a call. The handler's list
  variable starts as NULL (line 106) and stays NULL when `pbuf_list_alloc` fails, so the
  free at line 131 happens exactly once on every path after a successful lookup.
- The envelope's flags are zero, because the record is cleared with `memset` (line 46)
  and only the header and the multipart type are filled in afterwards.
