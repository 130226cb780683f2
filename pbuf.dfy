/**
 * The outgoing buffer: a segment (struct pbuf) with a byte array, a write cursor and a
 * declared payload length, the buffer list that owns segments, and the allocator's
 * bookkeeping of which lists are live.
 */
module Buffers {
  import opened Wire
  import opened LagopusResult

  /**
   * The steps of building a reply that act on the tail segment, in the order they run;
   * PlenSet records the declared length it set.
   */
  datatype Step = PlenSet(n: nat) | EnvelopeEncode | DescEncode | LengthGet | HeaderLengthSet | PlenReset

  /** One call made on a segment and the result it returned (Ok for calls that return nothing). */
  datatype Call = Call(step: Step, status: Status)

  /** The position of a step in the order the builder runs them. */
  function Rank(step: Step): nat
  {
    match step
    case PlenSet(_) => 0
    case EnvelopeEncode => 1
    case DescEncode => 2
    case LengthGet => 3
    case HeaderLengthSet => 4
    case PlenReset => 5
  }

  /** The result of a chain of calls that stops at the first failure: that failure, or Ok. */
  function FirstFailure(calls: seq<Call>): (r: Status)
    ensures r == Ok <==> forall i :: 0 <= i < |calls| ==> calls[i].status == Ok
    ensures r != Ok ==> exists i :: 0 <= i < |calls| && calls[i].status == r &&
                                   forall j :: 0 <= j < i ==> calls[j].status == Ok
  {
    if calls == [] then Ok
    else if calls[0].status != Ok then calls[0].status
    else
      var r := FirstFailure(calls[1..]);
      assert r != Ok ==> exists i :: 1 <= i < |calls| && calls[i].status == r &&
                                     forall j :: 0 <= j < i ==> calls[j].status == Ok by {
        if r != Ok {
          var k :| 0 <= k < |calls| - 1 && calls[1..][k].status == r &&
                   forall j :: 0 <= j < k ==> calls[1..][j].status == Ok;
          assert calls[k + 1].status == r;
          assert forall j :: 0 <= j < k + 1 ==> calls[j].status == Ok by {
            forall j | 0 <= j < k + 1 ensures calls[j].status == Ok {
              if j > 0 { assert calls[j] == calls[1..][j - 1]; }
            }
          }
        }
      }
      r
  }

  /**
   * The calls ran a prefix of the six reply steps in order, and each call after the first ran
   * only because the call before it returned Ok.
   */
  ghost predicate RanInOrder(calls: seq<Call>)
  {
    |calls| <= 6 &&
    (forall i :: 0 <= i < |calls| ==> Rank(calls[i].step) == i) &&
    (forall i :: 0 <= i < |calls| - 1 ==> calls[i].status == Ok)
  }

  /**
   * When every call but the last returned Ok, the chain's result is the last call's:
   * a failure is the last call made, and nothing ran after it.
   */
  lemma ChainResultIsLastCall(calls: seq<Call>)
    requires calls != []
    requires forall i :: 0 <= i < |calls| - 1 ==> calls[i].status == Ok
    ensures FirstFailure(calls) == calls[|calls| - 1].status
  {
  }

  /** A segment: struct pbuf with its data, write cursor (putp) and declared length (plen). */
  class Pbuf {
    var data: array<byte>
    /** Bytes written so far, counted from the start of data. */
    var putp: nat
    /** The declared payload length: what encoders may fill and what gets sent. */
    var plen: nat
    /** The bytes written so far: data[..putp]. */
    ghost var written: seq<byte>
    /** Every call made on this segment, in order. */
    ghost var log: seq<Call>

    ghost predicate Valid()
      reads this, data
    {
      putp <= plen <= data.Length && written == data[..putp]
    }

    /** pbuf_size_get: the segment's capacity. */
    function Size(): (r: nat)
      reads this
    {
      data.Length
    }

    /** The bytes the segment declares as its payload: what the transport sends. */
    function Payload(): (r: seq<byte>)
      reads this, data
      requires Valid()
      ensures |r| == plen
    {
      data[..plen]
    }

    constructor (size: nat)
      ensures Valid() && fresh(data) && data.Length == size
      ensures putp == 0 && plen == 0 && written == [] && log == []
    {
      data := new byte[size](_ => 0);
      putp, plen := 0, 0;
      written, log := [], [];
    }

    /** pbuf_plen_set. */
    method PlenSet(n: nat)
      requires Valid() && putp <= n <= data.Length
      modifies this
      ensures Valid() && data == old(data) && putp == old(putp) && written == old(written) && plen == n
      ensures log == old(log) + [Call(Step.PlenSet(n), Ok)]
    {
      plen := n;
      log := log + [Call(Step.PlenSet(n), Ok)];
    }

    /** pbuf_plen_reset: the declared length becomes exactly what was written. */
    method PlenReset()
      requires Valid()
      modifies this
      ensures Valid() && data == old(data) && putp == old(putp) && written == old(written) && plen == putp
      ensures log == old(log) + [Call(Step.PlenReset, Ok)]
    {
      plen := putp;
      log := log + [Call(Step.PlenReset, Ok)];
    }

    /** pbuf_length_get: the number of bytes written, which must fit a uint16_t. */
    method LengthGet() returns (res: Status, length: uint16)
      requires Valid()
      modifies this
      ensures Valid() && data == old(data) && putp == old(putp) && plen == old(plen)
      ensures written == old(written)
      ensures res == (if putp < 0x1_0000 then Ok else OutOfRange)
      ensures res == Ok ==> length == putp
      ensures log == old(log) + [Call(Step.LengthGet, res)]
    {
      if putp < 0x1_0000 {
        res, length := Ok, putp;
      } else {
        res, length := OutOfRange, 0;
      }
      log := log + [Call(Step.LengthGet, res)];
    }

    /** Appends b at the cursor when it fits in the declared length; otherwise writes nothing. */
    method Put(b: seq<byte>) returns (res: Status)
      requires Valid()
      modifies this, data
      ensures Valid() && data == old(data) && plen == old(plen) && log == old(log)
      ensures res == (if old(putp) + |b| <= plen then Ok else OutOfRange)
      ensures written == if res == Ok then old(written) + b else old(written)
      ensures putp == |written|
    {
      if putp + |b| <= plen {
        forall i | 0 <= i < |b| {
          data[putp + i] := b[i];
        }
        putp := putp + |b|;
        written := written + b;
        res := Ok;
      } else {
        res := OutOfRange;
      }
    }

    /** Overwrites already-written bytes at a fixed offset (a back-patch). */
    method PutAt(off: nat, b: seq<byte>)
      requires Valid() && off + |b| <= putp
      modifies this, data
      ensures Valid() && data == old(data) && putp == old(putp) && plen == old(plen) && log == old(log)
      ensures written == Overwrite(old(written), off, b)
    {
      forall i | 0 <= i < |b| {
        data[off + i] := b[i];
      }
      written := Overwrite(written, off, b);
    }
  }

  /** struct pbuf_list: the segments of one outgoing message. */
  class PbufList {
    var segments: seq<Pbuf>

    constructor ()
      ensures segments == []
    {
      segments := [];
    }
  }

  /** The bytes a list carries: the payloads of its segments, in order. */
  function ListPayload(segs: seq<Pbuf>): seq<byte>
    reads set i | 0 <= i < |segs| :: segs[i]
    reads set i | 0 <= i < |segs| :: segs[i].data
    requires forall i :: 0 <= i < |segs| ==> segs[i].Valid()
    decreases |segs|
  {
    if segs == [] then [] else ListPayload(segs[..|segs| - 1]) + segs[|segs| - 1].Payload()
  }

  /** A list of one segment carries that segment's payload. */
  lemma ListPayloadOfOne(p: Pbuf)
    requires p.Valid()
    ensures ListPayload([p]) == p.Payload()
  {
  }

  /**
   * The buffer allocator. Whether memory is available for a list and for a segment, and
   * the capacity of a segment, are its parameters; live and freeCalls record what was
   * allocated and freed.
   */
  class Pool {
    const listMemory: bool
    const segmentMemory: bool
    const segmentSize: nat
    /** Lists allocated and not yet freed. */
    ghost var live: set<PbufList>
    /** Calls of pbuf_list_free, including those on NULL. */
    ghost var freeCalls: nat

    constructor (listMemory: bool, segmentMemory: bool, segmentSize: nat)
      ensures this.listMemory == listMemory && this.segmentMemory == segmentMemory
      ensures this.segmentSize == segmentSize
      ensures live == {} && freeCalls == 0
    {
      this.listMemory, this.segmentMemory, this.segmentSize := listMemory, segmentMemory, segmentSize;
      live, freeCalls := {}, 0;
    }

    /** pbuf_list_alloc: a new empty list, or null when no memory is available. */
    method ListAlloc() returns (l: PbufList?)
      modifies this
      ensures l == null <==> !listMemory
      ensures l != null ==> fresh(l) && l.segments == [] && live == old(live) + {l}
      ensures l == null ==> live == old(live)
      ensures freeCalls == old(freeCalls)
    {
      if listMemory {
        l := new PbufList();
        live := live + {l};
      } else {
        l := null;
      }
    }

    /**
     * pbuf_list_last_get: the tail segment of the list. An empty list first gets a new
     * segment of segmentSize bytes; null when no memory is available for it.
     */
    method ListLastGet(l: PbufList) returns (p: Pbuf?)
      modifies l
      ensures old(l.segments) != [] ==> l.segments == old(l.segments) && p == l.segments[|l.segments| - 1]
      ensures old(l.segments) == [] && !segmentMemory ==> p == null && l.segments == []
      ensures old(l.segments) == [] && segmentMemory ==>
        p != null && fresh(p) && fresh(p.data) && l.segments == [p] &&
        p.Valid() && p.data.Length == segmentSize && p.putp == 0 && p.plen == 0 && p.log == []
    {
      if l.segments != [] {
        p := l.segments[|l.segments| - 1];
      } else if segmentMemory {
        p := new Pbuf(segmentSize);
        l.segments := [p];
      } else {
        p := null;
      }
    }

    /** pbuf_list_free: releases a live list; on null it does nothing but is still a call. */
    method ListFree(l: PbufList?)
      requires l != null ==> l in live
      modifies this
      ensures live == old(live) - (if l == null then {} else {l})
      ensures freeCalls == old(freeCalls) + 1
    {
      if l != null {
        live := live - {l};
      }
      freeCalls := freeCalls + 1;
    }
  }
}
