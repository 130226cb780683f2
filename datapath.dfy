/** The datapath store behind ofp_desc_get: a descriptor per dpid. */
module Datapath {
  import opened Wire
  import opened LagopusResult
  import opened OpenFlow

  /**
   * struct ofp_error: where the store would describe a failed lookup. The handler only
   * checks that it is not null, so the model gives it no contents.
   */
  class OfpError {
    constructor ()
    {
    }
  }

  /** The descriptors the store holds, and the result it reports for a dpid it lacks. */
  datatype DescStore = DescStore(descs: map<uint64, Desc>, failure: Failure)

  /**
   * ofp_desc_get: fills the caller's record with the descriptor of dpid, or leaves the
   * record as it was and reports the store's failure.
   */
  method OfpDescGet(store: DescStore, dpid: uint64, record: Desc) returns (res: Status, filled: Desc)
    ensures res == Ok <==> dpid in store.descs
    ensures res == Ok ==> filled == store.descs[dpid]
    ensures res != Ok ==> res == store.failure && filled == record
  {
    if dpid in store.descs {
      res, filled := Ok, store.descs[dpid];
    } else {
      res, filled := store.failure, record;
    }
  }
}
