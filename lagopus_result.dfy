/** The result codes (lagopus_result_t) that the desc-reply path returns or passes on. */
module LagopusResult {

  datatype Status =
    | Ok
    | AnyFailures
    | NoMemory
    | InvalidArgs
    | OutOfRange
    | NotFound
    | SocketError
    | NotOperational

  /** Any result code other than Ok. */
  type Failure = s: Status | s != Ok witness AnyFailures

  datatype Option<+T> = None | Some(value: T)
}
