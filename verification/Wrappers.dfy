/** Failure-compatible result types and the error codes shared by the stack (src/error.rs). */
module Wrappers {
  datatype Option<+T> = None | Some(value: T)

  datatype Result<+T> = Ok(value: T) | Err(error: Error) {
    predicate IsFailure() { Err? }

    function PropagateFailure<U>(): Result<U>
      requires Err?
    {
      Err(error)
    }

    function Extract(): T
      requires Ok?
    {
      value
    }
  }

  datatype Error =
    | BufferTooSmall
    | InvalidPdu
    | InvalidLength
    | InvalidChannel
    | InvalidAddress
    | InvalidParam
    | AlreadyRunning
    | NotRunning
    | CrcMismatch
    | InvalidAd
}
