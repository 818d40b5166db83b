/** Outcomes of operations that may raise. */
module Results {

  // The exceptions of the source that the model distinguishes.
  datatype Error =
    | OverflowError
    | IndexError
    | ValueError
    | StructError
    | AuthenticationError
    | ReplayError
    | ConnectionClosed
    | OSError
    | ProtocolError
    | CovenantError
    | RangeError

  datatype Option<+T> = None | Some(value: T)

  datatype Result<+T> = Success(value: T) | Failure(error: Error) {
    predicate IsFailure() { Failure? }

    function PropagateFailure<U>(): Result<U>
      requires Failure?
    {
      Failure(error)
    }

    function Extract(): T
      requires Success?
    {
      value
    }
  }
}
