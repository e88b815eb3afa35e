/**
  The error codes the modelled code raises, and the `Result` every fallible
  operation returns (the `common_exception::Result<T>` of the system).
  `Result` is failure-compatible, so `:-` propagates the first error just as
  Rust's `?` does.
 */
module Exception {

  datatype ErrorCode =
    | LogicalError(message: string)
      // a column name that the input schema does not have
    | FieldNotFound(name: string)
    | UnknownAggregateFunction(message: string)
      // an error raised by a collaborator outside the model (function
      // factories, decoders, merges); its origin is opaque here
    | External(message: string)

  datatype Result<+T> = Ok(value: T) | Err(error: ErrorCode) {

    predicate IsFailure() {
      Err?
    }

    function PropagateFailure<U>(): Result<U>
      requires Err?
    {
      Err(error)
    }

    function Extract(): T
      requires Ok?
    {
      value
    }
  }
}
