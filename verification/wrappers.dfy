/** The value shapes the model shares: `Option` for a TypeScript value that
    may be `undefined`, with `GetOr` as the `??` operator; `Result` for a
    computation that may throw an `Error` carrying its message, usable with
    `:-` to stop at the first error; and `Outcome` for a `Promise<void>` that
    either resolves or rejects with a message. */
module Wrappers {

  datatype Option<+T> = None | Some(value: T) {

    /** The `??` operator: the value if present, otherwise `default`. */
    function GetOr(default: T): T {
      match this
      case Some(v) => v
      case None => default
    }
  }

  datatype Result<+T, +E> = Success(value: T) | Failure(error: E) {

    predicate IsFailure() {
      Failure?
    }

    function PropagateFailure<U>(): Result<U, E>
      requires Failure?
    {
      Failure(error)
    }

    function Extract(): T
      requires Success?
    {
      value
    }
  }

  datatype Outcome<+E> = Pass | Fail(error: E)
}
