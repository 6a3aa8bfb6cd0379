/** Optional values and fallible results, shared by the frontend and backend models. */
module Outcome {

  /** A value that may be missing: `null`/`undefined` in TypeScript, `None` in Python. */
  datatype Option<+T> = None | Some(value: T) {

    /** The value, or `fallback` when it is missing (TypeScript `??`). */
    function GetOr(fallback: T): T {
      if Some? then value else fallback
    }
  }

  /** What a call that can throw or reject produces: its value, or the error it raised.
      The three members below let `:-` stop at the first error. */
  datatype Result<+R, +E> = Success(value: R) | Failure(error: E) {

    predicate IsFailure() {
      Failure?
    }

    function PropagateFailure<U>(): Result<U, E>
      requires Failure?
    {
      Failure(error)
    }

    function Extract(): R
      requires Success?
    {
      value
    }
  }
}
