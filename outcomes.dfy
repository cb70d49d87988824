/** Values of the host language that the rest of the model passes around:
    optional values, results of operations that can throw, and the
    exceptions themselves together with the `{code, message}` pair the
    handlers report for them. */
module Outcomes {

  /** A JavaScript value that may be `undefined` (or `null`). */
  datatype Option<+T> = None | Some(value: T) {
    /** `x ?? default`. */
    function GetOr(default: T): T {
      if Some? then value else default
    }
  }

  /** The outcome of an operation that either returns a value or throws. */
  datatype Result<+T, +E> = Success(value: T) | Failure(error: E) {
    predicate IsFailure() {
      Failure?
    }

    function PropagateFailure<U>(): Result<U, E>
      requires Failure?
    {
      Failure(error)
    }

    function Extract(): T
      requires Success?
    {
      value
    }
  }

  /** The outcome of an operation that returns nothing (a `Promise<void>`). */
  datatype Outcome = Done | Threw(error: Thrown)

  /** A thrown JavaScript value, seen through the three properties the
      handlers read: a string `code` when it has one, `name` and `message`. */
  datatype Thrown = Thrown(code: Option<string>, name: string, message: string)

  /** The error part of a response message. */
  datatype ErrorBody = ErrorBody(code: string, message: string)

  /** `new Error('')`, the only error the history store throws. */
  const PlainError: Thrown := Thrown(None, "Error", "")

  /** `{ code: typeof e.code === 'string' ? e.code : e.name, message: e.message }`. */
  function Report(e: Thrown): ErrorBody {
    ErrorBody(e.code.GetOr(e.name), e.message)
  }
}
