/**
  Go's error conventions, shared by both bounded contexts.

  A Go operation returns a value together with an `error` that is either nil
  or not; `Reply` is that pair. The errors the core produces fall into three
  kinds, parameterised by the type `F` that names the fields a validator
  checks:
  - `NotFound`: the context's not-found sentinel itself;
  - `Invalid(field)`: a validation failure, wrapping the context's
    invalid-data sentinel and naming the first field that failed;
  - `Other(msg)`: any other error value, such as a fresh `errors.New(msg)`
    or a failure reported by a storage back end. It never compares equal
    to a sentinel, whatever its text.
 */
module Outcomes {

  datatype Option<+T> = None | Some(value: T)

  datatype Error<+F> = NotFound | Invalid(field: F) | Other(msg: string)

  /** A Go `(value, error)` pair; `err == None` is a nil error. */
  datatype Reply<+T, +F> = Reply(value: T, err: Option<Error<F>>) {

    /** True if the error is nil. */
    predicate Ok() {
      err.None?
    }
  }

  /** The reply `return v, nil`. */
  function Success<T, F>(v: T): Reply<T, F> {
    Reply(v, None)
  }

  /** The reply `return zero, e`. */
  function Failure<T, F>(zero: T, e: Error<F>): Reply<T, F> {
    Reply(zero, Some(e))
  }
}
