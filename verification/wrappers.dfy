/** Optional values and results: the model's stand-in for Go's nil pointers
    ("no value") and for `(value, error)` returns. */
module Wrappers {

  /** `None` plays the role of a nil `*T` returned by `Pick`/`Pop`/`Dequeue`. */
  datatype Option<+T> = None | Some(value: T)

  /** A value or an error, as returned by constructors that can fail. */
  datatype Result<+T, +E> = Success(value: T) | Failure(error: E)
}
