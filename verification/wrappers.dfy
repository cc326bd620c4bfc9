/** Optional values and fallible results used throughout the model. */
module Wrappers {

  /** A value that may be absent (the service's `Optional[...]` / `None`). */
  datatype Option<+T> = None | Some(value: T)

  /** The outcome of a store write: the new state, or the constraint it broke. */
  datatype Result<+T, +E> = Success(value: T) | Failure(error: E)
}
