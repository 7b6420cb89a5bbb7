/** Failure-carrying return types shared by the whole model. */
module Wrappers {

  /** An optional value: a query argument that may be absent, a lookup that may miss. */
  datatype Option<+T> = None | Some(value: T)

  /** The outcome of loading a payload: the typed value, or the error that stopped it. */
  datatype Result<+T, +E> = Success(value: T) | Failure(error: E)
}
