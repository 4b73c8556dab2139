/** Option and Result, used for the queues' error paths. */
module Wrappers {
  datatype Option<T> = None | Some(value: T)

  /** The outcome of an operation that can fail, here a constructor that throws. */
  datatype Result<T, E> = Success(value: T) | Failure(error: E)
}
