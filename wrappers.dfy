/** Failure-carrying result types used where the original program aborts. */
module Wrappers {

  datatype Option<T> = None | Some(value: T)

  /** A computation that yields a value or an error. */
  datatype Result<T, E> = Success(value: T) | Failure(error: E)

  /** A computation that only succeeds or fails. */
  datatype Outcome<E> = Pass | Fail(error: E)
}
