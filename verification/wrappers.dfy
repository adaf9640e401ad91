/** Wrappers standing in for Java's null and exceptions. */
module Wrappers {

  /** A possibly-null Java reference: `None` is `null`. */
  datatype Option<+T> = None | Some(value: T)

  /** The outcome of a Java call that either returns or throws. */
  datatype Result<+T, +E> = Success(value: T) | Failure(error: E)
}
