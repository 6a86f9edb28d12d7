/** Option and Result, standing in for Java's null and for a thrown IOException. */
module Wrappers {

  /** A value that may be absent: `None` plays the part of Java's `null`. */
  datatype Option<+T> = None | Some(value: T)

  /** The outcome of a call that may throw: `Failure` carries the exception. */
  datatype Result<+T, +E> = Success(value: T) | Failure(error: E)
}
