/** Option and Result values: Java's `null` and thrown exceptions, as data. */
module Wrappers {

  /** A value that may be absent: `None` stands for a Java `null` reference. */
  datatype Option<+T> = None | Some(value: T)

  /** The outcome of a computation that can fail with an error value. */
  datatype Result<+R, +E> = Success(value: R) | Failure(error: E)
}
