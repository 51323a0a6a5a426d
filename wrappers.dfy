/** Failure-compatible result types used across the model. */
module Wrappers {

  /** A value that may be absent: the registry's "no instance" answer. */
  datatype Option<+T> = None | Some(value: T)

  /** A value or the message of the error the source throws instead. */
  datatype Result<+R> = Success(value: R) | Failure(error: string)

  /** The outcome of an operation that returns nothing but may throw. */
  datatype Outcome = Pass | Fail(error: string)
}
