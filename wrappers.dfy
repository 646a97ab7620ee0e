/** Failure-carrying values used in place of PHP's nullable returns and exceptions. */
module Wrappers {

  /** A value that may be absent: PHP `null` versus a present value. */
  datatype Option<+T> = None | Some(value: T)

  /** The outcome of an operation that either yields a value or raises a typed error. */
  datatype Result<+R, +E> = Success(value: R) | Failure(error: E)

  /** The outcome of a check that either passes or raises a typed error. */
  datatype Outcome<+E> = Pass | Fail(error: E)
}
