/** Wrappers standing in for Python's `None` results and raised exceptions. */
module Wrappers {

  /** `None` of Python, or a present value. */
  datatype Option<+T> = None | Some(value: T)

  /** The value an operation returns, or the error it raises. */
  datatype Result<+T, +E> = Success(value: T) | Failure(error: E)

  /** The outcome of an operation that returns nothing but may raise. */
  datatype Outcome<+E> = Pass | Fail(error: E)
}
