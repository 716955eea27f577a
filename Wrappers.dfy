/** Option and Result: the values of Python's `None`-or-value and raise-or-return. */
module Wrappers {

  datatype Option<+T> = None | Some(value: T)

  /** `Failure` models a raised exception, carrying what the caller sees of it. */
  datatype Result<+R, +E> = Success(value: R) | Failure(error: E)
}
