/** Failure-carrying results used across the model: a lookup that can miss and
    an operation that can throw. */
module Wrappers {

  /** Absent-or-present value; stands for a nullable reference in the plugin. */
  datatype Option<+T> = None | Some(value: T)

  /** Outcome of an operation that either returns a value or throws. */
  datatype Result<+T, +E> = Success(value: T) | Failure(error: E)
}
