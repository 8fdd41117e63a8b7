/** Failure-carrying values used by the table model: an optional parsed count
    and the outcome of the bulk fetch. */
module Wrappers {

  /** `None` stands for a value that is absent, such as a count that parsed to NaN. */
  datatype Option<+T> = None | Some(value: T)

  /** Outcome of an operation that either produces a value or fails. */
  datatype Result<+R, +E> = Success(value: R) | Failure(error: E)
}
