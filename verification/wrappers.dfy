/** Failure-compatible result types shared by the searches and the policy. */
module Wrappers {

  /** An optional value; the searches return `None` where the source returns Python's `None`. */
  datatype Option<+T> = None | Some(value: T)

  /** A value or the fault that the source would raise instead of returning. */
  datatype Result<+R, +E> = Success(value: R) | Failure(error: E)
}
