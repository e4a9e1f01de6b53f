/** Failure-carrying values: a Python value that may be `None`, and a call that may raise. */
module Outcomes {

  datatype Option<+T> = None | Some(value: T)

  /** `Failure(e)` stands for an exception whose message is `e`. */
  datatype Result<+T, +E> = Success(value: T) | Failure(error: E)
}
