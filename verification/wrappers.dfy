/** Failure-compatible result types used across the model: an absent slot value is
    `None`, and the constructor's argument check reports a `Failure`. */
module Wrappers {

  datatype Option<+T> = None | Some(value: T)

  datatype Result<+R, +E> = Success(value: R) | Failure(error: E)
}
