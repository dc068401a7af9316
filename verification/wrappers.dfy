/** Failure-carrying datatypes used to model thrown exceptions and lookups
    that may miss. */
module Wrappers {

  datatype Option<+T> = None | Some(value: T)

  datatype Result<+R, +E> = Success(value: R) | Failure(error: E)
}
