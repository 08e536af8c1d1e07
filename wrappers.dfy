/** Small failure-carrying datatypes: Option models a Go value that may be nil
    (an `error` of nil means success), Result a (value, error) pair. */
module Wrappers {

  datatype Option<+T> = None | Some(value: T)

  datatype Result<+T, +E> = Success(value: T) | Failure(error: E)
}
