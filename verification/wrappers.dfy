/** Option stands for a Java reference that may be null; Result for a call that
    either returns normally or throws. */
module Wrappers {

  datatype Option<+T> = None | Some(value: T)

  datatype Result<+T, +E> = Success(value: T) | Failure(error: E)
}
