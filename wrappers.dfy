/** The outcome of an operation that can fail with an error message. */
module Wrappers {

  datatype Result<T, E> = Success(value: T) | Failure(error: E)
}
