/** The error path of an operation that raises in the source. */
module Wrappers {

  datatype Result<T> = Success(value: T) | Failure(error: string)
}
