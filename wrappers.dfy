/** The two failure-carrying datatypes the model uses in place of the
    source's exceptions, error responses and NaN. */
module Wrappers {

  datatype Option<T> = None | Some(value: T)

  datatype Result<T, E> = Success(value: T) | Failure(error: E)
}
