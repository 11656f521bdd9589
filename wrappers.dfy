/** Option and Result, as the handlers' `Option`/`Result` return types use them. */
module Wrappers {
  datatype Option<T> = None | Some(value: T)

  datatype Result<T, E> = Success(value: T) | Failure(error: E)
}
