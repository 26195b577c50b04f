/** The success-or-error value used wherever the modelled code can raise. */
module Wrappers {

  /** Either the value an operation produced or the error it raised instead. */
  datatype Result<T, E> = Success(value: T) | Failure(error: E)
}
