/** Failure-carrying datatypes shared by the other modules. */
module Wrappers {

  /** A value that may be absent; Python's `None` or an empty regex result. */
  datatype Option<T> = None | Some(value: T)

  /** Either a value or the exception the Python code would raise. */
  datatype Result<T, E> = Success(value: T) | Failure(error: E)
}
