/** Failure-carrying datatypes shared by the editor model. */
module Wrappers {

  /** An optional value: a dialog answer that may be cancelled, a search that may find nothing. */
  datatype Option<+T> = None | Some(value: T)

  /** The outcome of an operation that can fail with an error of type E. */
  datatype Result<+R, +E> = Success(value: R) | Failure(error: E)
}
