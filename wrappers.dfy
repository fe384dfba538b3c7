/** Failure-carrying wrappers shared by the modules of this project. */
module Wrappers {

  /** An optional value: Go's nil interface, a missing map entry, or "no error". */
  datatype Option<+T> = None | Some(value: T)

  /** A value or the reason it could not be produced (a Go panic or error return). */
  datatype Result<+T, +E> = Success(value: T) | Failure(error: E)
}
