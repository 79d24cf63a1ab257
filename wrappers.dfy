/** Option and Result values shared by the other modules. */
module Wrappers {

  datatype Option<+T> = None | Some(value: T)

  /** A computation that either produced a value or stopped with an error
      (an exception the source raises and does not catch). */
  datatype Result<+R, +E> = Success(value: R) | Failure(error: E)
}
