/** Option and Result values used for the error paths of the modelled scripts and handlers. */
module Wrappers {

  datatype Option<+T> = None | Some(value: T)

  /** Either a value, or the error the source raises instead of returning one. */
  datatype Result<+T, +E> = Success(value: T) | Failure(error: E)
}
