/** Failure-carrying result types shared by the parsing functions. */
module Wrappers {

  /** A value that may be absent, as a Python call that returns or raises. */
  datatype Option<+T> = None | Some(value: T)

  /** Either a parsed value or the reason the parse was refused. */
  datatype Result<+T, +E> = Success(value: T) | Failure(error: E)
}
