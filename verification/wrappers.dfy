/** Ruby's nil and the script's early exits, as values. */
module Wrappers {

  /** A hash entry or a search result that may be nil. */
  datatype Option<T> = None | Some(value: T)

  /** The value a stage computes, or the reason the script stops there. */
  datatype Result<T, E> = Success(value: T) | Failure(error: E)
}
