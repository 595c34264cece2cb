/** Optional values and results that carry an error, shared by the game rules and the search. */
module Wrappers {

  /** A value that may be absent (Python's `None`). */
  datatype Option<+T> = None | Some(value: T)

  /** The outcome of an operation that raises an exception in `mcs_for_games.py`. */
  datatype Result<+T, +E> = Success(value: T) | Failure(error: E)
}
