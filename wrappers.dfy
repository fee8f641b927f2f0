/** Optional values and results with an error, used for the nullable cells of the
    roster and for the load failure. */
module Wrappers {

  /** A cell that may be empty (pandas `None`/`NaN`) or a value that may be absent. */
  datatype Option<+T> = None | Some(value: T)

  /** The outcome of an operation that can fail with an error of type `E`. */
  datatype Result<+T, +E> = Ok(value: T) | Err(error: E)
}
