/** Optional values and results shared by every module of the model. */
module Wrappers {

  /** A value that may be absent: SQL NULL, a missing request field. */
  datatype Option<+T> = None | Some(value: T)

  /** The outcome of an operation that may fail on a store error. */
  datatype Result<+T, +E> = Ok(value: T) | Err(error: E)
}
