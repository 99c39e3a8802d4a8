/** Failure-compatible wrappers shared by every ledger of the model. */
module Wrappers {

  /** A value or Python's `None`. */
  datatype Option<+T> = None | Some(value: T)

  /** The value an operation produced, or the reason it stopped without writing anything. */
  datatype Result<+T, +E> = Ok(value: T) | Err(error: E)
}
