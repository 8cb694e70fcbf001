/** Success/failure results for operations whose source raises an exception. */
module Wrappers {
  datatype Result<+T, +E> = Ok(value: T) | Err(error: E)
}
