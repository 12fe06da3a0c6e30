/** Success-or-error results, standing in for the panics and `Option::unwrap`s of the program. */
module Wrappers {
  datatype Result<+T, +E> = Ok(value: T) | Err(error: E)
}
