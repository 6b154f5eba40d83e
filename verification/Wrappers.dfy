// What the Rust standard library provides under the same names: an optional value, and a
// value or the error that took its place.

module Wrappers {
  datatype Option<+T> = None | Some(value: T)

  datatype Result<+T, +E> = Ok(value: T) | Err(error: E)
}
