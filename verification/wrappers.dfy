/** Failure-carrying results: Go's `(value, error)` pairs and nil pointers. */
module Wrappers {

  /** A possibly-nil pointer: `None` stands for Go's `nil`. */
  datatype Option<+T> = None | Some(value: T)

  /** A Go `(value, err)` return: exactly one of the two is meaningful. */
  datatype Result<+T, +E> = Ok(value: T) | Err(error: E)
}
