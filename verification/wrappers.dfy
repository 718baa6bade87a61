/** Failure-carrying return types used in place of Go's `(value, error)` pairs and nil pointers. */
module Wrappers {

  /** An optional value: `None` stands for Go's nil (a nil body, a failed collaborator call). */
  datatype Option<+T> = None | Some(value: T)

  /** Either a value or an error, the Dafny rendering of a Go function returning `err`. */
  datatype Result<+T, +E> = Ok(value: T) | Err(error: E)
}
