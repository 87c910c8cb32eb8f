/** Failure-carrying values shared by every module of the model. */
module Common {

  /** A value that may be absent: Go's nil pointer or missing map entry. */
  datatype Option<+T> = None | Some(value: T)

  /** A value or an error: Go's `(T, error)` pair where exactly one side is set. */
  datatype Result<+T, +E> = Ok(value: T) | Err(error: E)

  /** Raw file contents. */
  type Bytes = seq<bv8>
}
