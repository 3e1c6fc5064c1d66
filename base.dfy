/** Value types shared by every module of the model. */
module Base {

  /** A byte of a Go `[]byte` or of the UTF-8 encoding of a Go `string`. */
  type byte = b: int | 0 <= b < 256

  datatype Option<+T> = None | Some(value: T)

  /** A Go `(value, error)` pair where exactly one side is meaningful. */
  datatype Result<+T, +E> = Ok(value: T) | Err(error: E)
}
