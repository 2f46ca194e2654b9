/** Option, Result and Outcome: the model's stand-ins for Go's nullable
    columns, (value, error) pairs and bare error returns. */
module Wrappers {

  /** `sql.NullInt64` / `sql.NullTime`: a column that may hold NULL. */
  datatype Option<+T> = None | Some(value: T)

  /** A Go `(value, error)` pair where exactly one half is meaningful. */
  datatype Result<+T, +E> = Ok(value: T) | Err(error: E)

  /** A Go function that returns only an `error`. */
  datatype Outcome<+E> = Pass | Fail(error: E)
}
