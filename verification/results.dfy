/** Error-carrying results shared by the Python service model and the Go application model. */
module Results {

  /** A value, or the error message the source reports instead of it. */
  datatype Result<+T> = Ok(value: T) | Err(msg: string)

  /** The outcome of an operation that returns only an error (Go's `error`). */
  datatype Outcome = Pass | Fail(msg: string)
}
