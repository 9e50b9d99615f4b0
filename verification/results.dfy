/** Option and Result values for the program's "maybe absent" and "may fail" returns. */
module Results {

  /** A value that may be absent. */
  datatype Option<+T> = None | Some(value: T)

  /** The outcome of an operation that returns either a value or an error text,
      like a Go function returning `(T, error)`. */
  datatype Result<+T> = Success(value: T) | Failure(error: string)
}
