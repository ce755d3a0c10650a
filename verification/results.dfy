/** Values that may be absent and calls that may throw. */
module Results {

  /** A value that may be missing: PHP's `null` for a nullable type. */
  datatype Option<+T> = None | Some(value: T)

  /** The outcome of a call that may raise an exception: its value, or the exception's message. */
  datatype Result<+T> = Ok(value: T) | Throws(message: string)
}
