/** Optional values and success-or-error values, the two shapes in which the
    store answers: `find` returning `undefined` / `null`, and a command that
    throws an `Error` instead of returning. */
module Results {

  /** A value that may be absent (`T | null` / `T | undefined`). */
  datatype Option<+T> = None | Some(value: T)

  /** Either the value a call returns or the error it throws. */
  datatype Result<+T, +E> = Ok(value: T) | Err(error: E)
}
