/** Failure-carrying return values shared by the account and task modules. */
module Results {

  /** A value that may be absent, as a database lookup that finds no row. */
  datatype Option<+T> = None | Some(value: T)

  /** The outcome of a request handler: a value, or the error that stopped
      the request before anything was committed. */
  datatype Result<+T, +E> = Ok(value: T) | Err(error: E)
}
