/** Failure-carrying values standing in for the Python exceptions of the library. */
module Results {

  datatype Option<+T> = None | Some(value: T)

  /** `Err(msg)` is a raised `ValueError` whose message is `msg`. */
  datatype Result<+T> = Ok(value: T) | Err(msg: string)
}
