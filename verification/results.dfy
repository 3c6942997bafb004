/** The wrappers used by every layer of the model. */
module Results {

  /** A value that may be absent, as `Optional` is in the repository's lookups. */
  datatype Option<+T> = None | Some(value: T)

  /** The outcome of a service call: a value, or the exception the call throws. */
  datatype Result<+T, +E> = Ok(value: T) | Err(error: E)
}
