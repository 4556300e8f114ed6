/** Shared result types. */
module Common {
  datatype Option<+T> = None | Some(value: T)

  datatype Result<+T, +E> = Ok(value: T) | Err(error: E)

  // Identifiers are totally ordered; nothing else about their bits matters here.
  type Uuid = int
}
