/** Outcomes shared by the tree builder and the selector engine. The only
    exception the modelled code can raise on its own is Python's IndexError
    (popping or indexing an empty list). */
module Results {

  datatype Error = IndexError

  datatype Option<T> = None | Some(value: T)

  /** A value, or the exception that the source raises instead of returning it. */
  datatype Result<T> = Ok(value: T) | Err(error: Error)

  /** The outcome of an event handler that returns nothing. */
  datatype Outcome = Pass | Fail(error: Error)
}
