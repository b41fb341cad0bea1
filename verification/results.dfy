/** Failure-carrying values used wherever the bot consults the outside world:
    an absent message body, a failed file extraction, a failed model call. */
module Results {

  /** A value that may be absent, such as a message body. */
  datatype Option<+T> = None | Some(value: T)

  /** The outcome of a call that either produces a value or fails with an error. */
  datatype Result<+T, +E> = Ok(value: T) | Err(error: E)
}
