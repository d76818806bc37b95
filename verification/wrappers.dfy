/** Failure-carrying result types shared by the encoder and the reader. */
module Wrappers {

  /** A value that may be absent: a JavaScript `null` reference, or a reader that found nothing. */
  datatype Option<+T> = None | Some(value: T)

  /** The outcome of an operation that either returns a value or throws. */
  datatype Result<+T, +E> = Ok(value: T) | Fail(error: E)
}
