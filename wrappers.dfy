/** The optional and fallible values the decoder and the iterator return. */
module Wrappers {

  /** `Option<T>` of the source: `None` ends an iteration. */
  datatype Option<+T> = None | Some(value: T)

  /** `Result<T, E>` of the source. */
  datatype Result<+T, +E> = Ok(value: T) | Err(error: E)
}
