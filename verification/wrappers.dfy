/** Optional values and typed failures, used wherever the source returns `null` or an error response. */
module Wrappers {

  /** A value that may be absent: JavaScript's `null` / `undefined`. */
  datatype Option<T> = None | Some(value: T)

  /** The outcome of a request handler: the persisted value, or the rejection it answers with. */
  datatype Result<T, E> = Ok(value: T) | Err(error: E)
}
