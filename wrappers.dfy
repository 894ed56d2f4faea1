/** Optional and failure-carrying values shared by the cache and the routes. */
module Wrappers {

  /** A value that may be absent; `None` stands for JavaScript's `undefined`. */
  datatype Option<+T> = None | Some(value: T)

  /** Either a successful value or a failure. */
  datatype Result<+T, +E> = Success(value: T) | Failure(error: E)
}
