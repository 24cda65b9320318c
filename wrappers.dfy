/** Optional values and results with an error, as the fetcher returns them. */
module Wrappers {

  datatype Option<+T> = None | Some(value: T)

  /** A settled promise: resolved with a value or rejected with a message. */
  datatype Result<+R, +E> = Success(value: R) | Failure(error: E)
}
