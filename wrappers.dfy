/** Option and Result wrappers shared by the crawl and the snapshot modules. */
module Wrappers {

  /** An attribute or element that may be absent. */
  datatype Option<+T> = None | Some(value: T)

  /** The outcome of an operation that can fail (a fetch that raised). */
  datatype Result<+T, +E> = Success(value: T) | Failure(error: E)
}
