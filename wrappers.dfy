/** Optional values and the outcome of a query that the source may refuse. */
module Wrappers {

  datatype Option<+T> = None | Some(value: T)

  /** A query's value, or the `NotImplementedError` the source raises for a
      frame it does not support. */
  datatype Result<+T> = Ok(value: T) | NotImplementedError
}
