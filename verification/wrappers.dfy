/** Option and Result: the absent value and the error path of the pipeline. */
module Wrappers {

  /** A value that may be missing: JavaScript's `null`/`undefined`, or `indexOf`'s -1. */
  datatype Option<+T> = None | Some(value: T)

  /** The outcome of a step that can abort with an error. */
  datatype Result<+T, +E> = Success(value: T) | Failure(error: E)
}
