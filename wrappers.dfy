/** Option and Result, the two failure-carrying shapes the repository's
    methods return (a Go `(*Task, error)` pair becomes a Result). */
module Wrappers {

  datatype Option<+T> = None | Some(value: T)

  datatype Result<+T, +E> = Success(value: T) | Failure(error: E)
}
