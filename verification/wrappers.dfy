/** Failure-carrying result types shared by the graph store, the search and the stack. */
module Wrappers {

  /** A value that may be absent; stands in for a C# null reference. */
  datatype Option<+T> = None | Some(value: T)

  /** Either a value or the exception the source would have thrown. */
  datatype Result<+R, +E> = Success(value: R) | Failure(error: E)
}
