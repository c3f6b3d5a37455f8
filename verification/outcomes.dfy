/** Failure-carrying result types shared by the store and the retrieval layer. */
module Outcomes {

  /** A value that may be absent, as Python's `Optional[...]` defaulting to `None`. */
  datatype Option<+T> = None | Some(value: T)

  /** Either a successful value or the error the endpoint raises instead. */
  datatype Result<+T, +E> = Success(value: T) | Failure(error: E)
}
