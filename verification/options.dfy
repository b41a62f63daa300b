/** Failure-carrying wrappers shared by the parsers and the aggregation views. */
module Options {

  /** A value that may be absent: a line that does not parse, a title without a year. */
  datatype Option<+T> = None | Some(value: T)

  /** Either a value or the error that aborted the computation. */
  datatype Result<+T, +E> = Success(value: T) | Failure(error: E)
}
