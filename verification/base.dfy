/** Small failure-carrying datatypes shared by the rest of the model. */
module Base {

  /** A value that may be absent: an unset header, a number `parseInt` could not read,
      a body that could not be read or parsed. */
  datatype Option<+T> = None | Some(value: T)

  /** The outcome of a check that either yields a value or names why it failed. */
  datatype Result<+R, +E> = Success(value: R) | Failure(error: E)
}
