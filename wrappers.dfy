/** Option and Result: the error channel that replaces Java's exceptions and nulls. */
module Wrappers {

  /** A possibly absent value; `None` stands for Java's `null` and for "no match". */
  datatype Option<+T> = None | Some(value: T)

  /** Either a value or the reason it could not be produced. */
  datatype Result<+T, +E> = Success(value: T) | Failure(error: E)
}
