/** Option and Result values standing for Java's nullable references and thrown exceptions. */
module Wrappers {

  /** A value that may be absent (a Java `null` or an empty `Optional`). */
  datatype Option<+T> = None | Some(value: T)

  /** A normal return carrying a value, or an exception carrying its error. */
  datatype Result<+T, +E> = Success(value: T) | Failure(error: E)

  /** A normal return of a `void` method, or an exception carrying its error. */
  datatype Outcome<+E> = Pass | Fail(error: E)
}
