/** Java's null and thrown exceptions as values. */
module Wrappers {

  /** A value that may be absent: Java's `null` or an empty `Optional`. */
  datatype Option<+T> = None | Some(value: T)

  /** The value a call returns, or what it throws. */
  datatype Result<+R, +E> = Success(value: R) | Failure(error: E)

  /** The outcome of a `void` call: it returns normally or throws. */
  datatype Outcome<+E> = Pass | Fail(error: E)

  /** Java's string conversion of a string reference that may be `null`. */
  function NullableString(s: Option<string>): string
  {
    if s.Some? then s.value else "null"
  }
}
