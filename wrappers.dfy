/** Option and Outcome: absence (Java's null) and thrown exceptions as values. */
module Wrappers {

  /** A value that may be missing; stands for a Java reference that may be null. */
  datatype Option<+T> = None | Some(value: T)

  /** The completion of a Java `void` method: it returns normally or throws `error`. */
  datatype Outcome<+E> = Pass | Fail(error: E)
}
