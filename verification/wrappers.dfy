/** Option stands for a Java `null` result, Outcome for a thrown exception. */
module Wrappers {

  /** A possibly-absent value: `None` stands for a Java `null` result. */
  datatype Option<+T> = None | Some(value: T)

  /** The outcome of an operation that can throw: `Fail` carries the exception. */
  datatype Outcome<+E> = Pass | Fail(error: E)
}
