/** Option and Result, standing for Java's nullable references and thrown exceptions. */
module Wrappers {

  /** `None` stands for a Java `null`. */
  datatype Option<+T> = None | Some(value: T)

  /** `Failure` stands for a thrown (or returned) exception. */
  datatype Result<+R, +E> = Success(value: R) | Failure(error: E)
}
