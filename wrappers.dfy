/** Option and Result values standing for Java's `null` and for thrown exceptions. */
module Wrappers {

  /** `None` stands for a Java `null`. */
  datatype Option<+T> = None | Some(value: T)

  /** `Failure` stands for an exception the source throws, carrying its message. */
  datatype Result<+R, +E> = Success(value: R) | Failure(error: E)
}
