/** Failure-aware results for the operations that throw in the Java source. */
module Wrappers {

  /** The Java exceptions the modelled code raises. */
  datatype Error =
    | IllegalArgument   // java.lang.IllegalArgumentException
    | NoSuchElement     // java.util.NoSuchElementException

  /** A value or the exception that replaced it. */
  datatype Result<+T> = Success(value: T) | Failure(error: Error)

  /** A possibly-null reference: `None` is Java's `null`. */
  datatype Option<+T> = None | Some(value: T)
}
