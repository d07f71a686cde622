/** The exceptions the registrars and their iterators throw, as values.
    A method that throws in Java returns `Thrown(e)` here and leaves every
    object it may modify exactly as it found it. */
module Exceptions {

  datatype Exception =
    | IllegalArgument          // java.lang.IllegalArgumentException
    | IllegalState             // java.lang.IllegalStateException
    | NoSuchElement            // java.util.NoSuchElementException
    | UnsupportedOperation     // java.lang.UnsupportedOperationException
    | ConcurrentModification   // java.util.ConcurrentModificationException

  /** Outcome of a `void` Java method. */
  datatype Outcome = Done | Thrown(exception: Exception)

  /** Outcome of a Java method that returns a value. */
  datatype Result<+T> = Value(value: T) | Failure(exception: Exception)
}
