/** Option, Result and Outcome for null references and Java calls that throw, and the Java exceptions the modelled code can raise. */
module Wrappers {

  /** `None` stands for a Java `null` reference. */
  datatype Option<+T> = None | Some(value: T)

  /** A Java call that either returns a value or throws. */
  datatype Result<+T, +X> = Success(value: T) | Failure(error: X)

  /** A Java `void` call that either returns normally or throws. */
  datatype Outcome<+X> = Pass | Fail(error: X)
}

module Exceptions {

  /** The Java exceptions raised by the modelled code or by the library calls it makes. */
  datatype Exception =
    | IllegalArgument          // java.lang.IllegalArgumentException
    | NullPointer              // a method called on a null reference
    | NoSuchElement            // java.util.NoSuchElementException
    | IllegalState             // java.lang.IllegalStateException
    | StringIndexOutOfBounds   // java.lang.StringIndexOutOfBoundsException
}
