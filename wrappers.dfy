/** Optional values, results, and the Java exceptions the modelled code can raise. */
module Wrappers {

  /** A Java reference that may be null. */
  datatype Option<+T> = None | Some(value: T)

  /** The exceptions of the modelled code, by Java class. */
  datatype Exception =
    | ClassCastException         // a value of the wrong dynamic class reaches a cast
    | ArithmeticException        // BigDecimal.setScale would have to round
    | IllegalArgumentException   // a literal text with a quote, or a value class the group cannot take
    | IndexOutOfBoundsException  // a list or a group read or written past its end
    | NullPointerException       // a null unboxed to an int
    | AssertionError(expected: string, actual: string)  // assertEquals on two different strings

  /** The outcome of a Java call: its value, or the exception it throws. */
  datatype Result<+T> = Ok(value: T) | Err(error: Exception)
}
