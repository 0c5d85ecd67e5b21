/** The exceptions the one-time-code core can raise, an optional value for the
    source's nullable references, and a result type that carries either a
    value or one of the exceptions. */
module Outcome {

  datatype Option<+T> = None | Some(value: T)

  datatype Error =
    | NegativeLength   // `new T[CodeLength]` with CodeLength < 0 (OverflowException)
    | NoDefaultClass   // `DefaultChars[0]` on an empty DefaultChars (IndexOutOfRangeException)
    | CannotSetChar    // SetOne on an unassigned template slot

  datatype Result<+T> = Success(value: T) | Failure(error: Error)
}
