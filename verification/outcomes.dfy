/** The two runtime exceptions the solver can raise on its own inputs, and a
    result type that carries either a value or the exception. */
module Outcomes {

  datatype Exception =
    | IndexOutOfBounds  // `charAt` past the end of a string
    | NullPointer       // a method called on a null `String`

  datatype Result<+T> = Success(value: T) | Failure(error: Exception)
}
