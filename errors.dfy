/** The outcome types shared by both address types, and the library's one
    failure: an invalid address, carrying the input that was refused. */
module Errors {

  datatype Option<+T> = None | Some(value: T)

  datatype Result<+T, +E> = Success(value: T) | Failure(error: E)

  /** What a constructor was given: an integer or a string. */
  datatype Input = IntegerInput(n: int) | StringInput(s: string)

  /** Raised by every constructor that is given an input it refuses. */
  datatype InvalidIPAddress = InvalidIPAddress(address: Input)
}
