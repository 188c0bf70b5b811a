/** Result types for the exceptions the containers throw. */
module Wrappers {

  /** Every failure in the library is a std::out_of_range; the variants are its messages. */
  datatype Error =
    | IndexOutOfBounds   // "index is outside array bounds"
    | ListEmpty          // "list is empty"
    | NotFound           // "Could not find x for removal"
    | NoLargerValue      // "No values larger than x in tree"
    | NullDereference    // reading a field through a null pointer (undefined behaviour in C++)

  datatype Result<T> = Ok(value: T) | Err(error: Error)

  datatype Outcome = Pass | Fail(error: Error)

  function Max(a: int, b: int): int { if a < b then b else a }
}
