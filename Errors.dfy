/** The ways an operation of the cipher engine can fail, and the result types
    that carry either a value or one of these failures. The source raises one
    exception type with a message; the message is replaced here by a kind. */
module Errors {

  datatype Error =
    | DuplicateChar      // an alphabet lists a character twice
    | IndexOutOfRange    // an index outside 0..size-1
    | NotInAlphabet      // a character that is not in the alphabet
    | BadCycleSyntax     // "()", "((" or "))" in cycle notation
    | BadConfig          // reserved characters, slot kinds, plugboard shape, slot counts
    | UnknownRotor       // a rotor name that is not in the catalog

  /** A value, or the failure that prevented computing it. */
  datatype Result<+T> = Ok(value: T) | Err(error: Error) {
    predicate IsFailure() { Err? }

    function PropagateFailure<U>(): Result<U>
      requires Err?
    {
      Err(error)
    }

    function Extract(): T
      requires Ok?
    {
      value
    }
  }

  /** A value that may be absent (a Java reference that may be null). */
  datatype Option<+T> = None | Some(value: T)

  /** The result of an operation that only changes state. */
  datatype Outcome = Pass | Fail(error: Error)
}
