/**
 * Values that stand for C#'s null and for the exceptions the modelled code
 * throws: an operation that throws returns `Err`/`Fail` with the exception's
 * kind instead.
 */
module Common {

  /** A nullable reference: `None` is C#'s null. */
  datatype Option<+T> = None | Some(value: T)

  /** The .NET exception kinds the modelled operations can throw. */
  datatype Error =
    | ArgumentOutOfRange   // ArgumentOutOfRangeException
    | DuplicateKey         // ArgumentException: an item with the same key has already been added
    | KeyNotFound          // KeyNotFoundException

  datatype Result<+T> = Ok(value: T) | Err(error: Error)

  /** The outcome of an operation that returns nothing. */
  datatype Outcome = Pass | Fail(error: Error)
}
