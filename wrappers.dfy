/** Values that stand for the C# notions of null and of a thrown exception. */
module Wrappers {

  /** A reference that may be null: `None` is C#'s `null`. */
  datatype Option<+T> = None | Some(value: T)

  /** The exceptions the modelled members can raise. */
  datatype Exception =
    | NullReference     // a member was called on a null string
    | ArgumentNull      // Dictionary.Add was given a null key
    | DuplicateKey      // Dictionary.Add was given a key already present

  /** Either the value a member returns or the exception it throws. */
  datatype Result<+T> = Ok(value: T) | Thrown(error: Exception)

  /** Whether a call completed or threw, for members that return nothing. */
  datatype Outcome = Pass | Fail(error: Exception)
}
