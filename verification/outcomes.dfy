/** Failure-carrying values shared by the repository and the service layer. */
module Outcomes {

  /** A value that may be absent: Java's nullable references and `Optional`. */
  datatype Option<+T> = None | Some(value: T)

  /** The exceptions the service can raise, without their message texts. */
  datatype Error =
    | AliasAlreadyExists(alias: string)   // the requested custom alias is already a short code
    | UrlNotFound(code: string)           // no record for the code, or the record has expired
    | DuplicateShortCode(code: string)    // the store's unique constraint on shortCode refused a write

  /** The outcome of a call: a value, or the exception it throws. */
  datatype Result<+T> = Success(value: T) | Failure(error: Error)
}
