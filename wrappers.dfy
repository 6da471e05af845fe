/** Optional values and the outcomes of a Swift call that may throw or trap. */
module Wrappers {

  /** Swift's `Optional`. */
  datatype Option<+T> = None | Some(value: T)

  /** The three members of `HTTPErrors` that the codec throws. */
  datatype HTTPError =
    | MalformedStatusline
    | MalformedEntry
    | HeaderContainsNonStringLiterial

  /**
   * What a call does: it returns a value, throws an `HTTPErrors` member, or
   * stops the process with a Swift runtime trap (an index or a range out of
   * bounds). A trap is not an error a caller can catch.
   */
  datatype Outcome<+T> = Ok(value: T) | Throws(error: HTTPError) | Trap
}
