/** Shared vocabulary of the two policies: an optional value and the stable
    identifier the persistence layer assigns to a user record. */
module Basics {

  datatype Option<+T> = None | Some(value: T)

  /** The persistence identifier of a user (getIdentifierByObject); the
      caches of both policies are keyed by it. */
  type UserId = string
}
