/** The usual carriers for an absent value and for a call that may refuse. */
module Wrappers {

  datatype Option<+T> = None | Some(value: T)

  datatype Result<+T, +E> = Ok(value: T) | Err(error: E)

  /** The state of a relation that waits, refuses, or knows how many bytes a message has. */
  datatype Frame = Wait | Bad | Whole(total: nat)

  /** No element occurs twice. */
  ghost predicate Distinct<T>(s: seq<T>) {
    forall i, j | 0 <= i < j < |s| :: s[i] != s[j]
  }
}
