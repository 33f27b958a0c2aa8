/** Notions shared by several modules. */
module Wrappers {
  /** A value that may be missing. */
  datatype Option<T> = None | Some(value: T)

  /** No value twice. */
  ghost predicate Distinct<T>(s: seq<T>) {
    forall i, j | 0 <= i < j < |s| :: s[i] != s[j]
  }
}
