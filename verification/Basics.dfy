/** A value that may be missing. */
module Basics {
  datatype Option<+T> = None | Some(value: T)

  /** Nothing occurs twice. */
  predicate Distinct<T(==)>(s: seq<T>) {
    forall i, j :: 0 <= i < j < |s| ==> s[i] != s[j]
  }
}
