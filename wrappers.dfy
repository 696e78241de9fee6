/**
 * Small generic definitions the other modules share: the optional value the
 * model uses for JavaScript's `undefined` results, and lists without repeats.
 */
module Wrappers {

  datatype Option<+T> = None | Some(value: T)

  /** No value occurs twice. */
  ghost predicate NoDup<T>(q: seq<T>)
  {
    forall i, j :: 0 <= i < j < |q| ==> q[i] != q[j]
  }
}
