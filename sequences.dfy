/** Small facts about index lists that several modules share. */
module Sequences {

  datatype Option<T> = None | Some(value: T)

  /** The indices appear in ascending order, each at most once. */
  predicate StrictlyIncreasing(s: seq<nat>)
  {
    forall m, n :: 0 <= m < n < |s| ==> s[m] < s[n]
  }
}
