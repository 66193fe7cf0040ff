/** Small shared vocabulary: an optional value and duplicate-free sequences. */
module Util {

  /** Python's `None` or a present value. */
  datatype Option<+T> = None | Some(value: T)

  /** No value occurs twice in `xs`. */
  predicate NoDuplicates<T(==)>(xs: seq<T>)
  {
    forall i, j :: 0 <= i < j < |xs| ==> xs[i] != xs[j]
  }
}
