/** Order-preserving subsequences, used to state that a filter keeps the
    surviving elements in their original relative order. */
module Sequences {

  /** True iff `a` can be obtained from `b` by deleting elements. */
  predicate Subseq<T(==)>(a: seq<T>, b: seq<T>)
    decreases |b|
  {
    if |a| == 0 then true
    else if |b| == 0 then false
    else (a[0] == b[0] && Subseq(a[1..], b[1..])) || Subseq(a, b[1..])
  }
}
