/**
 * The three providers side by side: for the same key tree, the shared-set
 * and the interned providers return the same sequence, and it is the
 * sequential provider's result in sorted order.
 */
module Providers {
  import opened Seqs
  import opened Registry
  import opened Lexicographic
  import SequentialWalk

  /**
   * Any two sorted outputs holding the paths of the walk are equal, and they
   * hold exactly the paths of the sequential result, as many of them.
   */
  lemma SortedProvidersAgree(root: Key, rootName: string, a: seq<string>, b: seq<string>)
    requires StrictlySorted(a) && Elems(a) == Elems(Walk(root, rootName))
    requires StrictlySorted(b) && Elems(b) == Elems(Walk(root, rootName))
    ensures a == b
    ensures Elems(a) == Elems(SequentialWalk.Result(root, rootName))
    ensures |a| == |SequentialWalk.Result(root, rootName)|
  {
    SortedUnique(a, b);
    var r := SequentialWalk.Result(root, rootName);
    SequentialWalk.ResultIsReachable(root, rootName);
    SortedNoDuplicates(a);
    DistinctCardinality(a);
    DistinctCardinality(r);
  }
}
