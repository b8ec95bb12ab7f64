/**
 * The shared-set provider: the same walk, fanned out over the children of
 * every key, inserting into one set shared by all workers; the set is then
 * drained into an ordered set and sorted.
 *
 * The parallel `for_each` is modelled as a loop that takes the children in
 * any order (each iteration picks an arbitrary child not yet walked), and
 * the concurrent set as one set that every iteration inserts into.
 */
module SharedSetWalk {
  import opened Seqs
  import opened Registry
  import opened Lexicographic
  import opened IndexSets
  import opened Hives

  /** `DashSet`: an unordered set whose `insert` every worker may call. */
  class ConcurrentSet<T(==)> {
    var members: set<T>

    constructor ()
      ensures members == {}
    {
      members := {};
    }

    method Insert(x: T)
      modifies this
      ensures members == old(members) + {x}
    {
      members := members + {x};
    }
  }

  /**
   * `get_all`: walk the predefined key into a shared set, copy that into an
   * ordered set and sort it.
   */
  method GetAll(hive: int, predef: int -> Key) returns (output: IndexSet<string>)
    ensures fresh(output) && output.Valid()
    ensures StrictlySorted(output.items)
    ensures Elems(output.items) == Elems(Walk(predef(hive), RootName(hive)))
  {
    var root := predef(hive);
    var rootName := RootName(hive);
    var shared := new ConcurrentSet();
    GetAllWithPrefix(root, rootName, shared);
    output := FromSet(shared.members);
    ghost var drained := output.items;
    Sort(output);
    assert forall x :: x in output.items <==> x in multiset(drained);
    assert Elems(output.items) == Elems(drained);
  }

  /**
   * `get_all_with_prefix`: insert `prefix`, then walk every child that
   * enumerates and opens, in any order, into the same set.
   */
  method GetAllWithPrefix(root: Key, prefix: string, shared: ConcurrentSet<string>)
    modifies shared
    ensures shared.members == old(shared.members) + Elems(Walk(root, prefix))
    decreases root
  {
    shared.Insert(prefix);
    var keys := EnumKeys(root.entries);
    var pending := Indices(|keys|);
    ghost var done: set<int> := {};
    while pending != {}
      invariant forall i :: i in pending ==> 0 <= i < |keys|
      invariant forall i :: 0 <= i < |keys| ==> i in pending || i in done
      invariant shared.members == old(shared.members) + {prefix} + VisitedPaths(root, keys, prefix, done)
      decreases pending
    {
      var i :| i in pending;
      pending := pending - {i};
      VisitOneMore(root, keys, prefix, done, i);
      done := done + {i};
      var subkey := OpenSubkey(root, keys[i]);
      if subkey.None? {
        continue;
      }
      GetAllWithPrefix(subkey.value, Join(prefix, keys[i]), shared);
    }
    AnyOrderVisitsAll(root, keys, prefix, done);
  }
}
