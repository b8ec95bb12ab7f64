/**
 * `indexmap::IndexSet`: a set that remembers insertion order. Its abstract
 * value is the sequence of its elements, without repeats, in the order
 * they were first inserted.
 */
module IndexSets {
  import opened Seqs
  import opened Lexicographic

  /** `insert` on the contents: a new element goes last, a present one keeps its place. */
  function Add<T(==)>(s: seq<T>, x: T): (r: seq<T>)
    ensures s <= r
    ensures Elems(r) == Elems(s) + {x}
    ensures NoDuplicates(s) ==> NoDuplicates(r)
  {
    if x in s then s else s + [x]
  }

  /** The contents after inserting `xs` one after the other into a set holding `s`. */
  function InsertAll<T(==)>(s: seq<T>, xs: seq<T>): (r: seq<T>)
    ensures s <= r
    ensures Elems(r) == Elems(s) + Elems(xs)
    ensures NoDuplicates(s) ==> NoDuplicates(r)
    decreases |xs|
  {
    if xs == [] then s
    else Add(InsertAll(s, xs[..|xs| - 1]), xs[|xs| - 1])
  }

  /** `retain(keep)` on the contents: the kept elements, in their order. */
  function Filter<T(==,!new)>(s: seq<T>, keep: T -> bool): (r: seq<T>)
    ensures |r| <= |s|
    ensures forall x :: x in r <==> x in s && keep(x)
    decreases |s|
  {
    if s == [] then []
    else
      var last := s[|s| - 1];
      Filter(s[..|s| - 1], keep) + (if keep(last) then [last] else [])
  }

  /** Inserting `a` then `b` is inserting `a + b`. */
  lemma {:induction false} InsertAllConcat<T>(s: seq<T>, a: seq<T>, b: seq<T>)
    ensures InsertAll(s, a + b) == InsertAll(InsertAll(s, a), b)
    decreases |b|
  {
    if b == [] {
      assert a + b == a;
    } else {
      assert (a + b)[..|a + b| - 1] == a + b[..|b| - 1];
      InsertAllConcat(s, a, b[..|b| - 1]);
    }
  }

  /** Inserting elements that are all new appends them as they are. */
  lemma {:induction false} InsertAllFresh<T>(s: seq<T>, xs: seq<T>)
    requires NoDuplicates(s + xs)
    ensures InsertAll(s, xs) == s + xs
    decreases |xs|
  {
    if xs != [] {
      var init := xs[..|xs| - 1];
      assert s + xs == (s + init) + [xs[|xs| - 1]];
      assert NoDuplicates(s + init) by {
        forall i, j | 0 <= i < j < |s + init| ensures (s + init)[i] != (s + init)[j] {
          assert (s + init)[i] == (s + xs)[i] && (s + init)[j] == (s + xs)[j];
        }
      }
      InsertAllFresh(s, init);
      assert xs[|xs| - 1] == (s + xs)[|s + xs| - 1];
      assert xs[|xs| - 1] !in s + init by {
        forall i | 0 <= i < |s + init| ensures (s + init)[i] != xs[|xs| - 1] {
          assert (s + init)[i] == (s + xs)[i];
        }
      }
    }
  }

  /** Filtering commutes with concatenation: `retain` keeps the relative order of what it keeps. */
  lemma {:induction false} FilterConcat<T(!new)>(a: seq<T>, b: seq<T>, keep: T -> bool)
    ensures Filter(a + b, keep) == Filter(a, keep) + Filter(b, keep)
    decreases |b|
  {
    if b == [] {
      assert a + b == a;
    } else {
      assert (a + b)[..|a + b| - 1] == a + b[..|b| - 1];
      FilterConcat(a, b[..|b| - 1], keep);
    }
  }

  /** Filtering never introduces a repeat. */
  lemma {:induction false} FilterNoDuplicates<T(!new)>(s: seq<T>, keep: T -> bool)
    requires NoDuplicates(s)
    ensures NoDuplicates(Filter(s, keep))
    decreases |s|
  {
    if s != [] {
      var init := s[..|s| - 1];
      assert NoDuplicates(init) by {
        forall i, j | 0 <= i < j < |init| ensures init[i] != init[j] {
          assert init[i] == s[i] && init[j] == s[j];
        }
      }
      FilterNoDuplicates(init, keep);
      assert s[|s| - 1] !in init by {
        forall i | 0 <= i < |init| ensures init[i] != s[|s| - 1] { assert init[i] == s[i]; }
      }
    }
  }

  /** Filtering with a predicate every element meets keeps the sequence as it is. */
  lemma {:induction false} FilterKeepsAll<T(!new)>(s: seq<T>, keep: T -> bool)
    requires forall i :: 0 <= i < |s| ==> keep(s[i])
    ensures Filter(s, keep) == s
    decreases |s|
  {
    if s != [] {
      var init, last := s[..|s| - 1], s[|s| - 1];
      assert Filter(s, keep) == Filter(init, keep) + [last];
      FilterKeepsAll(init, keep);
      assert s == init + [last];
    }
  }

  class IndexSet<T(==,!new)> {
    /** The elements in insertion order. */
    var items: seq<T>

    ghost predicate Valid()
      reads this
    {
      NoDuplicates(items)
    }

    /** `IndexSet::new()` */
    constructor ()
      ensures Valid() && items == []
    {
      items := [];
    }

    /** `insert(x)`: reports whether `x` was new; a present element keeps its position. */
    method Insert(x: T) returns (added: bool)
      requires Valid()
      modifies this
      ensures Valid()
      ensures items == Add(old(items), x)
      ensures added == (x !in old(items))
    {
      added := x !in items;
      if added {
        items := items + [x];
      }
    }

    /** `retain(keep)`: drops the elements `keep` rejects, keeping the order of the rest. */
    method Retain(keep: T -> bool)
      requires Valid()
      modifies this
      ensures Valid()
      ensures items == Filter(old(items), keep)
    {
      var kept: seq<T> := [];
      for i := 0 to |items|
        invariant kept == Filter(items[..i], keep)
      {
        assert items[..i + 1][..i] == items[..i];
        if keep(items[i]) {
          kept := kept + [items[i]];
        }
      }
      assert items[..|items|] == items;
      FilterNoDuplicates(items, keep);
      items := kept;
    }
  }

  /** `IndexSet::from_iter(set)`: the elements of an unordered set, in whatever order it yields them. */
  method FromSet<T(==,!new)>(s: set<T>) returns (r: IndexSet<T>)
    ensures fresh(r) && r.Valid()
    ensures Elems(r.items) == s
  {
    r := new IndexSet();
    var rest := s;
    while rest != {}
      invariant r.Valid()
      invariant Elems(r.items) + rest == s && Elems(r.items) !! rest
      decreases rest
    {
      var x :| x in rest;
      var _ := r.Insert(x);
      rest := rest - {x};
    }
  }

  /** `sort()` on a set of strings: the same elements, in increasing order. */
  method Sort(paths: IndexSet<string>)
    requires paths.Valid()
    modifies paths
    ensures paths.Valid()
    ensures StrictlySorted(paths.items)
    ensures multiset(paths.items) == multiset(old(paths.items))
  {
    var sorted: seq<string> := [];
    for i := 0 to |paths.items|
      invariant StrictlySorted(sorted)
      invariant multiset(sorted) == multiset(paths.items[..i])
    {
      var x := paths.items[i];
      assert x !in paths.items[..i] by {
        forall j | 0 <= j < i ensures paths.items[..i][j] != x { }
      }
      assert multiset(sorted)[x] == 0;
      assert paths.items[..i + 1] == paths.items[..i] + [x];
      sorted := InsertSorted(sorted, x);
    }
    assert paths.items[..|paths.items|] == paths.items;
    SortedNoDuplicates(sorted);
    paths.items := sorted;
  }
}
