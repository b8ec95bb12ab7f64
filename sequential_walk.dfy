/**
 * The sequential provider: a depth-first walk that inserts every path it
 * reaches into one insertion-ordered set, so the result is in pre-order.
 */
module SequentialWalk {
  import opened Seqs
  import opened Registry
  import opened IndexSets
  import opened Hives

  /**
   * `get_all`: open the predefined key (this never fails; `predef` stands for
   * `RegKey::predef`), name it, and walk it into a fresh set.
   */
  method GetAll(hive: int, predef: int -> Key) returns (output: IndexSet<string>)
    ensures fresh(output) && output.Valid()
    ensures output.items == InsertAll([], Walk(predef(hive), RootName(hive)))
  {
    var root := predef(hive);
    var rootName := RootName(hive);
    output := new IndexSet();
    GetAllWithPrefix(root, rootName, output);
  }

  /**
   * `get_all_with_prefix`: record `prefix`, then for each enumerated name
   * (entries that fail to enumerate are dropped) open the child, skip it if
   * that fails, and recurse with the joined path.
   */
  method GetAllWithPrefix(root: Key, prefix: string, paths: IndexSet<string>)
    requires paths.Valid()
    modifies paths
    ensures paths.Valid()
    ensures paths.items == InsertAll(old(paths.items), Walk(root, prefix))
    decreases root
  {
    var _ := paths.Insert(prefix);
    var keys := EnumKeys(root.entries);
    InsertAllOne(old(paths.items), prefix);
    assert [prefix] + Children(root, keys, prefix, 0) == [prefix];
    for i := 0 to |keys|
      invariant paths.Valid()
      invariant paths.items == InsertAll(old(paths.items), [prefix] + Children(root, keys, prefix, i))
    {
      ghost var before := paths.items;
      ghost var done := [prefix] + Children(root, keys, prefix, i);
      ghost var sub := Subtree(root, keys[i], prefix);
      ChildStep(old(paths.items), root, keys, prefix, i);
      var subkey := OpenSubkey(root, keys[i]);
      if subkey.None? {
        assert sub == [];
        continue;
      }
      var path := Join(prefix, keys[i]);
      GetAllWithPrefix(subkey.value, path, paths);
      assert paths.items == InsertAll(before, sub);
    }
  }

  lemma InsertAllOne(s: seq<string>, x: string)
    ensures InsertAll(s, [x]) == Add(s, x)
  {
    assert [x][..0] == [];
  }

  lemma ChildStep(s: seq<string>, root: Key, keys: seq<string>, prefix: string, i: nat)
    requires i < |keys|
    ensures InsertAll(s, [prefix] + Children(root, keys, prefix, i + 1)) ==
      InsertAll(InsertAll(s, [prefix] + Children(root, keys, prefix, i)), Subtree(root, keys[i], prefix))
  {
    var done := [prefix] + Children(root, keys, prefix, i);
    assert [prefix] + Children(root, keys, prefix, i + 1) == done + Subtree(root, keys[i], prefix);
    InsertAllConcat(s, done, Subtree(root, keys[i], prefix));
  }

  /** The contents of the set `get_all` returns for the key tree `root`. */
  function Result(root: Key, rootName: string): seq<string>
  {
    InsertAll([], Walk(root, rootName))
  }

  /** The root path is always present, and it is the first element. */
  lemma ResultStartsAtRoot(root: Key, rootName: string)
    ensures |Result(root, rootName)| > 0 && Result(root, rootName)[0] == rootName
  {
    var w := Walk(root, rootName);
    assert w == [rootName] + w[1..];
    InsertAllConcat([], [rootName], w[1..]);
    assert [rootName][..0] == [];
  }

  /**
   * The result holds each path once, and a path is in it exactly when a chain
   * of error-free enumerations and successful opens leads to it from the root.
   */
  lemma ResultIsReachable(root: Key, rootName: string)
    ensures NoDuplicates(Result(root, rootName))
    ensures forall path :: path in Result(root, rootName) <==> Reachable(root, rootName, path)
  {
    WalkComplete(root, rootName);
    var r := Result(root, rootName);
    forall path ensures path in r <==> path in Elems(r) { }
  }

  /** Pre-order survives the removal of repeats: every path follows the path it extends. */
  lemma ResultParentsFirst(root: Key, rootName: string)
    requires WellFormed(root)
    ensures ParentsFirst(Result(root, rootName))
  {
    var w := Walk(root, rootName);
    var d := Result(root, rootName);
    WalkParentsFirst(root, rootName);
    ResultStartsAtRoot(root, rootName);
    forall j | 0 < j < |d|
      ensures exists i, name :: 0 <= i < j && IsKeyName(name) && d[j] == Join(d[i], name)
    {
      ParentKept(w, j);
    }
  }

  /** Removing repeats keeps, for the path at `j`, its parent somewhere before it. */
  lemma ParentKept(w: seq<string>, j: nat)
    requires |w| > 0 && ParentsFirst(w)
    requires 0 < j < |InsertAll([], w)| && InsertAll([], w)[0] == w[0]
    ensures exists i, name :: 0 <= i < j && IsKeyName(name) && InsertAll([], w)[j] == Join(InsertAll([], w)[i], name)
  {
    var d := InsertAll([], w);
    var x := d[j];
    assert x in Elems(d);
    var q := FirstIndex(w, x);
    assert q > 0 by {
      assert d[0] != x;
    }
    var i, name :| 0 <= i < q && IsKeyName(name) && w[q] == Join(w[i], name);
    var i' := EarlierKept(w, q, i, j);
    assert d[j] == Join(d[i'], name);
  }

  /** A path that occurs before the first occurrence of `d[j]` is kept before position `j`. */
  lemma EarlierKept(w: seq<string>, q: nat, i: nat, j: nat) returns (i': nat)
    requires i < q < |w| && w[q] !in w[..q]
    requires j < |InsertAll([], w)| && InsertAll([], w)[j] == w[q]
    ensures i' < j && InsertAll([], w)[i'] == w[i]
  {
    var d := InsertAll([], w);
    var before := InsertAll([], w[..q]);
    DedupPrefix(w, q);
    assert w[i] in Elems(w[..q]);
    i' :| 0 <= i' < |before| && before[i'] == w[i];
    assert w[q] !in Elems(before);
    BeyondPrefix(before, d, j);
  }

  lemma BeyondPrefix(s: seq<string>, r: seq<string>, j: nat)
    requires s <= r && j < |r| && r[j] !in Elems(s)
    ensures j >= |s|
  {
    assert forall k :: 0 <= k < |s| ==> r[k] == s[k] && s[k] in Elems(s);
  }

  /** The result of walking a prefix of the sequence is a prefix of the result. */
  lemma DedupPrefix(w: seq<string>, q: nat)
    requires q <= |w|
    ensures InsertAll([], w[..q]) <= InsertAll([], w)
    ensures Elems(InsertAll([], w[..q])) == Elems(w[..q])
  {
    assert w == w[..q] + w[q..];
    InsertAllConcat([], w[..q], w[q..]);
  }

  /** The first position of an element of a sequence. */
  lemma {:induction false} FirstIndex(w: seq<string>, x: string) returns (q: nat)
    requires x in w
    ensures q < |w| && w[q] == x && x !in w[..q]
  {
    q := 0;
    while w[q] != x
      invariant q < |w| && x !in w[..q]
      decreases |w| - q
    {
      assert w[..q + 1] == w[..q] + [w[q]];
      q := q + 1;
    }
  }
}
