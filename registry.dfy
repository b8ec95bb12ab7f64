/**
 * The registry as the key walkers see it, and the one pure specification
 * of a walk that every provider is proved against.
 *
 * A key is reduced to what `enum_keys` and `open_subkey` reveal about it:
 * the entries that enumeration yields (a subkey name, or an error for that
 * entry), and the subkeys that open by name. A name that is enumerated but
 * is not in `subkeys` is a child whose `open_subkey` fails.
 */
module Registry {
  import opened Wrappers
  import opened Seqs

  /** One item yielded by `enum_keys`: `Ok(name)` or an error for that entry. */
  datatype EnumEntry = Name(name: string) | EnumError

  /** A registry key: its enumeration, and the subkeys that `open_subkey` opens by name. */
  datatype Key = Key(entries: seq<EnumEntry>, subkeys: map<string, Key>)

  /** `format!("{}\\{}", prefix, key)`: the path of a child below its parent's path. */
  function Join(prefix: string, name: string): (path: string)
    ensures |path| == |prefix| + 1 + |name|
    ensures path[..|prefix|] == prefix && path[|prefix|] == '\\' && path[|prefix| + 1..] == name
  {
    prefix + "\\" + name
  }

  /** `enum_keys().filter_map(|x| x.ok())`: the enumerated names, errors dropped, order kept. */
  function EnumKeys(entries: seq<EnumEntry>): (names: seq<string>)
    ensures |names| <= |entries|
    ensures forall name :: name in names <==> Name(name) in entries
  {
    if entries == [] then []
    else match entries[0]
      case Name(n) => [n] + EnumKeys(entries[1..])
      case EnumError => EnumKeys(entries[1..])
  }

  /** `open_subkey(name)`: the child key, or `None` when it fails to open. */
  function OpenSubkey(k: Key, name: string): (child: Option<Key>)
    ensures child.Some? <==> name in k.subkeys
    ensures child.Some? ==> child.value == k.subkeys[name]
  {
    if name in k.subkeys then Some(k.subkeys[name]) else None
  }

  /**
   * The walk of `get_all_with_prefix`, as a sequence: the key's own path, then,
   * for each enumerated name in order, the walk of that child if it opens.
   * A path can occur twice here only if two enumerated names produce the
   * same string; the result sets of the providers remove such repeats.
   */
  function Walk(k: Key, prefix: string): (paths: seq<string>)
    ensures |paths| >= 1 && paths[0] == prefix
    decreases k, 1
  {
    var names := EnumKeys(k.entries);
    [prefix] + Children(k, names, prefix, |names|)
  }

  /** The walks of the children named by `names[..n]`, in that order. */
  function Children(k: Key, names: seq<string>, prefix: string, n: nat): seq<string>
    requires n <= |names|
    decreases k, 0, n
  {
    if n == 0 then [] else Children(k, names, prefix, n - 1) + Subtree(k, names[n - 1], prefix)
  }

  /** What one child contributes: its walk if it opens, nothing if it does not. */
  function Subtree(k: Key, name: string, prefix: string): seq<string>
    decreases k, 0, 0
  {
    match OpenSubkey(k, name)
    case Some(child) => Walk(child, Join(prefix, name))
    case None => []
  }

  /**
   * Independent reference: a path is reachable from `k` at `prefix` if it is
   * `prefix` itself, or reachable from a child that was enumerated without
   * error and opened, at the joined path.
   */
  ghost predicate Reachable(k: Key, prefix: string, path: string)
    decreases k
  {
    path == prefix ||
    exists name :: Name(name) in k.entries && name in k.subkeys &&
      Reachable(k.subkeys[name], Join(prefix, name), path)
  }

  /**
   * A registry key name: Windows does not allow a backslash in one, so a
   * path splits into its names at the backslashes.
   */
  predicate IsKeyName(name: string)
  {
    '\\' !in name
  }

  /** Every name a key enumerates, at every depth, is a key name. */
  ghost predicate WellFormed(k: Key)
    decreases k
  {
    (forall name :: Name(name) in k.entries ==> IsKeyName(name)) &&
    (forall name :: name in k.subkeys ==> WellFormed(k.subkeys[name]))
  }

  /**
   * Every path after the first has, earlier in the sequence, the parent it
   * extends by one key name. Since a key name holds no backslash, that
   * parent is the path up to its last backslash (`JoinInjective`).
   */
  ghost predicate ParentsFirst(paths: seq<string>)
  {
    forall j :: 0 < j < |paths| ==> exists i, name :: 0 <= i < j && IsKeyName(name) && paths[j] == Join(paths[i], name)
  }

  /** Every path of a children's walk extends `prefix` by one name or follows its parent. */
  ghost predicate ParentsFirstBelow(paths: seq<string>, prefix: string)
  {
    forall j :: 0 <= j < |paths| ==> ParentBefore(paths, prefix, j)
  }

  ghost predicate ParentBefore(paths: seq<string>, prefix: string, j: int)
    requires 0 <= j < |paths|
  {
    (exists name :: IsKeyName(name) && paths[j] == Join(prefix, name)) ||
    (exists i, name :: 0 <= i < j && IsKeyName(name) && paths[j] == Join(paths[i], name))
  }

  /** A path ending in a key name splits in one way only: the parent and the name are determined. */
  lemma JoinInjective(a: string, n1: string, b: string, n2: string)
    requires IsKeyName(n1) && IsKeyName(n2) && Join(a, n1) == Join(b, n2)
    ensures a == b && n1 == n2
  {
    LastNameNoLonger(a, n1, b, n2);
    LastNameNoLonger(b, n2, a, n1);
    assert a == Join(a, n1)[..|a|];
  }

  /** The name after the last backslash is at least as long as any key name a split could end with. */
  lemma LastNameNoLonger(a: string, n1: string, b: string, n2: string)
    requires IsKeyName(n2) && Join(a, n1) == Join(b, n2)
    ensures |n2| <= |n1|
  {
    if |n1| < |n2| {
      assert false;
    }
  }

  /**
   * In a sequence whose paths come after their parents, the parent of any
   * path but the first (the path without its last key name) comes before it.
   */
  lemma ParentPrecedes(paths: seq<string>, j: nat, parent: string, name: string)
    requires ParentsFirst(paths) && 0 < j < |paths|
    requires IsKeyName(name) && paths[j] == Join(parent, name)
    ensures exists i :: 0 <= i < j && paths[i] == parent
  {
    var i, name' :| 0 <= i < j && IsKeyName(name') && paths[j] == Join(paths[i], name');
    JoinInjective(paths[i], name', parent, name);
  }

  /** A child listed before its parent is not in pre-order. */
  lemma ChildBeforeParentRejected()
    ensures !ParentsFirst(["r", "r\\a\\b", "r\\a"])
  {
    var paths := ["r", "r\\a\\b", "r\\a"];
    if ParentsFirst(paths) {
      ParentPrecedes(paths, 1, "r\\a", "b");
      assert false;
    }
  }

  /** Enumerating two runs of entries yields the names of the first run, then those of the second. */
  lemma {:induction false} EnumKeysConcat(a: seq<EnumEntry>, b: seq<EnumEntry>)
    ensures EnumKeys(a + b) == EnumKeys(a) + EnumKeys(b)
  {
    if a == [] {
      assert a + b == b;
    } else {
      assert (a + b)[1..] == a[1..] + b;
      EnumKeysConcat(a[1..], b);
    }
  }

  /** An error entry is dropped without cutting off the entries after it. */
  lemma EnumKeysSkipsError(a: seq<EnumEntry>, b: seq<EnumEntry>)
    ensures EnumKeys(a + [EnumError] + b) == EnumKeys(a) + EnumKeys(b)
  {
    EnumKeysConcat(a + [EnumError], b);
    EnumKeysConcat(a, [EnumError]);
  }

  /** A path is among the children's walks exactly when it is in the walk of one of them. */
  lemma {:induction false} ChildrenMembers(k: Key, names: seq<string>, prefix: string, n: nat)
    requires n <= |names|
    ensures forall path :: path in Children(k, names, prefix, n) <==>
      exists i :: 0 <= i < n && path in Subtree(k, names[i], prefix)
  {
    if n > 0 {
      ChildrenMembers(k, names, prefix, n - 1);
    }
  }

  /** Walking earlier siblings fixes a prefix of the result: later siblings only append. */
  lemma {:induction false} ChildrenGrow(k: Key, names: seq<string>, prefix: string, m: nat, n: nat)
    requires m <= n <= |names|
    ensures Children(k, names, prefix, m) <= Children(k, names, prefix, n)
    ensures m < n ==> Children(k, names, prefix, m) + Subtree(k, names[m], prefix) <= Children(k, names, prefix, n)
    decreases n
  {
    if m < n {
      ChildrenGrow(k, names, prefix, m, n - 1);
      if m < n - 1 {
        ChildrenGrow(k, names, prefix, m + 1, n - 1);
      }
    }
  }

  /**
   * Completeness and soundness of the walk: a path is produced exactly when a
   * chain of error-free enumerations and successful opens leads to it. A child
   * that fails to open contributes nothing; its siblings are still walked.
   */
  lemma {:induction false} WalkComplete(k: Key, prefix: string)
    ensures forall path :: path in Walk(k, prefix) <==> Reachable(k, prefix, path)
    decreases k
  {
    var names := EnumKeys(k.entries);
    ChildrenMembers(k, names, prefix, |names|);
    forall name | name in k.subkeys
      ensures forall path :: path in Walk(k.subkeys[name], Join(prefix, name)) <==>
        Reachable(k.subkeys[name], Join(prefix, name), path)
    {
      WalkComplete(k.subkeys[name], Join(prefix, name));
    }
    forall path
      ensures path in Walk(k, prefix) <==> Reachable(k, prefix, path)
    {
      if path in Walk(k, prefix) && path != prefix {
        assert path in Children(k, names, prefix, |names|);
        var i :| 0 <= i < |names| && path in Subtree(k, names[i], prefix);
        assert Name(names[i]) in k.entries;
      }
      if Reachable(k, prefix, path) && path != prefix {
        var name :| Name(name) in k.entries && name in k.subkeys &&
          Reachable(k.subkeys[name], Join(prefix, name), path);
        assert name in names;
        var i :| 0 <= i < |names| && names[i] == name;
        assert path in Subtree(k, names[i], prefix);
      }
    }
  }

  /** Pre-order: the key's own path comes first and every path follows its parent's. */
  lemma {:induction false} WalkParentsFirst(k: Key, prefix: string)
    requires WellFormed(k)
    ensures Walk(k, prefix)[0] == prefix
    ensures ParentsFirst(Walk(k, prefix))
    decreases k, 1
  {
    var names := EnumKeys(k.entries);
    var c := Children(k, names, prefix, |names|);
    var w := Walk(k, prefix);
    assert w == [prefix] + c;
    forall i | 0 <= i < |names| ensures IsKeyName(names[i]) {
      assert names[i] in names;
    }
    ChildrenParentsFirst(k, names, prefix, |names|);
    forall j | 0 < j < |w|
      ensures exists i, name :: 0 <= i < j && IsKeyName(name) && w[j] == Join(w[i], name)
    {
      assert w[j] == c[j - 1];
      assert ParentBefore(c, prefix, j - 1);
      if exists name :: IsKeyName(name) && c[j - 1] == Join(prefix, name) {
        var name :| IsKeyName(name) && c[j - 1] == Join(prefix, name);
        assert w[0] == prefix;
        assert w[j] == Join(w[0], name);
      } else {
        var i, name :| 0 <= i < j - 1 && IsKeyName(name) && c[j - 1] == Join(c[i], name);
        assert w[i + 1] == c[i];
        assert w[j] == Join(w[i + 1], name);
      }
    }
    assert ParentsFirst(w);
  }

  /** Within the children's walks, a path either extends `prefix` or follows its parent. */
  lemma {:induction false} ChildrenParentsFirst(k: Key, names: seq<string>, prefix: string, n: nat)
    requires n <= |names| && WellFormed(k)
    requires forall i :: 0 <= i < |names| ==> IsKeyName(names[i])
    ensures ParentsFirstBelow(Children(k, names, prefix, n), prefix)
    decreases k, 0, n
  {
    if n > 0 {
      var c0 := Children(k, names, prefix, n - 1);
      var s := Subtree(k, names[n - 1], prefix);
      var c := Children(k, names, prefix, n);
      assert c == c0 + s;
      ChildrenParentsFirst(k, names, prefix, n - 1);
      if names[n - 1] in k.subkeys {
        var child := k.subkeys[names[n - 1]];
        WalkParentsFirst(child, Join(prefix, names[n - 1]));
      }
      forall j | 0 <= j < |c|
        ensures ParentBefore(c, prefix, j)
      {
        if j < |c0| {
          assert c[j] == c0[j];
          assert ParentBefore(c0, prefix, j);
          if !exists name :: IsKeyName(name) && c0[j] == Join(prefix, name) {
            var i, name :| 0 <= i < j && IsKeyName(name) && c0[j] == Join(c0[i], name);
            assert c[j] == Join(c[i], name);
          }
        } else {
          var j' := j - |c0|;
          assert c[j] == s[j'];
          if j' == 0 {
            assert c[j] == Join(prefix, names[n - 1]);
          } else {
            var i', name :| 0 <= i' < j' && IsKeyName(name) && s[j'] == Join(s[i'], name);
            assert c[j] == Join(c[i' + |c0|], name);
          }
        }
      }
    }
  }

  /**
   * The paths contributed by the children whose indices are in `done`, in
   * whatever order they were walked.
   */
  ghost function VisitedPaths(k: Key, names: seq<string>, prefix: string, done: set<int>): set<string>
  {
    set i, path | i in done && 0 <= i < |names| && path in Subtree(k, names[i], prefix) :: path
  }

  /** Walking one more child adds exactly that child's paths. */
  lemma VisitOneMore(k: Key, names: seq<string>, prefix: string, done: set<int>, i: int)
    requires 0 <= i < |names|
    ensures VisitedPaths(k, names, prefix, done + {i}) ==
      VisitedPaths(k, names, prefix, done) + Elems(Subtree(k, names[i], prefix))
  {
    var s := Subtree(k, names[i], prefix);
    forall path | path in s ensures path in VisitedPaths(k, names, prefix, done + {i}) {
      assert i in done + {i};
    }
  }

  /**
   * Walking the children in any order yields the paths of walking them in
   * enumeration order: the order of a parallel `for_each` does not matter.
   */
  lemma AnyOrderVisitsAll(k: Key, names: seq<string>, prefix: string, done: set<int>)
    requires names == EnumKeys(k.entries)
    requires forall i :: 0 <= i < |names| ==> i in done
    ensures {prefix} + VisitedPaths(k, names, prefix, done) == Elems(Walk(k, prefix))
  {
    ChildrenMembers(k, names, prefix, |names|);
    var w := Walk(k, prefix);
    forall path | path in VisitedPaths(k, names, prefix, done) ensures path in Elems(w) {
      var i :| i in done && 0 <= i < |names| && path in Subtree(k, names[i], prefix);
      assert path in Children(k, names, prefix, |names|);
    }
    forall path | path in Elems(w) && path != prefix
      ensures path in VisitedPaths(k, names, prefix, done)
    {
      assert path in Children(k, names, prefix, |names|);
      var i :| 0 <= i < |names| && path in Subtree(k, names[i], prefix);
      assert i in done;
    }
  }
}
