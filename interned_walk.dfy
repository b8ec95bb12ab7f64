/**
 * The interned provider: the same fanned-out walk, but each path is interned
 * and only its symbol is recorded, in a shared ordered set of symbols. At the
 * end every recorded symbol is resolved back to its path, and the paths are
 * sorted.
 *
 * The parallel `for_each` is modelled as a loop that takes the children in
 * any order; the two locks are modelled by the fact that each interning and
 * each insertion happens as one step.
 */
module InternedWalk {
  import opened Seqs
  import opened Registry
  import opened Lexicographic
  import opened IndexSets
  import opened Hives
  import opened Interning

  /** Every recorded symbol was handed out by the interner. */
  ghost predicate AllInterned(recorded: seq<nat>, strings: seq<string>)
  {
    forall i :: 0 <= i < |recorded| ==> recorded[i] < |strings|
  }

  /** The paths the recorded symbols stand for. */
  ghost function Resolved(recorded: seq<nat>, strings: seq<string>): set<string>
  {
    set i | 0 <= i < |recorded| && recorded[i] < |strings| :: strings[recorded[i]]
  }

  /** Interning more strings does not change what the symbols already recorded stand for. */
  lemma ResolvedStable(recorded: seq<nat>, before: seq<string>, after: seq<string>)
    requires AllInterned(recorded, before) && before <= after
    ensures AllInterned(recorded, after)
    ensures Resolved(recorded, after) == Resolved(recorded, before)
  {
    forall i | 0 <= i < |recorded| ensures after[recorded[i]] == before[recorded[i]] { }
  }

  /** Recording a symbol adds the path it stands for. */
  lemma ResolvedAdd(recorded: seq<nat>, symbol: nat, strings: seq<string>)
    requires AllInterned(recorded, strings) && symbol < |strings|
    ensures AllInterned(Add(recorded, symbol), strings)
    ensures Resolved(Add(recorded, symbol), strings) == Resolved(recorded, strings) + {strings[symbol]}
  {
    var r := Add(recorded, symbol);
    if symbol in recorded {
      var i :| 0 <= i < |recorded| && recorded[i] == symbol;
      assert strings[symbol] in Resolved(recorded, strings);
    } else {
      assert r == recorded + [symbol];
      assert r[|recorded|] == symbol;
      assert forall i :: 0 <= i < |recorded| ==> r[i] == recorded[i];
    }
  }

  /**
   * `get_all`: walk the predefined key, recording symbols; resolve every
   * symbol back to its path and sort.
   */
  method GetAll(hive: int, predef: int -> Key) returns (strings: IndexSet<string>)
    ensures fresh(strings) && strings.Valid()
    ensures StrictlySorted(strings.items)
    ensures Elems(strings.items) == Elems(Walk(predef(hive), RootName(hive)))
  {
    var root := predef(hive);
    var rootName := RootName(hive);
    var output := new IndexSet<nat>();
    var interner := new Interner();
    GetAllWithPrefix(root, rootName, output, interner);
    strings := ResolveAll(output, interner);
    assert Elems(strings.items) == Resolved(output.items, interner.strings) by {
      forall path | path in Elems(strings.items) ensures path in Resolved(output.items, interner.strings) {
        var i :| 0 <= i < |strings.items| && strings.items[i] == path;
      }
      forall path | path in Resolved(output.items, interner.strings) ensures path in Elems(strings.items) {
        var i :| 0 <= i < |output.items| && output.items[i] < |interner.strings| && interner.strings[output.items[i]] == path;
        assert strings.items[i] == path;
      }
    }
    ghost var resolved := strings.items;
    Sort(strings);
    assert forall x :: x in strings.items <==> x in multiset(resolved);
    assert Elems(strings.items) == Elems(resolved);
  }

  /**
   * `get_all_with_prefix`: intern `prefix` and record its symbol, then walk
   * every child that enumerates and opens, in any order.
   */
  method GetAllWithPrefix(root: Key, prefix: string, recorded: IndexSet<nat>, interner: Interner)
    requires recorded.Valid() && interner.Valid()
    requires AllInterned(recorded.items, interner.strings)
    modifies recorded, interner
    ensures recorded.Valid() && interner.Valid()
    ensures old(interner.strings) <= interner.strings
    ensures AllInterned(recorded.items, interner.strings)
    ensures Resolved(recorded.items, interner.strings) ==
      Resolved(old(recorded.items), old(interner.strings)) + Elems(Walk(root, prefix))
    decreases root
  {
    ghost var before := Resolved(recorded.items, interner.strings);
    RecordPath(prefix, recorded, interner);
    var keys := EnumKeys(root.entries);
    var pending := Indices(|keys|);
    ghost var done: set<int> := {};
    while pending != {}
      invariant recorded.Valid() && interner.Valid()
      invariant old(interner.strings) <= interner.strings
      invariant AllInterned(recorded.items, interner.strings)
      invariant forall i :: i in pending ==> 0 <= i < |keys|
      invariant forall i :: 0 <= i < |keys| ==> i in pending || i in done
      invariant Resolved(recorded.items, interner.strings) ==
        before + {prefix} + VisitedPaths(root, keys, prefix, done)
      decreases pending
    {
      var i :| i in pending;
      pending := pending - {i};
      VisitOneMore(root, keys, prefix, done, i);
      done := done + {i};
      var subkey := OpenSubkey(root, keys[i]);
      if subkey.None? {
        continue;
      }
      GetAllWithPrefix(subkey.value, Join(prefix, keys[i]), recorded, interner);
    }
    AnyOrderVisitsAll(root, keys, prefix, done);
  }

  /** The locked block of `get_all_with_prefix`: intern `path` and record its symbol. */
  method RecordPath(path: string, recorded: IndexSet<nat>, interner: Interner)
    requires recorded.Valid() && interner.Valid()
    requires AllInterned(recorded.items, interner.strings)
    modifies recorded, interner
    ensures recorded.Valid() && interner.Valid()
    ensures old(interner.strings) <= interner.strings
    ensures AllInterned(recorded.items, interner.strings)
    ensures Resolved(recorded.items, interner.strings) ==
      Resolved(old(recorded.items), old(interner.strings)) + {path}
  {
    var symbol := interner.GetOrIntern(path);
    ResolvedStable(recorded.items, old(interner.strings), interner.strings);
    ResolvedAdd(recorded.items, symbol, interner.strings);
    var _ := recorded.Insert(symbol);
  }

  /**
   * The loop of `get_all` after the walk: resolve each recorded symbol (the
   * `unwrap` never fails, since every recorded symbol was interned) and
   * insert its path. Interning is injective, so there is one path per symbol.
   */
  method ResolveAll(recorded: IndexSet<nat>, interner: Interner) returns (strings: IndexSet<string>)
    requires recorded.Valid() && interner.Valid()
    requires AllInterned(recorded.items, interner.strings)
    ensures fresh(strings) && strings.Valid()
    ensures |strings.items| == |recorded.items|
    ensures forall i :: 0 <= i < |recorded.items| ==> strings.items[i] == interner.strings[recorded.items[i]]
  {
    strings := new IndexSet();
    TableDistinct(interner.strings, interner.symbols);
    for i := 0 to |recorded.items|
      invariant strings.Valid()
      invariant |strings.items| == i
      invariant forall j :: 0 <= j < i ==> strings.items[j] == interner.strings[recorded.items[j]]
    {
      var symbol := recorded.items[i];
      var resolved := interner.Resolve(symbol);
      assert resolved.Some?;
      var path := resolved.value;
      assert path !in strings.items by {
        forall j | 0 <= j < i ensures strings.items[j] != path {
          assert recorded.items[j] != symbol;
        }
      }
      var _ := strings.Insert(path);
    }
  }
}
