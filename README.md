# reggie, modelled in Dafny

reggie lists every key below one Windows registry hive as a backslash-joined
path (`HKLM\SOFTWARE\...`). It can keep only the paths that match a
case-insensitive regular expression and can report how many keys it found.
The command line offers two backends. `v1` is `winreg_provider`, which walks
sequentially into an insertion-ordered set (`IndexSet`), so its result is in
pre-order. `v2` is `winreg_provider2`, which is not part of this model; its
result is a parameter. Two more versions of the walk are modelled on their
own; `main` does not call them:

- `winreg_provider3` fans out over the children with rayon into a shared `DashSet`, then copies that into an `IndexSet` and sorts it.
- `winreg_provider5` fans out the same way, but interns each path and records only the symbol. At the end it resolves every symbol back to its path and sorts.

`main` looks up the hive in a fixed table of short and long names and applies
the defaults (`HKLM`, backend `v2`, no thread count). It runs the chosen
backend and counts the results before filtering them.

The model works on an abstract registry, `Registry.Key`. A key has:

- its `enum_keys` entries, where each entry is a name or an error;
- the subkeys that `open_subkey` opens, by name.

`Registry.Walk` is the one pure specification of a walk: the key's own path,
then the walks of its enumerated children, in enumeration order, for those
that open. It is proved equal to an independent reachability definition,
`Registry.Reachable`, in both directions. Key names never contain a
backslash (`Registry.WellFormed`). Under that condition every path in a walk
comes after its parent, the path with its last name removed.

Each provider is an imperative method proved against `Walk`:

- The sequential result is exactly what inserting the walk into an `IndexSet` gives: pre-order, no repeats, parents first.
- The shared-set and interned results hold exactly the walk's paths, strictly sorted.

`Providers.SortedProvidersAgree` shows that these two sorted results are equal
to each other and are the sequential result sorted. The rayon `for_each` is a
loop that takes the children in an arbitrary order. Its invariant shows that
the set of paths does not depend on that order.

Modules, one per file: `Wrappers`, `Seqs` (shared helpers), `Registry`,
`Lexicographic` (Rust's `String` order), `IndexSets` (`indexmap::IndexSet`),
`Hives`, `HiveTable` (the hive table of `main.rs`), `SequentialWalk`,
`SharedSetWalk`, `Interning` (`string_interner`), `InternedWalk`, `Providers`
and `Cli` (the rest of `main.rs`).

## Model

| member | source | states |
|---|---|---|
| Registry.Join | src/winreg_provider.rs:50 | the child path is the parent path, one backslash, then the child's name, and it can be split back into those parts |
| Registry.EnumKeys | src/winreg_provider.rs:42-43 | the names kept from an enumeration are exactly its successful entries; errors are dropped and there are never more names than entries |
| Registry.EnumKeysConcat | src/winreg_provider.rs:43 | enumerating two runs of entries yields the first run's names followed by the second's, so order is kept |
| Registry.EnumKeysSkipsError | src/winreg_provider.rs:43 | an entry that fails to enumerate is dropped without losing any name before or after it |
| Registry.OpenSubkey | src/winreg_provider.rs:45-49 | opening a child succeeds exactly when the key has that subkey, and yields that subkey |
| Registry.Walk | src/winreg_provider.rs:40-53 | a walk is never empty and starts with the path it was given: the root path is always recorded first |
| Registry.ChildrenMembers | src/winreg_provider.rs:44-52 | a path comes from the children loop exactly when it comes from the walk of one enumerated child |
| Registry.ChildrenGrow | src/winreg_provider.rs:44-52 | the loop only appends: what the first m children contribute, followed by child m's walk, is a prefix of what more children contribute, so siblings appear in enumeration order |
| Registry.WalkComplete | src/winreg_provider.rs:40-53 | a path is in the walk exactly when it is the root path or can be reached through children that enumerate without error and open |
| Registry.WalkParentsFirst | src/winreg_provider.rs:40-53 | pre-order: when no key name holds a backslash, every path after the first is an earlier path, one backslash and one key name |
| Registry.ChildrenParentsFirst | src/winreg_provider.rs:44-52 | when no key name holds a backslash, every path from the children loop is the prefix or an earlier path of the loop, plus one backslash and one key name |
| Registry.JoinInjective | src/winreg_provider.rs:50 | a path that ends in a key name splits back into one parent and one name only |
| Registry.ParentPrecedes | src/winreg_provider.rs:40-53 | in a sequence in pre-order, the parent of every path but the first occurs before it |
| Registry.ChildBeforeParentRejected | src/winreg_provider.rs:40-53 | a sequence listing `r\a\b` before `r\a` is not in pre-order |
| Registry.VisitOneMore | src/winreg_provider3.rs:51-59 | walking one more child in the `for_each` adds exactly that child's paths |
| Registry.AnyOrderVisitsAll | src/winreg_provider3.rs:47-59 | once every child was walked, in any order, the paths collected are exactly those of the walk |
| Lexicographic.LessIrreflexive | src/winreg_provider3.rs:43 | no path sorts before itself |
| Lexicographic.LessTransitive | src/winreg_provider3.rs:43 | the string order is transitive |
| Lexicographic.LessTotal | src/winreg_provider3.rs:43 | any two different paths are ordered one way and never both ways |
| Lexicographic.InsertSorted | src/winreg_provider3.rs:43 | inserting a new path into a strictly sorted sequence keeps it strictly sorted and adds exactly that path |
| Lexicographic.SortedUnique | src/winreg_provider3.rs:43 | two strictly sorted sequences with the same elements are equal, so the sorted output does not depend on collection order |
| Lexicographic.SortedNoDuplicates | src/winreg_provider3.rs:43 | a strictly sorted sequence has no repeats |
| IndexSets.Add | src/winreg_provider.rs:41 | `insert` keeps existing elements in place, adds exactly the new element, and never creates a repeat |
| IndexSets.InsertAll | src/winreg_provider.rs:40-53 | inserting a sequence keeps earlier contents as a prefix, adds exactly its elements and creates no repeats |
| IndexSets.InsertAllConcat | src/winreg_provider.rs:44-52 | inserting two runs one after the other is inserting their concatenation |
| IndexSets.InsertAllFresh | src/winreg_provider.rs:41 | inserting elements that are all new appends them unchanged |
| IndexSets.Filter | src/main.rs:196 | `retain` keeps exactly the elements the predicate accepts and never grows the set |
| IndexSets.FilterConcat | src/main.rs:196 | `retain` works element by element and keeps the order of what it keeps |
| IndexSets.FilterNoDuplicates | src/main.rs:196 | `retain` on a set without repeats leaves a set without repeats |
| IndexSets.FilterKeepsAll | src/main.rs:196 | `retain` with a predicate every element meets leaves the set as it was |
| IndexSets.IndexSet.constructor | src/winreg_provider.rs:35 | a new set is empty |
| IndexSets.IndexSet.Insert | src/winreg_provider.rs:41 | the new contents are `Add` of the old, and the result reports whether the element was new |
| IndexSets.IndexSet.Retain | src/main.rs:196 | the new contents are the old ones filtered by the predicate, in order |
| IndexSets.FromSet | src/winreg_provider3.rs:42 | collecting the drained `DashSet` gives a set of exactly its members |
| IndexSets.Sort | src/winreg_provider3.rs:43 | `sort` leaves a strictly sorted permutation of the old contents |
| Hives.RootName | src/winreg_provider.rs:22-34 | a handle gets "(unknown)" exactly when it is not one of the ten known hives, and the name is never empty |
| Hives.RootNameInjective | src/winreg_provider.rs:22-34 | different known hives get different root names |
| SequentialWalk.GetAll | src/winreg_provider.rs:20-38 | the returned set is the walk of the predefined key from its root name, inserted in order |
| SequentialWalk.GetAllWithPrefix | src/winreg_provider.rs:40-53 | the set grows by inserting the walk from `prefix`, after what it held before |
| SequentialWalk.ResultStartsAtRoot | src/winreg_provider.rs:35-41 | the result is never empty and its first path is the root name |
| SequentialWalk.ResultIsReachable | src/winreg_provider.rs:40-53 | the result has no repeats and holds exactly the reachable paths |
| SequentialWalk.ResultParentsFirst | src/winreg_provider.rs:40-53 | when no key name holds a backslash, the result with repeats removed is still in pre-order: every path after the first is an earlier path plus one key name |
| SharedSetWalk.ConcurrentSet.constructor | src/winreg_provider3.rs:39 | a new shared set is empty |
| SharedSetWalk.ConcurrentSet.Insert | src/winreg_provider3.rs:48 | insertion adds exactly the element |
| SharedSetWalk.GetAll | src/winreg_provider3.rs:24-45 | the result is strictly sorted and holds exactly the paths of the walk from the root name |
| SharedSetWalk.GetAllWithPrefix | src/winreg_provider3.rs:47-60 | the shared set gains exactly the walk's paths, whatever order the children are taken in |
| Interning.ResolveIn | src/winreg_provider5.rs:50 | `resolve` finds a string exactly for the symbols handed out so far |
| Interning.Intern | src/winreg_provider5.rs:60 | `get_or_intern` keeps the table consistent, only appends, and resolving the symbol gives back the string |
| Interning.InternIdempotent | src/winreg_provider5.rs:60 | interning the same string again gives the same symbol and changes nothing |
| Interning.InternInjective | src/winreg_provider5.rs:60 | different strings get different symbols |
| Interning.TableDistinct | src/winreg_provider5.rs:49-52 | the interner holds each string once |
| Interning.Interner.constructor | src/winreg_provider5.rs:43 | a new interner is empty |
| Interning.Interner.GetOrIntern | src/winreg_provider5.rs:59-60 | the interner's new state and the symbol are those of `Intern` |
| Interning.Interner.Resolve | src/winreg_provider5.rs:50 | resolving succeeds exactly for a symbol already handed out, and the string it gives maps back to that symbol |
| InternedWalk.RecordPath | src/winreg_provider5.rs:58-63 | interning a path and recording its symbol adds exactly that path to what the recorded symbols stand for |
| InternedWalk.ResolvedStable | src/winreg_provider5.rs:58-62 | interning more strings does not change what recorded symbols stand for |
| InternedWalk.ResolvedAdd | src/winreg_provider5.rs:58-62 | recording a symbol adds exactly the path it stands for |
| InternedWalk.GetAll | src/winreg_provider5.rs:27-55 | the result is strictly sorted and holds exactly the paths of the walk from the root name |
| InternedWalk.GetAllWithPrefix | src/winreg_provider5.rs:57-75 | the interner only appends, every recorded symbol was interned, and the recorded symbols gain exactly the walk's paths |
| InternedWalk.ResolveAll | src/winreg_provider5.rs:48-52 | every `resolve` succeeds, and there is one path per recorded symbol: the path that symbol stands for |
| Providers.SortedProvidersAgree | src/winreg_provider5.rs:48-54 | the two sorted backends return the same sequence, and it holds exactly the sequential result's paths, as many of them |
| HiveTable.GetHives | src/main.rs:102-115 | the table has ten entries, one per hive |
| HiveTable.FirstMatch | src/main.rs:118-121 | the first table entry whose short or long name equals the argument, and none only when no entry matches |
| HiveTable.GetHive | src/main.rs:117-128 | `get_hive` gives the key of the first matching entry, and `UnknownHiveName` exactly when no entry matches |
| HiveTable.HiveNamesDistinct | src/main.rs:102-115 | the table's short names, long names and keys are all distinct, and no short name is a long name |
| HiveTable.GetHiveFindsEntry | src/main.rs:102-128 | every entry is found by its short name and by its long name |
| HiveTable.RootNamesAgree | src/main.rs:102-115 | the providers name each table hive by the table's short name |
| HiveTable.TableCoversKnownHives | src/main.rs:102-115 | the table holds exactly the ten hives the providers know by name |
| Cli.SelectBackend | src/main.rs:175-189 | "v1" selects the sequential walk, "v2" the other backend, and anything else is `InvalidBackend` |
| Cli.Defaults | src/main.rs:157-184 | with no hive, backend or thread option, `main` runs `v2` on HKEY_LOCAL_MACHINE (named "HKLM") with thread count 0: a walk always results, every returned key is counted, and no global thread pool is built |
| Cli.DefaultHiveFound | src/main.rs:157-163 | the default name "HKLM" is found in the hive table as HKEY_LOCAL_MACHINE, and the providers name that hive "HKLM" again |
| Cli.FailureOutcomes | src/main.rs:163-189 | an unknown hive name fails with `UnknownHiveName` whatever the backend; a known hive with an unknown backend fails with `InvalidBackend` |
| Cli.BackendCounts | src/main.rs:175-207 | for either backend the count is the length of the backend's whole result, taken before `retain`; with printing on, the printed paths are exactly the matching results in their order, all matching and never more than the count; with `v1` the count is the number of distinct reachable paths and no thread pool is set up |
| Cli.FilterForcesPrint | src/main.rs:67-84 | with a filter the paths are printed, and every printed path matches the case-insensitive filter |
| Cli.PrintWithoutFilter | src/main.rs:195-203 | with `-p` and no filter the empty pattern, which matches every path, keeps every result: the backend's whole result is printed, as many lines as the count |
| Cli.Config.constructor | src/main.rs:32-51 | the parsed options are stored as given |
| Cli.CreateRegexFilter | src/main.rs:67-84 | the pattern is the filter made case-insensitive, or empty; a filter turns printing on and nothing else changes |
| Cli.Run | src/main.rs:145-217 | `main` produces the outcome `MainOutcome` states: version, hive list, the failure, or the count, printed paths and thread pool size; past the version and hive-list exits a filter turns printing on in the options, and nothing else in them changes |
| Cli.RunBackend | src/main.rs:175-207 | dispatch, count and filter produce the outcome `BackendOutcome` states |

## Left out

- The registry is taken to be a finite tree that does not change during a walk. `Registry.Key` is a datatype, so it cannot describe a key reachable from itself through a link, nor keys that other processes add or remove while the walk runs.
- Registry.WalkParentsFirst: pre-order is proved only for registries whose key names hold no backslash (`Registry.WellFormed`). Windows does not allow one in a key name, and with one a path no longer splits back into parent and name.
- Registry.ChildrenParentsFirst: requires the same absence of backslashes in key names.
- SequentialWalk.ResultParentsFirst: requires the same absence of backslashes in key names.
- The winreg calls are not modelled as Windows calls. `RegKey::predef` is the parameter `predef`, which never fails. `enum_keys` and `open_subkey` are the fields of `Registry.Key`. Handles are only compared for equality.
- `open_subkey` on Windows compares names without regard to case. The model opens by exact name, so `Registry.Key` is taken to hold the names as enumerated.
- The rayon fan-out (`par_bridge`, `for_each`), `Arc`, `Mutex` and the `DashSet` locking are not modelled as concurrency. A parallel loop is a loop that takes children in an arbitrary order, and each insert or intern under a lock is one step. Interleavings inside a step are not modelled.
- The internals of `string_interner` are not modelled. The interner is a table of strings plus a reverse map.
- Interning.Interner.GetOrIntern: symbols are unbounded naturals, so the 32-bit limit of `SymbolU32` is not modelled.
- Cli.Run: `winreg_provider2` is not part of this model. The `v2` backend's result is the parameter `provider2`, taken to be an `IndexSet`'s contents (no repeats).
- clap parsing is not modelled; `Cli.Options` holds the parsed values.
- Regular expressions are not modelled. A filter is its pattern text, and `is_match` is the parameter `isMatch`.
- Cli.CreateRegexFilter: the panic when the pattern fails to compile is not modelled.
- Cli.Run: the panic of `build_global` on a second call or bad size is not modelled; the outcome records the size passed.
- All printing is left out: `print_hives`, `print_version`, the result lines and the count message. The outcome records what would be printed.
- The `Instant` timer and the floating-point keys-per-second figure are left out, because they are clock readings and f64 arithmetic. That division is not guarded against zero seconds.
- `Display for CliError` is left out. It formats the error with itself and so recurses without end.
- `num_threads` is a `usize`; the model uses a natural number.
