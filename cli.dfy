/**
 * The command line front end: the defaults, the choice of backend, and what
 * is counted and what is printed.
 *
 * Parsing the arguments, compiling and running the regular expression, the
 * timer and the printing itself are outside the model: the parsed options
 * are given, a regular expression is its pattern text, and matching it is the
 * parameter `isMatch`. The `v2` backend is provided by a module that is not
 * part of this model, so its result is the parameter `provider2`.
 */
module Cli {
  import opened Wrappers
  import opened Seqs
  import opened Registry
  import opened IndexSets
  import opened Hives
  import opened HiveTable
  import SequentialWalk

  datatype Backend = V1 | V2

  const DefaultHive: string := "HKLM"
  const DefaultBackend: string := "v2"
  const DefaultThreadCount: nat := 0

  /** The backend named on the command line. */
  function SelectBackend(backend: string): (r: Result<Backend, CliError>)
    ensures r == Ok(V1) <==> backend == "v1"
    ensures r == Ok(V2) <==> backend == "v2"
    ensures r.Err? <==> backend != "v1" && backend != "v2"
    ensures r.Err? ==> r.error == InvalidBackend
  {
    if backend == "v1" then Ok(V1)
    else if backend == "v2" then Ok(V2)
    else Err(InvalidBackend)
  }

  /** The pattern `create_regex_filter` compiles: case-insensitive, or empty when no filter is given. */
  function FilterPattern(filter: Option<string>): string
  {
    match filter
    case Some(s) => "(?i)" + s
    case None => ""
  }

  /** `|x| filter.is_match(x)` */
  function KeepMatching(isMatch: (string, string) -> bool, pattern: string): string -> bool
  {
    path => isMatch(pattern, path)
  }

  /** The parsed command line, as a value. */
  datatype Options = Options(
    printPaths: bool, printCount: bool, printTime: bool, filter: Option<string>,
    backend: Option<string>, numThreads: Option<nat>, hive: Option<string>,
    listHives: bool, version: bool)

  /** What a run of the tool produces, apart from the text it writes. */
  datatype Outcome =
    | ShowedVersion
    | ListedHives
    | Failed(error: CliError)
      /**
       * A walk ran: `count` keys were found (reported when `countShown`),
       * `printed` are the lines written if printing is on, and `poolThreads`
       * is the size given to the global thread pool, if one was set.
       */
    | Walked(count: nat, countShown: bool, printed: Option<seq<string>>, poolThreads: Option<nat>)

  /** What the chosen backend's `get_all` returns for `hive`. */
  function Results(backend: Backend, hive: int, predef: int -> Key, provider2: int -> seq<string>): seq<string>
  {
    match backend
    case V1 => SequentialWalk.Result(predef(hive), RootName(hive))
    case V2 => provider2(hive)
  }

  /**
   * The outcome once the hive is known: dispatch on the backend name, count
   * the results, then keep the matching ones if printing is on.
   */
  function BackendOutcome(backend: string, hive: int, threadCount: nat, printPaths: bool, printCount: bool,
                          pattern: string, predef: int -> Key, provider2: int -> seq<string>,
                          isMatch: (string, string) -> bool): Outcome
  {
    match SelectBackend(backend)
    case Err(e) => Failed(e)
    case Ok(b) =>
      var results := Results(b, hive, predef, provider2);
      Walked(|results|, printCount,
             if printPaths then Some(Filter(results, KeepMatching(isMatch, pattern))) else None,
             if b == V2 && threadCount != 0 then Some(threadCount) else None)
  }

  /** The outcome of `main` for the parsed options, stated as a function. */
  function MainOutcome(o: Options, predef: int -> Key, provider2: int -> seq<string>,
                       isMatch: (string, string) -> bool): Outcome
  {
    if o.version then ShowedVersion
    else if o.listHives then ListedHives
    else
      match GetHive(o.hive.UnwrapOr(DefaultHive))
      case Err(e) => Failed(e)
      case Ok(hive) =>
        BackendOutcome(o.backend.UnwrapOr(DefaultBackend), hive, o.numThreads.UnwrapOr(DefaultThreadCount),
                       o.printPaths || o.filter.Some?, o.printCount, FilterPattern(o.filter),
                       predef, provider2, isMatch)
  }

  /**
   * Without hive, backend and thread options the tool runs `v2` on
   * HKEY_LOCAL_MACHINE, whose paths start with "HKLM", counts every key it
   * returns and builds no global thread pool.
   */
  lemma Defaults(o: Options, predef: int -> Key, provider2: int -> seq<string>, isMatch: (string, string) -> bool)
    requires !o.version && !o.listHives && o.hive.None? && o.backend.None? && o.numThreads.None?
    ensures GetHive(DefaultHive) == Ok(HKEY_LOCAL_MACHINE)
    ensures RootName(HKEY_LOCAL_MACHINE) == DefaultHive
    ensures MainOutcome(o, predef, provider2, isMatch) ==
      BackendOutcome("v2", HKEY_LOCAL_MACHINE, 0, o.printPaths || o.filter.Some?, o.printCount,
                     FilterPattern(o.filter), predef, provider2, isMatch)
    ensures var out := MainOutcome(o, predef, provider2, isMatch);
      out.Walked? && out.count == |provider2(HKEY_LOCAL_MACHINE)| && out.poolThreads == None
  {
    DefaultHiveFound();
  }

  /** "HKLM" is found in the hive table, and the providers name that hive "HKLM" again. */
  lemma DefaultHiveFound()
    ensures GetHive(DefaultHive) == Ok(HKEY_LOCAL_MACHINE)
    ensures RootName(HKEY_LOCAL_MACHINE) == DefaultHive
  {
    GetHiveFindsEntry(0);
  }

  /**
   * An unknown hive name fails with `UnknownHiveName` before the backend is
   * looked at; a known one with a backend other than `v1` and `v2` fails
   * with `InvalidBackend`.
   */
  lemma FailureOutcomes(o: Options, predef: int -> Key, provider2: int -> seq<string>, isMatch: (string, string) -> bool)
    requires !o.version && !o.listHives
    ensures MainOutcome(o, predef, provider2, isMatch) == Failed(UnknownHiveName) <==>
      forall h :: h in GetHives() ==> !Matches(h, o.hive.UnwrapOr(DefaultHive))
    ensures GetHive(o.hive.UnwrapOr(DefaultHive)).Ok? ==>
      (MainOutcome(o, predef, provider2, isMatch) == Failed(InvalidBackend) <==>
       o.backend.UnwrapOr(DefaultBackend) !in ["v1", "v2"])
  {
  }

  /**
   * Once the hive is known: the count is that of the unfiltered result, and
   * with `v1` it is the number of distinct reachable paths; the printed
   * lines are the matching results, never more than the count.
   */
  lemma BackendCounts(backend: string, hive: int, threadCount: nat, printPaths: bool, printCount: bool,
                      pattern: string, predef: int -> Key, provider2: int -> seq<string>,
                      isMatch: (string, string) -> bool)
    requires BackendOutcome(backend, hive, threadCount, printPaths, printCount, pattern, predef, provider2, isMatch).Walked?
    ensures var out := BackendOutcome(backend, hive, threadCount, printPaths, printCount, pattern, predef, provider2, isMatch);
      && out.countShown == printCount
      && (out.printed.Some? <==> printPaths)
      && out.count == |Results(SelectBackend(backend).value, hive, predef, provider2)|
      && (printPaths ==>
            out.printed == Some(Filter(Results(SelectBackend(backend).value, hive, predef, provider2),
                                       KeepMatching(isMatch, pattern))))
      && (out.printed.Some? ==>
            |out.printed.value| <= out.count && forall path :: path in out.printed.value ==> isMatch(pattern, path))
      && (backend == "v1" ==>
            out.count == |Elems(Walk(predef(hive), RootName(hive)))| && out.poolThreads == None)
  {
    if backend == "v1" {
      var r := SequentialWalk.Result(predef(hive), RootName(hive));
      SequentialWalk.ResultIsReachable(predef(hive), RootName(hive));
      DistinctCardinality(r);
    }
  }

  /** A filter turns printing on, and the printed paths are those that match it. */
  lemma FilterForcesPrint(o: Options, predef: int -> Key, provider2: int -> seq<string>, isMatch: (string, string) -> bool)
    requires MainOutcome(o, predef, provider2, isMatch).Walked? && o.filter.Some?
    ensures var out := MainOutcome(o, predef, provider2, isMatch);
      out.printed.Some? && forall path :: path in out.printed.value ==> isMatch("(?i)" + o.filter.value, path)
  {
    var hive := GetHive(o.hive.UnwrapOr(DefaultHive));
    BackendCounts(o.backend.UnwrapOr(DefaultBackend), hive.value, o.numThreads.UnwrapOr(DefaultThreadCount),
                  true, o.printCount, FilterPattern(o.filter), predef, provider2, isMatch);
  }

  /**
   * Printing without a filter compiles the empty pattern, which matches every
   * path: every result is printed, as many lines as the count.
   */
  lemma PrintWithoutFilter(o: Options, predef: int -> Key, provider2: int -> seq<string>, isMatch: (string, string) -> bool)
    requires forall path :: isMatch("", path)
    requires MainOutcome(o, predef, provider2, isMatch).Walked? && o.filter.None? && o.printPaths
    ensures var out := MainOutcome(o, predef, provider2, isMatch);
      && out.printed == Some(Results(SelectBackend(o.backend.UnwrapOr(DefaultBackend)).value,
                                     GetHive(o.hive.UnwrapOr(DefaultHive)).value, predef, provider2))
      && |out.printed.value| == out.count
  {
    var backend := SelectBackend(o.backend.UnwrapOr(DefaultBackend)).value;
    var hive := GetHive(o.hive.UnwrapOr(DefaultHive)).value;
    FilterKeepsAll(Results(backend, hive, predef, provider2), KeepMatching(isMatch, ""));
  }

  /** The parsed command line, which `create_regex_filter` updates. */
  class Config {
    var printPaths: bool
    var printCount: bool
    var printTime: bool
    var filter: Option<string>
    var backend: Option<string>
    var numThreads: Option<nat>
    var hive: Option<string>
    var listHives: bool
    var version: bool

    constructor (o: Options)
      ensures Snapshot() == o
    {
      printPaths, printCount, printTime, filter := o.printPaths, o.printCount, o.printTime, o.filter;
      backend, numThreads, hive, listHives, version := o.backend, o.numThreads, o.hive, o.listHives, o.version;
    }

    function Snapshot(): Options
      reads this
    {
      Options(printPaths, printCount, printTime, filter, backend, numThreads, hive, listHives, version)
    }
  }

  /** `create_regex_filter`: the pattern to match with; a filter forces printing on. */
  method CreateRegexFilter(args: Config) returns (pattern: string)
    modifies args
    ensures pattern == FilterPattern(args.filter)
    ensures args.Snapshot() == old(args.Snapshot()).(printPaths := old(args.printPaths) || old(args.filter).Some?)
  {
    match args.filter
    case None =>
      pattern := "";
    case Some(s) =>
      args.printPaths := true;
      pattern := "(?i)" + s;
  }

  /** `main`, after the arguments are parsed. */
  method Run(args: Config, predef: int -> Key, provider2: int -> seq<string>,
             isMatch: (string, string) -> bool) returns (outcome: Outcome)
    requires forall hive :: NoDuplicates(provider2(hive))
    modifies args
    ensures outcome == MainOutcome(old(args.Snapshot()), predef, provider2, isMatch)
    ensures old(args.version) || old(args.listHives) ==> args.Snapshot() == old(args.Snapshot())
    ensures !old(args.version) && !old(args.listHives) ==>
      args.Snapshot() == old(args.Snapshot()).(printPaths := old(args.printPaths) || old(args.filter).Some?)
  {
    if args.version {
      return ShowedVersion;
    } else if args.listHives {
      return ListedHives;
    }
    var hiveName := args.hive.UnwrapOr(DefaultHive);
    var pattern := CreateRegexFilter(args);
    var threadCount := args.numThreads.UnwrapOr(DefaultThreadCount);
    var backend := args.backend.UnwrapOr(DefaultBackend);
    var hive := GetHive(hiveName);
    if hive.Err? {
      return Failed(hive.error);
    }
    outcome := RunBackend(backend, hive.value, threadCount, args.printPaths, args.printCount, pattern,
                          predef, provider2, isMatch);
  }

  /** The rest of `main` once the hive is known: run the backend, count, filter. */
  method RunBackend(backend: string, hive: int, threadCount: nat, printPaths: bool, printCount: bool,
                    pattern: string, predef: int -> Key, provider2: int -> seq<string>,
                    isMatch: (string, string) -> bool) returns (outcome: Outcome)
    requires NoDuplicates(provider2(hive))
    ensures outcome == BackendOutcome(backend, hive, threadCount, printPaths, printCount, pattern,
                                      predef, provider2, isMatch)
  {
    var results: IndexSet<string>;
    var poolThreads: Option<nat> := None;
    if backend == "v1" {
      results := SequentialWalk.GetAll(hive, predef);
    } else if backend == "v2" {
      if threadCount != 0 {
        poolThreads := Some(threadCount);
      }
      results := new IndexSet();
      results.items := provider2(hive);
    } else {
      return Failed(InvalidBackend);
    }
    var count := |results.items|;
    var printed: Option<seq<string>> := None;
    if printPaths {
      results.Retain(KeepMatching(isMatch, pattern));
      printed := Some(results.items);
    }
    outcome := Walked(count, printCount, printed, poolThreads);
  }
}
