/**
 * The table of hives the command line knows, and the lookup of a hive by
 * its short or long name.
 */
module HiveTable {
  import opened Wrappers
  import opened Hives

  /** The errors `main` reports. */
  datatype CliError = InvalidBackend | UnknownHiveName

  /** `RegistryHiveInfo` */
  datatype HiveInfo = HiveInfo(shortName: string, name: string, hkey: int)

  /** `get_hives()`: the hives the tool knows, in the order it lists them. */
  function GetHives(): (r: seq<HiveInfo>)
    ensures |r| == 10
  {
    [
      HiveInfo("HKLM", "HKEY_LOCAL_MACHINE", HKEY_LOCAL_MACHINE),
      HiveInfo("HKCR", "HKEY_CLASSES_ROOT", HKEY_CLASSES_ROOT),
      HiveInfo("HKCC", "HKEY_CURRENT_CONFIG", HKEY_CURRENT_CONFIG),
      HiveInfo("HKCU", "HKEY_CURRENT_USER", HKEY_CURRENT_USER),
      HiveInfo("HKCULL", "HKEY_CURRENT_USER_LOCAL_SETTINGS", HKEY_CURRENT_USER_LOCAL_SETTINGS),
      HiveInfo("HKDD", "HKEY_DYN_DATA", HKEY_DYN_DATA),
      HiveInfo("HKPD", "HKEY_PERFORMANCE_DATA", HKEY_PERFORMANCE_DATA),
      HiveInfo("HKPL", "HKEY_PERFORMANCE_NLSTEXT", HKEY_PERFORMANCE_NLSTEXT),
      HiveInfo("HKPT", "HKEY_PERFORMANCE_TEXT", HKEY_PERFORMANCE_TEXT),
      HiveInfo("HKU", "HKEY_USERS", HKEY_USERS)
    ]
  }

  /** The filter of `get_hive`: the argument is the short or the long name, exactly. */
  predicate Matches(h: HiveInfo, name: string)
  {
    h.shortName == name || h.name == name
  }

  /** `.filter(..).next()`: the first entry that matches, if any. */
  function FirstMatch(table: seq<HiveInfo>, name: string): (r: Option<HiveInfo>)
    ensures r.Some? ==> exists i :: 0 <= i < |table| && table[i] == r.value && Matches(table[i], name) &&
                                 (forall j :: 0 <= j < i ==> !Matches(table[j], name))
    ensures r.None? <==> forall i :: 0 <= i < |table| ==> !Matches(table[i], name)
  {
    if table == [] then None
    else if Matches(table[0], name) then Some(table[0])
    else
      var r := FirstMatch(table[1..], name);
      assert forall i :: 1 <= i < |table| ==> table[i] == table[1..][i - 1];
      if r.Some? then
        var i :| 0 <= i < |table[1..]| && table[1..][i] == r.value && Matches(table[1..][i], name) &&
                 (forall j :: 0 <= j < i ==> !Matches(table[1..][j], name));
        assert table[i + 1] == r.value;
        r
      else
        r
  }

  /** `get_hive(name)`: the key of the first matching entry, or `UnknownHiveName`. */
  function GetHive(name: string): (r: Result<int, CliError>)
    ensures r.Err? <==> forall h :: h in GetHives() ==> !Matches(h, name)
    ensures r.Err? ==> r.error == UnknownHiveName
    ensures r.Ok? ==> exists i :: 0 <= i < |GetHives()| && Matches(GetHives()[i], name) &&
                               r.value == GetHives()[i].hkey && (forall j :: 0 <= j < i ==> !Matches(GetHives()[j], name))
  {
    match FirstMatch(GetHives(), name)
    case Some(h) => Ok(h.hkey)
    case None => Err(UnknownHiveName)
  }

  /** No two names in the table are equal, short or long, so a lookup is never ambiguous. */
  lemma HiveNamesDistinct()
    ensures forall i, j :: 0 <= i < |GetHives()| && 0 <= j < |GetHives()| ==>
      GetHives()[i].shortName != GetHives()[j].name
    ensures forall i, j :: 0 <= i < |GetHives()| && 0 <= j < |GetHives()| && i != j ==>
      GetHives()[i].shortName != GetHives()[j].shortName && GetHives()[i].name != GetHives()[j].name &&
      GetHives()[i].hkey != GetHives()[j].hkey
  {
    ShortAndLongApart();
    ShortNamesDistinct();
    LongNamesDistinct();
    KeysDistinct();
  }

  /** Short names have at most six characters and long names at least ten. */
  lemma ShortAndLongApart()
    ensures forall i, j :: 0 <= i < |GetHives()| && 0 <= j < |GetHives()| ==>
      GetHives()[i].shortName != GetHives()[j].name
  {
    assert forall i :: 0 <= i < |GetHives()| ==> |GetHives()[i].shortName| <= 6 && |GetHives()[i].name| >= 10;
  }

  lemma ShortNamesDistinct()
    ensures forall i, j :: 0 <= i < |GetHives()| && 0 <= j < |GetHives()| && i != j ==>
      GetHives()[i].shortName != GetHives()[j].shortName
  {
  }

  lemma LongNamesDistinct()
    ensures forall i, j :: 0 <= i < |GetHives()| && 0 <= j < |GetHives()| && i != j ==>
      GetHives()[i].name != GetHives()[j].name
  {
  }

  lemma KeysDistinct()
    ensures forall i, j :: 0 <= i < |GetHives()| && 0 <= j < |GetHives()| && i != j ==>
      GetHives()[i].hkey != GetHives()[j].hkey
  {
  }

  /** Every entry is found by its short name and by its long name. */
  lemma GetHiveFindsEntry(i: nat)
    requires i < |GetHives()|
    ensures GetHive(GetHives()[i].shortName) == Ok(GetHives()[i].hkey)
    ensures GetHive(GetHives()[i].name) == Ok(GetHives()[i].hkey)
  {
    ShortAndLongApart();
    ShortNamesDistinct();
    OnlyMatch(i, GetHives()[i].shortName);
    LongNamesDistinct();
    OnlyMatch(i, GetHives()[i].name);
  }

  /** A name that only entry `i` answers to looks up entry `i`'s key. */
  lemma OnlyMatch(i: nat, name: string)
    requires i < |GetHives()| && Matches(GetHives()[i], name)
    requires forall j :: 0 <= j < |GetHives()| && j != i ==> !Matches(GetHives()[j], name)
    ensures GetHive(name) == Ok(GetHives()[i].hkey)
  {
  }

  /**
   * The table and the providers agree: the walk of every hive in the table
   * starts from the table's short name.
   */
  lemma RootNamesAgree()
    ensures forall i :: 0 <= i < |GetHives()| ==> RootName(GetHives()[i].hkey) == GetHives()[i].shortName
  {
    forall i | 0 <= i < |GetHives()| ensures RootName(GetHives()[i].hkey) == GetHives()[i].shortName {
      EntryAgrees(i);
    }
  }

  lemma EntryAgrees(i: nat)
    requires i < |GetHives()|
    ensures RootName(GetHives()[i].hkey) == GetHives()[i].shortName
  {
    var h := GetHives()[i];
    if i < 5 {
      assert h.shortName in {"HKLM", "HKCR", "HKCC", "HKCU", "HKCULL"};
    } else {
      assert h.shortName in {"HKDD", "HKPD", "HKPL", "HKPT", "HKU"};
    }
  }

  /** The table holds exactly the hives the providers name. */
  lemma TableCoversKnownHives()
    ensures forall i :: 0 <= i < |GetHives()| ==> GetHives()[i].hkey in KnownHives
    ensures forall hive :: hive in KnownHives ==> exists i :: 0 <= i < |GetHives()| && GetHives()[i].hkey == hive
  {
    var t := GetHives();
    forall hive | hive in KnownHives ensures exists i :: 0 <= i < |t| && t[i].hkey == hive {
      var k :| 0 <= k < |KnownHives| && KnownHives[k] == hive;
      var i := [1, 2, 3, 4, 5, 0, 6, 7, 8, 9][k];
      assert t[i].hkey == hive;
    }
  }
}
