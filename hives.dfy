/**
 * The predefined registry hives and the short name each provider gives the
 * root of its walk.
 *
 * The handles are the Win32 predefined key values (0x80000000 and up) as the
 * `winreg` crate stores them in an `isize`: the 32-bit pattern sign-extended.
 * Only their being distinct matters to the model.
 */
module Hives {

  const HKEY_CLASSES_ROOT: int := -0x8000_0000
  const HKEY_CURRENT_USER: int := -0x7FFF_FFFF
  const HKEY_LOCAL_MACHINE: int := -0x7FFF_FFFE
  const HKEY_USERS: int := -0x7FFF_FFFD
  const HKEY_PERFORMANCE_DATA: int := -0x7FFF_FFFC
  const HKEY_CURRENT_CONFIG: int := -0x7FFF_FFFB
  const HKEY_DYN_DATA: int := -0x7FFF_FFFA
  const HKEY_CURRENT_USER_LOCAL_SETTINGS: int := -0x7FFF_FFF9
  const HKEY_PERFORMANCE_TEXT: int := -0x7FFF_FFB0
  const HKEY_PERFORMANCE_NLSTEXT: int := -0x7FFF_FFA0

  const UnknownRootName: string := "(unknown)"

  /** The handles `get_all` recognises. */
  const KnownHives: seq<int> := [
    HKEY_CLASSES_ROOT, HKEY_CURRENT_CONFIG, HKEY_CURRENT_USER,
    HKEY_CURRENT_USER_LOCAL_SETTINGS, HKEY_DYN_DATA, HKEY_LOCAL_MACHINE,
    HKEY_PERFORMANCE_DATA, HKEY_PERFORMANCE_NLSTEXT, HKEY_PERFORMANCE_TEXT,
    HKEY_USERS
  ]

  /** The `match hive` of every provider's `get_all`: the path the walk starts from. */
  function RootName(hive: int): (name: string)
    ensures name == UnknownRootName <==> hive !in KnownHives
    ensures name != ""
  {
    if hive == HKEY_CLASSES_ROOT then "HKCR"
    else if hive == HKEY_CURRENT_CONFIG then "HKCC"
    else if hive == HKEY_CURRENT_USER then "HKCU"
    else if hive == HKEY_CURRENT_USER_LOCAL_SETTINGS then "HKCULL"
    else if hive == HKEY_DYN_DATA then "HKDD"
    else if hive == HKEY_LOCAL_MACHINE then "HKLM"
    else if hive == HKEY_PERFORMANCE_DATA then "HKPD"
    else if hive == HKEY_PERFORMANCE_NLSTEXT then "HKPL"
    else if hive == HKEY_PERFORMANCE_TEXT then "HKPT"
    else if hive == HKEY_USERS then "HKU"
    else UnknownRootName
  }

  /** Different known hives start their walks from different root names. */
  lemma RootNameInjective(a: int, b: int)
    requires a in KnownHives && b in KnownHives && a != b
    ensures RootName(a) != RootName(b)
  {
  }
}
