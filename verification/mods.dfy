/** The installed mods the manager discovers under `mods/`: the `mods`
    dictionary of the main form, kept here as a list in discovery order
    (the order a `Dictionary` enumerates entries that were only ever added). */
module Mods {

  /** The fields of a mod's ini file that the modelled handlers consult. An
      empty string stands for a setting that is missing or null, which is how
      every `string.IsNullOrEmpty` test in the form reads it. */
  datatype ModInfo = ModInfo(
    name: string,
    gitHubRepo: string,
    gitHubAsset: string,
    updateUrl: string,
    codes: string)  // file name of the mod's own code list, relative to its directory

  /** One entry of the `mods` dictionary: the directory key and the parsed ini. */
  datatype InstalledMod = InstalledMod(dir: string, info: ModInfo)

  /** The dictionary's keys, in enumeration order. */
  function Dirs(installed: seq<InstalledMod>): (r: seq<string>)
    ensures |r| == |installed|
    ensures forall i :: 0 <= i < |r| ==> r[i] == installed[i].dir
  {
    seq(|installed|, i requires 0 <= i < |installed| => installed[i].dir)
  }

  /** The dictionary's key set (`ContainsKey`). */
  function DirSet(installed: seq<InstalledMod>): (keys: set<string>)
  {
    set m | m in installed :: m.dir
  }

  /** `mods[dir]`: the ini of the installed mod with directory `dir`. */
  function Lookup(installed: seq<InstalledMod>, dir: string): (r: ModInfo)
    requires dir in DirSet(installed)
    ensures InstalledMod(dir, r) in installed
  {
    if installed[0].dir == dir then installed[0].info
    else
      assert dir in DirSet(installed[1..]) by {
        var m :| m in installed && m.dir == dir;
        assert m != installed[0];
      }
      Lookup(installed[1..], dir)
  }
}
