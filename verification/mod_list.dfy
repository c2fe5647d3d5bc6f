/** The mod list view and the enabled-mod order saved in the loader's ini:
    `LoadModList` builds the list from the saved order and the installed mods,
    `Save` writes the ticked mods back, and ticking a mod reloads the codes. */
module ModList {
  import opened Common
  import opened Mods
  import opened Codes

  /** One line of the mod list view: the mod directory kept in the item's
      `Tag`, its check box and whether it is selected. */
  datatype Row = Row(tag: string, checked: bool, selected: bool)

  predicate IsChecked(r: Row) { r.checked }

  function Tags(rows: seq<Row>): (r: seq<string>)
    ensures |r| == |rows|
    ensures forall i :: 0 <= i < |rows| ==> r[i] == rows[i].tag
  {
    seq(|rows|, i requires 0 <= i < |rows| => rows[i].tag)
  }

  /** The first half of `Save`: `Mods` becomes the tags of the ticked rows, in list order. */
  function SaveModList(rows: seq<Row>): (r: seq<string>)
    ensures |r| <= |rows|
    ensures forall i :: 0 <= i < |rows| && rows[i].checked ==> rows[i].tag in r
    ensures forall t :: t in r ==> TickedTag(rows, t)
  {
    var r := Tags(Filter(IsChecked, rows));
    CheckedTagsSaved(rows, r);
    SavedTagsChecked(rows, r);
    r
  }

  /** Some ticked row has tag `t`. */
  ghost predicate TickedTag(rows: seq<Row>, t: string)
  {
    exists i :: 0 <= i < |rows| && rows[i].checked && rows[i].tag == t
  }

  /** Saving the ticked rows after one more row in front. */
  lemma SaveCons(h: Row, t: seq<Row>)
    ensures Tags(Filter(IsChecked, [h] + t)) == (if h.checked then [h.tag] else []) + Tags(Filter(IsChecked, t))
  {
    FilterCons(IsChecked, h, t);
    if h.checked {
      TagsConcat([h], Filter(IsChecked, t));
    } else {
      assert [] + Filter(IsChecked, t) == Filter(IsChecked, t);
    }
  }

  /** Every ticked row's tag is saved. */
  lemma {:induction false} CheckedTagsSaved(rows: seq<Row>, r: seq<string>)
    requires r == Tags(Filter(IsChecked, rows))
    ensures forall i :: 0 <= i < |rows| && rows[i].checked ==> rows[i].tag in r
  {
    if rows != [] {
      var h, t := rows[0], rows[1..];
      assert rows == [h] + t;
      SaveCons(h, t);
      var r' := Tags(Filter(IsChecked, t));
      CheckedTagsSaved(t, r');
      forall i | 0 <= i < |rows| && rows[i].checked ensures rows[i].tag in r {
        if i > 0 {
          assert rows[i] == t[i - 1];
          assert rows[i].tag in r';
        }
      }
    }
  }

  /** Every saved tag is the tag of a ticked row. */
  lemma {:induction false} SavedTagsChecked(rows: seq<Row>, r: seq<string>)
    requires r == Tags(Filter(IsChecked, rows))
    ensures forall t :: t in r ==> TickedTag(rows, t)
  {
    if rows != [] {
      var h, t := rows[0], rows[1..];
      assert rows == [h] + t;
      SaveCons(h, t);
      var r' := Tags(Filter(IsChecked, t));
      SavedTagsChecked(t, r');
      forall x | x in r ensures TickedTag(rows, x) {
        if h.checked && x == h.tag {
          assert rows[0].checked && rows[0].tag == x;
        } else {
          assert x in r';
          var i :| 0 <= i < |t| && t[i].checked && t[i].tag == x;
          assert rows[i + 1] == t[i];
        }
      }
    }
  }

  lemma TagsConcat(a: seq<Row>, b: seq<Row>)
    ensures Tags(a + b) == Tags(a) + Tags(b)
  {
  }

  /** Ticked, unselected rows for the given directories, in order. */
  function EnabledRows(dirs: seq<string>): (r: seq<Row>)
    ensures |r| == |dirs|
    ensures forall i :: 0 <= i < |dirs| ==> r[i] == Row(dirs[i], true, false)
  {
    seq(|dirs|, i requires 0 <= i < |dirs| => Row(dirs[i], true, false))
  }

  /** Unticked, unselected rows for the given directories, in order. */
  function DisabledRows(dirs: seq<string>): (r: seq<Row>)
    ensures |r| == |dirs|
    ensures forall i :: 0 <= i < |dirs| ==> r[i] == Row(dirs[i], false, false)
  {
    seq(|dirs|, i requires 0 <= i < |dirs| => Row(dirs[i], false, false))
  }

  /** The saved enabled mods that are still installed, in saved order. */
  function KeptMods(saved: seq<string>, installed: seq<InstalledMod>): (kept: seq<string>)
  {
    Filter(MemberOf(DirSet(installed)), saved)
  }

  /** The list view as `LoadModList` leaves it, stated declaratively: the kept
      saved mods, ticked and in saved order, then every other installed mod,
      unticked and in discovery order. */
  function LoadedRows(saved: seq<string>, installed: seq<InstalledMod>): (rows: seq<Row>)
  {
    var kept := KeptMods(saved, installed);
    EnabledRows(kept) + DisabledRows(Filter(AbsentFrom(kept), Dirs(installed)))
  }

  /** The codes a list of mods contributes, in list order: an entry that is an
      installed mod with a code file contributes that file's codes (read by
      `readCodes`, which stands for `CodeList.Load`); any other entry nothing. */
  function ModCodes(mods: seq<string>, installed: seq<InstalledMod>, readCodes: (string, string) -> seq<Code>): (r: seq<Code>)
    ensures forall c :: c in r ==> FromModFile(c, mods, installed, readCodes)
    decreases |mods|
  {
    if mods == [] then []
    else
      var n := |mods| - 1;
      var m := mods[n];
      var p := ModCodes(mods[..n], installed, readCodes);
      var added := if m in DirSet(installed) && Lookup(installed, m).codes != ""
                   then readCodes(m, Lookup(installed, m).codes) else [];
      assert forall c :: c in p ==> FromModFile(c, mods, installed, readCodes) by {
        forall c | c in p ensures FromModFile(c, mods, installed, readCodes) {
          var k :| k in mods[..n] && k in DirSet(installed) && Lookup(installed, k).codes != ""
                   && c in readCodes(k, Lookup(installed, k).codes);
          assert k in mods;
        }
      }
      p + added
  }

  /** Code `c` was read from the code file of an installed mod listed in `mods`. */
  ghost predicate FromModFile(c: Code, mods: seq<string>, installed: seq<InstalledMod>, readCodes: (string, string) -> seq<Code>)
  {
    exists m :: m in mods && m in DirSet(installed) && Lookup(installed, m).codes != ""
                && c in readCodes(m, Lookup(installed, m).codes)
  }

  /** The code list box contents: entry `i` is ticked iff its name is enabled. */
  function CodeChecks(codes: seq<Code>, enabled: seq<string>): (r: seq<bool>)
    ensures |r| == |codes|
    ensures forall i :: 0 <= i < |codes| ==> (r[i] <==> codes[i].name in enabled)
  {
    seq(|codes|, i requires 0 <= i < |codes| => codes[i].name in enabled)
  }

  /** Everything `LoadModList` produces: the list view, the pruned `Mods`,
      the loaded codes, the reconciled `EnabledCodes` and the code list box ticks. */
  datatype LoadedList = LoadedList(
    rows: seq<Row>,
    mods: seq<string>,
    codes: seq<Code>,
    enabledCodes: seq<string>,
    codeChecks: seq<bool>)

  /** `LoadModList`, with the mod directory scan, the ini parsing and the
      code-file reading supplied by the caller (`installed`, `mainCodes`,
      `readCodes`); the warning box for a missing mod is left out. */
  method LoadModList(
    saved: seq<string>,
    installed: seq<InstalledMod>,
    mainCodes: seq<Code>,
    enabledCodes: seq<string>,
    readCodes: (string, string) -> seq<Code>)
    returns (l: LoadedList)
    ensures l.mods == KeptMods(saved, installed)
    ensures l.rows == LoadedRows(saved, installed)
    ensures SaveModList(l.rows) == l.mods
    ensures l.codes == mainCodes + ModCodes(saved, installed, readCodes)
    ensures forall i :: 0 <= i < |l.enabledCodes| ==> l.enabledCodes[i] in Names(l.codes)
    ensures forall c :: c in l.codes && c.required ==> c.name in l.enabledCodes
    ensures l.enabledCodes == Reconcile(enabledCodes, l.codes)
    ensures l.codeChecks == CodeChecks(l.codes, l.enabledCodes)
  {
    var mods, rows, codes := ListSavedMods(saved, installed, mainCodes, readCodes);
    rows := ListOtherMods(rows, mods, installed);
    LoadThenSave(saved, installed);
    var enabled := Reconcile(enabledCodes, codes);
    l := LoadedList(rows, mods, codes, enabled, CodeChecks(codes, enabled));
  }

  /** The first loop of `LoadModList`. It walks a copy of the saved list:
      an installed mod gets a ticked row and contributes its codes, any other
      entry is removed (`List.Remove`, first occurrence) from the original. */
  method ListSavedMods(
    saved: seq<string>,
    installed: seq<InstalledMod>,
    mainCodes: seq<Code>,
    readCodes: (string, string) -> seq<Code>)
    returns (mods: seq<string>, rows: seq<Row>, codes: seq<Code>)
    ensures mods == KeptMods(saved, installed)
    ensures rows == EnabledRows(mods)
    ensures codes == mainCodes + ModCodes(saved, installed, readCodes)
  {
    var keys := DirSet(installed);
    mods, rows, codes := saved, [], mainCodes;
    var k := 0;
    while k < |saved|
      invariant SavedLoop(saved, installed, mainCodes, readCodes, k, mods, rows, codes)
    {
      var m := saved[k];
      if m in keys {
        SavedLoopKept(saved, installed, mainCodes, readCodes, k, mods, rows, codes);
        var inf := Lookup(installed, m);
        rows := rows + [Row(m, true, false)];
        if inf.codes != "" {
          codes := codes + readCodes(m, inf.codes);
        }
      } else {
        SavedLoopDropped(saved, installed, mainCodes, readCodes, k, mods, rows, codes);
        mods := RemoveFirst(mods, m);
      }
      k := k + 1;
    }
    assert saved[..k] == saved;
  }

  /** What the first loop of `LoadModList` has built after `k` saved entries. */
  ghost predicate SavedLoop(
    saved: seq<string>, installed: seq<InstalledMod>, mainCodes: seq<Code>,
    readCodes: (string, string) -> seq<Code>, k: int,
    mods: seq<string>, rows: seq<Row>, codes: seq<Code>)
  {
    && 0 <= k <= |saved|
    && mods == Filter(MemberOf(DirSet(installed)), saved[..k]) + saved[k..]
    && rows == EnabledRows(Filter(MemberOf(DirSet(installed)), saved[..k]))
    && codes == mainCodes + ModCodes(saved[..k], installed, readCodes)
  }

  /** An installed entry: the pruned list keeps it, it gets a ticked row and
      its codes are read. */
  lemma SavedLoopKept(
    saved: seq<string>, installed: seq<InstalledMod>, mainCodes: seq<Code>,
    readCodes: (string, string) -> seq<Code>, k: int,
    mods: seq<string>, rows: seq<Row>, codes: seq<Code>)
    requires SavedLoop(saved, installed, mainCodes, readCodes, k, mods, rows, codes)
    requires k < |saved| && saved[k] in DirSet(installed)
    ensures var inf := Lookup(installed, saved[k]);
            SavedLoop(saved, installed, mainCodes, readCodes, k + 1,
              mods, rows + [Row(saved[k], true, false)],
              if inf.codes != "" then codes + readCodes(saved[k], inf.codes) else codes)
  {
    var keys := DirSet(installed);
    var before := Filter(MemberOf(keys), saved[..k]);
    FilterStep(keys, saved, k);
    ModCodesStep(saved, installed, readCodes, k);
    EnabledRowsSnoc(before, saved[k]);
    assert saved[k..] == [saved[k]] + saved[k + 1..];
  }

  /** An entry that is not installed: it is removed from the pruned list and
      nothing else changes. */
  lemma SavedLoopDropped(
    saved: seq<string>, installed: seq<InstalledMod>, mainCodes: seq<Code>,
    readCodes: (string, string) -> seq<Code>, k: int,
    mods: seq<string>, rows: seq<Row>, codes: seq<Code>)
    requires SavedLoop(saved, installed, mainCodes, readCodes, k, mods, rows, codes)
    requires k < |saved| && saved[k] !in DirSet(installed)
    ensures SavedLoop(saved, installed, mainCodes, readCodes, k + 1, RemoveFirst(mods, saved[k]), rows, codes)
  {
    var keys := DirSet(installed);
    FilterStep(keys, saved, k);
    ModCodesStep(saved, installed, readCodes, k);
    DroppedStep(keys, saved, k);
  }

  /** One more saved entry extends the pruned prefix exactly when it is installed. */
  lemma FilterStep(keys: set<string>, saved: seq<string>, k: int)
    requires 0 <= k < |saved|
    ensures Filter(MemberOf(keys), saved[..k + 1])
            == Filter(MemberOf(keys), saved[..k]) + (if saved[k] in keys then [saved[k]] else [])
  {
    assert saved[..k + 1] == saved[..k] + [saved[k]];
    FilterConcat(MemberOf(keys), saved[..k], [saved[k]]);
  }

  /** Removing an entry that is not installed takes it out of the unvisited part. */
  lemma DroppedStep(keys: set<string>, saved: seq<string>, k: int)
    requires 0 <= k < |saved| && saved[k] !in keys
    ensures RemoveFirst(Filter(MemberOf(keys), saved[..k]) + saved[k..], saved[k])
            == Filter(MemberOf(keys), saved[..k]) + saved[k + 1..]
  {
    var before := Filter(MemberOf(keys), saved[..k]);
    KeptOnlyInstalled(keys, saved[..k], saved[k]);
    RemoveFirstSplice(before, saved[k], saved[k + 1..]);
    assert saved[k..] == [saved[k]] + saved[k + 1..];
    assert before + [saved[k]] + saved[k + 1..] == before + saved[k..];
  }

  /** One more saved entry adds its codes, if any, at the end. */
  lemma ModCodesStep(saved: seq<string>, installed: seq<InstalledMod>, readCodes: (string, string) -> seq<Code>, k: int)
    requires 0 <= k < |saved|
    ensures ModCodes(saved[..k + 1], installed, readCodes)
            == ModCodes(saved[..k], installed, readCodes)
               + (if saved[k] in DirSet(installed) && Lookup(installed, saved[k]).codes != ""
                  then readCodes(saved[k], Lookup(installed, saved[k]).codes) else [])
  {
    assert saved[..k + 1][..k] == saved[..k];
  }

  /** A name that is not installed never survives the pruning filter. */
  lemma KeptOnlyInstalled(keys: set<string>, s: seq<string>, m: string)
    requires m !in keys
    ensures m !in Filter(MemberOf(keys), s)
  {
    FilterMembers(MemberOf(keys), s);
  }

  lemma EnabledRowsSnoc(dirs: seq<string>, d: string)
    ensures EnabledRows(dirs + [d]) == EnabledRows(dirs) + [Row(d, true, false)]
  {
  }

  lemma DisabledRowsSnoc(dirs: seq<string>, d: string)
    ensures DisabledRows(dirs + [d]) == DisabledRows(dirs) + [Row(d, false, false)]
  {
  }

  /** The second loop of `LoadModList`: every installed mod missing from the
      pruned `Mods` gets an unticked row, in discovery order. */
  method ListOtherMods(listed: seq<Row>, mods: seq<string>, installed: seq<InstalledMod>)
    returns (rows: seq<Row>)
    ensures rows == listed + DisabledRows(Filter(AbsentFrom(mods), Dirs(installed)))
  {
    var dirs := Dirs(installed);
    rows := listed;
    var j := 0;
    while j < |installed|
      invariant 0 <= j <= |installed|
      invariant rows == listed + DisabledRows(Filter(AbsentFrom(mods), dirs[..j]))
    {
      var d := installed[j].dir;
      assert dirs[..j + 1] == dirs[..j] + [d];
      FilterConcat(AbsentFrom(mods), dirs[..j], [d]);
      DisabledRowsSnoc(Filter(AbsentFrom(mods), dirs[..j]), d);
      if d !in mods {
        rows := rows + [Row(d, false, false)];
      }
      j := j + 1;
    }
    assert dirs[..j] == dirs;
  }

  /** Saving straight after loading rewrites `Mods` as the old list with the
      uninstalled entries removed and the order kept. */
  lemma LoadThenSave(saved: seq<string>, installed: seq<InstalledMod>)
    ensures SaveModList(LoadedRows(saved, installed)) == KeptMods(saved, installed)
  {
    var kept := KeptMods(saved, installed);
    var off := Filter(AbsentFrom(kept), Dirs(installed));
    FilterConcat(IsChecked, EnabledRows(kept), DisabledRows(off));
    FilterAll(IsChecked, EnabledRows(kept));
    FilterNone(DisabledRows(off));
    assert Tags(EnabledRows(kept)) == kept;
  }

  lemma {:induction false} FilterNone(rows: seq<Row>)
    requires forall i :: 0 <= i < |rows| ==> !rows[i].checked
    ensures Filter(IsChecked, rows) == []
  {
    if rows != [] {
      FilterNone(rows[1..]);
    }
  }

  /** The loaded list holds exactly the installed mods, and its ticked rows
      come before its unticked ones. */
  lemma LoadedRowsCoverInstalled(saved: seq<string>, installed: seq<InstalledMod>)
    ensures forall i :: 0 <= i < |LoadedRows(saved, installed)| ==>
      LoadedRows(saved, installed)[i].tag in DirSet(installed)
    ensures forall m :: m in installed ==> m.dir in Tags(LoadedRows(saved, installed))
    ensures forall i, j :: 0 <= i < j < |LoadedRows(saved, installed)| && LoadedRows(saved, installed)[j].checked ==>
      LoadedRows(saved, installed)[i].checked
  {
    var kept := KeptMods(saved, installed);
    var off := Filter(AbsentFrom(kept), Dirs(installed));
    var rows := LoadedRows(saved, installed);
    var tags := Tags(rows);
    FilterMembers(MemberOf(DirSet(installed)), saved);
    FilterMembers(AbsentFrom(kept), Dirs(installed));
    forall i | 0 <= i < |rows| ensures rows[i].tag in DirSet(installed) {
      if i < |kept| {
        assert rows[i].tag == kept[i];
        assert MemberOf(DirSet(installed))(kept[i]);
      } else {
        assert rows[i].tag == off[i - |kept|];
        var t := off[i - |kept|];
        assert t in Dirs(installed);
        var n :| 0 <= n < |installed| && Dirs(installed)[n] == t;
        assert installed[n] in installed;
      }
    }
    forall m | m in installed ensures m.dir in tags {
      var n :| 0 <= n < |installed| && installed[n] == m;
      assert Dirs(installed)[n] == m.dir;
      if m.dir in kept {
        var i :| 0 <= i < |kept| && kept[i] == m.dir;
        assert tags[i] == m.dir;
      } else {
        assert AbsentFrom(kept)(Dirs(installed)[n]);
        var i :| 0 <= i < |off| && off[i] == m.dir;
        assert tags[|kept| + i] == m.dir;
      }
    }
  }

  /** With no repeats in the saved list, every installed mod appears exactly once. */
  lemma LoadedRowsNoDups(saved: seq<string>, installed: seq<InstalledMod>)
    requires NoDups(saved) && NoDups(Dirs(installed))
    ensures NoDups(Tags(LoadedRows(saved, installed)))
  {
    var kept := KeptMods(saved, installed);
    var off := Filter(AbsentFrom(kept), Dirs(installed));
    FilterNoDups(MemberOf(DirSet(installed)), saved);
    FilterNoDups(AbsentFrom(kept), Dirs(installed));
    var tags := Tags(LoadedRows(saved, installed));
    FilterMembers(AbsentFrom(kept), Dirs(installed));
    assert tags == kept + off;
    forall i, j | 0 <= i < j < |tags| ensures tags[i] != tags[j] {
      if i < |kept| && j >= |kept| {
        assert tags[j] == off[j - |kept|];
        assert AbsentFrom(kept)(off[j - |kept|]);
      }
    }
  }

  /** What ticking or unticking a mod recomputes: the code list, the
      reconciled `EnabledCodes` and the code list box ticks. */
  datatype CodeReload = CodeReload(codes: seq<Code>, enabledCodes: seq<string>, codeChecks: seq<bool>)

  /** The mods whose codes are loaded after row `index` is ticked or
      unticked: the ticked mods as they were before the change, with the
      row's mod removed (first occurrence) or appended at the end. */
  function ModsAfterCheck(rows: seq<Row>, index: int, newValue: CheckState): (r: seq<string>)
    requires 0 <= index < |rows|
    ensures newValue != Unchecked ==> r == SaveModList(rows) + [rows[index].tag]
    ensures newValue == Unchecked ==> multiset(r) == multiset(SaveModList(rows)) - multiset{rows[index].tag}
  {
    var ticked := SaveModList(rows);
    RemoveFirstMultiset(ticked, rows[index].tag);
    if newValue == Unchecked then RemoveFirst(ticked, rows[index].tag) else ticked + [rows[index].tag]
  }

  /** `modListView_ItemCheck` for row `index`. While `suppressEvent` is set
      (`LoadModList` adding ticked rows) nothing happens. Otherwise the mods
      of `ModsAfterCheck` contribute their codes after the main codes, and the
      enabled codes are reconciled against the result. */
  function OnModCheck(
    rows: seq<Row>,
    index: int,
    newValue: CheckState,
    suppressEvent: bool,
    installed: seq<InstalledMod>,
    mainCodes: seq<Code>,
    enabledCodes: seq<string>,
    readCodes: (string, string) -> seq<Code>)
    : (r: Option<CodeReload>)
    requires 0 <= index < |rows|
    ensures r.None? <==> suppressEvent
    ensures r.Some? ==> r.value.codes == mainCodes + ModCodes(ModsAfterCheck(rows, index, newValue), installed, readCodes)
    ensures r.Some? ==> forall i :: 0 <= i < |r.value.enabledCodes| ==> r.value.enabledCodes[i] in Names(r.value.codes)
    ensures r.Some? ==> forall c :: c in r.value.codes && c.required ==> c.name in r.value.enabledCodes
    ensures r.Some? ==> r.value.enabledCodes == Reconcile(enabledCodes, r.value.codes)
    ensures r.Some? ==> r.value.codeChecks == CodeChecks(r.value.codes, r.value.enabledCodes)
  {
    if suppressEvent then None
    else
      var codes := mainCodes + ModCodes(ModsAfterCheck(rows, index, newValue), installed, readCodes);
      var enabled := Reconcile(enabledCodes, codes);
      Some(CodeReload(codes, enabled, CodeChecks(codes, enabled)))
  }

  /** Ticking an installed mod that has a code file puts its codes last. */
  lemma TickedModCodesLast(rows: seq<Row>, index: int, installed: seq<InstalledMod>, readCodes: (string, string) -> seq<Code>)
    requires 0 <= index < |rows|
    requires rows[index].tag in DirSet(installed) && Lookup(installed, rows[index].tag).codes != ""
    ensures var added := readCodes(rows[index].tag, Lookup(installed, rows[index].tag).codes);
            var codes := ModCodes(ModsAfterCheck(rows, index, Checked), installed, readCodes);
            |added| <= |codes| && codes[|codes| - |added|..] == added
  {
    var modlist := ModsAfterCheck(rows, index, Checked);
    assert modlist[..|modlist| - 1] == SaveModList(rows);
  }

  /** Unticking a mod straight after ticking it loads the same mods as before
      the tick, provided no two rows share a mod. */
  lemma TickThenUntick(rows: seq<Row>, index: int)
    requires 0 <= index < |rows| && !rows[index].checked && NoDups(Tags(rows))
    ensures ModsAfterCheck(rows[index := rows[index].(checked := true)], index, Unchecked) == SaveModList(rows)
  {
    var ta, tb := SplitAtTick(rows, index);
    RemoveFirstSplice(ta, rows[index].tag, tb);
  }

  /** Ticking row `index` puts its tag between the saved tags of the rows
      before it and after it, and none of the earlier ones carries that tag. */
  lemma SplitAtTick(rows: seq<Row>, index: int) returns (ta: seq<string>, tb: seq<string>)
    requires 0 <= index < |rows| && !rows[index].checked && NoDups(Tags(rows))
    ensures SaveModList(rows[index := rows[index].(checked := true)]) == ta + [rows[index].tag] + tb
    ensures SaveModList(rows) == ta + tb
    ensures rows[index].tag !in ta
  {
    var row := rows[index];
    var ticked := rows[index := row.(checked := true)];
    var a, b := rows[..index], rows[index + 1..];
    var fa, fb := Filter(IsChecked, a), Filter(IsChecked, b);
    ta, tb := Tags(fa), Tags(fb);
    assert SaveModList(ticked) == ta + [row.tag] + tb by {
      assert ticked == a + [row.(checked := true)] + b;
      SaveAround(a, row.(checked := true), b);
    }
    assert SaveModList(rows) == ta + tb by {
      assert rows == a + [row] + b;
      SaveAround(a, row, b);
    }
    TagNotBefore(rows, index, fa);
  }

  /** And so the code list it loads is the one from before the tick. */
  lemma TickThenUntickCodes(
    rows: seq<Row>,
    index: int,
    installed: seq<InstalledMod>,
    mainCodes: seq<Code>,
    enabledCodes: seq<string>,
    readCodes: (string, string) -> seq<Code>)
    requires 0 <= index < |rows| && !rows[index].checked && NoDups(Tags(rows))
    ensures var ticked := rows[index := rows[index].(checked := true)];
            OnModCheck(ticked, index, Unchecked, false, installed, mainCodes, enabledCodes, readCodes).value.codes
            == mainCodes + ModCodes(SaveModList(rows), installed, readCodes)
  {
    TickThenUntick(rows, index);
  }

  /** Saving a list split around one row: that row's tag sits between the
      tags of the ticked rows before it and after it when it is ticked. */
  lemma SaveAround(a: seq<Row>, row: Row, b: seq<Row>)
    ensures Tags(Filter(IsChecked, a + [row] + b))
            == Tags(Filter(IsChecked, a)) + (if row.checked then [row.tag] else []) + Tags(Filter(IsChecked, b))
  {
    var fa, fb := Filter(IsChecked, a), Filter(IsChecked, b);
    var mid := if row.checked then [row] else [];
    assert Filter(IsChecked, a + [row] + b) == fa + mid + fb by {
      FilterConcat(IsChecked, a + [row], b);
      FilterConcat(IsChecked, a, [row]);
      assert Filter(IsChecked, [row]) == mid;
    }
    TagsConcat(fa + mid, fb);
    TagsConcat(fa, mid);
    assert Tags(mid) == (if row.checked then [row.tag] else []);
  }

  /** In a list without repeated tags, no ticked row before `index` has the tag of row `index`. */
  lemma TagNotBefore(rows: seq<Row>, index: int, fa: seq<Row>)
    requires 0 <= index < |rows| && NoDups(Tags(rows))
    requires fa == Filter(IsChecked, rows[..index])
    ensures rows[index].tag !in Tags(fa)
  {
    FilterMembers(IsChecked, rows[..index]);
  }
}
