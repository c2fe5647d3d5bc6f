/** The forced repair pass (`UpdateChecker_DoWorkForced`): for every mod that
    failed verification, in order, ask its update source for a fresh download.
    The sources themselves (`ModUpdater.GetGitHubReleases` and
    `ModUpdater.CheckModularVersion`) are not part of this model: they are one
    function `source` from the request to its reply, and the download they
    produce is the type parameter `D`. */
module ForcedRepair {
  import opened Common
  import opened Mods

  /** How a file on disk compares with the mod's manifest. */
  datatype ManifestState = Unchanged | Added | Modified | Removed

  /** One file of a manifest: its path, checksum and size. */
  datatype ManifestEntry = ManifestEntry(filePath: string, checksum: string, fileSize: int)

  /** One entry of a verification result: the comparison and the entry as
      it is now. */
  datatype ManifestDiff = ManifestDiff(state: ManifestState, current: ManifestEntry)

  /** One mod that failed verification: its directory, its ini and its diff. */
  datatype RepairItem = RepairItem(dir: string, mod: ModInfo, diffs: seq<ManifestDiff>)

  /** A request to an update source. */
  datatype SourceCall =
    | GitHubQuery(mod: ModInfo, dir: string)
    | ModularQuery(mod: ModInfo, dir: string, manifest: seq<ManifestEntry>)

  /** A source's answer: a download when one is needed, and the errors it
      appended to the shared error list. */
  datatype Reply<D> = Reply(download: Option<D>, errors: seq<string>)

  /** What the loop body decides for one mod before any source is asked. */
  datatype Decision = Reject(error: string) | Query(call: SourceCall) | Skip

  predicate IsUnchanged(d: ManifestDiff) { d.state == Unchanged }

  /** The entries of a list of diffs, in order (`Select(x => x.Current)`). */
  function Currents(diffs: seq<ManifestDiff>): (r: seq<ManifestEntry>)
    ensures |r| == |diffs|
    ensures forall i :: 0 <= i < |diffs| ==> r[i] == diffs[i].current
  {
    seq(|diffs|, i requires 0 <= i < |diffs| => diffs[i].current)
  }

  /** The manifest handed to the modular source: the current entry of every
      file that verified as unchanged. */
  function LocalManifest(diffs: seq<ManifestDiff>): (m: seq<ManifestEntry>)
    ensures |m| <= |diffs|
    ensures forall e :: e in m <==> UnchangedEntry(diffs, e)
  {
    var m := Currents(Filter(IsUnchanged, diffs));
    UnchangedCurrents(diffs, m);
    m
  }

  /** The error reported for a mod that names a GitHub repository but no asset. */
  function MissingAssetError(name: string): (e: string)
    ensures |e| > |name| + 2 && e[..|name| + 2] == "[" + name + "]"
  {
    var tag := "[" + name + "]";
    var e := tag + " GitHubRepo specified, but GitHubAsset is missing.";
    assert e[..|tag|] == tag;
    e
  }

  /** The dispatch in the loop body: a GitHub repository wins over an update
      URL; a repository without an asset is an error; a mod with neither is
      passed over. */
  function Dispatch(item: RepairItem): (d: Decision)
    ensures item.mod.gitHubRepo != "" && item.mod.gitHubAsset == "" ==> d == Reject(MissingAssetError(item.mod.name))
    ensures item.mod.gitHubRepo != "" && item.mod.gitHubAsset != "" ==> d == Query(GitHubQuery(item.mod, item.dir))
    ensures item.mod.gitHubRepo == "" && item.mod.updateUrl != "" ==>
      d == Query(ModularQuery(item.mod, item.dir, LocalManifest(item.diffs)))
    ensures item.mod.gitHubRepo == "" && item.mod.updateUrl == "" ==> d == Skip
  {
    var mod := item.mod;
    if mod.gitHubRepo != "" then
      if mod.gitHubAsset == "" then Reject(MissingAssetError(mod.name))
      else Query(GitHubQuery(mod, item.dir))
    else if mod.updateUrl != "" then Query(ModularQuery(mod, item.dir, LocalManifest(item.diffs)))
    else Skip
  }

  /** The pass's accumulated `updates` and `errors`, and the source requests
      made so far (which the source code does not keep; they are here so that
      "no request" can be stated). */
  datatype Progress<D> = Progress(updates: seq<D>, errors: seq<string>, calls: seq<SourceCall>)

  /** One iteration of the loop body for `item`. */
  function Step<D>(p: Progress<D>, item: RepairItem, source: SourceCall -> Reply<D>): (r: Progress<D>)
    ensures |p.updates| <= |r.updates| <= |p.updates| + 1 && r.updates[..|p.updates|] == p.updates
    ensures |p.calls| <= |r.calls| <= |p.calls| + 1 && r.calls[..|p.calls|] == p.calls
    ensures |r.updates| - |p.updates| <= |r.calls| - |p.calls|
    ensures |p.errors| <= |r.errors| && r.errors[..|p.errors|] == p.errors
    ensures Dispatch(item).Query? ==> r.calls == p.calls + [Dispatch(item).call]
    ensures !Dispatch(item).Query? ==> r.calls == p.calls && r.updates == p.updates
  {
    match Dispatch(item)
    case Reject(e) => p.(errors := p.errors + [e])
    case Skip => p
    case Query(c) =>
      var reply := source(c);
      var got := if reply.download.Some? then [reply.download.value] else [];
      assert (p.updates + got)[..|p.updates|] == p.updates;
      assert (p.calls + [c])[..|p.calls|] == p.calls;
      assert (p.errors + reply.errors)[..|p.errors|] == p.errors;
      Progress(p.updates + got, p.errors + reply.errors, p.calls + [c])
  }

  /** The loop run over every item, in order. */
  function Run<D>(items: seq<RepairItem>, source: SourceCall -> Reply<D>): (r: Progress<D>)
    ensures |r.updates| <= |r.calls| <= |items|
    decreases |items|
  {
    if items == [] then Progress([], [], [])
    else Step(Run(items[..|items| - 1], source), items[|items| - 1], source)
  }

  /** The index of the first iteration at which cancellation is pending, or
      the number of iterations when it never is. */
  function FirstCancel(cancel: seq<bool>): (k: nat)
    ensures k <= |cancel|
    ensures forall j :: 0 <= j < k ==> !cancel[j]
    ensures k < |cancel| ==> cancel[k]
  {
    if cancel == [] then 0
    else if cancel[0] then 0
    else 1 + FirstCancel(cancel[1..])
  }

  /** What the pass leaves in `e.Result` and `e.Cancel`: nothing at all when
      the argument is missing or empty. */
  datatype RepairResult<D> =
    | NoResult
    | Finished(cancelled: bool, updates: seq<D>, errors: seq<string>, calls: seq<SourceCall>)

  /** `UpdateChecker_DoWorkForced`. `cancel[i]` is the worker's
      `CancellationPending` as seen before item `i`. */
  method RepairPass<D>(arg: Option<seq<RepairItem>>, cancel: seq<bool>, source: SourceCall -> Reply<D>)
    returns (r: RepairResult<D>)
    requires arg.Some? ==> |cancel| == |arg.value|
    ensures arg.None? || arg.value == [] ==> r == NoResult
    ensures arg.Some? && arg.value != [] ==>
      var k := FirstCancel(cancel);
      && r.Finished?
      && r.cancelled == (k < |arg.value|)
      && Progress(r.updates, r.errors, r.calls) == Run(arg.value[..k], source)
  {
    if arg.None? || |arg.value| == 0 {
      return NoResult;
    }
    var items := arg.value;
    var p: Progress<D> := Progress([], [], []);
    var cancelled := false;
    var i := 0;
    while i < |items|
      invariant 0 <= i <= |items|
      invariant i <= FirstCancel(cancel)
      invariant p == Run(items[..i], source)
    {
      if cancel[i] {
        cancelled := true;
        break;
      }
      FirstCancelPast(cancel, i);
      RunSnoc(items, i, source);
      p := Step(p, items[i], source);
      i := i + 1;
    }
    r := Finished(cancelled, p.updates, p.errors, p.calls);
  }

  lemma RunSnoc<D>(items: seq<RepairItem>, i: int, source: SourceCall -> Reply<D>)
    requires 0 <= i < |items|
    ensures Run(items[..i + 1], source) == Step(Run(items[..i], source), items[i], source)
  {
    assert items[..i + 1][..i] == items[..i];
  }

  /** An iteration that finds no cancellation pending is not the first cancelled one. */
  lemma FirstCancelPast(cancel: seq<bool>, i: int)
    requires 0 <= i < |cancel| && i <= FirstCancel(cancel) && !cancel[i]
    ensures i + 1 <= FirstCancel(cancel)
  {
  }

  lemma RunAppend<D>(items: seq<RepairItem>, item: RepairItem, source: SourceCall -> Reply<D>)
    ensures Run(items + [item], source) == Step(Run(items, source), item, source)
  {
    assert (items + [item])[..|items|] == items;
  }

  lemma PrefixTrans<T>(a: seq<T>, b: seq<T>, c: seq<T>)
    requires |a| <= |b| <= |c| && b[..|a|] == a && c[..|b|] == b
    ensures c[..|a|] == a
  {
    assert c[..|a|] == c[..|b|][..|a|];
  }

  /** Processing more mods only appends: what the first mods produced stays,
      in order, at the front. */
  lemma {:induction false} RunExtends<D>(items: seq<RepairItem>, more: seq<RepairItem>, source: SourceCall -> Reply<D>)
    ensures var a := Run(items, source);
            var b := Run(items + more, source);
            && |a.updates| <= |b.updates| && b.updates[..|a.updates|] == a.updates
            && |a.errors| <= |b.errors| && b.errors[..|a.errors|] == a.errors
            && |a.calls| <= |b.calls| && b.calls[..|a.calls|] == a.calls
    decreases |more|
  {
    if more != [] {
      var init, last := more[..|more| - 1], more[|more| - 1];
      assert items + more == (items + init) + [last];
      RunExtends(items, init, source);
      RunAppend(items + init, last, source);
      var a, m, b := Run(items, source), Run(items + init, source), Run(items + more, source);
      PrefixTrans(a.updates, m.updates, b.updates);
      PrefixTrans(a.errors, m.errors, b.errors);
      PrefixTrans(a.calls, m.calls, b.calls);
    } else {
      assert items + more == items;
    }
  }

  /** Every request the pass makes is the dispatch of one of its mods. */
  lemma {:induction false} RunCallsFromItems<D>(items: seq<RepairItem>, source: SourceCall -> Reply<D>)
    ensures forall i :: 0 <= i < |Run(items, source).calls| ==>
      exists j :: 0 <= j < |items| && Dispatch(items[j]) == Query(Run(items, source).calls[i])
    decreases |items|
  {
    if items != [] {
      var init, last := items[..|items| - 1], items[|items| - 1];
      assert items == init + [last];
      RunCallsFromItems(init, source);
      RunAppend(init, last, source);
      var a := Run(init, source).calls;
      var b := Run(items, source).calls;
      forall i | 0 <= i < |b|
        ensures exists j :: 0 <= j < |items| && Dispatch(items[j]) == Query(b[i])
      {
        if i < |a| {
          var j :| 0 <= j < |init| && Dispatch(init[j]) == Query(a[i]);
          assert items[j] == init[j];
          assert b[..|a|][i] == a[i];
        } else {
          assert Dispatch(last) == Query(b[i]);
        }
      }
    } else {
      assert Run(items, source).calls == [];
    }
  }

  /** A cancelled pass asks about no mod at or after the one where the
      cancellation was seen: every request it made is the dispatch of an
      earlier mod. */
  lemma CancelStopsRequests<D>(items: seq<RepairItem>, cancel: seq<bool>, source: SourceCall -> Reply<D>)
    requires |cancel| == |items|
    ensures forall i :: 0 <= i < |Run(items[..FirstCancel(cancel)], source).calls| ==>
      exists j :: 0 <= j < FirstCancel(cancel) && Dispatch(items[j]) == Query(Run(items[..FirstCancel(cancel)], source).calls[i])
  {
    var k := FirstCancel(cancel);
    var done := items[..k];
    var calls := Run(done, source).calls;
    RunCallsFromItems(done, source);
    assert forall i :: 0 <= i < |calls| ==> exists j :: 0 <= j < |done| && Dispatch(done[j]) == Query(calls[i]);
    forall i | 0 <= i < |calls|
      ensures exists j :: 0 <= j < k && Dispatch(items[j]) == Query(calls[i])
    {
      var j :| 0 <= j < |done| && Dispatch(done[j]) == Query(calls[i]);
      assert done[j] == items[j];
    }
  }

  /** A mod with a repository and no asset costs exactly one error naming it,
      makes no request and adds no download. */
  lemma MissingAssetRejected<D>(p: Progress<D>, item: RepairItem, source: SourceCall -> Reply<D>)
    requires item.mod.gitHubRepo != "" && item.mod.gitHubAsset == ""
    ensures Step(p, item, source) == p.(errors := p.errors + [MissingAssetError(item.mod.name)])
  {
  }

  /** A mod with neither a repository nor an update URL is passed over silently. */
  lemma NeitherSourceSkipped<D>(p: Progress<D>, item: RepairItem, source: SourceCall -> Reply<D>)
    requires item.mod.gitHubRepo == "" && item.mod.updateUrl == ""
    ensures Step(p, item, source) == p
  {
  }

  /** Some diff in `diffs` verified as unchanged and has `e` as its current entry. */
  ghost predicate UnchangedEntry(diffs: seq<ManifestDiff>, e: ManifestEntry)
  {
    exists i :: 0 <= i < |diffs| && diffs[i].state == Unchanged && diffs[i].current == e
  }

  lemma CurrentsConcat(a: seq<ManifestDiff>, b: seq<ManifestDiff>)
    ensures Currents(a + b) == Currents(a) + Currents(b)
  {
  }

  /** The manifest of one more diff in front. */
  lemma ManifestCons(d: ManifestDiff, t: seq<ManifestDiff>)
    ensures Currents(Filter(IsUnchanged, [d] + t))
            == (if IsUnchanged(d) then [d.current] else []) + Currents(Filter(IsUnchanged, t))
  {
    FilterCons(IsUnchanged, d, t);
    if IsUnchanged(d) {
      CurrentsConcat([d], Filter(IsUnchanged, t));
    } else {
      assert [] + Filter(IsUnchanged, t) == Filter(IsUnchanged, t);
    }
  }

  /** The current entries of the unchanged diffs are exactly the current
      entries of diffs whose state is `Unchanged`. */
  lemma {:induction false} UnchangedCurrents(diffs: seq<ManifestDiff>, m: seq<ManifestEntry>)
    requires m == Currents(Filter(IsUnchanged, diffs))
    ensures forall e :: e in m <==> UnchangedEntry(diffs, e)
  {
    if diffs != [] {
      var d, t := diffs[0], diffs[1..];
      assert diffs == [d] + t;
      ManifestCons(d, t);
      var m' := Currents(Filter(IsUnchanged, t));
      UnchangedCurrents(t, m');
      forall e ensures e in m <==> UnchangedEntry(diffs, e) {
        if e in m' {
          var i :| 0 <= i < |t| && t[i].state == Unchanged && t[i].current == e;
          assert diffs[i + 1] == t[i];
        }
        if UnchangedEntry(diffs, e) && !(IsUnchanged(d) && d.current == e) {
          var i :| 0 <= i < |diffs| && diffs[i].state == Unchanged && diffs[i].current == e;
          assert diffs[i] == t[i - 1];
          assert UnchangedEntry(t, e);
        }
      }
    }
  }
}
