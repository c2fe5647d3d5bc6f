/** The background worker that runs mod update passes, and the two modes it
    runs in: the default pass that asks every source whether a newer version
    exists, and the forced repair pass that the verify command wires in. The
    worker is created lazily, reused between passes, and discarded after a
    forced pass so that the next pass gets the default wiring again. */
module UpdateWorker {
  import opened Common

  /** A method subscribed to the worker's `DoWork` event: `DefaultCheck` is
      `UpdateChecker_DoWork`, `RepairCheck` is `UpdateChecker_DoWorkForced`. */
  datatype Handler = DefaultCheck | RepairCheck

  /** The worker: the `DoWork` invocation list, in subscription order. The
      two `RunWorkerCompleted` subscriptions never change and are left out. */
  datatype Worker = Worker(doWork: seq<Handler>)

  /** The form's update state: the worker (`updateChecker`, `None` for null),
      whether a pass is running, `modUpdater.ForceUpdate` and `manualModUpdate`. */
  datatype Updater = Updater(worker: Option<Worker>, busy: bool, forceUpdate: bool, manual: bool)

  /** The states the form can reach: a created worker runs either the default
      handler or, while a forced pass is in flight, the forced one; a pass only
      runs on a worker that exists. */
  predicate Valid(u: Updater)
  {
    && (u.busy ==> u.worker.Some?)
    && (u.worker.Some? ==> u.worker.value.doWork == [DefaultCheck] || u.worker.value.doWork == [RepairCheck])
    && (u.worker.Some? && u.worker.value.doWork == [RepairCheck] ==> u.forceUpdate && u.busy)
  }

  /** The form's state before any pass. */
  function Initial(): (u: Updater)
    ensures Valid(u) && u.worker.None? && !u.busy
  {
    Updater(None, false, false, false)
  }

  /** Removing a handler from a multicast delegate drops its last occurrence
      and keeps the rest in order. */
  function RemoveLast<T(==)>(s: seq<T>, x: T): (r: seq<T>)
    ensures x !in s ==> r == s
    ensures x in s ==> exists i :: 0 <= i < |s| && s[i] == x && x !in s[i + 1..] && r == s[..i] + s[i + 1..]
    decreases |s|
  {
    if s == [] then []
    else
      var n := |s| - 1;
      if s[n] == x then
        assert s[..n] + s[n + 1..] == s[..n];
        assert x !in s[n + 1..];
        s[..n]
      else
        var p := RemoveLast(s[..n], x);
        RemoveLastShift(s, x, p);
        p + [s[n]]
  }

  /** One step of `RemoveLast`: a last element that differs from `x` stays last. */
  lemma RemoveLastShift<T>(s: seq<T>, x: T, p: seq<T>)
    requires |s| > 0 && s[|s| - 1] != x
    requires var t := s[..|s| - 1];
             && (x !in t ==> p == t)
             && (x in t ==> exists i :: 0 <= i < |t| && t[i] == x && x !in t[i + 1..] && p == t[..i] + t[i + 1..])
    ensures x !in s ==> p + [s[|s| - 1]] == s
    ensures x in s ==>
      exists i :: 0 <= i < |s| && s[i] == x && x !in s[i + 1..] && p + [s[|s| - 1]] == s[..i] + s[i + 1..]
  {
    var n := |s| - 1;
    var t := s[..n];
    assert s == t + [s[n]];
    if x in s {
      assert x in t;
      var i :| 0 <= i < |t| && t[i] == x && x !in t[i + 1..] && p == t[..i] + t[i + 1..];
      RemoveLastShiftAt(s, x, p, i);
    }
  }

  /** `RemoveLastShift` once the removed position `i` is known. */
  lemma RemoveLastShiftAt<T>(s: seq<T>, x: T, p: seq<T>, i: int)
    requires |s| > 0 && s[|s| - 1] != x && 0 <= i < |s| - 1
    requires var t := s[..|s| - 1]; t[i] == x && x !in t[i + 1..] && p == t[..i] + t[i + 1..]
    ensures s[i] == x && x !in s[i + 1..] && p + [s[|s| - 1]] == s[..i] + s[i + 1..]
  {
    var n := |s| - 1;
    var t := s[..n];
    assert s[i + 1..] == t[i + 1..] + [s[n]];
    assert s[..i] == t[..i];
  }

  /** `InitializeWorker`: creates the worker with the default handler when
      there is none, and otherwise leaves everything as it is. */
  function InitializeWorker(u: Updater): (r: Updater)
    ensures r.worker.Some?
    ensures u.worker.Some? ==> r == u
    ensures u.worker.None? ==> r.worker.value.doWork == [DefaultCheck]
    ensures r.busy == u.busy && r.forceUpdate == u.forceUpdate && r.manual == u.manual
  {
    if u.worker.Some? then u
    else u.(worker := Some(Worker([DefaultCheck])))
  }

  /** Creating the worker twice is the same as creating it once. */
  lemma InitializeWorkerIdempotent(u: Updater)
    ensures InitializeWorker(InitializeWorker(u)) == InitializeWorker(u)
  {
  }

  /** What a call that may throw leaves behind: the state at the point it
      stopped, and whether it stopped by throwing. */
  datatype Attempt = Attempt(state: Updater, threw: bool)

  /** `RunWorkerAsync`: starts a pass, or throws when one is running, which
      leaves the worker as it was. */
  function RunWorker(u: Updater): (r: Attempt)
    requires u.worker.Some?
    ensures r.threw <==> u.busy
    ensures r.threw ==> r.state == u
    ensures !r.threw ==> r.state == u.(busy := true)
  {
    if u.busy then Attempt(u, true) else Attempt(u.(busy := true), false)
  }

  /** `UpdateSelectedMods`: a pass over the selected mods, marked as asked for
      by the user. The mark is set before `RunWorkerAsync`, so it stays even
      when a running pass makes that call throw. */
  function UpdateSelectedMods(u: Updater): (r: Attempt)
    ensures r.threw <==> u.busy
    ensures r.state.busy && r.state.manual && r.state.forceUpdate == u.forceUpdate
    ensures r.state.worker == InitializeWorker(u).worker
  {
    RunWorker(InitializeWorker(u).(manual := true))
  }

  /** `forceUpdateToolStripMenuItem_Click` after the user's answer: on "yes"
      the next pass is flagged as forced and started over the selected mods;
      the flag is set first, so it stays even when the start throws. */
  function ForceUpdateSelected(u: Updater, confirmed: bool): (r: Attempt)
    ensures !confirmed ==> r == Attempt(u, false)
    ensures confirmed ==> (r.threw <==> u.busy)
    ensures confirmed ==> r.state.forceUpdate && r.state.busy && r.state.manual
    ensures confirmed ==> r.state.worker == InitializeWorker(u).worker
  {
    if !confirmed then Attempt(u, false)
    else UpdateSelectedMods(u.(forceUpdate := true))
  }

  /** The repair branch of `verifyToolStripMenuItem_Click`, once some mods
      failed verification and the user agreed to repair them: the default
      handler is unsubscribed, the forced one subscribed, the pass started
      and then flagged as forced. */
  function StartRepair(u: Updater): (r: Option<Updater>)
    ensures r.None? <==> u.busy
    ensures r.Some? ==> r.value.busy && r.value.forceUpdate && r.value.manual == u.manual
    ensures r.Some? ==> r.value.worker.Some? && RepairCheck in r.value.worker.value.doWork
  {
    var w := InitializeWorker(u).worker.value;
    var wired := InitializeWorker(u).(worker := Some(Worker(RemoveLast(w.doWork, DefaultCheck) + [RepairCheck])));
    var run := RunWorker(wired);
    if run.threw then None else Some(run.state.(forceUpdate := true))
  }

  /** The part of `UpdateChecker_RunWorkerCompleted` that touches the update
      state: after a forced pass the worker is discarded and the flag cleared;
      a pass that was not cancelled and produced a result clears
      `manualModUpdate`. */
  function Completed(u: Updater, cancelled: bool, hasResult: bool): (r: Updater)
    requires u.busy
    ensures !r.busy
    ensures u.forceUpdate ==> r.worker.None? && !r.forceUpdate
    ensures !u.forceUpdate ==> r.worker == u.worker && !r.forceUpdate
    ensures r.manual == (u.manual && (cancelled || !hasResult))
  {
    var v := if u.forceUpdate then u.(worker := None, forceUpdate := false) else u;
    var v := v.(busy := false);
    if cancelled || !hasResult then v else v.(manual := false)
  }

  /** Every transition of the worker's own handlers keeps the form in a reachable state. */
  lemma TransitionsKeepValid(u: Updater, confirmed: bool, cancelled: bool, hasResult: bool)
    requires Valid(u)
    ensures Valid(InitializeWorker(u))
    ensures Valid(UpdateSelectedMods(u).state)
    ensures Valid(ForceUpdateSelected(u, confirmed).state)
    ensures StartRepair(u).Some? ==> Valid(StartRepair(u).value)
    ensures u.busy ==> Valid(Completed(u, cancelled, hasResult))
  {
    if !u.busy && u.worker.Some? {
      assert u.worker.value.doWork == [DefaultCheck];
      assert RemoveLast([DefaultCheck], DefaultCheck) + [RepairCheck] == [RepairCheck];
    }
  }

  /** A repair pass runs the forced handler alone; once it completes, the next
      pass is wired with the default handler alone. */
  lemma RepairThenDefault(u: Updater, cancelled: bool, hasResult: bool)
    requires Valid(u) && !u.busy
    ensures StartRepair(u).Some?
    ensures StartRepair(u).value.worker == Some(Worker([RepairCheck]))
    ensures InitializeWorker(Completed(StartRepair(u).value, cancelled, hasResult)).worker
            == Some(Worker([DefaultCheck]))
  {
    assert InitializeWorker(u).worker.value.doWork == [DefaultCheck];
    assert RemoveLast([DefaultCheck], DefaultCheck) + [RepairCheck] == [RepairCheck];
  }

  /** A pass started from the menus (not a repair) always runs the default handler. */
  lemma SelectedPassIsDefault(u: Updater, confirmed: bool)
    requires Valid(u) && !u.busy
    ensures !UpdateSelectedMods(u).threw && UpdateSelectedMods(u).state.worker == Some(Worker([DefaultCheck]))
    ensures confirmed ==>
      !ForceUpdateSelected(u, confirmed).threw &&
      ForceUpdateSelected(u, confirmed).state.worker == Some(Worker([DefaultCheck]))
  {
  }
}
