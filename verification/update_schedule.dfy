/** When the manager looks for a new loader and for mod updates: the interval
    test `UpdateTimeElapsed` and the two gates built on it. Time is a file
    time in 100-nanosecond ticks; `now` stands for `DateTime.UtcNow`. */
module UpdateSchedule {
  import opened Common
  import opened UpdateWorker

  /** The interval unit stored in the loader ini. `Undefined` holds any other
      value the integer field may carry, which the enum cast lets through. */
  datatype UpdateUnit = Always | Hours | Days | Weeks | Undefined(raw: int)

  const TicksPerHour: int := 36_000_000_000
  const TicksPerDay: int := 24 * TicksPerHour

  /** `UpdateTimeElapsed`: whether `amount` units have passed since `start`.
      `TimeSpan.TotalHours` and `TotalDays` are read as exact quotients.
      `None` is the `ArgumentOutOfRangeException` for an undefined unit. */
  function UpdateTimeElapsed(unit: UpdateUnit, amount: int, start: int, now: int): (r: Option<bool>)
    ensures r.None? <==> unit.Undefined?
  {
    var span := (now - start) as real;
    match unit
    case Always => Some(true)
    case Hours => Some(span / TicksPerHour as real >= amount as real)
    case Days => Some(span / TicksPerDay as real >= amount as real)
    case Weeks => Some(span / TicksPerDay as real / 7.0 >= amount as real)
    case Undefined(_) => None
  }

  /** The length of one unit in ticks, for the units that have one. */
  function UnitTicks(unit: UpdateUnit): (t: int)
    requires unit.Hours? || unit.Days? || unit.Weeks?
    ensures t > 0
  {
    match unit
    case Hours => TicksPerHour
    case Days => TicksPerDay
    case Weeks => 7 * TicksPerDay
  }

  /** `Always` has always elapsed, whatever the start and the amount. */
  lemma AlwaysElapsed(amount: int, start: int, now: int)
    ensures UpdateTimeElapsed(Always, amount, start, now) == Some(true)
  {
  }

  /** For a unit with a length, the test is a comparison of whole ticks:
      at least `amount` unit lengths lie between `start` and `now`. */
  lemma ElapsedInTicks(unit: UpdateUnit, amount: int, start: int, now: int)
    requires unit.Hours? || unit.Days? || unit.Weeks?
    ensures UpdateTimeElapsed(unit, amount, start, now) == Some(now - start >= amount * UnitTicks(unit))
  {
    var span := (now - start) as real;
    var len := UnitTicks(unit) as real;
    QuotientAtLeast(span, len, amount as real);
    assert (amount * UnitTicks(unit)) as real == amount as real * len;
    if unit.Weeks? {
      assert span / TicksPerDay as real / 7.0 == span / len;
    }
  }

  lemma QuotientAtLeast(x: real, d: real, a: real)
    requires d > 0.0
    ensures x / d >= a <==> x >= a * d
  {
    assert x == (x / d) * d;
  }

  /** `n` weeks have elapsed exactly when `7n` days have. */
  lemma WeeksAreSevenDays(n: int, start: int, now: int)
    ensures UpdateTimeElapsed(Weeks, n, start, now) == UpdateTimeElapsed(Days, 7 * n, start, now)
  {
    ElapsedInTicks(Weeks, n, start, now);
    ElapsedInTicks(Days, 7 * n, start, now);
  }

  /** `n` days have elapsed exactly when `24n` hours have. */
  lemma DaysAreTwentyFourHours(n: int, start: int, now: int)
    ensures UpdateTimeElapsed(Days, n, start, now) == UpdateTimeElapsed(Hours, 24 * n, start, now)
  {
    ElapsedInTicks(Days, n, start, now);
    ElapsedInTicks(Hours, 24 * n, start, now);
  }

  /** Once the interval has elapsed it stays elapsed as time goes on. */
  lemma ElapsedStaysElapsed(unit: UpdateUnit, amount: int, start: int, now: int, later: int)
    requires now <= later
    requires UpdateTimeElapsed(unit, amount, start, now) == Some(true)
    ensures UpdateTimeElapsed(unit, amount, start, later) == Some(true)
  {
    if !unit.Always? {
      ElapsedInTicks(unit, amount, start, now);
      ElapsedInTicks(unit, amount, start, later);
    }
  }

  /** With a positive amount, no time has elapsed at the start instant itself. */
  lemma NothingElapsedAtStart(unit: UpdateUnit, amount: int, t: int)
    requires unit.Hours? || unit.Days? || unit.Weeks?
    requires amount > 0
    ensures UpdateTimeElapsed(unit, amount, t, t) == Some(false)
  {
    ElapsedInTicks(unit, amount, t, t);
  }

  /** The loader ini settings the gates read and write. */
  datatype LoaderIni = LoaderIni(
    updateCheck: bool,
    modUpdateCheck: bool,
    updateUnit: UpdateUnit,
    updateFrequency: int,
    updateTime: int,     // file time of the last loader check
    modUpdateTime: int)  // file time of the last mod check

  /** The settings, the form's `checkedForUpdates` flag and the update worker. */
  datatype Schedule = Schedule(ini: LoaderIni, checkedForUpdates: bool, updater: Updater)

  /** The state a gate leaves behind, whether the check went ahead, and
      whether it ended in an exception (with the state as written up to it). */
  datatype Gate = Gate(state: Schedule, ran: bool, threw: bool)

  /** The largest file time `DateTime.FromFileTimeUtc` accepts: that of
      `DateTime.MaxValue`, in 100 ns ticks since 1 January 1601. */
  const MaxFileTime: int := 2650467743999999999

  /** `DateTime.FromFileTimeUtc` throws outside this range. */
  predicate InFileTimeRange(t: int)
  {
    0 <= t <= MaxFileTime
  }

  /** The interval test a gate makes on a stored time: converting the time
      throws when it is out of range, before the unit is looked at; then
      `UpdateTimeElapsed` decides, throwing on an undefined unit. */
  function IntervalTest(ini: LoaderIni, last: int, now: int): (r: Option<bool>)
    ensures r.None? <==> !InFileTimeRange(last) || ini.updateUnit.Undefined?
    ensures InFileTimeRange(last) ==> r == UpdateTimeElapsed(ini.updateUnit, ini.updateFrequency, last, now)
  {
    if !InFileTimeRange(last) then None
    else UpdateTimeElapsed(ini.updateUnit, ini.updateFrequency, last, now)
  }

  /** The stored time converts and the interval since it has elapsed under
      the ini's unit and frequency. */
  predicate Elapsed(ini: LoaderIni, last: int, now: int)
  {
    InFileTimeRange(last) && UpdateTimeElapsed(ini.updateUnit, ini.updateFrequency, last, now) == Some(true)
  }

  /** The gate at the top of `CheckForUpdates`: a check goes ahead when
      forced, or when checks are on and the interval since the last one has
      elapsed; a check that goes ahead sets the flag and stamps the time. The
      interval test throws on a stored time out of range or an undefined unit
      before anything is written.
      The changelog download and the dialog that follow are left out. */
  function CheckForUpdates(force: bool, st: Schedule, now: int): (r: Gate)
    ensures r.threw <==> !force && st.ini.updateCheck && (!InFileTimeRange(st.ini.updateTime) || st.ini.updateUnit.Undefined?)
    ensures r.ran <==> force || (st.ini.updateCheck && Elapsed(st.ini, st.ini.updateTime, now))
    ensures !r.ran ==> r.state == st
    ensures r.ran ==> r.state == st.(ini := st.ini.(updateTime := now), checkedForUpdates := true)
  {
    var ini := st.ini;
    var run := Gate(st.(ini := ini.(updateTime := now), checkedForUpdates := true), true, false);
    if !force && !ini.updateCheck then Gate(st, false, false)
    else if force then run
    else
      match IntervalTest(ini, ini.updateTime, now)
      case None => Gate(st, false, true)
      case Some(elapsed) => if elapsed then run else Gate(st, false, false)
  }

  /** `CheckForModUpdates`: when forced or when mod checks are on, the worker
      is created; then, when forced or when the interval since the last mod
      check has elapsed, the flag is set, the time stamped and the pass
      started. The interval test throws on a stored time out of range or an
      undefined unit after the worker is created; `RunWorkerAsync` throws on a running pass after the stamp. */
  function CheckForModUpdates(force: bool, st: Schedule, now: int): (r: Gate)
    ensures !force && !st.ini.modUpdateCheck ==> r == Gate(st, false, false)
    ensures r.threw <==>
      (!force && st.ini.modUpdateCheck && (!InFileTimeRange(st.ini.modUpdateTime) || st.ini.updateUnit.Undefined?)) ||
      ((force || (st.ini.modUpdateCheck && Elapsed(st.ini, st.ini.modUpdateTime, now))) && st.updater.busy)
    ensures r.ran <==> (force || (st.ini.modUpdateCheck && Elapsed(st.ini, st.ini.modUpdateTime, now))) && !st.updater.busy
    ensures force || st.ini.modUpdateCheck ==> r.state.updater.worker == InitializeWorker(st.updater).worker
    ensures force || (st.ini.modUpdateCheck && Elapsed(st.ini, st.ini.modUpdateTime, now)) ==>
      r.state.ini == st.ini.(modUpdateTime := now) && r.state.checkedForUpdates
    ensures !(force || (st.ini.modUpdateCheck && Elapsed(st.ini, st.ini.modUpdateTime, now))) ==>
      r.state.ini == st.ini && r.state.checkedForUpdates == st.checkedForUpdates
    ensures r.ran ==> r.state.updater == InitializeWorker(st.updater).(busy := true)
    ensures !r.ran && (force || st.ini.modUpdateCheck) ==> r.state.updater == InitializeWorker(st.updater)
  {
    var ini := st.ini;
    if !force && !ini.modUpdateCheck then Gate(st, false, false)
    else
      var st1 := st.(updater := InitializeWorker(st.updater));
      var elapsed := if force then Some(true)
                     else IntervalTest(ini, ini.modUpdateTime, now);
      match elapsed
      case None => Gate(st1, false, true)
      case Some(go) =>
        if !go then Gate(st1, false, false)
        else
          var run := RunWorker(st1.updater);
          Gate(st1.(ini := ini.(modUpdateTime := now), checkedForUpdates := true, updater := run.state),
               !run.threw, run.threw)
  }

  /** The timestamp a check writes holds off the next unforced check at the
      same instant, for any unit with a length and a positive amount. */
  lemma LoaderRecheckWaits(st: Schedule, now: int)
    requires st.ini.updateUnit.Hours? || st.ini.updateUnit.Days? || st.ini.updateUnit.Weeks?
    requires st.ini.updateFrequency > 0 && InFileTimeRange(now)
    requires CheckForUpdates(false, st, now).ran
    ensures var after := CheckForUpdates(false, st, now).state;
            CheckForUpdates(false, after, now) == Gate(after, false, false)
  {
    NothingElapsedAtStart(st.ini.updateUnit, st.ini.updateFrequency, now);
  }

  /** The same for mod checks: a second unforced mod check at the instant of
      the first starts no pass, and leaves the settings as they are. */
  lemma ModRecheckWaits(st: Schedule, now: int)
    requires st.ini.updateUnit.Hours? || st.ini.updateUnit.Days? || st.ini.updateUnit.Weeks?
    requires st.ini.updateFrequency > 0 && InFileTimeRange(now)
    requires CheckForModUpdates(false, st, now).ran
    ensures var after := CheckForModUpdates(false, st, now).state;
            CheckForModUpdates(false, after, now) == Gate(after, false, false)
  {
    NothingElapsedAtStart(st.ini.updateUnit, st.ini.updateFrequency, now);
  }

  /** A mod check keeps the update state reachable, whether it starts a
      pass, stops at the gate or throws. */
  lemma ModCheckKeepsValid(force: bool, st: Schedule, now: int)
    requires Valid(st.updater)
    ensures Valid(CheckForModUpdates(force, st, now).state.updater)
  {
    TransitionsKeepValid(st.updater, false, false, false);
  }

  /** `buttonCheckForUpdates_Click`: a forced loader check; when it reports
      a loader update (`loaderUpdating`, decided by the download and dialogs
      that follow the gate) the handler stops there, and otherwise it marks
      the next pass as asked for by the user and runs the forced mod check.
      Here `ran` says whether a mod pass started. */
  function CheckButton(st: Schedule, now: int, loaderUpdating: bool): (r: Gate)
    ensures r.state.checkedForUpdates && r.state.ini.updateTime == now
    ensures loaderUpdating ==>
      !r.ran && !r.threw && r.state.ini == st.ini.(updateTime := now) && r.state.updater == st.updater
    ensures !loaderUpdating ==> (r.threw <==> st.updater.busy) && (r.ran <==> !st.updater.busy)
    ensures !loaderUpdating ==>
      r.state.ini == st.ini.(updateTime := now, modUpdateTime := now) &&
      r.state.updater.worker == InitializeWorker(st.updater).worker &&
      r.state.updater.busy && r.state.updater.manual && r.state.updater.forceUpdate == st.updater.forceUpdate
  {
    var loader := CheckForUpdates(true, st, now);
    if loaderUpdating then loader.(ran := false)
    else
      var marked := loader.state.(updater := loader.state.updater.(manual := true));
      CheckForModUpdates(true, marked, now)
  }

  /** The button keeps the update state reachable, like every other way of
      starting a pass. */
  lemma CheckButtonKeepsValid(st: Schedule, now: int, loaderUpdating: bool)
    requires Valid(st.updater)
    ensures Valid(CheckButton(st, now, loaderUpdating).state.updater)
  {
    var marked := st.updater.(manual := true);
    assert Valid(marked);
    ModCheckKeepsValid(true, st.(ini := st.ini.(updateTime := now), checkedForUpdates := true, updater := marked), now);
  }

  /** A forced check always goes ahead, whatever the settings say. */
  lemma ForcedCheckRuns(st: Schedule, now: int)
    ensures CheckForUpdates(true, st, now).ran
    ensures !st.updater.busy ==> CheckForModUpdates(true, st, now).ran
  {
  }
}
