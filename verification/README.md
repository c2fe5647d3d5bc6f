# SADX Mod Manager: the main form's decision logic

This project models the parts of `SADXModManager/MainForm.cs`, the main window of
the SADX Mod Manager, that make decisions rather than draw controls or touch files.
Each part is a pure function or a small method over sequences and records, and the
project proves properties about them:

- **The mod list** (`ModList`, `Mods`). `LoadModList` merges the enabled-mod order
  saved in the loader ini with the installed mods. `Save` writes the ticked mods
  back. Ticking a mod reloads the cheat codes.
- **Moving mods** (`ModOrder`). The up and down buttons move the selected rows one
  place. This is modelled as a reference scan (`MoveUp`, `MoveDown`) and as walks
  over positions (`MoveSelectedUp`, `MoveSelectedDown`), proved equal to the scan.
  That these walks match the buttons' loops over the selected items is argued,
  not proved.
- **Cheat codes and patches** (`Codes`). Enabled codes are reconciled against the
  loaded codes. Ticking one entry of the code list edits the list. `Save` splits
  the ticked entries into patches and codes.
- **Update scheduling** (`UpdateSchedule`). `UpdateTimeElapsed` checks the interval.
  The loader-update and mod-update checks use it as a gate, after converting the
  stored file time. The "check for updates" button chains the two gates.
- **The update worker** (`UpdateWorker`). The worker is created lazily, can be
  rewired for a forced repair, and is discarded after a forced pass.
- **The forced repair pass** (`ForcedRepair`). `UpdateChecker_DoWorkForced` dispatches
  each mod that failed verification to its update source, in order, and stops when
  the worker is cancelled.

`Common` holds the list vocabulary the modules share: filtering, removal of a first
occurrence, reversal, and "no repeats".

Inputs from outside the form are parameters:

- the installed mods found on disk (`installed`)
- the code files the form reads (`readCodes`)
- the current time (`now`, as a file time: 100 ns ticks since 1601)
- the worker's pending cancellation before each mod (`cancel`)
- the two update sources (`source`)
- the user's answer to a confirmation box (`confirmed`)
- whether the loader check went on to start a loader update (`loaderUpdating`)

## Model

| member | source | states |
|---|---|---|
| UpdateSchedule.UpdateTimeElapsed | SADXModManager/MainForm.cs:49-72 | the test throws exactly when the unit is none of Always, Hours, Days and Weeks |
| UpdateSchedule.IntervalTest | SADXModManager/MainForm.cs:248 | the test made on a stored time throws iff the time is outside the range `DateTime.FromFileTimeUtc` accepts or the unit is undefined, and otherwise is `UpdateTimeElapsed` on that time |
| UpdateSchedule.AlwaysElapsed | SADXModManager/MainForm.cs:51-54 | `Always` has elapsed for every start time, amount and current time |
| UpdateSchedule.ElapsedInTicks | SADXModManager/MainForm.cs:56-67 | for Hours, Days and Weeks, the interval has elapsed exactly when at least `amount` unit lengths of ticks lie between start and now |
| UpdateSchedule.WeeksAreSevenDays | SADXModManager/MainForm.cs:62-67 | n weeks have elapsed exactly when 7n days have |
| UpdateSchedule.DaysAreTwentyFourHours | SADXModManager/MainForm.cs:59-64 | n days have elapsed exactly when 24n hours have |
| UpdateSchedule.ElapsedStaysElapsed | SADXModManager/MainForm.cs:49-72 | once the interval has elapsed for a start time, it stays elapsed at every later time |
| UpdateSchedule.NothingElapsedAtStart | SADXModManager/MainForm.cs:56-67 | with a positive amount, nothing has elapsed at the start instant itself |
| UpdateSchedule.CheckForUpdates | SADXModManager/MainForm.cs:241-254 | the check throws iff it is unforced and enabled and the stored time is out of the file-time range or the unit is undefined, and then nothing has been written; it runs iff it is forced, or checks are on and the interval since a convertible stored time has elapsed; a check that does not run leaves the state alone; one that runs sets the flag and stamps the time with now |
| UpdateSchedule.CheckForModUpdates | SADXModManager/MainForm.cs:312-328 | with mod checks off and no force nothing changes; otherwise the worker is created even when the interval has not elapsed or a later step throws; the call throws iff an unforced check finds the stored time out of the file-time range or the unit undefined, or a pass is due while one is running; when a pass is due the flag is set and the mod-check time stamped, even if the start then throws; a pass starts iff one is due and none is running, and only then does the worker become busy |
| UpdateSchedule.ModCheckKeepsValid | SADXModManager/MainForm.cs:312-328 | the mod-update check keeps the form in a reachable state: a running pass has a worker, and the forced handler is wired in only while a forced pass runs |
| UpdateSchedule.CheckButton | SADXModManager/MainForm.cs:1107-1118 | the loader check always runs and stamps its time; when it starts a loader update the handler stops with the worker untouched; otherwise the mod pass is marked manual before the forced mod check, so it throws iff a pass is running, starts iff none is, and either way leaves a busy, manual worker and both times stamped |
| UpdateSchedule.CheckButtonKeepsValid | SADXModManager/MainForm.cs:1107-1118 | the button keeps the form in a reachable state: a running pass has a worker, and the forced handler is wired in only while a forced pass runs |
| UpdateSchedule.LoaderRecheckWaits | SADXModManager/MainForm.cs:246-252 | the time a check stamps holds off a second unforced check at the same instant |
| UpdateSchedule.ModRecheckWaits | SADXModManager/MainForm.cs:319-325 | the time a mod check stamps holds off a second unforced mod check at the same instant |
| UpdateSchedule.ForcedCheckRuns | SADXModManager/MainForm.cs:241-254 | a forced loader check always runs; a forced mod check always starts a pass when no pass is running |
| UpdateWorker.Initial | SADXModManager/MainForm.cs:44-46 | the form starts with no worker, no pass and a reachable state |
| UpdateWorker.InitializeWorker | SADXModManager/MainForm.cs:289-300 | an existing worker is kept as it is; a new one runs the default handler alone; the flags are untouched |
| UpdateWorker.InitializeWorkerIdempotent | SADXModManager/MainForm.cs:289-300 | creating the worker twice is the same as creating it once |
| UpdateWorker.RunWorker | SADXModManager/MainForm.cs:328 | starting a pass fails iff one is running, and otherwise only marks the worker busy |
| UpdateWorker.RemoveLast | SADXModManager/MainForm.cs:1091 | removing a handler that is absent changes nothing; removing one that is present drops its last occurrence and keeps every other entry in order |
| UpdateWorker.UpdateSelectedMods | SADXModManager/MainForm.cs:1018-1026 | the start throws iff a pass is running; either way the worker exists, is busy and is marked manual, because the mark is set before the start, and the force flag is as it was |
| UpdateWorker.ForceUpdateSelected | SADXModManager/MainForm.cs:1033-1046 | without confirmation nothing changes and nothing throws; with it the start throws iff a pass is running, and either way the force and manual flags are set and the worker is created and busy |
| UpdateWorker.StartRepair | SADXModManager/MainForm.cs:1089-1096 | the repair fails iff a pass is running; otherwise the forced handler is subscribed, the pass runs and is flagged forced |
| UpdateWorker.Completed | SADXModManager/MainForm.cs:332-360 | completion ends the pass; after a forced pass the worker is discarded and the flag cleared, otherwise the worker is kept; the manual flag survives only a cancelled pass or one without a result |
| UpdateWorker.TransitionsKeepValid | SADXModManager/MainForm.cs:289-360 | every handler of the worker itself (creation, a menu pass, a forced pass, a repair start and completion) keeps the form in a reachable state: a running pass has a worker, and the forced handler is wired in only while a forced pass runs |
| UpdateWorker.RepairThenDefault | SADXModManager/MainForm.cs:1089-1096 | a repair pass runs the forced handler alone, and once it completes the next pass gets the default handler alone |
| UpdateWorker.SelectedPassIsDefault | SADXModManager/MainForm.cs:1018-1046 | a pass started from the menus runs the default handler alone |
| Mods.Lookup | SADXModManager/MainForm.cs:205 | `mods[dir]` is the ini of an installed mod with that directory |
| ModList.LoadModList | SADXModManager/MainForm.cs:187-239 | the rows are the installed saved mods (ticked, saved order) then the other installed mods (unticked, discovery order); `Mods` loses its uninstalled entries; codes are the main codes then each kept mod's codes; the enabled codes are reconciled and the code boxes ticked by name |
| ModList.SaveModList | SADXModManager/MainForm.cs:604-609 | `Mods` holds a tag iff some ticked row carries it, and no more entries than there are rows |
| ModList.CodeChecks | SADXModManager/MainForm.cs:235-236 | entry i of the code list box is ticked exactly when that code's name is enabled |
| ModList.ListSavedMods | SADXModManager/MainForm.cs:201-218 | walking a copy of the saved list, `Mods` ends up as the saved list without uninstalled entries, every kept mod has a ticked row, and its codes follow the main codes in saved order |
| ModList.ListOtherMods | SADXModManager/MainForm.cs:220-224 | every installed mod missing from `Mods` gets an unticked row, in discovery order, after the rows already there |
| ModList.LoadThenSave | SADXModManager/MainForm.cs:201-224 | saving straight after loading rewrites `Mods` as the old list with its uninstalled entries removed and its order kept |
| ModList.LoadedRowsCoverInstalled | SADXModManager/MainForm.cs:201-224 | the loaded list shows exactly the installed mods, and no ticked row follows an unticked one |
| ModList.LoadedRowsNoDups | SADXModManager/MainForm.cs:201-224 | with no repeats in the saved list and the directories, every installed mod is shown exactly once |
| ModList.OnModCheck | SADXModManager/MainForm.cs:837-864 | while events are suppressed nothing happens; otherwise the codes are the main codes then those of the ticked mods after the change; the enabled list is the old one reconciled against those codes, so every enabled code is loaded and every required code is enabled; the boxes are ticked by name |
| ModList.ModsAfterCheck | SADXModManager/MainForm.cs:842-848 | ticking appends the row's tag after the saved list; unticking takes one copy of the tag out of it |
| ModList.ModCodes | SADXModManager/MainForm.cs:849-855 | every code loaded for a list of mods was read from the code file of an installed mod in that list |
| ModList.TickThenUntick | SADXModManager/MainForm.cs:842-848 | with no repeated tags, unticking a mod right after ticking it gives back the saved list from before the tick |
| ModList.TickThenUntickCodes | SADXModManager/MainForm.cs:837-858 | and so the codes that reload loads are the main codes followed by the codes of the mods saved before the tick |
| ModList.TickedModCodesLast | SADXModManager/MainForm.cs:843-855 | ticking an installed mod with a code file puts that file's codes at the end of the code list |
| Codes.AddRequired | SADXModManager/MainForm.cs:229-230 | the enabled list is kept as a prefix and every required code's name ends up in it |
| Codes.AddRequiredOnlyRequired | SADXModManager/MainForm.cs:229-230 | only names of required codes are appended |
| Codes.AddRequiredNoDups | SADXModManager/MainForm.cs:229-230 | a list without repeats gets no repeats from the appended names |
| Codes.AddRequiredNoop | SADXModManager/MainForm.cs:229-230 | when every required name is already enabled nothing is appended |
| Codes.Reconcile | SADXModManager/MainForm.cs:228-230 | the still-loaded enabled names come first, in their old order, followed only by required names; every enabled name is a loaded code's name, every required code is enabled, nothing outside the old list and the required names gets enabled, and no repeats are introduced |
| Codes.ReconcileIdempotent | SADXModManager/MainForm.cs:856-858 | reconciling a reconciled list against the same codes changes nothing |
| Codes.OnCodeCheck | SADXModManager/MainForm.cs:820-835 | a required code is forced to Checked; unchecking removes the first copy of the name and keeps the rest in order, changes nothing when the name is absent, and leaves no copy when there were no repeats; checking appends the name iff it is absent and otherwise changes nothing; no repeats are introduced |
| Codes.CheckThenUncheck | SADXModManager/MainForm.cs:820-835 | ticking a code that is not required and not enabled, then unticking it, restores the enabled list |
| Codes.SplitTicked | SADXModManager/MainForm.cs:640-649 | the patch file gets exactly the ticked patches and the code file exactly the other ticked entries, both in list order |
| Codes.Ticked | SADXModManager/MainForm.cs:643 | every ticked code is in the list, and every code in it is a ticked one |
| Codes.SplitPartitions | SADXModManager/MainForm.cs:643-649 | patches and codes together are a rearrangement of the ticked entries |
| ModOrder.MoveSelectedUp | SADXModManager/MainForm.cs:556-577 | a walk over the positions from the top, which swaps a selected row with an unselected row directly above it, produces the reference scan `MoveUp` |
| ModOrder.MoveSelectedDown | SADXModManager/MainForm.cs:579-600 | a walk over the positions from the bottom, which swaps a selected row with an unselected row directly below it, produces the reference scan `MoveDown` |
| ModOrder.MoveUpKeepsOrder | SADXModManager/MainForm.cs:563-573 | moving up keeps the selected rows in their relative order and the unselected rows in theirs |
| ModOrder.MoveUpPermutes | SADXModManager/MainForm.cs:563-573 | moving up is a rearrangement of the rows |
| ModOrder.MoveUpSelectedStep | SADXModManager/MainForm.cs:563-573 | a selected row moves up exactly one place when some row above it is unselected, and otherwise stays put |
| ModOrder.MoveUpFixed | SADXModManager/MainForm.cs:563-573 | the up button changes nothing iff the selected rows already form a block at the top |
| ModOrder.MoveDownMirrorsUp | SADXModManager/MainForm.cs:586-596 | the down button is the up button applied to the list read bottom to top |
| ModOrder.MoveDownKeepsOrder | SADXModManager/MainForm.cs:586-596 | moving down keeps both relative orders and is a rearrangement of the rows |
| ModOrder.MoveDownSelectedStep | SADXModManager/MainForm.cs:586-596 | a selected row moves down exactly one place when some row below it is unselected, and otherwise stays put |
| ModOrder.MoveDownFixed | SADXModManager/MainForm.cs:586-596 | the down button changes nothing iff the selected rows already form a block at the bottom |
| ModOrder.BottomMirrorsTop | SADXModManager/MainForm.cs:579-600 | the selected rows form a block at the bottom iff they form one at the top of the reversed list |
| ForcedRepair.RepairPass | SADXModManager/MainForm.cs:477-533 | a missing or empty argument leaves no result; otherwise the mods before the first pending cancellation are processed in order, and `Cancel` is set iff a cancellation stopped the loop |
| ForcedRepair.Dispatch | SADXModManager/MainForm.cs:503-528 | a repository without an asset is rejected with an error; a repository wins over an update URL; the modular source gets the local manifest; a mod with neither is skipped |
| ForcedRepair.Step | SADXModManager/MainForm.cs:503-528 | one mod appends at most one download, and only when a source was asked; updates, errors and requests only grow at the end |
| ForcedRepair.MissingAssetError | SADXModManager/MainForm.cs:508 | the error for a missing asset begins with the mod's name in brackets |
| ForcedRepair.FirstCancel | SADXModManager/MainForm.cs:496-500 | the first index at which a cancellation is pending, or the number of mods when none is |
| ForcedRepair.Run | SADXModManager/MainForm.cs:494-529 | a pass yields no more downloads than requests, and no more requests than mods |
| ForcedRepair.RunExtends | SADXModManager/MainForm.cs:494-529 | processing more mods only appends: what earlier mods produced stays at the front, in order |
| ForcedRepair.RunCallsFromItems | SADXModManager/MainForm.cs:503-528 | every request a pass makes is the dispatch of one of its mods |
| ForcedRepair.CancelStopsRequests | SADXModManager/MainForm.cs:496-500 | every request is for a mod before the first pending cancellation, so no later mod is queried |
| ForcedRepair.MissingAssetRejected | SADXModManager/MainForm.cs:506-510 | a repository without an asset adds exactly one error naming the mod, makes no request and adds no download |
| ForcedRepair.NeitherSourceSkipped | SADXModManager/MainForm.cs:503-528 | a mod with neither a repository nor an update URL leaves the pass unchanged |
| ForcedRepair.LocalManifest | SADXModManager/MainForm.cs:519-521 | the manifest handed to the modular source holds exactly the current entries of the files whose state is Unchanged, and no more entries than there are diffs |

## Left out

- Everything on screen is left out because it is UI: rendering, message boxes and the dialogs (update, download, verify and manifest dialogs). The form's choices that depend on a dialog are inputs.
- The warning box for a saved mod that is no longer installed is left out because it is UI only. The removal it announces is modelled.
- `EnsureVisible` after a move is left out because it is UI only.
- File, ini, XML, `.dat` and network I/O is left out. This covers reading and writing the loader ini, `CodeList.Load` (the `readCodes` parameter) and `CodeList.WriteDatFile` (the split lists are the result). It also covers the `sadxmlver.txt` check and changelog download that follow the loader-update gate.
- The loader DLL's MD5 comparison, install and uninstall, `Process.Start`, the aspect-ratio decimal maths and screen presets are left out because they are outside the decision logic.
- `UpdateChecker_DoWork` is left out. Its `Task` and `DoEvents` polling is concurrency plumbing, and its per-mod work lives in the update library. The rest of `UpdateChecker_RunWorkerCompleted` (error box, update dialog, download) is UI.
- Disabling `buttonCheckForUpdates` (lines 1109 and 329) is left out because it is UI only.
- The update sources and the manifest diff are not part of this model. Their code lives outside this file. `source` is a single function from request to reply, the download type is a parameter, and `ManifestDiff` keeps only the state and the current entry.
- UpdateSchedule.UpdateTimeElapsed: `TotalHours` and `TotalDays` are doubles in the form. The model divides exactly over the reals, so rounding near a boundary is not modelled.
- UpdateSchedule.CheckForUpdates: the form reads `DateTime.UtcNow` twice, once in the test (line 56) and once in the stamp (line 254). The model uses one instant `now` for both.
- UpdateSchedule.CheckForModUpdates: the form reads `DateTime.UtcNow` twice, once in the test (line 56) and once in the stamp (line 327). The model uses one instant `now` for both.
- UpdateWorker.StartRepair: on a busy worker, the form has rewired the handlers before `RunWorkerAsync` throws. The model returns `None` and keeps none of that partial change.
- ModOrder.MoveSelectedUp: the method walks positions from the top, while the button walks the selected items. A move never reorders the selected items and touches only the two places involved, so both walks visit the same rows in the same state. This is argued in a comment, not proved.
- ModOrder.MoveSelectedDown: the same gap for the walk from the bottom.
- `Mods` is a list of installed mods in discovery order. The form's dictionary cannot hold a key twice. The model does not assume that, and `Lookup` picks the first match. `LoadedRowsNoDups` takes the no-repeat property as a precondition.
