# Window registry of the retro desktop

A Dafny model of `useWindowsStore` in `src/stores/windows.ts`. This is the in-memory registry behind the
portfolio's Windows-XP-style sub-experience. The store holds three fields:

- `windows`: an ordered list of `{id, title, minimized, z}` records;
- `activeId`: the focused window's id, or none;
- `nextZ`: the next stacking value to hand out, starting at 1.

Five actions overwrite these fields: `openWindow`, `focusWindow`, `minimizeWindow`, `toggleTaskbarClick`
and `closeWindow`.

Files:

- `windows.dfy` (module `Windows`): the records, the state, and each action as a pure function from the
  old state to the new one. The function bodies follow the source's `find`, `map`, `filter` and `reduce`.
  `Find`, `Without` (the filter) and `ReduceMaxZ` (the reduce) state their meaning in their own contracts.
- `windows_properties.dfy` (module `WindowsProperties`): the registry invariant `Wf` (distinct ids,
  distinct stacking values, every stacking value in `[1, nextZ)`), the partial invariant `ActiveShown`,
  and the lemmas for each action.
- `windows_runs.dfy` (module `WindowsRuns`): sequences of intents. Every reachable state is well formed
  and the counter never goes down. Runs without `close`, and without `focus` of unknown ids, keep the
  active id on a visible window.
- `windows_store.dfy` (module `WindowsStore`): the store as a class with the three mutable fields.
  Each method's postcondition equates the new state with the pure function of the old state and keeps
  `Valid()`. `openWindow` and `toggleTaskbarClick` call the other methods, as the source does through `get()`.
- `windows_scenarios.dfy`: client methods that drive a fresh store through short scenarios and assert
  the outcome.

Where the code and the registry's written design differ, the model follows the code:

- `closeWindow` picks the next active window with `a.z > b.z ? a : b`. On equal `z` this keeps the
  later record, not the earlier one (`CloseTieKeepsLater`). In reachable states stacking values are
  distinct (`ReachableWf`), so the tie never arises there.
- `focusWindow` does not check that the id exists. It sets `activeId` to the unknown id and still
  advances `nextZ` (`FocusUnknownId`).
- `closeWindow` can make a minimized window active (`CloseCanActivateMinimized`). Closing an absent id
  keeps the records, but it still recomputes `activeId` when `activeId` is that absent id
  (`CloseUnknownId`). So "the active window exists and is not minimized" is not an invariant of every
  action. It is proved only for runs without these intents (`ShownRunKeepsActiveShown`).
- After `open a`, `open b`, window `b` is active and visible. So the first taskbar click on `b` minimizes
  it, and the second click restores and focuses it (`TaskbarClicksOnActive`).

## Model

| member | source | states |
|---|---|---|
| Windows.Find | src/stores/windows.ts:28 | `find` returns none exactly when no record has the id; otherwise it returns the first record with that id |
| Windows.Without | src/stores/windows.ts:75 | the filter keeps exactly the records whose id differs, and never grows the list |
| Windows.ReduceMaxZ | src/stores/windows.ts:78 | the reduce returns a member of the list whose `z` is maximal, and no later record has an equal `z` (the last maximum wins) |
| WindowsProperties.InitialWf | src/stores/windows.ts:21-24 | the initial store is empty, has no active id, has counter 1, and satisfies the registry invariant |
| WindowsProperties.FindUnique | src/stores/windows.ts:28 | with distinct ids, `find` returns the one record carrying the id |
| WindowsProperties.OpenFresh | src/stores/windows.ts:28-33 | a fresh id appends exactly one record `{id, title, false, old nextZ}` at the end and keeps the old records as a prefix; activeId becomes the id; nextZ goes up by one |
| WindowsProperties.OpenExisting | src/stores/windows.ts:34-36 | a known id behaves exactly as focusWindow and adds no record |
| WindowsProperties.OpenTwiceNoDuplicate | src/stores/windows.ts:26-36 | opening the same id again is a focus, keeps the length, and keeps ids distinct |
| WindowsProperties.OpenHasId | src/stores/windows.ts:26-36 | after openWindow a record with the id is registered |
| WindowsProperties.OpenKeepsWf | src/stores/windows.ts:26-36 | openWindow keeps ids distinct, stacking values distinct and below the counter |
| WindowsProperties.OpenFreshKeepsZOrder | src/stores/windows.ts:30 | appending a fresh id keeps the list in strictly increasing stacking order |
| WindowsProperties.FocusChangesOnlyTarget | src/stores/windows.ts:39-47 | focusWindow restores the records with the id and gives them the old counter; all other records, the length and the order are unchanged; activeId becomes the id; the counter goes up by one |
| WindowsProperties.FocusOnTop | src/stores/windows.ts:42-46 | in a well-formed registry the focused window ends strictly above every other window |
| WindowsProperties.FocusUnknownId | src/stores/windows.ts:39-47 | focusing an unknown id keeps the records, still sets activeId and advances the counter, and leaves the active id naming no window |
| WindowsProperties.FocusKeepsWf | src/stores/windows.ts:39-47 | focusWindow keeps the registry invariant |
| WindowsProperties.FocusKnownShowsActive | src/stores/windows.ts:43-45 | focusing a registered id leaves the active id on a visible window |
| WindowsProperties.MinimizeFlag | src/stores/windows.ts:52-55 | the flag is the given value; when none is given it is the negation of the matching record's flag, and true for an unknown id |
| WindowsProperties.MinimizeChangesOnlyTarget | src/stores/windows.ts:50-59 | only the matching records' flags change and the counter is untouched; activeId changes exactly when the flag resolves to true for the active id, and is never set to a new id |
| WindowsProperties.RestoreKeepsActive | src/stores/windows.ts:58 | restoring with an explicit false never touches activeId |
| WindowsProperties.MinimizeUnknownId | src/stores/windows.ts:55-58 | toggling an unknown id changes no record and clears activeId only if it was that id |
| WindowsProperties.MinimizeIdempotent | src/stores/windows.ts:50-59 | minimizing with true twice gives the same state as once |
| WindowsProperties.MinimizeKeepsWf | src/stores/windows.ts:57 | minimizeWindow keeps the registry invariant |
| WindowsProperties.MinimizeKeepsActiveShown | src/stores/windows.ts:58 | after minimizeWindow the active id, if any, still names a visible window |
| WindowsProperties.ToggleCases | src/stores/windows.ts:62-70 | a click on the active visible window equals minimizeWindow(id, true); a click on any other registered window equals focusWindow(id) |
| WindowsProperties.ToggleUnknownId | src/stores/windows.ts:64-65 | a click on an unknown id leaves the whole state unchanged |
| WindowsProperties.ToggleHidesActive | src/stores/windows.ts:66-67 | clicking the active visible window minimizes it and clears activeId, counter unchanged |
| WindowsProperties.ToggleRestoresMinimized | src/stores/windows.ts:68-69 | clicking a minimized window restores it, makes it active and puts it strictly above every other window |
| WindowsProperties.ToggleKeepsWf | src/stores/windows.ts:62-70 | toggleTaskbarClick keeps the registry invariant |
| WindowsProperties.ToggleKeepsActiveShown | src/stores/windows.ts:62-70 | toggleTaskbarClick keeps the active id on a visible window |
| WindowsProperties.WithoutAppend | src/stores/windows.ts:75 | the filter distributes over concatenation, so the kept records keep their relative order |
| WindowsProperties.WithoutSingle | src/stores/windows.ts:75 | the filter of one record keeps it exactly when its id differs |
| WindowsProperties.WithoutAbsent | src/stores/windows.ts:75 | filtering out an absent id returns the list unchanged |
| WindowsProperties.WithoutKeepsDistinct | src/stores/windows.ts:75 | filtering keeps ids and stacking values pairwise distinct |
| WindowsProperties.CloseRemovesOnlyTarget | src/stores/windows.ts:73-83 | closeWindow removes every record with the id and keeps every other record; the counter is unchanged; activeId is unchanged unless it was the id |
| WindowsProperties.CloseUnknownId | src/stores/windows.ts:75-82 | closing an absent id keeps the records; the state is unchanged unless activeId was that id |
| WindowsProperties.CloseActivePicksTop | src/stores/windows.ts:77-82 | closing the active window activates a remaining window with maximal z, the last such in list order; with none left activeId becomes none |
| WindowsProperties.CloseKeepsWf | src/stores/windows.ts:73-83 | closeWindow keeps the registry invariant |
| WindowsProperties.CloseCanActivateMinimized | src/stores/windows.ts:77-82 | from a well-formed state whose active window is visible, closing can activate a minimized window |
| WindowsProperties.CloseTieKeepsLater | src/stores/windows.ts:78 | on equal stacking values the later remaining record becomes active |
| WindowsRuns.StepKeepsWf | src/stores/windows.ts:26-83 | every intent keeps the registry invariant and never lowers the counter |
| WindowsRuns.RunKeepsWf | src/stores/windows.ts:26-83 | any sequence of intents keeps the registry invariant and never lowers the counter |
| WindowsRuns.ReachableWf | src/stores/windows.ts:21-83 | every state reachable from the initial store has distinct ids, distinct stacking values, and every stacking value below the counter |
| WindowsRuns.StepKeepsActiveShown | src/stores/windows.ts:26-70 | open, minimize, taskbar click, and focus of a registered id keep the active id on a visible window |
| WindowsRuns.ShownRunKeepsActiveShown | src/stores/windows.ts:26-70 | along such intents the active id always names a registered, non-minimized window |
| WindowsStore.Store.constructor | src/stores/windows.ts:21-24 | the new store is the initial state and valid |
| WindowsStore.Store.OpenWindow | src/stores/windows.ts:26-37 | the new fields are openWindow of the old ones; the invariant is kept |
| WindowsStore.Store.FocusWindow | src/stores/windows.ts:39-48 | the new fields are focusWindow of the old ones; the invariant is kept |
| WindowsStore.Store.MinimizeWindow | src/stores/windows.ts:50-60 | the new fields are minimizeWindow of the old ones; the invariant is kept |
| WindowsStore.Store.ToggleTaskbarClick | src/stores/windows.ts:62-71 | the new fields are toggleTaskbarClick of the old ones; the invariant is kept |
| WindowsStore.Store.CloseWindow | src/stores/windows.ts:73-84 | the new fields are closeWindow of the old ones; the invariant is kept |

## Left out

- zustand's `create`, `set` and `get` and its subscriptions are not modelled. The store is a plain object whose methods assign its fields. Re-rendering of subscribers is not modelled.
- JavaScript numbers are modelled as unbounded integers. The counter would lose exactness past 2^53, which no UI session reaches.
- `minimizeWindow`'s optional `value` is modelled as `Option<bool>`. A non-boolean argument counts as omitted, as `typeof value === 'boolean'` does.
- Sorting windows by `z` for painting happens in the taskbar component, not in the store. It is presentation and is not modelled.
- The window chrome, taskbar, drag handling and all other components and animations are presentation over UI libraries. They are not part of this model.
