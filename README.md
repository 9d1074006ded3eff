# niri-taskbar core, modelled in Dafny

niri-taskbar is a Waybar module that shows one button per top-level window
of the niri Wayland compositor. This project models its core and proves
properties of the model:

* **Window-set reconstruction** (`src/niri/state.rs`). The compositor's
  event stream never hands over the whole state in one piece. It starts
  with two full-replace events (`WindowsChanged`, `WorkspacesChanged`) in
  either order, and then sends deltas. `WindowSet` holds
  `Option<Inner>`, a three-way state machine (windows only, workspaces
  only, ready). When ready, it holds a `Niri` object whose two `BTreeMap`s
  the delta handlers update in place.
  - The model has two classes, `NiriState.Niri` and
    `NiriState.WindowSet`, whose methods change their fields.
  - Each method is proved against the pure state machine
    `NiriModel.Step` over the value `NiriModel.Phase`.
  - The properties are lemmas about `Step` and about `Run`, the fold of
    `Step` over an event stream.
* **Snapshots** (`Niri::snapshot`). A snapshot is built in three stages,
  each modelled as a function:
  - a `filter_map` keeps the windows whose workspace is known, and only
    active workspaces when `only_current_workspace` is set;
  - a `sort_by` orders them by (workspace index, column, tile, window id);
  - a `map` attaches each window's output.
* **The taskbar instance** (`src/lib.rs`). `Instance` keeps a map of
  buttons and the last snapshot.
  - `process_window_snapshot` reconciles the buttons against a new
    snapshot.
  - `process_notification` decides which buttons a desktop notification
    marks urgent. It first walks up the sender's process ancestry through
    a pid-to-window index (`PidWindowMap`). Failing that, it falls back
    to the notification's desktop entry, which it compares with window
    app ids, exactly or fuzzily.
  - The loops are methods of class `Taskbar.Instance` and of module
    `Correlator`. Each is proved equal to a specification function
    (`Correlate`, `Reconciled`, `MarkUrgent`), and the lemmas are stated
    about those functions.
* **Configuration** (`src/config.rs`): the `Config` record, its
  defaults and its accessors.

Files:

| file | module |
|---|---|
| `wrappers.dfy` | `Option`, `Result` |
| `keyed_index.dfy` | collecting key/value pairs into a map, last pair wins |
| `niri_types.dfy` | the IPC records: window, workspace, layout, event |
| `niri_model.dfy` | the map operations and the state machine as functions |
| `niri_snapshot.dfy` | `Niri::snapshot` |
| `niri_state.dfy` | classes `Niri` and `WindowSet` |
| `config.dfy` | `Config` |
| `correlator.dfy` | `PidWindowMap`, the ancestry walk, app-id matching |
| `instance.dfy` | class `Instance` |
| `scenarios.dfy` | concrete correlation scenarios |

Where a source function returns `Option`, the model returns a Dafny
`Option`: an unknown id, a missing pid, a missing desktop entry and a
failed parent lookup are all modelled cases, not preconditions.

Two consequences of the code as written are proved rather than smoothed
over:

- niri keeps one active workspace per output, but
  `set_active_workspace` clears the active flag on every other
  workspace, on every output. With `only_current_workspace` set, activating a workspace
  on one monitor therefore drops the windows of the other monitors'
  active workspaces from the snapshot, until the next
  `WorkspacesChanged` (`NiriSnapshot.ActivationHidesOtherOutputs`).
- `PidWindowMap` keeps only the last window of each process. The walk
  checks that window alone, so a focused last window hides an unfocused
  earlier window of the same process (`Correlator.PidWindowMapSpec`,
  `Scenarios.SharedPidFocusedLast`).

## Model

| member | source | states |
|---|---|---|
| KeyedIndex.Index | src/niri/state.rs:144-153 | Collecting pairs into a map yields exactly the keys of the pairs. |
| KeyedIndex.IndexLastWins | src/niri/state.rs:144-153 | The value stored under a key is the value of the last pair with that key. |
| KeyedIndex.IndexValueFromEntries | src/lib.rs:420-425 | Every stored (key, value) is one of the input pairs. |
| KeyedIndex.Entries | src/niri/state.rs:145-152 | `map(\|v\| (v.id, v))` for windows and for workspaces: the i-th pair is the i-th value under its key. |
| NiriModel.WindowsById | src/niri/state.rs:144-149 | `replace_windows`: the list collected into a map by window id. Its keys, keying and last-duplicate-wins rule are stated by `WindowsByIdSpec`. |
| NiriModel.WorkspacesById | src/niri/state.rs:151-153 | `replace_workspaces`: the list collected into a map by workspace id. Stated by `WorkspacesByIdSpec`. |
| NiriModel.WithFocus | src/niri/state.rs:155-160 | `set_focus`: each window focused iff its id is the requested one. Stated by `WithFocusSpec`. |
| NiriModel.WithActive | src/niri/state.rs:162-166 | `set_active_workspace`: each workspace active iff its id is the requested one, on every output. Stated by `WithActiveSpec`. |
| NiriModel.Unfocused | src/niri/state.rs:178-182 | The `for_each` of `upsert_window` that clears every focus flag. |
| NiriModel.Upserted | src/niri/state.rs:176-185 | `upsert_window`: clear all focus when the new window is focused, then insert it. Stated by `UpsertedSpec`. |
| NiriModel.WithLayout | src/niri/state.rs:168-174 | `update_window_layout`: a known window takes the layout, an unknown id is ignored. Stated by `WithLayoutSpec`. |
| NiriModel.WithLayouts | src/niri/state.rs:74-80 | The `WindowLayoutsChanged` loop: the changes applied in order. Stated by `WithLayoutsKeeps` and `WithLayoutsSpec`. |
| NiriModel.WindowsByIdSpec | src/niri/state.rs:144-149 | `replace_windows` result: its keys are exactly the windows' ids; every window is stored under its own id; the stored window is the last one in the list with that id. |
| NiriModel.WorkspacesByIdSpec | src/niri/state.rs:151-153 | The same for `replace_workspaces`. |
| NiriModel.WindowsByIdSingleFocus | src/niri/state.rs:144-149 | A window list with at most one focused window gives a map with at most one focused window. |
| NiriModel.WithFocusSpec | src/niri/state.rs:155-160 | After `set_focus(id)` every window is focused iff `Some(window.id) == id`. The key set and every other field are unchanged, and at most one window is focused. |
| NiriModel.WithActiveSpec | src/niri/state.rs:162-166 | After `set_active_workspace(id)` every workspace is active iff its id is `id`. The key set and other fields are unchanged. |
| NiriModel.UpsertedSpec | src/niri/state.rs:176-185 | `upsert_window(w)` stores `w` under `w.id` and keeps every other key. A focused `w` leaves every other window unfocused; an unfocused `w` leaves the others unchanged. |
| NiriModel.UpsertIdempotent | src/niri/state.rs:176-185 | Upserting the same window twice equals upserting it once. |
| NiriModel.UpsertKeepsInvariant | src/niri/state.rs:176-185 | If at most one window was focused before an upsert, at most one is focused after. |
| NiriModel.WithLayoutSpec | src/niri/state.rs:168-174 | A layout change for an unknown id leaves the map unchanged. For a known id it changes only that window's `layout`. |
| NiriModel.WithLayoutsKeeps | src/niri/state.rs:74-80 | A batch of layout changes keeps the key set and changes nothing about any window but its layout. |
| NiriModel.WithLayoutsSpec | src/niri/state.rs:74-80 | After a batch, a known window has the layout of the last change naming it, and is untouched when no change names it. |
| NiriModel.NewReady | src/niri/state.rs:128-138 | `Niri::new`: the `Ready` state holding both lists keyed by id. |
| NiriModel.Step | src/niri/state.rs:17-81 | One event of `with_event`: the initialisation arms and, in `Ready`, the delta arms. Stated by `FullReplaceEitherOrder`, `PendingReplaced`, `ReplaceWhenReady`, `IgnoredEvents`, `StepKeepsInvariant`. |
| NiriModel.Run | src/niri/state.rs:17-89 | A stream of events applied in order. Stated by `RunKnows`, `ReadyIffBothSeen`, `RunKeepsInvariant`. |
| NiriModel.FullReplaceEitherOrder | src/niri/state.rs:22-45 | The two full-replace events, in either order and from any state, reach `Ready` holding exactly their payloads keyed by id. |
| NiriModel.PendingReplaced | src/niri/state.rs:26-27 | Before `Ready`, a second full-replace event of the same kind replaces the earlier pending payload. |
| NiriModel.ReplaceWhenReady | src/niri/state.rs:29-32 | In `Ready`, `WindowsChanged` replaces the windows and keeps the workspaces, and `WorkspacesChanged` does the reverse (lines 41-44). |
| NiriModel.IgnoredEvents | src/niri/state.rs:46-81 | A delta event before `Ready`, and an unrecognised event in any state, leave the state unchanged. |
| NiriModel.RunKnows | src/niri/state.rs:17-89 | After a stream, the window list (workspace list) is known iff it was known before or the stream contained a `WindowsChanged` (`WorkspacesChanged`). |
| NiriModel.ReadyIffBothSeen | src/niri/state.rs:17-89 | From the uninitialised state, a stream ends `Ready` iff it contains both full-replace events, whatever else it holds and in whatever order. |
| NiriModel.StepKeepsInvariant | src/niri/state.rs:17-89 | One well-formed event keeps the maps keyed by id and at most one window focused. |
| NiriModel.RunKeepsInvariant | src/niri/state.rs:17-89 | After any stream of well-formed events, at most one window is focused. |
| NiriSnapshot.SnapWindow.Output | src/niri/state.rs:244-248 | `Window::output`: the output of the window's workspace, if any. |
| NiriSnapshot.LeastExists | src/niri/state.rs:194-196 | A non-empty set of ids has a least element. |
| NiriSnapshot.SortedIds | src/niri/state.rs:194-196 | `BTreeMap::values` order: the keys, strictly ascending, each exactly once. |
| NiriSnapshot.PlacementsMembers | src/niri/state.rs:197-208 | A (window, workspace) pair survives the `filter_map` iff some key's window pairs with its workspace under the `only_current_workspace` rule. |
| NiriSnapshot.PlacementsAscending | src/niri/state.rs:194-209 | The filtered pairs keep ascending window-id order. |
| NiriSnapshot.Compare | src/niri/state.rs:210-224 | The `sort_by` comparator, chained as the source chains it. Stated by `CompareIsLexicographic`. |
| NiriSnapshot.CompareIsLexicographic | src/niri/state.rs:210-224 | The chained comparator returns `Less`, `Greater` or `Equal` exactly as the (workspace idx, column, tile, id) key compares lexicographically, with a missing position as (0, 0). |
| NiriSnapshot.KeyLessTransitive | src/niri/state.rs:210-224 | The key order is transitive. |
| NiriSnapshot.Insert | src/niri/state.rs:210 | One insertion step of the sort adds exactly the new element (a multiset equality). |
| NiriSnapshot.SortBy | src/niri/state.rs:210-224 | The sort is a permutation of its input. |
| NiriSnapshot.ConsSorted | src/niri/state.rs:210-224 | An element below every key of a strictly sorted sequence may be put in front. |
| NiriSnapshot.InsertSorted | src/niri/state.rs:210-224 | Inserting into a strictly sorted sequence an element whose key differs from all others keeps it strictly sorted. |
| NiriSnapshot.SortBySorted | src/niri/state.rs:210-224 | Elements with pairwise distinct keys come out strictly ordered. |
| NiriSnapshot.ToSnapshot | src/niri/state.rs:226-231 | The final `map` keeps length and order and attaches each window's workspace output. |
| NiriSnapshot.SnapshotOf | src/niri/state.rs:188-232 | `Niri::snapshot`: keys in order, `filter_map`, `sort_by`, `map`. Stated by `SnapshotSpec`. |
| NiriSnapshot.SortedPairsSound | src/niri/state.rs:188-224 | Every sorted pair is a stored window paired with its own workspace by the filter rule. |
| NiriSnapshot.PairSound | src/niri/state.rs:188-224 | One sorted pair is a stored window, paired with its own workspace by the filter rule. |
| NiriSnapshot.PlacedSound | src/niri/state.rs:194-209 | A pair the `filter_map` builds is a stored window with its own workspace. |
| NiriSnapshot.SortedPairsComplete | src/niri/state.rs:188-224 | Every window whose workspace is known (and active, when required) appears. |
| NiriSnapshot.InSorted | src/niri/state.rs:210 | Sorting loses no element. |
| NiriSnapshot.SortedPairsOrdered | src/niri/state.rs:188-224 | The sorted pairs are strictly ordered: the id tie-break leaves no two entries equal. |
| NiriSnapshot.SnapshotSpec | src/niri/state.rs:188-232 | The snapshot holds exactly the stored windows whose workspace is known, and only active ones when `only_current_workspace` is set. Each entry's output is its workspace's output. Entries are strictly ordered by (workspace idx, column, tile, id). |
| NiriSnapshot.AllWorkspacesShown | src/niri/state.rs:200-204 | With `only_current_workspace` off, every window on a known workspace is shown whether or not the workspace is active. |
| NiriSnapshot.SnapshotNonEmpty | src/niri/state.rs:84-88 | A ready state with some window on a known, shown workspace gives a non-empty snapshot. |
| NiriSnapshot.ActivationHidesOtherOutputs | src/niri/state.rs:162-166 | With only the current workspace shown, activating a workspace on one output drops from the snapshot the windows of the workspace that was active on another output. |
| NiriState.Niri.constructor | src/niri/state.rs:128-138 | `Niri::new` holds the workspace list and the window list, each keyed by id. |
| NiriState.Niri.RemoveWindow | src/niri/state.rs:140-142 | Removes exactly the key `id`; for an absent id the map is unchanged. |
| NiriState.Niri.ReplaceWindows | src/niri/state.rs:144-149 | The window map becomes the new list keyed by id; workspaces are untouched. |
| NiriState.Niri.ReplaceWorkspaces | src/niri/state.rs:151-153 | The workspace map becomes the new list keyed by id; windows are untouched. |
| NiriState.Niri.SetFocus | src/niri/state.rs:155-160 | The `values_mut` loop leaves every window focused iff `Some(window.id) == id`, with the key set unchanged. |
| NiriState.Niri.SetActiveWorkspace | src/niri/state.rs:162-166 | The loop leaves every workspace active iff its id is `id`, with the key set unchanged. |
| NiriState.Niri.UpdateWindowLayout | src/niri/state.rs:168-174 | The map becomes `WithLayout`: only a known window's layout changes. |
| NiriState.Niri.UpsertWindow | src/niri/state.rs:176-185 | Stores `w` under `w.id`; when `w` is focused the loop first unfocuses every other window. |
| NiriState.WindowSet.constructor | src/niri/state.rs:11-13 | A new window set is uninitialised. |
| NiriState.WindowSet.WithEvent | src/niri/state.rs:17-89 | The new state is `Step` of the old one. The result is `Some` iff the new state is `Ready`, and then it is that state's snapshot. |
| NiriState.WindowSet.CurrentSnapshot | src/niri/state.rs:84-88 | `Some(snapshot)` exactly in the `Ready` state, `None` otherwise. |
| NiriState.WindowSet.OnWindowsChanged | src/niri/state.rs:22-33 | The `WindowsChanged` arm's `take()`/write-back is `Step` on the model. |
| NiriState.WindowSet.OnWorkspacesChanged | src/niri/state.rs:34-45 | The `WorkspacesChanged` arm is `Step` on the model. |
| NiriState.WindowSet.OnWindowLayoutsChanged | src/niri/state.rs:74-80 | The loop over the changes applies them in order in `Ready`, and nothing otherwise. |
| NiriState.WindowSet.OnDelta | src/niri/state.rs:46-73 | The close, upsert, focus and activation arms are `Step` on the model. |
| Configuration.DefaultNotifications | src/config.rs:32-41 | `Notifications::default`: enabled, empty remap table, desktop-entry fallback on, fuzzy matching off. Stated by `DefaultSettings`. |
| Configuration.Config.NotificationsEnabled | src/config.rs:78-81 | `notifications_enabled`: the `enabled` setting. |
| Configuration.Config.NotificationsUseDesktopEntry | src/config.rs:91-95 | `notifications_use_desktop_entry`: the fallback setting. |
| Configuration.Config.NotificationsUseFuzzyMatching | src/config.rs:97-99 | `notifications_use_fuzzy_matching`: the fuzzy setting. |
| Configuration.Config.ShowAllOutputs | src/config.rs:101-103 | `show_all_outputs`: the setting. |
| Configuration.Config.OnlyCurrentWorkspace | src/config.rs:105-110 | `only_current_workspace`: the setting. |
| Configuration.DefaultConfig | src/config.rs:8-41 | The configuration with every serde default applied. Stated by `DefaultSettings`. |
| Configuration.Config.NotificationsAppMap | src/config.rs:84-89 | `Some(v)` iff the remap table maps the id to `v`, and `None` otherwise. |
| Configuration.Config.AppClasses | src/config.rs:49-59 | The classes of the app's rules in configuration order, or empty for an unknown app. |
| Configuration.Classes | src/config.rs:53-57 | One class per rule, in rule order. |
| Configuration.DefaultSettings | src/config.rs:8-41 | By default: notifications on, desktop-entry fallback on, fuzzy matching off, empty remap table, `show_all_outputs` and `only_current_workspace` off, no app rules. |
| Configuration.MatchingClassesSpec | src/config.rs:68-73 | The k-th yielded class is the class of the k-th rule whose pattern matches the title; the indices ascend, and every matching rule contributes. |
| Configuration.MatchingClassesAt | src/config.rs:68-73 | The yielded classes line up with the ascending matching-rule indices. |
| Configuration.MatchIndicesAscending | src/config.rs:70-71 | The `filter` keeps rule order. |
| Configuration.MatchIndicesMembers | src/config.rs:71 | A rule is kept iff its pattern matches the title. |
| Configuration.MatchIndicesBound | src/config.rs:70-72 | At most one class per rule. |
| Configuration.MatchingClasses | src/config.rs:68-73 | The `filter`/`map` over one app's rules. Stated by `MatchingClassesSpec`. |
| Configuration.Config.AppMatches | src/config.rs:62-76 | `app_matches`: the matching classes of a known app, else none. Stated by `AppMatchesSpec`. |
| Configuration.AppMatchesSpec | src/config.rs:62-76 | Empty for an unknown app. Otherwise a class is yielded iff some rule with that class matches the title, and never more classes than `app_classes` lists. |
| Correlator.PidWindowMapOf | src/lib.rs:420-425 | `PidWindowMap::new`: the windows with a pid collected by pid. Stated by `PidWindowMapSpec`. |
| Correlator.PidWindowMap.Get | src/lib.rs:427-429 | `PidWindowMap::get`: the window stored under the pid, if any. Stated by `PidWindowMapSpec`. |
| Correlator.PidEntries | src/lib.rs:420-425 | Every indexed pair comes from a snapshot window whose pid is that key. |
| Correlator.PidEntriesComplete | src/lib.rs:420-425 | Every window with a pid contributes a pair under that pid. |
| Correlator.PidWindowMapSpec | src/lib.rs:417-430 | `get(p)` finds a window iff some snapshot window has pid `p`. What it finds is the LAST snapshot window with pid `p`, because the collect overwrites earlier windows of the same process. |
| Correlator.PidWindowMapLast | src/lib.rs:420-425 | The window `get(p)` finds is the last snapshot window with pid `p`. |
| Correlator.PidWindowMapFound | src/lib.rs:417-430 | `get(p)` finds a window iff some window has pid `p`, and that window has pid `p`. |
| Correlator.Chain | src/lib.rs:229-265 | The pids the walk visits, up to the step bound. Stated by `ChainSpec`. |
| Correlator.Hit | src/lib.rs:230-245 | What one visited pid marks: its window, when unfocused and with a button. |
| Correlator.Walk | src/lib.rs:229-265 | The ids the ancestry walk marks, in visiting order. Stated by `WalkMarksChainHits` and `WalkMarksUnfocusedWithButton`. |
| Correlator.WalkFrom | src/lib.rs:229-265 | The walk with the marks so far carried along, as the loop keeps them. Stated by `WalkFromSpec`. |
| Correlator.ChainSpec | src/lib.rs:229-265 | The walk visits the sender, then each parent. It stops only where the lookup reports no parent or fails, or at the step bound. |
| Correlator.WalkMarksChainHits | src/lib.rs:229-265 | The walk marks exactly the hits along the chain: a visited pid maps to an unfocused window that has a button. A match does not stop the walk. |
| Correlator.WalkMarksUnfocusedWithButton | src/lib.rs:230-245 | Everything the walk marks has a button and belongs to an unfocused snapshot window whose pid is on the sender's ancestry chain. |
| Correlator.WalkAncestry | src/lib.rs:229-265 | The loop with its mutable `pid` marks exactly `Walk`. |
| Correlator.WalkFromSpec | src/lib.rs:229-265 | Carrying the marks made so far through the walk, as the loop does, gives those marks followed by `Walk`. |
| Correlator.Lower | src/lib.rs:303 | Lowercasing keeps length and lowercases each character. |
| Correlator.LastComponent | src/lib.rs:304-308 | `split('.').next_back()`: a suffix with no `.`, preceded by a `.` whenever it is shorter than the input. |
| Correlator.ExactMarksMembers | src/lib.rs:316-321 | An id is marked by the exact scan iff it has a button and some window with that id has the target as its app id. |
| Correlator.FuzzyCandidatesMembers | src/lib.rs:322-346 | An id is a fuzzy candidate iff some window with that id is fuzzy: fuzzy matching on, not exact, and lowercase equal to the target, or containing `.` with a lowercase-equal last component. |
| Correlator.WithButtonsMembers | src/lib.rs:349-355 | Of the candidates, exactly those with a button are marked. |
| Correlator.AppIdMarksWhenExact | src/lib.rs:310-355 | If any exact match has a button, exactly the exact matches with a button are marked, and no fuzzy candidate. |
| Correlator.AppIdMarksWhenNoExact | src/lib.rs:310-355 | Otherwise every fuzzy candidate with a button is marked, however many there are. |
| Correlator.ExactMarksEmpty | src/lib.rs:310-321 | With no exact match that has a button, the exact scan marks nothing. |
| Correlator.FuzzyExcludesExact | src/lib.rs:316-322 | A fuzzy candidate is never an exact match, and there are none with fuzzy matching off. |
| Correlator.ScanAppIds | src/lib.rs:310-347 | The scan loop computes the exact marks and the fuzzy candidates, and `found` iff some exact match was marked. |
| Correlator.ScanStep | src/lib.rs:311-347 | One more window extends each list by at most that window. |
| Correlator.MatchByAppId | src/lib.rs:310-355 | The scan and the fuzzy loop together mark exactly `AppIdMarks`. |
| Correlator.ExactMarks | src/lib.rs:316-321 | The exact matches with a button, in snapshot order. Stated by `ExactMarksMembers`. |
| Correlator.FuzzyCandidates | src/lib.rs:322-346 | The fuzzy candidates, in snapshot order. Stated by `FuzzyCandidatesMembers`. |
| Correlator.WithButtons | src/lib.rs:349-355 | The candidates that have a button. Stated by `WithButtonsMembers`. |
| Correlator.AppIdMarks | src/lib.rs:310-355 | The app-id phase: the exact marks if any, else the fuzzy candidates with a button. Stated by `AppIdMarksWhenExact` and `AppIdMarksWhenNoExact`. |
| Correlator.Target | src/lib.rs:298-302 | The target is the remap-table value when present, otherwise the desktop entry verbatim. |
| Correlator.Correlate | src/lib.rs:201-356 | The ids `process_notification` marks. Stated by `CorrelatePrecedence` and `CorrelateMarksHaveButtons`. |
| Correlator.CorrelatePrecedence | src/lib.rs:201-356 | The strategies in order. When some pid on the sender's ancestry chain has a hit, the marked ids are exactly the chain's hits and the app-id phase adds none. Otherwise, with the desktop-entry fallback on and an entry present: the exact app-id matches with a button when there is one, else the fuzzy candidates with a button. In every other case, and always without a snapshot, nothing is marked. |
| Correlator.WalkNonEmpty | src/lib.rs:229-265 | The pid walk marks something iff some pid on the ancestry chain maps to an unfocused window with a button. |
| Correlator.CorrelateMarksHaveButtons | src/lib.rs:201-356 | Every marked id has a button. |
| Taskbar.IsShown | src/lib.rs:367-372 | A window passes the output filter, an unknown output being the empty name. |
| Taskbar.Refreshed | src/lib.rs:373-387 | One loop step: the window's entry, created when missing, takes its focus flag and title. |
| Taskbar.RefreshedAll | src/lib.rs:365-396 | The first loop over the shown windows. Stated by `RefreshedAllKeys` and `RefreshedAllState`. |
| Taskbar.ShownIds | src/lib.rs:367-372 | The ids of the windows the filter shows. |
| Taskbar.Reconciled | src/lib.rs:358-410 | The buttons after `process_window_snapshot`. Stated by `ReconciledSpec` and `ReconciledIdempotent`. |
| Taskbar.ShownIdsStep | src/lib.rs:367-372 | One more window adds its id to the shown ids iff it passes the output filter. |
| Taskbar.RefreshedAllStep | src/lib.rs:367-396 | One more loop step refreshes the window's entry iff it passes the filter. |
| Taskbar.RefreshedAllKeys | src/lib.rs:367-396 | The loop adds an entry for every shown id and leaves every other entry alone. |
| Taskbar.RefreshedAllState | src/lib.rs:373-387 | Each shown id takes focus and title from its last shown window. It keeps the urgency of the entry it had, and a new entry is not urgent. |
| Taskbar.RefreshedFromLast | src/lib.rs:373-387 | A shown last window decides its id's focus and title, whatever earlier windows with that id said. |
| Taskbar.RefreshedFromFront | src/lib.rs:373-387 | Every other shown id keeps what the earlier windows gave it. |
| Taskbar.ReconciledSpec | src/lib.rs:358-410 | After reconciliation the button ids are exactly the shown windows' ids. Kept buttons are not recreated: they keep their urgency and take focus and title from the snapshot. |
| Taskbar.LastShownUnique | src/lib.rs:367-396 | The last shown window with a given id is unique. |
| Taskbar.ReconciledIdempotent | src/lib.rs:358-410 | Reconciling twice against the same snapshot equals reconciling once. |
| Taskbar.MarkUrgent | src/lib.rs:241 | `set_urgent` on the marked ids that have a button: the key set is unchanged; a button is urgent iff it was urgent or is marked; focus and title are unchanged. |
| Taskbar.NotificationEffect | src/lib.rs:201-356 | A notification adds or removes no button and makes a non-urgent button urgent iff the correlation marks it. Without a snapshot it changes nothing. |
| Taskbar.Instance.constructor | src/lib.rs:92-99 | A new instance has no buttons and no snapshot. |
| Taskbar.Instance.SetUrgent | src/lib.rs:241 | The marking loop yields `MarkUrgent` of the old buttons. |
| Taskbar.Instance.ProcessNotification | src/lib.rs:201-356 | The buttons become `MarkUrgent(old buttons, Correlate(...))`, and the snapshot is kept. |
| Taskbar.Instance.ProcessWindowSnapshot | src/lib.rs:358-410 | The buttons become `Reconciled(old buttons, windows, filter)`, and `last_snapshot` is the whole unfiltered snapshot. |
| Taskbar.Instance.RefreshShown | src/lib.rs:365-396 | The first loop yields `RefreshedAll`, and `omitted` is the old ids minus the shown ids. |
| Taskbar.Instance.RemoveOmitted | src/lib.rs:398-403 | The removal loop removes exactly the omitted ids. |
| Scenarios.LastComponentOfOrgApp | src/lib.rs:304-308 | The last component of `org.App` is `App`. |
| Scenarios.LastComponentOfIoApp | src/lib.rs:304-308 | The last component of `io.App` is `App`. |
| Scenarios.LastComponentOfApp | src/lib.rs:304-308 | A name without `.` is its own last component. |
| Scenarios.SameLastComponent | src/lib.rs:322-346 | `org.App` and `io.App` match `App` under the fuzzy rule, through their last component. |
| Scenarios.OrgAndIoFuzzy | src/lib.rs:316-346 | The windows `org.App` and `io.App` are fuzzy candidates for `App`, and neither is an exact match. |
| Scenarios.OrgAndIoScanExact | src/lib.rs:310-321 | Scanning `org.App`, `io.App` for `App` finds no exact match. |
| Scenarios.OrgAndIoScanFuzzy | src/lib.rs:322-347 | Scanning `org.App`, `io.App` for `App` collects both as fuzzy candidates, in order. |
| Scenarios.TwoCandidates | src/lib.rs:322-347 | Two windows that are both fuzzy candidates are collected in snapshot order. |
| Scenarios.OrgAndExactScan | src/lib.rs:310-321 | Scanning `org.App`, `App` for `App` finds window 2 exactly. |
| Scenarios.OrgAndIoMarks | src/lib.rs:349-355 | Both fuzzy candidates are marked. |
| Scenarios.BothHaveButtons | src/lib.rs:349-355 | Both candidates have buttons. |
| Scenarios.FuzzyBreadth | src/lib.rs:268-355 | Windows `org.App` and `io.App` with the entry `App` and fuzzy matching on, no exact match: both are marked. |
| Scenarios.ExactExclusivity | src/lib.rs:310-355 | An exact match and a fuzzy-only match: only the exact one is marked. |
| Scenarios.PidPrecedence | src/lib.rs:211-271 | The sender's parent owns an unfocused window with a button, and another window would match the entry fuzzily: only the pid match is marked. |
| Scenarios.WalkWithoutMatch | src/lib.rs:229-265 | A walk that reaches a pid with no parent, without passing any window's pid, marks nothing. |
| Scenarios.SharedPidLastWins | src/lib.rs:420-429 | Of two windows with pid 5, `get(5)` finds the later one. |
| Scenarios.SharedPidFocusedLast | src/lib.rs:230-245 | When that later window is focused, the walk from pid 5 marks nothing, although the earlier window is unfocused and has a button. |

## Left out

- The IPC socket, the event-reading worker thread and the merged async event stream (`src/niri.rs`, `src/state.rs`) are not part of this model. The model takes events one at a time (`WithEvent`) or as a sequence (`Run`).
- GTK widget work is not modelled: creating, adding, reordering, showing and removing button widgets, the icon cache, and `button.rs`. A button is a record of the three things the taskbar sets on it (focus, title, urgency). Whether the widget clears its urgency on focus is in `button.rs`, which is not part of this model.
- `Instance::build_output_filter` (Gdk monitor probing and `output::Matcher`) is not modelled. `Filter::should_show` is the parameter `shouldShow` of `ProcessWindowSnapshot`.
- `Process::new` is not modelled. The procfs parent lookup is the parameter `parentOf`, which returns `Ok(Some(ppid))`, `Ok(None)` or `Err`.
- Correlator.WalkAncestry: the source loops until the lookup reports no parent or fails, with no step bound. The model adds a step bound `fuel`, because termination otherwise depends on the process tree being acyclic. Ancestry chains longer than `fuel` are cut short.
- Configuration.Config.AppMatches: regex compilation and matching are not modelled. The matcher is the parameter `isMatch`.
- Serde deserialisation of `Config` is not modelled, beyond the defaults it applies.
- Correlator.Lower: lowercases ASCII letters only. Rust's `to_lowercase` also folds non-ASCII letters, which this model does not.
- Taskbar.Instance.ProcessNotification: the walk and the scan collect the ids to mark, and `SetUrgent` then marks them. The source calls `set_urgent` as it goes. Marking changes no key of the button map, so the same buttons end up urgent.
- Taskbar.Instance.RemoveOmitted: removes the omitted ids in an unspecified order. The source removes them in ascending order, which is unobservable in the map.
- The `notifications.enabled` flag gates the notification stream in `src/state.rs`, which is not part of this model. `process_notification` itself does not read it.
- NiriModel.RunKeepsInvariant: the single-focus invariant assumes that every `WindowsChanged` payload has at most one focused window. The taskbar does not check this; the compositor is trusted to send it.
- `WorkspaceActivated`'s `focused` flag is carried in the event but ignored, as in the source. `NiriTypes.Event.Other` stands for every event kind the window set does not handle.
- Window fields the core never reads are not modelled. Workspace fields other than id, index, activity and output are not modelled either.
- Tracing and logging are not modelled, and neither is the `Display` implementation of `WindowSet`.
