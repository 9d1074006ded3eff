/**
 * The reconstructed compositor state as values: the two id-keyed maps,
 * the pure effect of each `Niri` operation on them, and the
 * initialisation state machine of `WindowSet::with_event` as a step
 * function over `Phase`. The classes in niri_state.dfy are proved to
 * implement these functions.
 */
module NiriModel {
  import opened Wrappers
  import opened NiriTypes
  import KeyedIndex

  type Windows = map<WindowId, Window>
  type Workspaces = map<WorkspaceId, Workspace>

  /** Every window is stored under its own id. */
  ghost predicate WellKeyed(windows: Windows) {
    forall k :: k in windows ==> windows[k].id == k
  }

  ghost predicate WorkspacesWellKeyed(workspaces: Workspaces) {
    forall k :: k in workspaces ==> workspaces[k].id == k
  }

  /** The single-focus rule. */
  ghost predicate AtMostOneFocused(windows: Windows) {
    forall a, b :: a in windows && b in windows && windows[a].isFocused && windows[b].isFocused ==> a == b
  }

  ghost predicate AtMostOneFocusedIn(ws: seq<Window>) {
    forall i, j :: 0 <= i < |ws| && 0 <= j < |ws| && ws[i].isFocused && ws[j].isFocused ==> ws[i].id == ws[j].id
  }

  // ---------------------------------------------------------------------
  // replace_windows / replace_workspaces: collect the list by id

  function WindowEntries(ws: seq<Window>): seq<(WindowId, Window)> {
    KeyedIndex.Entries(ws, (w: Window) => w.id)
  }

  function WorkspaceEntries(wss: seq<Workspace>): seq<(WorkspaceId, Workspace)> {
    KeyedIndex.Entries(wss, (ws: Workspace) => ws.id)
  }

  function WindowsById(ws: seq<Window>): Windows {
    KeyedIndex.Index(WindowEntries(ws))
  }

  function WorkspacesById(wss: seq<Workspace>): Workspaces {
    KeyedIndex.Index(WorkspaceEntries(wss))
  }

  /** replace_windows keys the list by window id: the keys are exactly the
      listed ids, and each key holds the last listed window with that id. */
  lemma WindowsByIdSpec(ws: seq<Window>)
    ensures WindowsById(ws).Keys == set w | w in ws :: w.id
    ensures WellKeyed(WindowsById(ws))
    ensures forall k :: k in WindowsById(ws) ==>
      exists i :: 0 <= i < |ws| && ws[i] == WindowsById(ws)[k] &&
                  forall j :: i < j < |ws| ==> ws[j].id != k
  {
    var es := WindowEntries(ws);
    assert WindowsById(ws).Keys == set w | w in ws :: w.id by {
      forall k | k in WindowsById(ws) ensures k in set w | w in ws :: w.id {
        var i :| 0 <= i < |es| && es[i].0 == k;
        assert ws[i] in ws;
      }
      forall w | w in ws ensures w.id in WindowsById(ws) {
        var i :| 0 <= i < |ws| && ws[i] == w;
        assert es[i].0 == w.id;
      }
    }
    forall k | k in WindowsById(ws)
      ensures WindowsById(ws)[k].id == k
      ensures exists i :: 0 <= i < |ws| && ws[i] == WindowsById(ws)[k] &&
                          forall j :: i < j < |ws| ==> ws[j].id != k
    {
      KeyedIndex.IndexLastWins(es, k);
      var i :| 0 <= i < |es| && es[i] == (k, WindowsById(ws)[k]) &&
               forall j :: i < j < |es| ==> es[j].0 != k;
      assert ws[i] == WindowsById(ws)[k];
      forall j | i < j < |ws| ensures ws[j].id != k { assert es[j].0 == ws[j].id; }
    }
  }

  /** replace_workspaces keys the list by workspace id in the same way. */
  lemma WorkspacesByIdSpec(wss: seq<Workspace>)
    ensures WorkspacesById(wss).Keys == set s | s in wss :: s.id
    ensures WorkspacesWellKeyed(WorkspacesById(wss))
    ensures forall k :: k in WorkspacesById(wss) ==>
      exists i :: 0 <= i < |wss| && wss[i] == WorkspacesById(wss)[k] &&
                  forall j :: i < j < |wss| ==> wss[j].id != k
  {
    var es := WorkspaceEntries(wss);
    assert WorkspacesById(wss).Keys == set s | s in wss :: s.id by {
      forall k | k in WorkspacesById(wss) ensures k in set s | s in wss :: s.id {
        var i :| 0 <= i < |es| && es[i].0 == k;
        assert wss[i] in wss;
      }
      forall s | s in wss ensures s.id in WorkspacesById(wss) {
        var i :| 0 <= i < |wss| && wss[i] == s;
        assert es[i].0 == s.id;
      }
    }
    forall k | k in WorkspacesById(wss)
      ensures WorkspacesById(wss)[k].id == k
      ensures exists i :: 0 <= i < |wss| && wss[i] == WorkspacesById(wss)[k] &&
                          forall j :: i < j < |wss| ==> wss[j].id != k
    {
      KeyedIndex.IndexLastWins(es, k);
      var i :| 0 <= i < |es| && es[i] == (k, WorkspacesById(wss)[k]) &&
               forall j :: i < j < |es| ==> es[j].0 != k;
      assert wss[i] == WorkspacesById(wss)[k];
      forall j | i < j < |wss| ensures wss[j].id != k { assert es[j].0 == wss[j].id; }
    }
  }

  /** A list with at most one focused window keeps that property once keyed. */
  lemma WindowsByIdSingleFocus(ws: seq<Window>)
    requires AtMostOneFocusedIn(ws)
    ensures AtMostOneFocused(WindowsById(ws))
  {
    var m := WindowsById(ws);
    WindowsByIdSpec(ws);
    forall a, b | a in m && b in m && m[a].isFocused && m[b].isFocused ensures a == b {
      var i :| 0 <= i < |ws| && ws[i] == m[a] && forall j :: i < j < |ws| ==> ws[j].id != a;
      var j :| 0 <= j < |ws| && ws[j] == m[b] && forall j' :: j < j' < |ws| ==> ws[j'].id != b;
      assert ws[i].id == ws[j].id;
    }
  }

  // ---------------------------------------------------------------------
  // set_focus, set_active_workspace, upsert_window, update_window_layout

  /** set_focus: the window whose id is `id` gains focus, all others lose it. */
  function WithFocus(windows: Windows, id: Option<WindowId>): Windows {
    map k | k in windows :: windows[k].(isFocused := Some(windows[k].id) == id)
  }

  /** set_active_workspace: only the workspace whose id is `id` is active. */
  function WithActive(workspaces: Workspaces, id: WorkspaceId): Workspaces {
    map k | k in workspaces :: workspaces[k].(isActive := workspaces[k].id == id)
  }

  /** The `for_each` of upsert_window that clears every focus flag. */
  function Unfocused(windows: Windows): Windows {
    map k | k in windows :: windows[k].(isFocused := false)
  }

  /** upsert_window: clear all focus first when the new window is focused,
      then store it under its id. */
  function Upserted(windows: Windows, w: Window): Windows {
    (if w.isFocused then Unfocused(windows) else windows)[w.id := w]
  }

  /** update_window_layout: only a known window's layout changes. */
  function WithLayout(windows: Windows, id: WindowId, layout: WindowLayout): Windows {
    if id in windows then windows[id := windows[id].(layout := layout)] else windows
  }

  /** The `WindowLayoutsChanged` loop: the changes applied in order. */
  function WithLayouts(windows: Windows, changes: seq<(WindowId, WindowLayout)>): Windows {
    if changes == [] then windows
    else
      var last := changes[|changes| - 1];
      WithLayout(WithLayouts(windows, changes[..|changes| - 1]), last.0, last.1)
  }

  /** After set_focus every window is focused exactly when its id is the
      requested one; nothing else about any window changes. */
  lemma WithFocusSpec(windows: Windows, id: Option<WindowId>)
    requires WellKeyed(windows)
    ensures WithFocus(windows, id).Keys == windows.Keys
    ensures forall k :: k in windows ==>
      WithFocus(windows, id)[k].isFocused == (Some(k) == id) &&
      WithFocus(windows, id)[k].(isFocused := windows[k].isFocused) == windows[k]
    ensures WellKeyed(WithFocus(windows, id)) && AtMostOneFocused(WithFocus(windows, id))
  {
  }

  /** After set_active_workspace exactly the workspace with that id is active. */
  lemma WithActiveSpec(workspaces: Workspaces, id: WorkspaceId)
    requires WorkspacesWellKeyed(workspaces)
    ensures WithActive(workspaces, id).Keys == workspaces.Keys
    ensures forall k :: k in workspaces ==>
      WithActive(workspaces, id)[k].isActive == (k == id) &&
      WithActive(workspaces, id)[k].(isActive := workspaces[k].isActive) == workspaces[k]
    ensures WorkspacesWellKeyed(WithActive(workspaces, id))
  {
  }

  /** upsert_window stores the window under its id, leaves every other
      window as it was except that a focused newcomer takes the focus away. */
  lemma UpsertedSpec(windows: Windows, w: Window)
    ensures Upserted(windows, w).Keys == windows.Keys + {w.id}
    ensures Upserted(windows, w)[w.id] == w
    ensures forall k :: k in windows && k != w.id ==>
      Upserted(windows, w)[k] == windows[k].(isFocused := windows[k].isFocused && !w.isFocused)
    ensures w.isFocused ==> forall k :: k in Upserted(windows, w) && k != w.id ==> !Upserted(windows, w)[k].isFocused
  {
  }

  /** Applying the same upsert twice equals applying it once. */
  lemma UpsertIdempotent(windows: Windows, w: Window)
    ensures Upserted(Upserted(windows, w), w) == Upserted(windows, w)
  {
    var once := Upserted(windows, w);
    if w.isFocused {
      assert Unfocused(once)[w.id := w] == once;
    }
  }

  /** upsert_window keeps the single-focus rule and the keying invariant. */
  lemma UpsertKeepsInvariant(windows: Windows, w: Window)
    requires WellKeyed(windows) && AtMostOneFocused(windows)
    ensures WellKeyed(Upserted(windows, w)) && AtMostOneFocused(Upserted(windows, w))
  {
  }

  /** update_window_layout changes only the layout of a known window and is
      a no-op for an unknown one. */
  lemma WithLayoutSpec(windows: Windows, id: WindowId, layout: WindowLayout)
    ensures id !in windows ==> WithLayout(windows, id, layout) == windows
    ensures id in windows ==>
      WithLayout(windows, id, layout).Keys == windows.Keys &&
      WithLayout(windows, id, layout)[id].layout == layout &&
      WithLayout(windows, id, layout)[id].(layout := windows[id].layout) == windows[id] &&
      forall k :: k in windows && k != id ==> WithLayout(windows, id, layout)[k] == windows[k]
  {
  }

  /** A batch of layout changes keeps keys, ids and focus flags. */
  lemma {:induction false} WithLayoutsKeeps(windows: Windows, changes: seq<(WindowId, WindowLayout)>)
    ensures WithLayouts(windows, changes).Keys == windows.Keys
    ensures forall k :: k in windows ==>
      WithLayouts(windows, changes)[k].(layout := windows[k].layout) == windows[k]
  {
    if changes != [] {
      WithLayoutsKeeps(windows, changes[..|changes| - 1]);
    }
  }

  /** The change at index `i` is the last one in the batch naming window `k`. */
  ghost predicate LastChangeFor(changes: seq<(WindowId, WindowLayout)>, k: WindowId, i: int) {
    0 <= i < |changes| && changes[i].0 == k &&
    forall j :: i < j < |changes| ==> changes[j].0 != k
  }

  /** After a batch of layout changes a known window has the layout of the
      last change naming it, and is untouched when no change names it. */
  lemma {:induction false} WithLayoutsSpec(windows: Windows, changes: seq<(WindowId, WindowLayout)>, k: WindowId)
    requires k in windows
    ensures k in WithLayouts(windows, changes)
    ensures (forall i :: 0 <= i < |changes| ==> changes[i].0 != k) ==> WithLayouts(windows, changes)[k] == windows[k]
    ensures forall i :: LastChangeFor(changes, k, i) ==> WithLayouts(windows, changes)[k].layout == changes[i].1
  {
    WithLayoutsKeeps(windows, changes);
    if changes != [] {
      var n := |changes|;
      var front := changes[..n - 1];
      WithLayoutsSpec(windows, front, k);
      WithLayoutsKeeps(windows, front);
      if changes[n - 1].0 != k {
        assert WithLayouts(windows, changes)[k] == WithLayouts(windows, front)[k];
        forall i | LastChangeFor(changes, k, i) ensures LastChangeFor(front, k, i) {
          assert front[i] == changes[i];
          forall j | i < j < |front| ensures front[j].0 != k {
            assert front[j] == changes[j];
          }
        }
        if forall i :: 0 <= i < |changes| ==> changes[i].0 != k {
          forall i | 0 <= i < |front| ensures front[i].0 != k {
            assert front[i] == changes[i];
          }
        }
      }
    }
  }

  // ---------------------------------------------------------------------
  // The initialisation state machine

  /** `Option<Inner>` with the `Niri` state as its two maps. */
  datatype Phase =
    | Uninitialised
    | WindowsOnly(pendingWindows: seq<Window>)
    | WorkspacesOnly(pendingWorkspaces: seq<Workspace>)
    | Ready(windows: Windows, workspaces: Workspaces)

  /** Niri::new: workspaces are keyed first, then windows. */
  function NewReady(ws: seq<Window>, wss: seq<Workspace>): Phase {
    Ready(WindowsById(ws), WorkspacesById(wss))
  }

  /** One event of `with_event`. */
  function Step(p: Phase, e: Event): Phase {
    match e
    case WindowsChanged(ws) =>
      (match p
       case WorkspacesOnly(wss) => NewReady(ws, wss)
       case Ready(_, wss) => Ready(WindowsById(ws), wss)
       case _ => WindowsOnly(ws))
    case WorkspacesChanged(wss) =>
      (match p
       case WindowsOnly(ws) => NewReady(ws, wss)
       case Ready(ws, _) => Ready(ws, WorkspacesById(wss))
       case _ => WorkspacesOnly(wss))
    case WindowClosed(id) =>
      if p.Ready? then p.(windows := p.windows - {id}) else p
    case WindowOpenedOrChanged(w) =>
      if p.Ready? then p.(windows := Upserted(p.windows, w)) else p
    case WindowFocusChanged(id) =>
      if p.Ready? then p.(windows := WithFocus(p.windows, id)) else p
    case WorkspaceActivated(id, _) =>
      if p.Ready? then p.(workspaces := WithActive(p.workspaces, id)) else p
    case WindowLayoutsChanged(changes) =>
      if p.Ready? then p.(windows := WithLayouts(p.windows, changes)) else p
    case Other => p
  }

  /** A whole event stream, folded from the left. */
  function Run(p: Phase, es: seq<Event>): Phase
    decreases |es|
  {
    if es == [] then p else Run(Step(p, es[0]), es[1..])
  }

  /** The two full-replace events, in either order and from any state,
      reach `Ready` holding exactly their payloads. */
  lemma FullReplaceEitherOrder(p: Phase, ws: seq<Window>, wss: seq<Workspace>)
    ensures Step(Step(p, WindowsChanged(ws)), WorkspacesChanged(wss)) == NewReady(ws, wss)
    ensures Step(Step(p, WorkspacesChanged(wss)), WindowsChanged(ws)) == NewReady(ws, wss)
  {
  }

  /** Before `Ready`, a repeated full-replace event of the same kind
      replaces the pending payload. */
  lemma PendingReplaced(p: Phase, ws: seq<Window>, wss: seq<Workspace>)
    ensures !p.WorkspacesOnly? && !p.Ready? ==> Step(p, WindowsChanged(ws)) == WindowsOnly(ws)
    ensures !p.WindowsOnly? && !p.Ready? ==> Step(p, WorkspacesChanged(wss)) == WorkspacesOnly(wss)
  {
  }

  /** Once `Ready`, a full replace of one map leaves the other untouched. */
  lemma ReplaceWhenReady(windows: Windows, workspaces: Workspaces, ws: seq<Window>, wss: seq<Workspace>)
    ensures Step(Ready(windows, workspaces), WindowsChanged(ws)) == Ready(WindowsById(ws), workspaces)
    ensures Step(Ready(windows, workspaces), WorkspacesChanged(wss)) == Ready(windows, WorkspacesById(wss))
  {
  }

  /** A delta event before `Ready`, and an unrecognised event always,
      leaves the state as it was. */
  lemma IgnoredEvents(p: Phase, e: Event)
    requires (e.IsDelta() && !p.Ready?) || e.Other?
    ensures Step(p, e) == p
  {
  }

  ghost predicate HasWindows(p: Phase) { p.WindowsOnly? || p.Ready? }
  ghost predicate HasWorkspaces(p: Phase) { p.WorkspacesOnly? || p.Ready? }

  /** What a stream contributes: a kind of full state is known afterwards
      exactly when it was known before or the stream carries that event. */
  lemma {:induction false} RunKnows(p: Phase, es: seq<Event>)
    ensures HasWindows(Run(p, es)) <==> HasWindows(p) || exists i :: 0 <= i < |es| && es[i].WindowsChanged?
    ensures HasWorkspaces(Run(p, es)) <==> HasWorkspaces(p) || exists i :: 0 <= i < |es| && es[i].WorkspacesChanged?
    decreases |es|
  {
    if es != [] {
      RunKnows(Step(p, es[0]), es[1..]);
      assert forall i :: 0 < i < |es| ==> es[i] == es[1..][i - 1];
      assert forall i :: 0 <= i < |es| - 1 ==> es[1..][i] == es[i + 1];
    }
  }

  /** From the uninitialised state, a stream leaves the machine `Ready`
      exactly when it holds at least one event of each full-replace kind,
      in whatever order and whatever deltas come before them. */
  lemma ReadyIffBothSeen(es: seq<Event>)
    ensures Run(Uninitialised, es).Ready? <==>
      (exists i :: 0 <= i < |es| && es[i].WindowsChanged?) &&
      (exists j :: 0 <= j < |es| && es[j].WorkspacesChanged?)
  {
    RunKnows(Uninitialised, es);
  }

  /** The invariant the reconstructed state keeps: maps keyed by id and at
      most one focused window (a pending window list has at most one). */
  ghost predicate PhaseInvariant(p: Phase) {
    match p
    case Ready(ws, wss) => WellKeyed(ws) && WorkspacesWellKeyed(wss) && AtMostOneFocused(ws)
    case WindowsOnly(ws) => AtMostOneFocusedIn(ws)
    case _ => true
  }

  /** What the compositor is trusted to send: a full window list with at
      most one focused window. */
  ghost predicate WellFormedEvent(e: Event) {
    e.WindowsChanged? ==> AtMostOneFocusedIn(e.windows)
  }

  lemma StepKeepsInvariant(p: Phase, e: Event)
    requires PhaseInvariant(p) && WellFormedEvent(e)
    ensures PhaseInvariant(Step(p, e))
  {
    match e
    case WindowsChanged(ws) =>
      WindowsByIdSpec(ws);
      WindowsByIdSingleFocus(ws);
      if p.WorkspacesOnly? { WorkspacesByIdSpec(p.pendingWorkspaces); }
    case WorkspacesChanged(wss) =>
      WorkspacesByIdSpec(wss);
      if p.WindowsOnly? {
        WindowsByIdSpec(p.pendingWindows);
        WindowsByIdSingleFocus(p.pendingWindows);
      }
    case WindowOpenedOrChanged(w) =>
      if p.Ready? { UpsertKeepsInvariant(p.windows, w); }
    case WindowFocusChanged(id) =>
      if p.Ready? { WithFocusSpec(p.windows, id); }
    case WorkspaceActivated(id, _) =>
      if p.Ready? { WithActiveSpec(p.workspaces, id); }
    case WindowLayoutsChanged(changes) =>
      if p.Ready? { WithLayoutsKeeps(p.windows, changes); }
    case WindowClosed(_) =>
    case Other =>
  }

  /** The single-focus rule holds after any stream of well-formed events. */
  lemma {:induction false} RunKeepsInvariant(p: Phase, es: seq<Event>)
    requires PhaseInvariant(p)
    requires forall i :: 0 <= i < |es| ==> WellFormedEvent(es[i])
    ensures PhaseInvariant(Run(p, es))
    ensures Run(p, es).Ready? ==> AtMostOneFocused(Run(p, es).windows)
    decreases |es|
  {
    if es != [] {
      StepKeepsInvariant(p, es[0]);
      assert forall i :: 0 <= i < |es| - 1 ==> es[1..][i] == es[i + 1];
      RunKeepsInvariant(Step(p, es[0]), es[1..]);
    }
  }
}
