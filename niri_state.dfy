/**
 * The window set as the source keeps it: `WindowSet` owns an
 * `Option<Inner>`, and the `Ready` variant owns a `Niri` object whose two
 * maps the event handlers update in place. Each method is proved against
 * the pure functions of NiriModel; `WithEvent` against `Step`.
 */
module NiriState {
  import opened Wrappers
  import opened NiriTypes
  import opened NiriModel
  import opened NiriSnapshot

  class Niri {
    var windows: Windows
    var workspaces: Workspaces

    /** Both maps are keyed by the ids of their values. */
    ghost predicate Valid()
      reads this
    {
      WellKeyed(windows) && WorkspacesWellKeyed(workspaces)
    }

    /** `Niri::new`: workspaces are replaced first, then windows. */
    constructor (ws: seq<Window>, wss: seq<Workspace>)
      ensures Valid()
      ensures windows == WindowsById(ws) && workspaces == WorkspacesById(wss)
    {
      windows := map[];
      workspaces := map[];
      new;
      ReplaceWorkspaces(wss);
      ReplaceWindows(ws);
    }

    method RemoveWindow(id: WindowId)
      requires Valid()
      modifies this`windows
      ensures Valid()
      ensures windows == old(windows) - {id}
      ensures id !in old(windows) ==> windows == old(windows)
    {
      windows := windows - {id};
    }

    method ReplaceWindows(ws: seq<Window>)
      requires WorkspacesWellKeyed(workspaces)
      modifies this`windows
      ensures Valid()
      ensures windows == WindowsById(ws)
    {
      WindowsByIdSpec(ws);
      windows := WindowsById(ws);
    }

    method ReplaceWorkspaces(wss: seq<Workspace>)
      modifies this`workspaces
      ensures WorkspacesWellKeyed(workspaces)
      ensures workspaces == WorkspacesById(wss)
    {
      WorkspacesByIdSpec(wss);
      workspaces := WorkspacesById(wss);
    }

    /** `set_focus`: patches every window's focus flag in turn. */
    method SetFocus(id: Option<WindowId>)
      requires Valid()
      modifies this`windows
      ensures Valid()
      ensures windows == WithFocus(old(windows), id)
      ensures windows.Keys == old(windows).Keys
      ensures forall k :: k in windows ==> windows[k].isFocused == (Some(k) == id)
    {
      ghost var before := windows;
      var todo := windows.Keys;
      while todo != {}
        invariant todo <= windows.Keys && windows.Keys == before.Keys
        invariant forall k :: k in windows ==>
          windows[k] == if k in todo then before[k] else before[k].(isFocused := Some(before[k].id) == id)
        decreases todo
      {
        var k :| k in todo;
        var w := windows[k];
        windows := windows[k := w.(isFocused := Some(w.id) == id)];
        todo := todo - {k};
      }
      assert windows == WithFocus(before, id);
      WithFocusSpec(before, id);
    }

    /** `set_active_workspace`: patches every workspace's active flag in turn. */
    method SetActiveWorkspace(id: WorkspaceId)
      requires Valid()
      modifies this`workspaces
      ensures Valid()
      ensures workspaces == WithActive(old(workspaces), id)
      ensures workspaces.Keys == old(workspaces).Keys
      ensures forall k :: k in workspaces ==> workspaces[k].isActive == (k == id)
    {
      ghost var before := workspaces;
      var todo := workspaces.Keys;
      while todo != {}
        invariant todo <= workspaces.Keys && workspaces.Keys == before.Keys
        invariant forall k :: k in workspaces ==>
          workspaces[k] == if k in todo then before[k] else before[k].(isActive := before[k].id == id)
        decreases todo
      {
        var k :| k in todo;
        var s := workspaces[k];
        workspaces := workspaces[k := s.(isActive := s.id == id)];
        todo := todo - {k};
      }
      assert workspaces == WithActive(before, id);
      WithActiveSpec(before, id);
    }

    method UpdateWindowLayout(id: WindowId, layout: WindowLayout)
      requires Valid()
      modifies this`windows
      ensures Valid()
      ensures windows == WithLayout(old(windows), id, layout)
    {
      if id in windows {
        windows := windows[id := windows[id].(layout := layout)];
      }
    }

    /** `upsert_window`: a focused newcomer first clears every focus flag. */
    method UpsertWindow(w: Window)
      requires Valid()
      modifies this`windows
      ensures Valid()
      ensures windows == Upserted(old(windows), w)
      ensures windows[w.id] == w
      ensures w.isFocused ==> forall k :: k in windows && k != w.id ==> !windows[k].isFocused
    {
      ghost var before := windows;
      if w.isFocused {
        var todo := windows.Keys;
        while todo != {}
          invariant todo <= windows.Keys && windows.Keys == before.Keys
          invariant forall k :: k in windows ==>
            windows[k] == if k in todo then before[k] else before[k].(isFocused := false)
          decreases todo
        {
          var k :| k in todo;
          windows := windows[k := windows[k].(isFocused := false)];
          todo := todo - {k};
        }
        assert windows == Unfocused(before);
      }
      windows := windows[w.id := w];
      UpsertedSpec(before, w);
    }
  }

  /** The source's `Inner`; `Ready` owns the `Niri` object. */
  datatype Inner =
    | WindowsOnly(windows: seq<Window>)
    | WorkspacesOnly(workspaces: seq<Workspace>)
    | Ready(niri: Niri)

  class WindowSet {
    var inner: Option<Inner>

    ghost function Footprint(): set<object>
      reads this
    {
      if inner.Some? && inner.value.Ready? then {inner.value.niri} else {}
    }

    ghost predicate Valid()
      reads this, Footprint()
    {
      inner.Some? && inner.value.Ready? ==> inner.value.niri.Valid()
    }

    /** The state as a value. */
    ghost function Model(): Phase
      reads this, Footprint()
    {
      if inner.None? then Uninitialised
      else if inner.value.WindowsOnly? then Phase.WindowsOnly(inner.value.windows)
      else if inner.value.WorkspacesOnly? then Phase.WorkspacesOnly(inner.value.workspaces)
      else Phase.Ready(inner.value.niri.windows, inner.value.niri.workspaces)
    }

    constructor ()
      ensures Valid() && Model() == Uninitialised
    {
      inner := None;
    }

    /** `with_event`: applies one event and returns a snapshot exactly when
        the state afterwards is ready. */
    method WithEvent(event: Event, onlyCurrentWorkspace: bool) returns (snapshot: Option<Snapshot>)
      requires Valid()
      modifies this, Footprint()
      ensures Valid() && fresh(Footprint() - old(Footprint()))
      ensures Model() == Step(old(Model()), event)
      ensures snapshot.Some? <==> Model().Ready?
      ensures snapshot.Some? ==>
        snapshot.value == SnapshotOf(Model().windows, Model().workspaces, onlyCurrentWorkspace) &&
        WellKeyed(Model().windows)
    {
      match event {
        case WindowsChanged(ws) => OnWindowsChanged(ws);
        case WorkspacesChanged(wss) => OnWorkspacesChanged(wss);
        case WindowLayoutsChanged(changes) => OnWindowLayoutsChanged(changes);
        case Other =>
        case _ => OnDelta(event);
      }
      snapshot := CurrentSnapshot(onlyCurrentWorkspace);
    }

    /** The tail of `with_event`: a snapshot of a ready state, none otherwise. */
    method CurrentSnapshot(onlyCurrentWorkspace: bool) returns (snapshot: Option<Snapshot>)
      requires Valid()
      ensures snapshot.Some? <==> Model().Ready?
      ensures snapshot.Some? ==>
        snapshot.value == SnapshotOf(Model().windows, Model().workspaces, onlyCurrentWorkspace) &&
        WellKeyed(Model().windows)
    {
      if inner.Some? && inner.value.Ready? {
        var n := inner.value.niri;
        snapshot := Some(SnapshotOf(n.windows, n.workspaces, onlyCurrentWorkspace));
      } else {
        snapshot := None;
      }
    }

    /** The `WindowsChanged` arm: the option is taken out and written back. */
    method OnWindowsChanged(ws: seq<Window>)
      requires Valid()
      modifies this, Footprint()
      ensures Valid() && fresh(Footprint() - old(Footprint()))
      ensures Model() == Step(old(Model()), WindowsChanged(ws))
    {
      var taken := inner;
      inner := None;
      if taken.Some? && taken.value.WorkspacesOnly? {
        var n := new Niri(ws, taken.value.workspaces);
        inner := Some(Inner.Ready(n));
      } else if taken.Some? && taken.value.Ready? {
        var n := taken.value.niri;
        n.ReplaceWindows(ws);
        inner := Some(Inner.Ready(n));
      } else {
        inner := Some(Inner.WindowsOnly(ws));
      }
    }

    /** The `WorkspacesChanged` arm. */
    method OnWorkspacesChanged(wss: seq<Workspace>)
      requires Valid()
      modifies this, Footprint()
      ensures Valid() && fresh(Footprint() - old(Footprint()))
      ensures Model() == Step(old(Model()), WorkspacesChanged(wss))
    {
      var taken := inner;
      inner := None;
      if taken.Some? && taken.value.WindowsOnly? {
        var n := new Niri(taken.value.windows, wss);
        inner := Some(Inner.Ready(n));
      } else if taken.Some? && taken.value.Ready? {
        var n := taken.value.niri;
        n.ReplaceWorkspaces(wss);
        inner := Some(Inner.Ready(n));
      } else {
        inner := Some(Inner.WorkspacesOnly(wss));
      }
    }

    /** The `WindowLayoutsChanged` arm: each change applied in order, and
        nothing at all before the state is ready. */
    method OnWindowLayoutsChanged(changes: seq<(WindowId, WindowLayout)>)
      requires Valid()
      modifies Footprint()
      ensures Valid() && Footprint() == old(Footprint())
      ensures Model() == Step(old(Model()), WindowLayoutsChanged(changes))
    {
      if inner.Some? && inner.value.Ready? {
        var n := inner.value.niri;
        ghost var before := n.windows;
        for i := 0 to |changes|
          invariant n.Valid() && n.workspaces == old(n.workspaces)
          invariant n.windows == WithLayouts(before, changes[..i])
        {
          assert changes[..i + 1][..i] == changes[..i];
          n.UpdateWindowLayout(changes[i].0, changes[i].1);
        }
        assert changes[..|changes|] == changes;
      }
    }

    /** The remaining delta arms: applied to a ready state, otherwise
        dropped with a warning. */
    method OnDelta(event: Event)
      requires Valid()
      requires event.WindowClosed? || event.WindowOpenedOrChanged? ||
               event.WindowFocusChanged? || event.WorkspaceActivated?
      modifies Footprint()
      ensures Valid() && Footprint() == old(Footprint())
      ensures Model() == Step(old(Model()), event)
    {
      if inner.Some? && inner.value.Ready? {
        var n := inner.value.niri;
        match event {
          case WindowClosed(id) => n.RemoveWindow(id);
          case WindowOpenedOrChanged(w) => n.UpsertWindow(w);
          case WindowFocusChanged(id) => n.SetFocus(id);
          case WorkspaceActivated(id, _) => n.SetActiveWorkspace(id);
        }
      }
    }
  }
}
