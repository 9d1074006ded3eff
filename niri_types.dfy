/**
 * The parts of the compositor's IPC types that the taskbar reads: a
 * window, a workspace, a window's layout, and the event stream's events.
 * Only the fields the taskbar touches are kept.
 */
module NiriTypes {
  import opened Wrappers

  /** Window and workspace ids are `u64` in the IPC protocol. */
  type WindowId = nat
  type WorkspaceId = nat
  /** Process ids; the taskbar widens them to `i64`. */
  type Pid = int

  /** `WindowLayout`: only the position in the scrolling layout is read,
      as (column index, tile index within the column). */
  datatype WindowLayout = WindowLayout(posInScrollingLayout: Option<(nat, nat)>)

  datatype Window = Window(
    id: WindowId,
    pid: Option<Pid>,
    appId: Option<string>,
    title: Option<string>,
    isFocused: bool,
    workspaceId: Option<WorkspaceId>,
    layout: WindowLayout)

  /** `idx` is the workspace's display index on its output. */
  datatype Workspace = Workspace(
    id: WorkspaceId,
    idx: nat,
    isActive: bool,
    output: Option<string>)

  /** The events the window set reacts to; `Other` stands for every other
      event kind of the protocol, all of which are ignored. */
  datatype Event =
    | WindowsChanged(windows: seq<Window>)
    | WorkspacesChanged(workspaces: seq<Workspace>)
    | WindowClosed(closedId: WindowId)
    | WindowOpenedOrChanged(window: Window)
    | WindowFocusChanged(focusedId: Option<WindowId>)
    | WorkspaceActivated(activatedId: WorkspaceId, focused: bool)
    | WindowLayoutsChanged(changes: seq<(WindowId, WindowLayout)>)
    | Other
  {
    /** The events that the state machine applies only once it is ready. */
    predicate IsDelta() {
      WindowClosed? || WindowOpenedOrChanged? || WindowFocusChanged? ||
      WorkspaceActivated? || WindowLayoutsChanged?
    }
  }
}
