/**
 * The taskbar instance: one button per window the output filter shows,
 * reconciled against every window snapshot, and marked urgent when a
 * notification is traced back to its window. Only the `buttons` map and
 * the last snapshot are modelled; the widgets behind the buttons are not.
 */
module Taskbar {
  import opened Wrappers
  import opened NiriTypes
  import opened NiriSnapshot
  import opened Configuration
  import opened Correlator

  /** `Filter::should_show`: whether windows on the named output are shown. */
  type OutputFilter = string -> bool

  /** A window passes the filter; an unknown output is the empty name. */
  predicate IsShown(w: SnapWindow, shouldShow: OutputFilter) {
    shouldShow(w.Output().GetOr(""))
  }

  /** A button as `Button::new` creates it, before focus and title are set. */
  function NewButton(): Button {
    Button(false, None, false)
  }

  /** The body of the snapshot loop for one window: the window's entry,
      created when missing, gets the window's focus flag and title. */
  function Refreshed(buttons: Buttons, w: Window): Buttons {
    var b := if w.id in buttons then buttons[w.id] else NewButton();
    buttons[w.id := b.(focused := w.isFocused, title := w.title)]
  }

  /** The buttons after the loop over the shown windows, in snapshot order. */
  function RefreshedAll(buttons: Buttons, windows: Snapshot, shouldShow: OutputFilter): Buttons {
    if windows == [] then buttons
    else
      var front := RefreshedAll(buttons, windows[..|windows| - 1], shouldShow);
      var w := windows[|windows| - 1];
      if IsShown(w, shouldShow) then Refreshed(front, w.window) else front
  }

  /** The ids of the windows the filter shows. */
  function ShownIds(windows: Snapshot, shouldShow: OutputFilter): set<WindowId> {
    set i | 0 <= i < |windows| && IsShown(windows[i], shouldShow) :: windows[i].window.id
  }

  /** The buttons after `process_window_snapshot`: the refreshed map without
      the ids that had a button before and are not shown now. */
  function Reconciled(buttons: Buttons, windows: Snapshot, shouldShow: OutputFilter): Buttons {
    RefreshedAll(buttons, windows, shouldShow) - (buttons.Keys - ShownIds(windows, shouldShow))
  }

  /** The last shown window with id `id` is at index `i`. */
  ghost predicate LastShown(windows: Snapshot, shouldShow: OutputFilter, id: WindowId, i: int) {
    0 <= i < |windows| && IsShown(windows[i], shouldShow) && windows[i].window.id == id &&
    forall j :: i < j < |windows| && IsShown(windows[j], shouldShow) ==> windows[j].window.id != id
  }

  /** What a shown id's button holds after the loop: the focus flag and
      title of the last shown window with that id, and the urgency of the
      button it had before (a new button is not urgent). */
  ghost predicate RefreshedFrom(b: Button, buttons: Buttons, windows: Snapshot, shouldShow: OutputFilter, id: WindowId) {
    exists i :: LastShown(windows, shouldShow, id, i) &&
      b == Button(windows[i].window.isFocused, windows[i].window.title, id in buttons && buttons[id].urgent)
  }

  lemma ShownIdsStep(windows: Snapshot, shouldShow: OutputFilter)
    requires windows != []
    ensures var w := windows[|windows| - 1];
      ShownIds(windows, shouldShow) ==
        ShownIds(windows[..|windows| - 1], shouldShow) + (if IsShown(w, shouldShow) then {w.window.id} else {})
  {
    var front := windows[..|windows| - 1];
    assert forall i :: 0 <= i < |front| ==> front[i] == windows[i];
  }

  /** One more window of the loop: a shown window refreshes its entry. */
  lemma RefreshedAllStep(buttons: Buttons, windows: Snapshot, shouldShow: OutputFilter, i: nat)
    requires i < |windows|
    ensures RefreshedAll(buttons, windows[..i + 1], shouldShow) ==
      if IsShown(windows[i], shouldShow) then Refreshed(RefreshedAll(buttons, windows[..i], shouldShow), windows[i].window)
      else RefreshedAll(buttons, windows[..i], shouldShow)
    ensures ShownIds(windows[..i + 1], shouldShow) ==
      ShownIds(windows[..i], shouldShow) + (if IsShown(windows[i], shouldShow) then {windows[i].window.id} else {})
  {
    assert windows[..i + 1][..i] == windows[..i];
    ShownIdsStep(windows[..i + 1], shouldShow);
  }

  /** The loop creates an entry for every shown id and leaves every other
      entry alone. */
  lemma {:induction false} RefreshedAllKeys(buttons: Buttons, windows: Snapshot, shouldShow: OutputFilter)
    ensures RefreshedAll(buttons, windows, shouldShow).Keys == buttons.Keys + ShownIds(windows, shouldShow)
    ensures forall id :: id in buttons && id !in ShownIds(windows, shouldShow) ==>
      RefreshedAll(buttons, windows, shouldShow)[id] == buttons[id]
  {
    if windows != [] {
      RefreshedAllKeys(buttons, windows[..|windows| - 1], shouldShow);
      ShownIdsStep(windows, shouldShow);
    }
  }

  /** Each shown id is left with the state of its last shown window. */
  lemma {:induction false} RefreshedAllState(buttons: Buttons, windows: Snapshot, shouldShow: OutputFilter)
    ensures forall id :: id in ShownIds(windows, shouldShow) ==>
      id in RefreshedAll(buttons, windows, shouldShow) &&
      RefreshedFrom(RefreshedAll(buttons, windows, shouldShow)[id], buttons, windows, shouldShow, id)
  {
    RefreshedAllKeys(buttons, windows, shouldShow);
    if windows != [] {
      var n := |windows|;
      var front := windows[..n - 1];
      var w := windows[n - 1];
      var prev := RefreshedAll(buttons, front, shouldShow);
      var r := RefreshedAll(buttons, windows, shouldShow);
      RefreshedAllState(buttons, front, shouldShow);
      RefreshedAllKeys(buttons, front, shouldShow);
      ShownIdsStep(windows, shouldShow);
      forall id | id in ShownIds(windows, shouldShow)
        ensures RefreshedFrom(r[id], buttons, windows, shouldShow, id)
      {
        if IsShown(w, shouldShow) && id == w.window.id {
          RefreshedFromLast(buttons, windows, shouldShow);
        } else {
          RefreshedFromFront(buttons, windows, shouldShow, id);
        }
      }
    }
  }

  /** The last window, when shown, decides its id's focus and title. */
  lemma RefreshedFromLast(buttons: Buttons, windows: Snapshot, shouldShow: OutputFilter)
    requires windows != [] && IsShown(windows[|windows| - 1], shouldShow)
    requires var front := windows[..|windows| - 1];
      forall id :: id in ShownIds(front, shouldShow) ==>
        id in RefreshedAll(buttons, front, shouldShow) &&
        RefreshedFrom(RefreshedAll(buttons, front, shouldShow)[id], buttons, front, shouldShow, id)
    ensures var id := windows[|windows| - 1].window.id;
      id in RefreshedAll(buttons, windows, shouldShow) &&
      RefreshedFrom(RefreshedAll(buttons, windows, shouldShow)[id], buttons, windows, shouldShow, id)
  {
    var n := |windows|;
    var front := windows[..n - 1];
    var prev := RefreshedAll(buttons, front, shouldShow);
    var id := windows[n - 1].window.id;
    RefreshedAllKeys(buttons, front, shouldShow);
    assert LastShown(windows, shouldShow, id, n - 1);
    if id in ShownIds(front, shouldShow) {
      var i :| LastShown(front, shouldShow, id, i) &&
        prev[id] == Button(front[i].window.isFocused, front[i].window.title, id in buttons && buttons[id].urgent);
    }
  }

  /** Any other shown id keeps what the earlier windows gave it. */
  lemma RefreshedFromFront(buttons: Buttons, windows: Snapshot, shouldShow: OutputFilter, id: WindowId)
    requires windows != [] && id in ShownIds(windows, shouldShow)
    requires !IsShown(windows[|windows| - 1], shouldShow) || windows[|windows| - 1].window.id != id
    requires var front := windows[..|windows| - 1];
      forall id :: id in ShownIds(front, shouldShow) ==>
        id in RefreshedAll(buttons, front, shouldShow) &&
        RefreshedFrom(RefreshedAll(buttons, front, shouldShow)[id], buttons, front, shouldShow, id)
    ensures id in RefreshedAll(buttons, windows, shouldShow) &&
      RefreshedFrom(RefreshedAll(buttons, windows, shouldShow)[id], buttons, windows, shouldShow, id)
  {
    var n := |windows|;
    var front := windows[..n - 1];
    var prev := RefreshedAll(buttons, front, shouldShow);
    ShownIdsStep(windows, shouldShow);
    assert id in ShownIds(front, shouldShow);
    var i :| LastShown(front, shouldShow, id, i) &&
      prev[id] == Button(front[i].window.isFocused, front[i].window.title, id in buttons && buttons[id].urgent);
    assert windows[i] == front[i];
    assert LastShown(windows, shouldShow, id, i);
  }

  /** After reconciliation the buttons are exactly the shown windows'; a
      kept button keeps its urgency and takes focus and title from the last
      shown window with its id, and a new one starts out not urgent. */
  lemma ReconciledSpec(buttons: Buttons, windows: Snapshot, shouldShow: OutputFilter)
    ensures Reconciled(buttons, windows, shouldShow).Keys == ShownIds(windows, shouldShow)
    ensures forall id :: id in ShownIds(windows, shouldShow) ==>
      RefreshedFrom(Reconciled(buttons, windows, shouldShow)[id], buttons, windows, shouldShow, id)
  {
    RefreshedAllKeys(buttons, windows, shouldShow);
    RefreshedAllState(buttons, windows, shouldShow);
  }

  /** The last shown window with a given id is unique. */
  lemma LastShownUnique(windows: Snapshot, shouldShow: OutputFilter, id: WindowId, i: int, j: int)
    requires LastShown(windows, shouldShow, id, i) && LastShown(windows, shouldShow, id, j)
    ensures i == j
  {
  }

  /** Reconciling twice against the same snapshot changes nothing more. */
  lemma ReconciledIdempotent(buttons: Buttons, windows: Snapshot, shouldShow: OutputFilter)
    ensures Reconciled(Reconciled(buttons, windows, shouldShow), windows, shouldShow) == Reconciled(buttons, windows, shouldShow)
  {
    var once := Reconciled(buttons, windows, shouldShow);
    var twice := Reconciled(once, windows, shouldShow);
    ReconciledSpec(buttons, windows, shouldShow);
    ReconciledSpec(once, windows, shouldShow);
    forall id | id in ShownIds(windows, shouldShow) ensures twice[id] == once[id] {
      var i :| LastShown(windows, shouldShow, id, i) &&
        once[id] == Button(windows[i].window.isFocused, windows[i].window.title, id in buttons && buttons[id].urgent);
      var j :| LastShown(windows, shouldShow, id, j) &&
        twice[id] == Button(windows[j].window.isFocused, windows[j].window.title, id in once && once[id].urgent);
      LastShownUnique(windows, shouldShow, id, i, j);
    }
  }

  /** `set_urgent` on every marked id that has a button; nothing else changes. */
  function MarkUrgent(buttons: Buttons, ids: seq<WindowId>): (r: Buttons)
    ensures r.Keys == buttons.Keys
    ensures forall id :: id in r ==>
      r[id].urgent == (buttons[id].urgent || id in ids) &&
      r[id].focused == buttons[id].focused && r[id].title == buttons[id].title
  {
    map id | id in buttons :: if id in ids then buttons[id].(urgent := true) else buttons[id]
  }

  /** A notification sets the urgent flag of exactly the correlated
      windows, keeps every other flag, and adds or removes no button. */
  lemma NotificationEffect(last: Option<Snapshot>, buttons: Buttons, n: Notification, config: Config,
                           parentOf: ParentLookup, fuel: nat)
    ensures var r := MarkUrgent(buttons, Correlate(last, buttons, n, config, parentOf, fuel));
      r.Keys == buttons.Keys &&
      forall id :: id in r && !buttons[id].urgent ==>
        (r[id].urgent <==> id in Correlate(last, buttons, n, config, parentOf, fuel))
    ensures last.None? ==> MarkUrgent(buttons, Correlate(last, buttons, n, config, parentOf, fuel)) == buttons
  {
    CorrelatePrecedence(last, buttons, n, config, parentOf, fuel);
  }

  class Instance {
    var buttons: Buttons
    var lastSnapshot: Option<Snapshot>
    const config: Config

    /** `Instance::new`: no buttons and no snapshot yet. */
    constructor(config: Config)
      ensures buttons == map[] && lastSnapshot == None && this.config == config
    {
      buttons := map[];
      lastSnapshot := None;
      this.config := config;
    }

    /** Calls `set_urgent` on each marked button, in order. */
    method SetUrgent(ids: seq<WindowId>)
      modifies this
      ensures buttons == MarkUrgent(old(buttons), ids)
      ensures lastSnapshot == old(lastSnapshot)
    {
      ghost var before := buttons;
      for i := 0 to |ids|
        invariant buttons == MarkUrgent(before, ids[..i])
        invariant lastSnapshot == old(lastSnapshot)
      {
        assert forall id :: id in ids[..i + 1] <==> id in ids[..i] || id == ids[i];
        if ids[i] in buttons {
          buttons := buttons[ids[i] := buttons[ids[i]].(urgent := true)];
        }
      }
      assert ids[..|ids|] == ids;
    }

    /** `process_notification`: the pid walk, then, when it marked nothing,
        the desktop-entry fallback. The parent lookup is a parameter and
        `fuel` bounds the walk. */
    method ProcessNotification(n: Notification, parentOf: ParentLookup, fuel: nat)
      modifies this
      ensures buttons == MarkUrgent(old(buttons), Correlate(old(lastSnapshot), old(buttons), n, config, parentOf, fuel))
      ensures lastSnapshot == old(lastSnapshot)
    {
      if lastSnapshot.None? {
        return;
      }
      var toplevels := lastSnapshot.value;
      if n.pid.Some? {
        var pids := PidWindowMapOf(toplevels);
        var marked := WalkAncestry(pids, buttons, n.pid.value, parentOf, fuel);
        if marked != [] {
          SetUrgent(marked);
          return;
        }
      }
      if !config.NotificationsUseDesktopEntry() || n.desktopEntry.None? {
        return;
      }
      var target := Target(config, n.desktopEntry.value);
      var marked := MatchByAppId(toplevels, buttons, target, config.NotificationsUseFuzzyMatching());
      SetUrgent(marked);
    }

    /** `process_window_snapshot`: refresh or create the button of every
        shown window, remove the buttons of the windows no longer shown,
        and keep the whole snapshot. */
    method ProcessWindowSnapshot(windows: Snapshot, shouldShow: OutputFilter)
      modifies this
      ensures buttons == Reconciled(old(buttons), windows, shouldShow)
      ensures lastSnapshot == Some(windows)
    {
      var omitted := RefreshShown(windows, shouldShow);
      RemoveOmitted(omitted);
      lastSnapshot := Some(windows);
    }

    /** The first loop of `process_window_snapshot`: every shown window's
        entry is refreshed, and the ids left in `omitted` are those that had
        a button and are not shown. */
    method RefreshShown(windows: Snapshot, shouldShow: OutputFilter) returns (omitted: set<WindowId>)
      modifies this
      ensures buttons == RefreshedAll(old(buttons), windows, shouldShow)
      ensures omitted == old(buttons).Keys - ShownIds(windows, shouldShow)
      ensures lastSnapshot == old(lastSnapshot)
    {
      ghost var before := buttons;
      omitted := buttons.Keys;
      for i := 0 to |windows|
        invariant buttons == RefreshedAll(before, windows[..i], shouldShow)
        invariant omitted == before.Keys - ShownIds(windows[..i], shouldShow)
        invariant lastSnapshot == old(lastSnapshot)
      {
        RefreshedAllStep(before, windows, shouldShow, i);
        var w := windows[i];
        if IsShown(w, shouldShow) {
          var button := if w.window.id in buttons then buttons[w.window.id] else NewButton();
          buttons := buttons[w.window.id := button.(focused := w.window.isFocused, title := w.window.title)];
          omitted := omitted - {w.window.id};
        }
      }
      assert windows[..|windows|] == windows;
    }

    /** The removal loop of `process_window_snapshot`. */
    method RemoveOmitted(omitted: set<WindowId>)
      modifies this
      ensures buttons == old(buttons) - omitted
      ensures lastSnapshot == old(lastSnapshot)
    {
      var todo := omitted;
      while todo != {}
        invariant todo <= omitted
        invariant buttons == old(buttons) - (omitted - todo)
        invariant lastSnapshot == old(lastSnapshot)
        decreases |todo|
      {
        var id :| id in todo;
        buttons := buttons - {id};
        todo := todo - {id};
      }
    }
  }
}
