/**
 * Worked scenarios of notification correlation: concrete windows,
 * buttons and notifications, and what the correlator marks for them.
 */
module Scenarios {
  import opened Wrappers
  import opened NiriTypes
  import opened NiriSnapshot
  import opened Configuration
  import opened Correlator

  function Toplevel(id: WindowId, pid: Option<Pid>, appId: string): SnapWindow {
    SnapWindow(Window(id, pid, Some(appId), None, false, Some(1), WindowLayout(None)), Some("DP-1"))
  }

  /** A button for each of the windows 1, 2 and 3. */
  function ThreeButtons(): Buttons {
    var b := Button(false, None, false);
    map[1 := b, 2 := b, 3 := b]
  }

  /** Desktop-entry fallback on, fuzzy matching on, no remapping. */
  function FuzzyConfig(): Config {
    Config(map[], Notifications(true, map[], true, true), false, false)
  }

  /** A process tree in which 100 is a child of 10 and 10 has no parent. */
  function Tree(pid: Pid): Result<Option<Pid>> {
    if pid == 100 then Ok(Some(10)) else if pid == 10 then Ok(None) else Err
  }

  lemma LastComponentOfOrgApp()
    ensures LastComponent("org.App") == "App"
  {
    assert "org.App"[3] == '.';
    assert "org.App"[..7] == "org.App";
  }

  lemma LastComponentOfIoApp()
    ensures LastComponent("io.App") == "App"
  {
    assert "io.App"[2] == '.';
  }

  lemma LastComponentOfApp()
    ensures LastComponent("App") == "App"
  {
  }

  /** `org.App` and `io.App` match the entry `App` fuzzily, through their
      last component. */
  lemma SameLastComponent()
    ensures FuzzyMatch("org.App", "App") && FuzzyMatch("io.App", "App")
  {
    LastComponentOfOrgApp();
    LastComponentOfIoApp();
    LastComponentOfApp();
    assert "org.App"[3] == '.';
    assert "io.App"[2] == '.';
  }

  function OrgAndIo(): Snapshot {
    [Toplevel(1, None, "org.App"), Toplevel(2, None, "io.App")]
  }

  function OrgAndExact(): Snapshot {
    [Toplevel(1, None, "org.App"), Toplevel(2, None, "App")]
  }

  /** Both windows of `OrgAndIo` are fuzzy candidates for `App`, neither exact. */
  lemma OrgAndIoFuzzy()
    ensures IsFuzzy(OrgAndIo()[0].window, "App", true) && !IsExact(OrgAndIo()[0].window, "App")
    ensures IsFuzzy(OrgAndIo()[1].window, "App", true) && !IsExact(OrgAndIo()[1].window, "App")
  {
    SameLastComponent();
    assert OrgAndIo()[0].window.appId == Some("org.App");
    assert OrgAndIo()[1].window.appId == Some("io.App");
  }

  /** The scan of `OrgAndIo` for `App` finds no exact match. */
  lemma OrgAndIoScanExact()
    ensures ExactMarks(OrgAndIo(), ThreeButtons(), "App") == []
  {
    var toplevels := OrgAndIo();
    assert !IsExact(toplevels[0].window, "App") && !IsExact(toplevels[1].window, "App");
    ScanStep(toplevels, ThreeButtons(), "App", true, 0);
    ScanStep(toplevels, ThreeButtons(), "App", true, 1);
    assert toplevels[..0] == [] && toplevels[..2] == toplevels;
  }

  /** The scan of `OrgAndIo` for `App` finds two fuzzy candidates. */
  lemma OrgAndIoScanFuzzy()
    ensures FuzzyCandidates(OrgAndIo(), "App", true) == [1, 2]
  {
    OrgAndIoFuzzy();
    TwoCandidates(OrgAndIo(), "App", true);
  }

  /** Two windows that are both fuzzy candidates are found in order. */
  lemma TwoCandidates(toplevels: Snapshot, target: string, useFuzzy: bool)
    requires |toplevels| == 2
    requires IsFuzzy(toplevels[0].window, target, useFuzzy) && IsFuzzy(toplevels[1].window, target, useFuzzy)
    ensures FuzzyCandidates(toplevels, target, useFuzzy) == [toplevels[0].window.id, toplevels[1].window.id]
  {
    ScanStep(toplevels, map[], target, useFuzzy, 0);
    ScanStep(toplevels, map[], target, useFuzzy, 1);
    assert toplevels[..0] == [] && toplevels[..2] == toplevels;
  }

  /** The scan of `OrgAndExact` for `App` finds window 2 exactly. */
  lemma OrgAndExactScan()
    ensures ExactMarks(OrgAndExact(), ThreeButtons(), "App") == [2]
  {
    var toplevels := OrgAndExact();
    assert !IsExact(toplevels[0].window, "App");
    assert IsExact(toplevels[1].window, "App") && 2 in ThreeButtons();
    ScanStep(toplevels, ThreeButtons(), "App", true, 0);
    ScanStep(toplevels, ThreeButtons(), "App", true, 1);
    assert toplevels[..0] == [] && toplevels[..2] == toplevels;
  }

  /** Without an exact match both fuzzy candidates are marked. */
  lemma OrgAndIoMarks()
    ensures AppIdMarks(OrgAndIo(), ThreeButtons(), "App", true) == [1, 2]
  {
    OrgAndIoScanExact();
    OrgAndIoScanFuzzy();
    BothHaveButtons();
  }

  lemma BothHaveButtons()
    ensures WithButtons([1, 2], ThreeButtons()) == [1, 2]
  {
    assert [1, 2][..1] == [1];
    assert [1][..0] == [];
  }

  /** Two windows whose app ids share the last component `App` are both
      marked for the entry `App` when there is no exact match. */
  lemma FuzzyBreadth()
    ensures Correlate(Some(OrgAndIo()), ThreeButtons(), Notification(None, Some("App")), FuzzyConfig(), Tree, 8) == [1, 2]
  {
    OrgAndIoMarks();
    assert Target(FuzzyConfig(), "App") == "App";
  }

  /** An exact app-id match suppresses the fuzzy one found in the same scan. */
  lemma ExactExclusivity()
    ensures Correlate(Some(OrgAndExact()), ThreeButtons(), Notification(None, Some("App")), FuzzyConfig(), Tree, 8) == [2]
  {
    OrgAndExactScan();
    assert Target(FuzzyConfig(), "App") == "App";
  }

  /** The pid walk's match wins over a desktop entry that would match
      another window fuzzily: the sender 100's parent 10 owns window 3. */
  lemma PidPrecedence()
    ensures Correlate(Some([Toplevel(1, None, "org.App"), Toplevel(3, Some(10), "term")]), ThreeButtons(),
                      Notification(Some(100), Some("App")), FuzzyConfig(), Tree, 8) == [3]
  {
    var toplevels := [Toplevel(1, None, "org.App"), Toplevel(3, Some(10), "term")];
    var pids := PidWindowMapOf(toplevels);
    assert PidEntries(toplevels) == [(10, Toplevel(3, Some(10), "term"))] by {
      assert toplevels[..1] == [Toplevel(1, None, "org.App")];
      assert toplevels[..1][..0] == [];
    }
    assert pids.byPid == map[10 := Toplevel(3, Some(10), "term")];
    assert Walk(pids, ThreeButtons(), 100, Tree, 8) == [3];
  }

  /** A walk that reaches the root of the process tree without passing a
      window's pid marks nothing. */
  lemma WalkWithoutMatch()
    ensures Walk(PidWindowMapOf([Toplevel(1, Some(7), "term")]), ThreeButtons(), 100, Tree, 8) == []
    ensures Chain(100, Tree, 8) == [100, 10]
  {
    var toplevels := [Toplevel(1, Some(7), "term")];
    assert toplevels[..0] == [];
    assert PidEntries(toplevels) == [(7, Toplevel(1, Some(7), "term"))];
    assert PidWindowMapOf(toplevels).byPid == map[7 := Toplevel(1, Some(7), "term")];
  }

  /** Two windows of one process: `get` finds the later one. */
  lemma SharedPidLastWins()
    ensures PidWindowMapOf(SharedPid()).Get(5) == Some(SharedPid()[1])
  {
    var toplevels := SharedPid();
    assert toplevels[..1][..0] == [] && toplevels[..2][..1] == toplevels[..1] && toplevels[..2] == toplevels;
    assert PidEntries(toplevels[..1]) == [(5, toplevels[0])];
    var es := PidEntries(toplevels);
    assert es == [(5, toplevels[0]), (5, toplevels[1])];
    assert es[..1] == [(5, toplevels[0])] && es[..1][..0] == [];
    assert PidWindowMapOf(toplevels).byPid == map[5 := toplevels[1]];
  }

  /** The later window of the process is focused, so the walk from its pid
      marks nothing, although the earlier window is unfocused and has a
      button. */
  lemma SharedPidFocusedLast()
    ensures Walk(PidWindowMapOf(SharedPid()), ThreeButtons(), 5, Tree, 8) == []
  {
    SharedPidLastWins();
    assert Hit(PidWindowMapOf(SharedPid()), ThreeButtons(), 5) == None;
  }

  /** Window 1 unfocused and window 2 focused, both owned by pid 5. */
  function SharedPid(): Snapshot {
    [Toplevel(1, Some(5), "term"),
     SnapWindow(Window(2, Some(5), Some("term"), None, true, Some(1), WindowLayout(None)), Some("DP-1"))]
  }
}
