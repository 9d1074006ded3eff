/**
 * Matching a desktop notification to the taskbar windows it came from:
 * first by walking up the sender's process ancestry, then, when that finds
 * nothing, by the notification's desktop entry compared with window app
 * ids, exactly or fuzzily. The functions are the specification; the
 * methods are the loops of `process_notification`, proved against them.
 */
module Correlator {
  import opened Wrappers
  import opened NiriTypes
  import opened NiriSnapshot
  import opened Configuration
  import KeyedIndex

  /** The state of a window button that the taskbar itself sets. */
  datatype Button = Button(focused: bool, title: Option<string>, urgent: bool)

  type Buttons = map<WindowId, Button>

  /** What the correlator reads of a notification: the sender's process id
      and the `desktop-entry` hint. */
  datatype Notification = Notification(pid: Option<Pid>, desktopEntry: Option<string>)

  /** The parent-process lookup: `Ok(Some(ppid))`, `Ok(None)` at the root of
      the process tree, `Err` when the process cannot be read. */
  type ParentLookup = Pid -> Result<Option<Pid>>

  // ---------------------------------------------------------------------
  // PidWindowMap

  datatype PidWindowMap = PidWindowMap(byPid: map<Pid, SnapWindow>) {
    function Get(pid: Pid): Option<SnapWindow> {
      if pid in byPid then Some(byPid[pid]) else None
    }
  }

  /** The `filter_map` of `PidWindowMap::new`: windows without a pid are skipped. */
  function PidEntries(toplevels: Snapshot): (r: seq<(Pid, SnapWindow)>)
    ensures forall e :: e in r ==> e.1 in toplevels && e.1.window.pid == Some(e.0)
  {
    if toplevels == [] then []
    else
      var front := PidEntries(toplevels[..|toplevels| - 1]);
      var w := toplevels[|toplevels| - 1];
      if w.window.pid.Some? then front + [(w.window.pid.value, w)] else front
  }

  /** `PidWindowMap::new`. */
  function PidWindowMapOf(toplevels: Snapshot): PidWindowMap {
    PidWindowMap(KeyedIndex.Index(PidEntries(toplevels)))
  }

  lemma {:induction false} PidEntriesComplete(toplevels: Snapshot, i: nat)
    requires i < |toplevels| && toplevels[i].window.pid.Some?
    ensures exists e :: e in PidEntries(toplevels) && e.0 == toplevels[i].window.pid.value
  {
    var n := |toplevels|;
    if i < n - 1 {
      PidEntriesComplete(toplevels[..n - 1], i);
    } else {
      assert PidEntries(toplevels)[|PidEntries(toplevels)| - 1] == (toplevels[i].window.pid.value, toplevels[i]);
    }
  }

  /** The window at index `i` is the last one in the snapshot with pid `p`. */
  ghost predicate LastWithPid(toplevels: Snapshot, p: Pid, i: int) {
    0 <= i < |toplevels| && toplevels[i].window.pid == Some(p) &&
    forall j :: i < j < |toplevels| ==> toplevels[j].window.pid != Some(p)
  }

  /** `get(p)` finds a window exactly when some window has pid `p`, and the
      window it finds is the LAST snapshot window with that pid: the
      collect overwrites earlier windows of the same process. */
  lemma PidWindowMapSpec(toplevels: Snapshot, p: Pid)
    ensures PidWindowMapOf(toplevels).Get(p).Some? <==> exists i :: 0 <= i < |toplevels| && toplevels[i].window.pid == Some(p)
    ensures PidWindowMapOf(toplevels).Get(p).Some? ==>
      PidWindowMapOf(toplevels).Get(p).value in toplevels &&
      PidWindowMapOf(toplevels).Get(p).value.window.pid == Some(p)
    ensures PidWindowMapOf(toplevels).Get(p).Some? ==>
      exists i :: 0 <= i < |toplevels| && toplevels[i] == PidWindowMapOf(toplevels).Get(p).value &&
        forall j :: i < j < |toplevels| ==> toplevels[j].window.pid != Some(p)
  {
    PidWindowMapLast(toplevels, p);
    if PidWindowMapOf(toplevels).Get(p).Some? {
      var i :| LastWithPid(toplevels, p, i) && toplevels[i] == PidWindowMapOf(toplevels).Get(p).value;
    }
    PidWindowMapFound(toplevels, p);
  }

  /** The window `get(p)` finds is the last one with pid `p`. */
  lemma {:induction false} PidWindowMapLast(toplevels: Snapshot, p: Pid)
    ensures PidWindowMapOf(toplevels).Get(p).Some? ==>
      exists i :: LastWithPid(toplevels, p, i) && toplevels[i] == PidWindowMapOf(toplevels).Get(p).value
  {
    if toplevels != [] {
      var n := |toplevels|;
      var front := toplevels[..n - 1];
      var w := toplevels[n - 1];
      PidWindowMapLast(front, p);
      var esF := PidEntries(front);
      var es := PidEntries(toplevels);
      var m := KeyedIndex.Index(es);
      if w.window.pid == Some(p) {
        assert es == esF + [(p, w)];
        assert es[..|es| - 1] == esF;
        assert m[p] == w;
        assert LastWithPid(toplevels, p, n - 1);
      } else {
        if w.window.pid.Some? {
          assert es == esF + [(w.window.pid.value, w)];
          assert es[..|es| - 1] == esF;
        }
        assert p in m ==> p in KeyedIndex.Index(esF) && m[p] == KeyedIndex.Index(esF)[p];
        if p in m {
          var i :| LastWithPid(front, p, i) && front[i] == KeyedIndex.Index(esF)[p];
          assert toplevels[i] == front[i];
          forall j | i < j < n ensures toplevels[j].window.pid != Some(p) {
            if j < n - 1 { assert toplevels[j] == front[j]; }
          }
          assert LastWithPid(toplevels, p, i);
        }
      }
    }
  }

  /** `get(p)` finds a window exactly when some window has pid `p`. */
  lemma PidWindowMapFound(toplevels: Snapshot, p: Pid)
    ensures PidWindowMapOf(toplevels).Get(p).Some? <==> exists i :: 0 <= i < |toplevels| && toplevels[i].window.pid == Some(p)
    ensures PidWindowMapOf(toplevels).Get(p).Some? ==>
      PidWindowMapOf(toplevels).Get(p).value in toplevels &&
      PidWindowMapOf(toplevels).Get(p).value.window.pid == Some(p)
  {
    var es := PidEntries(toplevels);
    var m := KeyedIndex.Index(es);
    if p in m {
      KeyedIndex.IndexValueFromEntries(es, p);
      var w := m[p];
      assert w in toplevels;
      var i :| 0 <= i < |toplevels| && toplevels[i] == w;
    }
    if exists i :: 0 <= i < |toplevels| && toplevels[i].window.pid == Some(p) {
      var i :| 0 <= i < |toplevels| && toplevels[i].window.pid == Some(p);
      PidEntriesComplete(toplevels, i);
      var e :| e in es && e.0 == p;
      var j :| 0 <= j < |es| && es[j] == e;
    }
  }

  // ---------------------------------------------------------------------
  // The process-ancestry walk

  /** What one pid contributes: the id of the window it maps to, when that
      window is not focused and has a button. */
  function Hit(pids: PidWindowMap, buttons: Buttons, pid: Pid): Option<WindowId> {
    match pids.Get(pid)
    case Some(w) => if !w.window.isFocused && w.window.id in buttons then Some(w.window.id) else None
    case None => None
  }

  /** The pids the walk visits: the sender, then each parent in turn,
      until the lookup reports no parent or fails, or the step bound runs out. */
  function Chain(start: Pid, parentOf: ParentLookup, fuel: nat): seq<Pid>
    decreases fuel
  {
    if fuel == 0 then []
    else
      match parentOf(start)
      case Ok(Some(ppid)) => [start] + Chain(ppid, parentOf, fuel - 1)
      case _ => [start]
  }

  /** The ids the walk marks, in marking order. */
  function Walk(pids: PidWindowMap, buttons: Buttons, start: Pid, parentOf: ParentLookup, fuel: nat): seq<WindowId>
    decreases fuel
  {
    if fuel == 0 then []
    else
      var here := match Hit(pids, buttons, start) case Some(id) => [id] case None => [];
      match parentOf(start)
      case Ok(Some(ppid)) => here + Walk(pids, buttons, ppid, parentOf, fuel - 1)
      case _ => here
  }

  /** The chain starts at the sender, follows the parent links, and stops
      only where the lookup has no parent or fails (or at the step bound). */
  lemma {:induction false} ChainSpec(start: Pid, parentOf: ParentLookup, fuel: nat)
    ensures var c := Chain(start, parentOf, fuel);
      |c| <= fuel &&
      (fuel > 0 ==> |c| > 0 && c[0] == start) &&
      (forall i :: 0 <= i < |c| - 1 ==> parentOf(c[i]) == Ok(Some(c[i + 1]))) &&
      (0 < |c| < fuel ==> !parentOf(c[|c| - 1]).Ok? || parentOf(c[|c| - 1]).value.None?)
    decreases fuel
  {
    if fuel > 0 {
      match parentOf(start)
      case Ok(Some(ppid)) =>
        ChainSpec(ppid, parentOf, fuel - 1);
        var rest := Chain(ppid, parentOf, fuel - 1);
        var c := Chain(start, parentOf, fuel);
        assert c == [start] + rest;
        forall i | 0 <= i < |c| - 1 ensures parentOf(c[i]) == Ok(Some(c[i + 1])) {
          if i > 0 { assert c[i] == rest[i - 1] && c[i + 1] == rest[i]; }
        }
      case _ =>
    }
  }

  /** The walk marks exactly the hits along the chain: a match does not stop
      it, and a pid without a hit marks nothing. */
  lemma {:induction false} WalkMarksChainHits(pids: PidWindowMap, buttons: Buttons, start: Pid, parentOf: ParentLookup, fuel: nat)
    ensures forall id :: id in Walk(pids, buttons, start, parentOf, fuel) <==>
      HitOnChain(pids, buttons, Chain(start, parentOf, fuel), id)
    decreases fuel
  {
    if fuel > 0 {
      var c := Chain(start, parentOf, fuel);
      var here := match Hit(pids, buttons, start) case Some(id) => [id] case None => [];
      assert forall id: WindowId :: id in here <==> Hit(pids, buttons, start) == Some(id);
      if parentOf(start).Ok? && parentOf(start).value.Some? {
        var ppid := parentOf(start).value.value;
        WalkMarksChainHits(pids, buttons, ppid, parentOf, fuel - 1);
        var rest := Chain(ppid, parentOf, fuel - 1);
        assert c == [start] + rest;
        assert Walk(pids, buttons, start, parentOf, fuel) == here + Walk(pids, buttons, ppid, parentOf, fuel - 1);
        forall id: WindowId ensures HitOnChain(pids, buttons, c, id) <==> Hit(pids, buttons, start) == Some(id) || HitOnChain(pids, buttons, rest, id) {
          HitOnCons(pids, buttons, start, rest, id);
        }
      } else {
        assert c == [start];
        forall id: WindowId ensures HitOnChain(pids, buttons, c, id) <==> Hit(pids, buttons, start) == Some(id) {
          HitOnCons(pids, buttons, start, [], id);
        }
      }
    }
  }

  /** Some pid of `c` maps to the window `id` that the walk would mark. */
  ghost predicate HitOnChain(pids: PidWindowMap, buttons: Buttons, c: seq<Pid>, id: WindowId) {
    exists i :: 0 <= i < |c| && Hit(pids, buttons, c[i]) == Some(id)
  }

  lemma HitOnCons(pids: PidWindowMap, buttons: Buttons, pid: Pid, rest: seq<Pid>, id: WindowId)
    ensures HitOnChain(pids, buttons, [pid] + rest, id) <==> Hit(pids, buttons, pid) == Some(id) || HitOnChain(pids, buttons, rest, id)
  {
    var c := [pid] + rest;
    if HitOnChain(pids, buttons, c, id) {
      var i :| 0 <= i < |c| && Hit(pids, buttons, c[i]) == Some(id);
      if i > 0 {
        assert rest[i - 1] == c[i];
      }
    }
    if HitOnChain(pids, buttons, rest, id) {
      var i :| 0 <= i < |rest| && Hit(pids, buttons, rest[i]) == Some(id);
      assert c[i + 1] == rest[i];
    }
    if Hit(pids, buttons, pid) == Some(id) {
      assert c[0] == pid;
    }
  }

  /** Everything the walk marks has a button and belongs to an unfocused
      snapshot window whose pid lies on the sender's ancestry chain. */
  lemma WalkMarksUnfocusedWithButton(toplevels: Snapshot, buttons: Buttons, start: Pid, parentOf: ParentLookup, fuel: nat, id: WindowId)
    requires id in Walk(PidWindowMapOf(toplevels), buttons, start, parentOf, fuel)
    ensures id in buttons
    ensures exists w, i :: (w in toplevels && 0 <= i < |Chain(start, parentOf, fuel)| &&
      w.window.id == id && !w.window.isFocused && w.window.pid == Some(Chain(start, parentOf, fuel)[i]))
  {
    var pids := PidWindowMapOf(toplevels);
    var c := Chain(start, parentOf, fuel);
    WalkMarksChainHits(pids, buttons, start, parentOf, fuel);
    var i :| 0 <= i < |c| && Hit(pids, buttons, c[i]) == Some(id);
    PidWindowMapSpec(toplevels, c[i]);
    var w := pids.Get(c[i]).value;
    assert w in toplevels && w.window.pid == Some(c[i]);
  }

  /** The loop of `process_notification` that walks up from the sender's
      pid; `fuel` bounds the number of pids visited. */
  method WalkAncestry(pids: PidWindowMap, buttons: Buttons, start: Pid, parentOf: ParentLookup, fuel: nat)
    returns (marked: seq<WindowId>)
    ensures marked == Walk(pids, buttons, start, parentOf, fuel)
  {
    WalkFromSpec(pids, buttons, [], start, parentOf, fuel);
    marked := [];
    var pid := start;
    var steps := fuel;
    while steps > 0
      invariant WalkFrom(pids, buttons, marked, pid, parentOf, steps) == Walk(pids, buttons, start, parentOf, fuel)
      decreases steps
    {
      ghost var here := match Hit(pids, buttons, pid) case Some(id) => [id] case None => [];
      ghost var before := marked;
      var window := pids.Get(pid);
      if window.Some? && !window.value.window.isFocused && window.value.window.id in buttons {
        marked := marked + [window.value.window.id];
      }
      assert marked == before + here;
      var parent := parentOf(pid);
      steps := steps - 1;
      if parent.Ok? && parent.value.Some? {
        pid := parent.value.value;
      } else {
        return;
      }
    }
  }

  /** The walk with the marks so far carried along, as the loop keeps them. */
  function WalkFrom(pids: PidWindowMap, buttons: Buttons, marked: seq<WindowId>, pid: Pid, parentOf: ParentLookup, fuel: nat): seq<WindowId>
    decreases fuel
  {
    if fuel == 0 then marked
    else
      var here := match Hit(pids, buttons, pid) case Some(id) => [id] case None => [];
      match parentOf(pid)
      case Ok(Some(ppid)) => WalkFrom(pids, buttons, marked + here, ppid, parentOf, fuel - 1)
      case _ => marked + here
  }

  /** Carrying the marks along is the same as appending the walk to them. */
  lemma {:induction false} WalkFromSpec(pids: PidWindowMap, buttons: Buttons, marked: seq<WindowId>, pid: Pid, parentOf: ParentLookup, fuel: nat)
    ensures WalkFrom(pids, buttons, marked, pid, parentOf, fuel) == marked + Walk(pids, buttons, pid, parentOf, fuel)
    decreases fuel
  {
    var parent := parentOf(pid);
    if fuel > 0 && parent.Ok? && parent.value.Some? {
      var here := match Hit(pids, buttons, pid) case Some(id) => [id] case None => [];
      var rest := Walk(pids, buttons, parent.value.value, parentOf, fuel - 1);
      WalkFromSpec(pids, buttons, marked + here, parent.value.value, parentOf, fuel - 1);
      assert (marked + here) + rest == marked + (here + rest);
    }
  }

  // ---------------------------------------------------------------------
  // App-id matching

  /** `to_lowercase`, on ASCII letters. */
  function LowerChar(c: char): char {
    if 'A' <= c <= 'Z' then (c as int + 32) as char else c
  }

  /** `to_lowercase` on ASCII letters, character by character: a plain
      `map`, whose contract only lists its elements; the matching it serves
      is stated by `FuzzyCandidatesMembers`. */
  function Lower(s: string): (r: string)
    ensures |r| == |s| && forall i :: 0 <= i < |s| ==> r[i] == LowerChar(s[i])
  {
    seq(|s|, i requires 0 <= i < |s| => LowerChar(s[i]))
  }

  /** `s.split('.').next_back()`: the text after the last `.`, or all of `s`. */
  function LastComponent(s: string): (r: string)
    ensures |r| <= |s| && r == s[|s| - |r|..]
    ensures '.' !in r
    ensures |r| < |s| ==> s[|s| - |r| - 1] == '.'
  {
    if s == [] || s[|s| - 1] == '.' then []
    else LastComponent(s[..|s| - 1]) + [s[|s| - 1]]
  }

  /** The fuzzy rule: equal ignoring case, or, for an app id with a `.`,
      equal last components ignoring case. */
  predicate FuzzyMatch(appId: string, target: string) {
    Lower(appId) == Lower(target) ||
    ('.' in appId && Lower(LastComponent(appId)) == Lower(LastComponent(target)))
  }

  /** A window whose app id is the target verbatim. */
  predicate IsExact(w: Window, target: string) {
    w.appId == Some(target)
  }

  /** A window recorded as a fuzzy candidate. */
  predicate IsFuzzy(w: Window, target: string, useFuzzy: bool) {
    w.appId.Some? && w.appId.value != target && useFuzzy && FuzzyMatch(w.appId.value, target)
  }

  /** The exact matches that have a button, in snapshot order. */
  function ExactMarks(toplevels: Snapshot, buttons: Buttons, target: string): seq<WindowId> {
    if toplevels == [] then []
    else
      var w := toplevels[|toplevels| - 1].window;
      ExactMarks(toplevels[..|toplevels| - 1], buttons, target) +
      (if IsExact(w, target) && w.id in buttons then [w.id] else [])
  }

  /** The fuzzy candidates, in snapshot order, button or not. */
  function FuzzyCandidates(toplevels: Snapshot, target: string, useFuzzy: bool): seq<WindowId> {
    if toplevels == [] then []
    else
      var w := toplevels[|toplevels| - 1].window;
      FuzzyCandidates(toplevels[..|toplevels| - 1], target, useFuzzy) +
      (if IsFuzzy(w, target, useFuzzy) then [w.id] else [])
  }

  /** The ids that have a button, in order. */
  function WithButtons(ids: seq<WindowId>, buttons: Buttons): seq<WindowId> {
    if ids == [] then []
    else
      WithButtons(ids[..|ids| - 1], buttons) +
      (if ids[|ids| - 1] in buttons then [ids[|ids| - 1]] else [])
  }

  /** The app-id phase: exact matches win; without one, every fuzzy
      candidate that has a button. */
  function AppIdMarks(toplevels: Snapshot, buttons: Buttons, target: string, useFuzzy: bool): seq<WindowId> {
    var exact := ExactMarks(toplevels, buttons, target);
    if exact != [] then exact else WithButtons(FuzzyCandidates(toplevels, target, useFuzzy), buttons)
  }

  lemma {:induction false} ExactMarksMembers(toplevels: Snapshot, buttons: Buttons, target: string)
    ensures forall id :: id in ExactMarks(toplevels, buttons, target) <==>
      id in buttons && exists i :: 0 <= i < |toplevels| && toplevels[i].window.id == id && IsExact(toplevels[i].window, target)
  {
    if toplevels != [] {
      var front := toplevels[..|toplevels| - 1];
      ExactMarksMembers(front, buttons, target);
      assert forall i :: 0 <= i < |front| ==> front[i] == toplevels[i];
    }
  }

  lemma {:induction false} FuzzyCandidatesMembers(toplevels: Snapshot, target: string, useFuzzy: bool)
    ensures forall id :: id in FuzzyCandidates(toplevels, target, useFuzzy) <==>
      exists i :: 0 <= i < |toplevels| && toplevels[i].window.id == id && IsFuzzy(toplevels[i].window, target, useFuzzy)
  {
    if toplevels != [] {
      var front := toplevels[..|toplevels| - 1];
      FuzzyCandidatesMembers(front, target, useFuzzy);
      assert forall i :: 0 <= i < |front| ==> front[i] == toplevels[i];
    }
  }

  lemma {:induction false} WithButtonsMembers(ids: seq<WindowId>, buttons: Buttons)
    ensures forall id :: id in WithButtons(ids, buttons) <==> id in ids && id in buttons
  {
    if ids != [] {
      WithButtonsMembers(ids[..|ids| - 1], buttons);
      assert ids == ids[..|ids| - 1] + [ids[|ids| - 1]];
    }
  }

  /** Some exact match has a button. */
  ghost predicate AnyExact(toplevels: Snapshot, buttons: Buttons, target: string) {
    exists i :: 0 <= i < |toplevels| && IsExact(toplevels[i].window, target) && toplevels[i].window.id in buttons
  }

  /** If any exact match has a button, exactly the exact matches with a
      button are marked, and no fuzzy candidate. */
  lemma AppIdMarksWhenExact(toplevels: Snapshot, buttons: Buttons, target: string, useFuzzy: bool)
    requires AnyExact(toplevels, buttons, target)
    ensures forall id :: id in AppIdMarks(toplevels, buttons, target, useFuzzy) <==>
      id in buttons && exists i :: 0 <= i < |toplevels| && toplevels[i].window.id == id && IsExact(toplevels[i].window, target)
  {
    ExactMarksMembers(toplevels, buttons, target);
    var i :| 0 <= i < |toplevels| && IsExact(toplevels[i].window, target) && toplevels[i].window.id in buttons;
    assert toplevels[i].window.id in ExactMarks(toplevels, buttons, target);
  }

  /** Otherwise every fuzzy candidate with a button is marked, however many. */
  lemma AppIdMarksWhenNoExact(toplevels: Snapshot, buttons: Buttons, target: string, useFuzzy: bool)
    requires !AnyExact(toplevels, buttons, target)
    ensures forall id :: id in AppIdMarks(toplevels, buttons, target, useFuzzy) <==>
      id in buttons && exists i :: 0 <= i < |toplevels| && toplevels[i].window.id == id && IsFuzzy(toplevels[i].window, target, useFuzzy)
  {
    ExactMarksEmpty(toplevels, buttons, target);
    FuzzyCandidatesMembers(toplevels, target, useFuzzy);
    WithButtonsMembers(FuzzyCandidates(toplevels, target, useFuzzy), buttons);
  }

  lemma {:induction false} ExactMarksEmpty(toplevels: Snapshot, buttons: Buttons, target: string)
    requires !AnyExact(toplevels, buttons, target)
    ensures ExactMarks(toplevels, buttons, target) == []
  {
    if toplevels != [] {
      var front := toplevels[..|toplevels| - 1];
      assert !AnyExact(front, buttons, target) by {
        assert forall i :: 0 <= i < |front| ==> front[i] == toplevels[i];
      }
      ExactMarksEmpty(front, buttons, target);
    }
  }

  /** A fuzzy candidate is never an exact match, and there are none when
      fuzzy matching is off. */
  lemma FuzzyExcludesExact(w: Window, target: string, useFuzzy: bool)
    ensures IsFuzzy(w, target, useFuzzy) ==> !IsExact(w, target) && useFuzzy
  {
  }

  /** The scan of `process_notification` over the snapshot: exact matches
      with a button, and fuzzy candidates recorded for later. */
  method ScanAppIds(toplevels: Snapshot, buttons: Buttons, target: string, useFuzzy: bool)
    returns (found: bool, exact: seq<WindowId>, fuzzy: seq<WindowId>)
    ensures exact == ExactMarks(toplevels, buttons, target)
    ensures fuzzy == FuzzyCandidates(toplevels, target, useFuzzy)
    ensures found <==> exact != []
  {
    var targetLower := Lower(target);
    var targetLastLower := Lower(LastComponent(target));
    found := false;
    exact := [];
    fuzzy := [];
    for i := 0 to |toplevels|
      invariant exact == ExactMarks(toplevels[..i], buttons, target)
      invariant fuzzy == FuzzyCandidates(toplevels[..i], target, useFuzzy)
      invariant found <==> exact != []
    {
      ScanStep(toplevels, buttons, target, useFuzzy, i);
      var w := toplevels[i].window;
      if w.appId.Some? {
        var appId := w.appId.value;
        if appId == target {
          if w.id in buttons {
            exact := exact + [w.id];
            found := true;
          }
        } else if useFuzzy {
          if Lower(appId) == targetLower {
            fuzzy := fuzzy + [w.id];
          } else if '.' in appId {
            if Lower(LastComponent(appId)) == targetLastLower {
              fuzzy := fuzzy + [w.id];
            }
          }
        }
      }
    }
    assert toplevels[..|toplevels|] == toplevels;
  }

  /** One more window of the scan extends both lists by at most that window. */
  lemma ScanStep(toplevels: Snapshot, buttons: Buttons, target: string, useFuzzy: bool, i: nat)
    requires i < |toplevels|
    ensures var w := toplevels[i].window;
      ExactMarks(toplevels[..i + 1], buttons, target) ==
        ExactMarks(toplevels[..i], buttons, target) + (if IsExact(w, target) && w.id in buttons then [w.id] else []) &&
      FuzzyCandidates(toplevels[..i + 1], target, useFuzzy) ==
        FuzzyCandidates(toplevels[..i], target, useFuzzy) + (if IsFuzzy(w, target, useFuzzy) then [w.id] else [])
  {
    assert toplevels[..i + 1][..i] == toplevels[..i];
  }

  /** The app-id phase of `process_notification`: the scan, then, when no
      exact match was found, the loop over the fuzzy candidates. */
  method MatchByAppId(toplevels: Snapshot, buttons: Buttons, target: string, useFuzzy: bool)
    returns (marked: seq<WindowId>)
    ensures marked == AppIdMarks(toplevels, buttons, target, useFuzzy)
  {
    var found, exact, fuzzy := ScanAppIds(toplevels, buttons, target, useFuzzy);
    if found {
      marked := exact;
    } else {
      marked := [];
      for i := 0 to |fuzzy|
        invariant marked == WithButtons(fuzzy[..i], buttons)
      {
        assert fuzzy[..i + 1][..i] == fuzzy[..i];
        if fuzzy[i] in buttons {
          marked := marked + [fuzzy[i]];
        }
      }
      assert fuzzy[..|fuzzy|] == fuzzy;
    }
  }

  // ---------------------------------------------------------------------
  // The whole correlation

  /** The app id the desktop entry stands for: its remap-table entry, or
      the entry itself. */
  function Target(config: Config, desktopEntry: string): (r: string)
    ensures desktopEntry in config.notifications.mapAppIds ==> r == config.notifications.mapAppIds[desktopEntry]
    ensures desktopEntry !in config.notifications.mapAppIds ==> r == desktopEntry
  {
    config.NotificationsAppMap(desktopEntry).GetOr(desktopEntry)
  }

  /** The ids `process_notification` marks urgent, in marking order. */
  function Correlate(last: Option<Snapshot>, buttons: Buttons, n: Notification, config: Config,
                     parentOf: ParentLookup, fuel: nat): seq<WindowId>
  {
    if last.None? then []
    else
      var toplevels := last.value;
      var walked := if n.pid.Some? then Walk(PidWindowMapOf(toplevels), buttons, n.pid.value, parentOf, fuel) else [];
      if walked != [] then walked
      else if !config.NotificationsUseDesktopEntry() || n.desktopEntry.None? then []
      else AppIdMarks(toplevels, buttons, Target(config, n.desktopEntry.value), config.NotificationsUseFuzzyMatching())
  }

  /** Some pid on the sender's ancestry chain has a window the walk would mark. */
  ghost predicate ChainHasHit(toplevels: Snapshot, buttons: Buttons, pid: Option<Pid>, parentOf: ParentLookup, fuel: nat) {
    pid.Some? &&
    var c := Chain(pid.value, parentOf, fuel);
    exists i :: 0 <= i < |c| && Hit(PidWindowMapOf(toplevels), buttons, c[i]).Some?
  }

  /** The pid walk marks something exactly when the chain has a hit. */
  lemma WalkNonEmpty(toplevels: Snapshot, buttons: Buttons, pid: Pid, parentOf: ParentLookup, fuel: nat)
    ensures Walk(PidWindowMapOf(toplevels), buttons, pid, parentOf, fuel) != [] <==>
      ChainHasHit(toplevels, buttons, Some(pid), parentOf, fuel)
  {
    var pids := PidWindowMapOf(toplevels);
    var c := Chain(pid, parentOf, fuel);
    var walked := Walk(pids, buttons, pid, parentOf, fuel);
    WalkMarksChainHits(pids, buttons, pid, parentOf, fuel);
    if walked != [] {
      assert HitOnChain(pids, buttons, c, walked[0]);
    }
    if ChainHasHit(toplevels, buttons, Some(pid), parentOf, fuel) {
      var i :| 0 <= i < |c| && Hit(pids, buttons, c[i]).Some?;
      assert HitOnChain(pids, buttons, c, Hit(pids, buttons, c[i]).value);
    }
  }

  /** The strategies in order. (a) When some pid on the ancestry chain has a
      hit, the marks are exactly the chain's hits, and the app-id phase adds
      nothing. (b) Otherwise, with the desktop-entry fallback on and an entry
      present, the marks are the exact matches with a button if there is one,
      else the fuzzy candidates with a button. (c) In every other case, and
      always without a snapshot, nothing is marked. */
  lemma CorrelatePrecedence(last: Option<Snapshot>, buttons: Buttons, n: Notification, config: Config,
                            parentOf: ParentLookup, fuel: nat)
    ensures last.Some? && ChainHasHit(last.value, buttons, n.pid, parentOf, fuel) ==>
      forall id :: id in Correlate(last, buttons, n, config, parentOf, fuel) <==>
        HitOnChain(PidWindowMapOf(last.value), buttons, Chain(n.pid.value, parentOf, fuel), id)
    ensures last.Some? && !ChainHasHit(last.value, buttons, n.pid, parentOf, fuel) &&
            config.NotificationsUseDesktopEntry() && n.desktopEntry.Some? ==>
      var target := Target(config, n.desktopEntry.value);
      (AnyExact(last.value, buttons, target) ==>
        forall id :: id in Correlate(last, buttons, n, config, parentOf, fuel) <==>
          id in buttons && exists i :: 0 <= i < |last.value| && last.value[i].window.id == id && IsExact(last.value[i].window, target)) &&
      (!AnyExact(last.value, buttons, target) ==>
        forall id :: id in Correlate(last, buttons, n, config, parentOf, fuel) <==>
          id in buttons && exists i :: (0 <= i < |last.value| && last.value[i].window.id == id &&
                                        IsFuzzy(last.value[i].window, target, config.NotificationsUseFuzzyMatching())))
    ensures last.None? ||
            (!ChainHasHit(last.value, buttons, n.pid, parentOf, fuel) &&
             (!config.NotificationsUseDesktopEntry() || n.desktopEntry.None?)) ==>
      Correlate(last, buttons, n, config, parentOf, fuel) == []
  {
    if last.Some? {
      var toplevels := last.value;
      if n.pid.Some? {
        WalkNonEmpty(toplevels, buttons, n.pid.value, parentOf, fuel);
        WalkMarksChainHits(PidWindowMapOf(toplevels), buttons, n.pid.value, parentOf, fuel);
      }
      if n.desktopEntry.Some? {
        var target := Target(config, n.desktopEntry.value);
        if AnyExact(toplevels, buttons, target) {
          AppIdMarksWhenExact(toplevels, buttons, target, config.NotificationsUseFuzzyMatching());
        } else {
          AppIdMarksWhenNoExact(toplevels, buttons, target, config.NotificationsUseFuzzyMatching());
        }
      }
    }
  }

  /** Whatever is marked has a button. */
  lemma CorrelateMarksHaveButtons(last: Option<Snapshot>, buttons: Buttons, n: Notification, config: Config,
                                  parentOf: ParentLookup, fuel: nat)
    ensures forall id :: id in Correlate(last, buttons, n, config, parentOf, fuel) ==> id in buttons
  {
    if last.Some? {
      var toplevels := last.value;
      if n.pid.Some? {
        forall id | id in Walk(PidWindowMapOf(toplevels), buttons, n.pid.value, parentOf, fuel) ensures id in buttons {
          WalkMarksUnfocusedWithButton(toplevels, buttons, n.pid.value, parentOf, fuel, id);
        }
      }
      if n.desktopEntry.Some? {
        var target := Target(config, n.desktopEntry.value);
        if AnyExact(toplevels, buttons, target) {
          AppIdMarksWhenExact(toplevels, buttons, target, config.NotificationsUseFuzzyMatching());
        } else {
          AppIdMarksWhenNoExact(toplevels, buttons, target, config.NotificationsUseFuzzyMatching());
        }
      }
    }
  }
}
