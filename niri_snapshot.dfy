/**
 * `Niri::snapshot`: the windows whose workspace is known (and active, when
 * only the current workspace is shown), paired with their workspace,
 * sorted by workspace index, column, tile in column and window id, and
 * returned with the workspace's output attached.
 */
module NiriSnapshot {
  import opened Wrappers
  import opened NiriTypes
  import opened NiriModel

  /** The snapshot's `Window`: a window copy plus its workspace's output. */
  datatype SnapWindow = SnapWindow(window: Window, output: Option<string>) {
    /** `Window::output`. */
    function Output(): Option<string> { output }
  }

  type Snapshot = seq<SnapWindow>

  /** The `WindowWorkspace` pair the sort works on. */
  datatype Placed = Placed(window: Window, workspace: Workspace)

  // ---------------------------------------------------------------------
  // Iterating a BTreeMap: keys in ascending order

  /** `m` is the least element of `s`. */
  predicate IsLeast(m: nat, s: set<nat>) {
    m in s && forall x :: x in s ==> m <= x
  }

  lemma {:induction false} LeastExists(s: set<nat>)
    requires s != {}
    ensures exists m :: IsLeast(m, s)
    decreases |s|
  {
    var y :| y in s;
    var rest := s - {y};
    if rest == {} {
      assert s == {y};
      assert IsLeast(y, s);
    } else {
      assert |rest| < |s|;
      LeastExists(rest);
      var m :| IsLeast(m, rest);
      var least := if y < m then y else m;
      assert s == rest + {y};
      assert IsLeast(least, s);
    }
  }

  /** The keys of a `BTreeMap` in iteration order. */
  function SortedIds(s: set<nat>): (r: seq<nat>)
    ensures forall i, j :: 0 <= i < j < |r| ==> r[i] < r[j]
    ensures forall x :: x in r <==> x in s
    decreases s
  {
    if s == {} then []
    else
      LeastExists(s);
      var m :| IsLeast(m, s);
      [m] + SortedIds(s - {m})
  }

  // ---------------------------------------------------------------------
  // filter_map

  /** The pairing step of the `filter_map`. */
  function PlaceOf(w: Window, workspaces: Workspaces, onlyCurrent: bool): Option<Placed> {
    if w.workspaceId.Some? && w.workspaceId.value in workspaces then
      var ws := workspaces[w.workspaceId.value];
      if onlyCurrent && !ws.isActive then None else Some(Placed(w, ws))
    else None
  }

  /** Whether a window appears in the snapshot at all. */
  ghost predicate Shown(w: Window, workspaces: Workspaces, onlyCurrent: bool) {
    w.workspaceId.Some? && w.workspaceId.value in workspaces &&
    (onlyCurrent ==> workspaces[w.workspaceId.value].isActive)
  }

  function Placements(windows: Windows, workspaces: Workspaces, onlyCurrent: bool, ids: seq<WindowId>): seq<Placed>
    requires forall i :: 0 <= i < |ids| ==> ids[i] in windows
  {
    if ids == [] then []
    else
      var rest := Placements(windows, workspaces, onlyCurrent, ids[1..]);
      var p := PlaceOf(windows[ids[0]], workspaces, onlyCurrent);
      if p.Some? then [p.value] + rest else rest
  }

  /** The pairs are exactly the shown windows of the listed keys, each with
      its own workspace. */
  lemma {:induction false} PlacementsMembers(windows: Windows, workspaces: Workspaces, onlyCurrent: bool, ids: seq<WindowId>, p: Placed)
    requires forall i :: 0 <= i < |ids| ==> ids[i] in windows
    ensures p in Placements(windows, workspaces, onlyCurrent, ids) <==>
      exists i :: 0 <= i < |ids| && PlaceOf(windows[ids[i]], workspaces, onlyCurrent) == Some(p)
  {
    if ids != [] {
      var tail := ids[1..];
      PlacementsMembers(windows, workspaces, onlyCurrent, tail, p);
      if exists i :: 0 <= i < |tail| && PlaceOf(windows[tail[i]], workspaces, onlyCurrent) == Some(p) {
        var i :| 0 <= i < |tail| && PlaceOf(windows[tail[i]], workspaces, onlyCurrent) == Some(p);
        assert ids[i + 1] == tail[i];
      }
      if exists i :: 1 <= i < |ids| && PlaceOf(windows[ids[i]], workspaces, onlyCurrent) == Some(p) {
        var i :| 1 <= i < |ids| && PlaceOf(windows[ids[i]], workspaces, onlyCurrent) == Some(p);
        assert tail[i - 1] == ids[i];
      }
    }
  }

  /** The window ids of the pairs ascend. */
  ghost predicate IdsAscending(ps: seq<Placed>) {
    forall i, j :: 0 <= i < j < |ps| ==> ps[i].window.id < ps[j].window.id
  }

  /** Over keys listed in ascending order, the pairs' window ids ascend. */
  lemma {:induction false} PlacementsAscending(windows: Windows, workspaces: Workspaces, onlyCurrent: bool, ids: seq<WindowId>)
    requires forall i :: 0 <= i < |ids| ==> ids[i] in windows
    requires WellKeyed(windows)
    requires forall i, j :: 0 <= i < j < |ids| ==> ids[i] < ids[j]
    ensures IdsAscending(Placements(windows, workspaces, onlyCurrent, ids))
  {
    if ids != [] {
      var tail := ids[1..];
      assert forall i, j :: 0 <= i < j < |tail| ==> tail[i] < tail[j] by {
        forall i, j | 0 <= i < j < |tail| ensures tail[i] < tail[j] {
          assert tail[i] == ids[i + 1] && tail[j] == ids[j + 1];
        }
      }
      PlacementsAscending(windows, workspaces, onlyCurrent, tail);
      var rest := Placements(windows, workspaces, onlyCurrent, tail);
      var here := PlaceOf(windows[ids[0]], workspaces, onlyCurrent);
      if here.Some? {
        forall q | q in rest ensures here.value.window.id < q.window.id {
          PlacedAfter(windows, workspaces, onlyCurrent, ids, q);
        }
        ConsAscending(here.value, rest);
      }
    }
  }

  /** A pair built from the later keys has a larger id than the first key. */
  lemma PlacedAfter(windows: Windows, workspaces: Workspaces, onlyCurrent: bool, ids: seq<WindowId>, q: Placed)
    requires ids != []
    requires forall i :: 0 <= i < |ids| ==> ids[i] in windows
    requires WellKeyed(windows)
    requires forall i, j :: 0 <= i < j < |ids| ==> ids[i] < ids[j]
    requires q in Placements(windows, workspaces, onlyCurrent, ids[1..])
    ensures windows[ids[0]].id < q.window.id
  {
    var tail := ids[1..];
    PlacementsMembers(windows, workspaces, onlyCurrent, tail, q);
    var j :| 0 <= j < |tail| && PlaceOf(windows[tail[j]], workspaces, onlyCurrent) == Some(q);
    assert ids[j + 1] == tail[j];
    assert q.window.id == tail[j];
  }

  lemma ConsAscending(x: Placed, rest: seq<Placed>)
    requires IdsAscending(rest)
    requires forall q :: q in rest ==> x.window.id < q.window.id
    ensures IdsAscending([x] + rest)
  {
    var r := [x] + rest;
    forall i, j | 0 <= i < j < |r| ensures r[i].window.id < r[j].window.id {
      assert r[j] == rest[j - 1];
      if i > 0 { assert r[i] == rest[i - 1]; }
    }
  }

  // ---------------------------------------------------------------------
  // The comparator of sort_by

  datatype Ordering = Less | Equal | Greater

  function CmpNat(a: nat, b: nat): Ordering {
    if a < b then Less else if a == b then Equal else Greater
  }

  /** `Ordering::then_with`. */
  function ThenWith(o: Ordering, next: Ordering): Ordering {
    if o == Equal then next else o
  }

  /** `pos_in_scrolling_layout.unwrap_or_default()`. */
  function Pos(w: Window): (nat, nat) {
    w.layout.posInScrollingLayout.GetOr((0, 0))
  }

  /** The comparator, written as the source chains it. */
  function Compare(a: Placed, b: Placed): Ordering {
    var aPos := Pos(a.window);
    var bPos := Pos(b.window);
    ThenWith(
      ThenWith(CmpNat(a.workspace.idx, b.workspace.idx),
               ThenWith(CmpNat(aPos.0, bPos.0), CmpNat(aPos.1, bPos.1))),
      CmpNat(a.window.id, b.window.id))
  }

  /** The sort key as a plain record, with its lexicographic order. */
  datatype SortKey = SortKey(idx: nat, column: nat, tile: nat, id: nat)

  ghost predicate KeyLess(a: SortKey, b: SortKey) {
    a.idx < b.idx ||
    (a.idx == b.idx && (a.column < b.column ||
    (a.column == b.column && (a.tile < b.tile ||
    (a.tile == b.tile && a.id < b.id)))))
  }

  function Key(p: Placed): SortKey {
    SortKey(p.workspace.idx, Pos(p.window).0, Pos(p.window).1, p.window.id)
  }

  /** The chained comparator is the lexicographic order on the key. */
  lemma CompareIsLexicographic(a: Placed, b: Placed)
    ensures Compare(a, b) == Less <==> KeyLess(Key(a), Key(b))
    ensures Compare(a, b) == Greater <==> KeyLess(Key(b), Key(a))
    ensures Compare(a, b) == Equal <==> Key(a) == Key(b)
  {
  }

  lemma KeyLessTransitive(a: SortKey, b: SortKey, c: SortKey)
    requires KeyLess(a, b) && KeyLess(b, c)
    ensures KeyLess(a, c)
  {
  }

  // ---------------------------------------------------------------------
  // sort_by, as a stable insertion sort

  /** Every pair strictly in order. */
  ghost predicate StrictlySorted(s: seq<Placed>) {
    forall i, j :: 0 <= i < j < |s| ==> KeyLess(Key(s[i]), Key(s[j]))
  }

  /** No two elements share a sort key. */
  ghost predicate DistinctKeys(s: seq<Placed>) {
    forall i, j :: 0 <= i < j < |s| ==> Key(s[i]) != Key(s[j])
  }

  /** Insert after every element that is not greater, which keeps the sort stable. */
  function Insert(x: Placed, s: seq<Placed>): (r: seq<Placed>)
    ensures multiset(r) == multiset(s) + multiset{x}
  {
    if s == [] then [x]
    else if Compare(x, s[0]) == Less then [x] + s
    else
      assert s == [s[0]] + s[1..];
      [s[0]] + Insert(x, s[1..])
  }

  function SortBy(s: seq<Placed>): (r: seq<Placed>)
    ensures multiset(r) == multiset(s)
  {
    if s == [] then []
    else
      assert s == s[..|s| - 1] + [s[|s| - 1]];
      Insert(s[|s| - 1], SortBy(s[..|s| - 1]))
  }

  /** Putting a least element in front keeps a sequence strictly sorted. */
  lemma ConsSorted(x: Placed, s: seq<Placed>)
    requires StrictlySorted(s)
    requires forall y :: y in s ==> KeyLess(Key(x), Key(y))
    ensures StrictlySorted([x] + s)
  {
    var r := [x] + s;
    forall i, j | 0 <= i < j < |r| ensures KeyLess(Key(r[i]), Key(r[j])) {
      assert r[j] == s[j - 1];
      if i > 0 { assert r[i] == s[i - 1]; }
    }
  }

  lemma {:induction false} InsertSorted(x: Placed, s: seq<Placed>)
    requires StrictlySorted(s)
    requires forall y :: y in s ==> Key(y) != Key(x)
    ensures StrictlySorted(Insert(x, s))
  {
    if s != [] {
      CompareIsLexicographic(x, s[0]);
      if Compare(x, s[0]) == Less {
        forall y | y in s ensures KeyLess(Key(x), Key(y)) {
          var j :| 0 <= j < |s| && s[j] == y;
          if j > 0 { KeyLessTransitive(Key(x), Key(s[0]), Key(s[j])); }
        }
        ConsSorted(x, s);
      } else {
        var tail := s[1..];
        assert StrictlySorted(tail) by {
          forall i, j | 0 <= i < j < |tail| ensures KeyLess(Key(tail[i]), Key(tail[j])) {
            assert tail[i] == s[i + 1] && tail[j] == s[j + 1];
          }
        }
        InsertSorted(x, tail);
        InsertAfterHead(x, s);
        ConsSorted(s[0], Insert(x, tail));
      }
    }
  }

  /** When `x` does not go in front, the head stays below everything the
      insertion into the tail yields. */
  lemma InsertAfterHead(x: Placed, s: seq<Placed>)
    requires s != [] && StrictlySorted(s) && KeyLess(Key(s[0]), Key(x))
    ensures forall y :: y in Insert(x, s[1..]) ==> KeyLess(Key(s[0]), Key(y))
  {
    var tail := s[1..];
    var ins := Insert(x, tail);
    forall y | y in ins ensures KeyLess(Key(s[0]), Key(y)) {
      assert y in multiset(ins);
      if y != x {
        assert y in multiset(tail);
        var j :| 0 <= j < |tail| && tail[j] == y;
        assert s[j + 1] == y;
      }
    }
  }

  /** Sorting elements with pairwise distinct keys leaves them strictly ordered. */
  lemma {:induction false} SortBySorted(s: seq<Placed>)
    requires DistinctKeys(s)
    ensures StrictlySorted(SortBy(s))
  {
    if s != [] {
      var front := s[..|s| - 1];
      var x := s[|s| - 1];
      assert DistinctKeys(front) by {
        forall i, j | 0 <= i < j < |front| ensures Key(front[i]) != Key(front[j]) {
          assert front[i] == s[i] && front[j] == s[j];
        }
      }
      SortBySorted(front);
      forall y | y in SortBy(front) ensures Key(y) != Key(x) {
        assert y in multiset(SortBy(front));
        var i :| 0 <= i < |front| && front[i] == y;
        assert s[i] == y;
      }
      InsertSorted(x, SortBy(front));
    }
  }

  // ---------------------------------------------------------------------
  // The snapshot

  /** The final `map` to snapshot windows: a plain `map`, whose contract
      only lists its elements; the snapshot as a whole is described by
      `SnapshotSpec`. */
  function ToSnapshot(s: seq<Placed>): (r: Snapshot)
    ensures |r| == |s|
    ensures forall i :: 0 <= i < |s| ==> r[i] == SnapWindow(s[i].window, s[i].workspace.output)
  {
    seq(|s|, i requires 0 <= i < |s| => SnapWindow(s[i].window, s[i].workspace.output))
  }

  /** `Niri::snapshot`. */
  function SnapshotOf(windows: Windows, workspaces: Workspaces, onlyCurrent: bool): Snapshot {
    ToSnapshot(SortedPairs(windows, workspaces, onlyCurrent))
  }

  /** The sort key of a snapshot entry, read through its workspace. */
  function RankOf(w: Window, workspaces: Workspaces): SortKey
    requires w.workspaceId.Some? && w.workspaceId.value in workspaces
  {
    SortKey(workspaces[w.workspaceId.value].idx, Pos(w).0, Pos(w).1, w.id)
  }

  /** The pairs the snapshot is built from, in sorted order. */
  function SortedPairs(windows: Windows, workspaces: Workspaces, onlyCurrent: bool): seq<Placed> {
    SortBy(Placements(windows, workspaces, onlyCurrent, SortedIds(windows.Keys)))
  }

  /** Every sorted pair is a stored window with its own workspace. */
  lemma SortedPairsSound(windows: Windows, workspaces: Workspaces, onlyCurrent: bool)
    ensures var s := SortedPairs(windows, workspaces, onlyCurrent);
      forall i :: 0 <= i < |s| ==> PlaceOf(s[i].window, workspaces, onlyCurrent) == Some(s[i]) &&
                                   exists k :: k in windows && windows[k] == s[i].window
  {
    var s := SortedPairs(windows, workspaces, onlyCurrent);
    forall i | 0 <= i < |s|
      ensures PlaceOf(s[i].window, workspaces, onlyCurrent) == Some(s[i])
      ensures exists k :: k in windows && windows[k] == s[i].window
    {
      PairSound(windows, workspaces, onlyCurrent, s[i]);
    }
  }

  lemma PairSound(windows: Windows, workspaces: Workspaces, onlyCurrent: bool, p: Placed)
    requires p in SortedPairs(windows, workspaces, onlyCurrent)
    ensures PlaceOf(p.window, workspaces, onlyCurrent) == Some(p)
    ensures exists k :: k in windows && windows[k] == p.window
  {
    var ids := SortedIds(windows.Keys);
    var ps := Placements(windows, workspaces, onlyCurrent, ids);
    FromSorted(ps, p);
    PlacedSound(windows, workspaces, onlyCurrent, ids, p);
  }

  lemma FromSorted(ps: seq<Placed>, p: Placed)
    requires p in SortBy(ps)
    ensures p in ps
  {
    assert p in multiset(SortBy(ps));
  }

  /** A pair built from listed keys is a stored window with its own workspace. */
  lemma PlacedSound(windows: Windows, workspaces: Workspaces, onlyCurrent: bool, ids: seq<WindowId>, p: Placed)
    requires forall i :: 0 <= i < |ids| ==> ids[i] in windows
    requires p in Placements(windows, workspaces, onlyCurrent, ids)
    ensures PlaceOf(p.window, workspaces, onlyCurrent) == Some(p)
    ensures exists k :: k in windows && windows[k] == p.window
  {
    PlacementsMembers(windows, workspaces, onlyCurrent, ids, p);
    var i :| 0 <= i < |ids| && PlaceOf(windows[ids[i]], workspaces, onlyCurrent) == Some(p);
    var k := ids[i];
    assert windows[k] == p.window;
  }

  /** Every shown window is among the sorted pairs. */
  lemma SortedPairsComplete(windows: Windows, workspaces: Workspaces, onlyCurrent: bool, k: WindowId)
    requires k in windows && Shown(windows[k], workspaces, onlyCurrent)
    ensures exists i :: 0 <= i < |SortedPairs(windows, workspaces, onlyCurrent)| &&
                        SortedPairs(windows, workspaces, onlyCurrent)[i].window == windows[k]
  {
    var ids := SortedIds(windows.Keys);
    var ps := Placements(windows, workspaces, onlyCurrent, ids);
    var s := SortBy(ps);
    assert k in ids;
    var n :| 0 <= n < |ids| && ids[n] == k;
    var p := Placed(windows[k], workspaces[windows[k].workspaceId.value]);
    assert PlaceOf(windows[ids[n]], workspaces, onlyCurrent) == Some(p);
    PlacementsMembers(windows, workspaces, onlyCurrent, ids, p);
    InSorted(ps, p);
    var i :| 0 <= i < |s| && s[i] == p;
    assert SortedPairs(windows, workspaces, onlyCurrent) == s;
    assert s[i].window == windows[k];
  }

  lemma InSorted(ps: seq<Placed>, p: Placed)
    requires p in ps
    ensures exists i :: 0 <= i < |SortBy(ps)| && SortBy(ps)[i] == p
  {
    assert p in multiset(ps);
    assert p in multiset(SortBy(ps));
    assert p in SortBy(ps);
  }

  /** The sorted pairs are strictly ordered by key. */
  lemma SortedPairsOrdered(windows: Windows, workspaces: Workspaces, onlyCurrent: bool)
    requires WellKeyed(windows)
    ensures StrictlySorted(SortedPairs(windows, workspaces, onlyCurrent))
  {
    var ids := SortedIds(windows.Keys);
    var ps := Placements(windows, workspaces, onlyCurrent, ids);
    PlacementsAscending(windows, workspaces, onlyCurrent, ids);
    forall i, j | 0 <= i < j < |ps| ensures Key(ps[i]) != Key(ps[j]) {
      assert Key(ps[i]).id == ps[i].window.id < ps[j].window.id == Key(ps[j]).id;
    }
    SortBySorted(ps);
  }

  /** The snapshot holds exactly the windows whose workspace is known, and
      only those on active workspaces when `onlyCurrent` is set; each entry
      carries its workspace's output; the entries are strictly ordered by
      (workspace index, column, tile in column, window id), a missing
      position counting as (0, 0). */
  lemma SnapshotSpec(windows: Windows, workspaces: Workspaces, onlyCurrent: bool)
    requires WellKeyed(windows)
    ensures var r := SnapshotOf(windows, workspaces, onlyCurrent);
      (forall i :: 0 <= i < |r| ==>
         Shown(r[i].window, workspaces, onlyCurrent) &&
         r[i].window.id in windows && windows[r[i].window.id] == r[i].window &&
         r[i].output == workspaces[r[i].window.workspaceId.value].output) &&
      (forall k :: k in windows && Shown(windows[k], workspaces, onlyCurrent) ==>
         exists i :: 0 <= i < |r| && r[i].window == windows[k]) &&
      (forall i, j :: 0 <= i < j < |r| ==>
         KeyLess(RankOf(r[i].window, workspaces), RankOf(r[j].window, workspaces)))
  {
    var s := SortedPairs(windows, workspaces, onlyCurrent);
    var r := SnapshotOf(windows, workspaces, onlyCurrent);
    SortedPairsSound(windows, workspaces, onlyCurrent);
    SortedPairsOrdered(windows, workspaces, onlyCurrent);
    forall k | k in windows && Shown(windows[k], workspaces, onlyCurrent)
      ensures exists i :: 0 <= i < |r| && r[i].window == windows[k]
    {
      SortedPairsComplete(windows, workspaces, onlyCurrent, k);
    }
    forall i | 0 <= i < |r|
      ensures Shown(r[i].window, workspaces, onlyCurrent)
      ensures r[i].window.id in windows && windows[r[i].window.id] == r[i].window
      ensures r[i].output == workspaces[r[i].window.workspaceId.value].output
    {
      assert r[i].window == s[i].window;
    }
    forall i, j | 0 <= i < j < |r|
      ensures KeyLess(RankOf(r[i].window, workspaces), RankOf(r[j].window, workspaces))
    {
      assert RankOf(r[i].window, workspaces) == Key(s[i]);
      assert RankOf(r[j].window, workspaces) == Key(s[j]);
    }
  }

  /** With `onlyCurrent` off, activation plays no part: every window on a
      known workspace is shown. */
  lemma AllWorkspacesShown(windows: Windows, workspaces: Workspaces)
    requires WellKeyed(windows)
    ensures forall k :: k in windows && windows[k].workspaceId.Some? && windows[k].workspaceId.value in workspaces ==>
      exists i :: 0 <= i < |SnapshotOf(windows, workspaces, false)| && SnapshotOf(windows, workspaces, false)[i].window == windows[k]
  {
    SnapshotSpec(windows, workspaces, false);
  }

  /** A ready state in which some window sits on a known, shown workspace
      yields a non-empty snapshot. */
  lemma SnapshotNonEmpty(windows: Windows, workspaces: Workspaces, onlyCurrent: bool, k: WindowId)
    requires WellKeyed(windows)
    requires k in windows && Shown(windows[k], workspaces, onlyCurrent)
    ensures |SnapshotOf(windows, workspaces, onlyCurrent)| > 0
  {
    SnapshotSpec(windows, workspaces, onlyCurrent);
  }

  /** `set_active_workspace` clears the active flag of every other
      workspace, whatever its output. So, with only the current workspace
      shown, activating a workspace on one output drops from the snapshot
      the windows of the workspace active on another output. */
  lemma ActivationHidesOtherOutputs(windows: Windows, workspaces: Workspaces, a: WorkspaceId, k: WindowId)
    requires WellKeyed(windows) && WorkspacesWellKeyed(workspaces)
    requires a in workspaces && k in windows && windows[k].workspaceId.Some?
    requires var b := windows[k].workspaceId.value;
      b in workspaces && b != a && workspaces[b].isActive && workspaces[b].output != workspaces[a].output
    ensures Shown(windows[k], workspaces, true)
    ensures forall i :: 0 <= i < |SnapshotOf(windows, WithActive(workspaces, a), true)| ==>
      SnapshotOf(windows, WithActive(workspaces, a), true)[i].window != windows[k]
  {
    var activated := WithActive(workspaces, a);
    WithActiveSpec(workspaces, a);
    assert !Shown(windows[k], activated, true);
    SnapshotSpec(windows, activated, true);
  }
}
