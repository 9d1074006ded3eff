/**
 * The taskbar configuration: per-app CSS class rules and the
 * notification settings, with the defaults that apply when a key is
 * missing. Regular expressions are represented by their pattern text;
 * whether one matches a title is left to a caller-supplied predicate.
 */
module Configuration {
  import opened Wrappers

  datatype Regex = Regex(pattern: string)

  /** One `[[apps.<id>]]` rule: a title pattern and the class it sets. */
  datatype AppConfig = AppConfig(re: Regex, cssClass: string)

  datatype Notifications = Notifications(
    enabled: bool,
    mapAppIds: map<string, string>,
    useDesktopEntry: bool,
    useFuzzyMatching: bool)

  /** `Notifications::default`. */
  function DefaultNotifications(): Notifications {
    Notifications(true, map[], true, false)
  }

  datatype Config = Config(
    apps: map<string, seq<AppConfig>>,
    notifications: Notifications,
    showAllOutputs: bool,
    onlyCurrentWorkspace: bool)
  {
    function NotificationsEnabled(): bool { notifications.enabled }

    /** The remapped app id for a desktop entry, if the table has one. */
    function NotificationsAppMap(appId: string): (r: Option<string>)
      ensures r.Some? <==> appId in notifications.mapAppIds
      ensures r.Some? ==> r.value == notifications.mapAppIds[appId]
    {
      if appId in notifications.mapAppIds then Some(notifications.mapAppIds[appId]) else None
    }

    function NotificationsUseDesktopEntry(): bool { notifications.useDesktopEntry }

    function NotificationsUseFuzzyMatching(): bool { notifications.useFuzzyMatching }

    function ShowAllOutputs(): bool { showAllOutputs }

    function OnlyCurrentWorkspace(): bool { onlyCurrentWorkspace }

    /** Every class an app's rules might set, in configuration order. */
    function AppClasses(appId: string): (r: seq<string>)
      ensures appId !in apps ==> r == []
      ensures appId in apps ==>
        |r| == |apps[appId]| && forall i :: 0 <= i < |r| ==> r[i] == apps[appId][i].cssClass
    {
      if appId in apps then Classes(apps[appId]) else []
    }

    /** The classes of the app's rules whose pattern matches the title, in
        configuration order. */
    function AppMatches(appId: string, title: string, isMatch: (Regex, string) -> bool): seq<string> {
      if appId in apps then MatchingClasses(apps[appId], title, isMatch) else []
    }
  }

  /** `Config::default`, with every `#[serde(default)]` applied. */
  function DefaultConfig(): Config {
    Config(map[], DefaultNotifications(), false, false)
  }

  /** The classes of the rules, in order: a plain `map`, whose contract
      only lists its elements; what `app_matches` does with them is stated
      by `AppMatchesSpec`. */
  function Classes(configs: seq<AppConfig>): (r: seq<string>)
    ensures |r| == |configs| && forall i :: 0 <= i < |r| ==> r[i] == configs[i].cssClass
  {
    seq(|configs|, i requires 0 <= i < |configs| => configs[i].cssClass)
  }

  function MatchingClasses(configs: seq<AppConfig>, title: string, isMatch: (Regex, string) -> bool): seq<string> {
    if configs == [] then []
    else
      var rest := MatchingClasses(configs[1..], title, isMatch);
      if isMatch(configs[0].re, title) then [configs[0].cssClass] + rest else rest
  }

  /** By default notifications and the desktop-entry fallback are on,
      fuzzy matching is off, the remap table is empty, windows are not
      limited to one output or to the active workspace, and no app has
      rules. These are the serde defaults, checked against the constants. */
  lemma DefaultSettings()
    ensures DefaultConfig().NotificationsEnabled()
    ensures DefaultConfig().NotificationsUseDesktopEntry()
    ensures !DefaultConfig().NotificationsUseFuzzyMatching()
    ensures forall k :: DefaultConfig().NotificationsAppMap(k) == None
    ensures !DefaultConfig().ShowAllOutputs() && !DefaultConfig().OnlyCurrentWorkspace()
    ensures forall id :: DefaultConfig().AppClasses(id) == []
  {
  }

  /** The positions of the rules whose pattern matches the title. */
  ghost function MatchIndices(configs: seq<AppConfig>, title: string, isMatch: (Regex, string) -> bool): seq<nat> {
    if configs == [] then []
    else
      var rest := Shifted(MatchIndices(configs[1..], title, isMatch));
      if isMatch(configs[0].re, title) then [0] + rest else rest
  }

  /** Positions in the tail, as positions in the whole list. */
  ghost function Shifted(idx: seq<nat>): (r: seq<nat>)
    ensures |r| == |idx| && forall k :: 0 <= k < |idx| ==> r[k] == idx[k] + 1
  {
    seq(|idx|, k requires 0 <= k < |idx| => idx[k] + 1)
  }

  /** The matching classes are the classes of the matching rules, in
      configuration order: the k-th class belongs to the k-th matching
      rule, and every rule whose pattern matches contributes. */
  lemma MatchingClassesSpec(configs: seq<AppConfig>, title: string, isMatch: (Regex, string) -> bool)
    ensures var r := MatchingClasses(configs, title, isMatch);
      var idx := MatchIndices(configs, title, isMatch);
      |idx| == |r| &&
      (forall k :: 0 <= k < |idx| ==> idx[k] < |configs| && r[k] == configs[idx[k]].cssClass) &&
      (forall k, l :: 0 <= k < l < |idx| ==> idx[k] < idx[l]) &&
      (forall i :: 0 <= i < |configs| ==> (i in idx <==> isMatch(configs[i].re, title)))
  {
    MatchingClassesAt(configs, title, isMatch);
    MatchIndicesAscending(configs, title, isMatch);
    MatchIndicesMembers(configs, title, isMatch);
  }

  lemma {:induction false} MatchingClassesAt(configs: seq<AppConfig>, title: string, isMatch: (Regex, string) -> bool)
    ensures var r := MatchingClasses(configs, title, isMatch);
      var idx := MatchIndices(configs, title, isMatch);
      |idx| == |r| && forall k :: 0 <= k < |idx| ==> idx[k] < |configs| && r[k] == configs[idx[k]].cssClass
  {
    if configs != [] {
      var tail := configs[1..];
      MatchingClassesAt(tail, title, isMatch);
      var r' := MatchingClasses(tail, title, isMatch);
      var rest := Shifted(MatchIndices(tail, title, isMatch));
      assert forall k :: 0 <= k < |rest| ==> rest[k] < |configs| && r'[k] == configs[rest[k]].cssClass by {
        forall k | 0 <= k < |rest| ensures rest[k] < |configs| && r'[k] == configs[rest[k]].cssClass {
          assert configs[rest[k]] == tail[rest[k] - 1];
        }
      }
    }
  }

  ghost predicate Ascending(idx: seq<nat>) {
    forall k, l :: 0 <= k < l < |idx| ==> idx[k] < idx[l]
  }

  lemma {:induction false} MatchIndicesAscending(configs: seq<AppConfig>, title: string, isMatch: (Regex, string) -> bool)
    ensures Ascending(MatchIndices(configs, title, isMatch))
  {
    if configs != [] {
      MatchIndicesAscending(configs[1..], title, isMatch);
      var rest := Shifted(MatchIndices(configs[1..], title, isMatch));
      assert Ascending(rest);
      if isMatch(configs[0].re, title) {
        ZeroBeforeAll(rest);
      }
    }
  }

  lemma ZeroBeforeAll(rest: seq<nat>)
    requires Ascending(rest) && forall k :: 0 <= k < |rest| ==> rest[k] > 0
    ensures Ascending([0] + rest)
  {
    var idx := [0] + rest;
    forall k, l | 0 <= k < l < |idx| ensures idx[k] < idx[l] {
      assert idx[l] == rest[l - 1];
      if k > 0 { assert idx[k] == rest[k - 1]; }
    }
  }

  lemma {:induction false} MatchIndicesMembers(configs: seq<AppConfig>, title: string, isMatch: (Regex, string) -> bool)
    ensures forall i :: 0 <= i < |configs| ==> (i in MatchIndices(configs, title, isMatch) <==> isMatch(configs[i].re, title))
  {
    if configs != [] {
      var tail := configs[1..];
      MatchIndicesMembers(tail, title, isMatch);
      var idx' := MatchIndices(tail, title, isMatch);
      forall i | 0 <= i < |configs| ensures i in MatchIndices(configs, title, isMatch) <==> isMatch(configs[i].re, title) {
        ShiftedMembers(idx', i);
        if i > 0 {
          assert tail[i - 1] == configs[i];
        }
      }
    }
  }

  lemma ShiftedMembers(idx: seq<nat>, i: nat)
    ensures i in Shifted(idx) <==> i > 0 && i - 1 in idx
  {
    var r := Shifted(idx);
    if i in r {
      var k :| 0 <= k < |r| && r[k] == i;
      assert idx[k] == i - 1;
    }
    if i > 0 && i - 1 in idx {
      var k :| 0 <= k < |idx| && idx[k] == i - 1;
      assert r[k] == i;
    }
  }

  lemma {:induction false} MatchIndicesBound(configs: seq<AppConfig>, title: string, isMatch: (Regex, string) -> bool)
    ensures |MatchIndices(configs, title, isMatch)| <= |configs|
  {
    if configs != [] {
      MatchIndicesBound(configs[1..], title, isMatch);
    }
  }

  /** `app_matches` is empty for an unknown app and otherwise yields the
      classes of the rules whose pattern matches the title. */
  lemma AppMatchesSpec(c: Config, appId: string, title: string, isMatch: (Regex, string) -> bool)
    ensures appId !in c.apps ==> c.AppMatches(appId, title, isMatch) == []
    ensures appId in c.apps ==>
      var rules := c.apps[appId];
      forall cls :: cls in c.AppMatches(appId, title, isMatch) <==>
        exists i :: 0 <= i < |rules| && rules[i].cssClass == cls && isMatch(rules[i].re, title)
    ensures |c.AppMatches(appId, title, isMatch)| <= |c.AppClasses(appId)|
  {
    if appId in c.apps {
      var rules := c.apps[appId];
      var r := c.AppMatches(appId, title, isMatch);
      MatchingClassesSpec(rules, title, isMatch);
      var idx := MatchIndices(rules, title, isMatch);
      forall cls ensures cls in r <==> exists i :: 0 <= i < |rules| && rules[i].cssClass == cls && isMatch(rules[i].re, title) {
        if cls in r {
          var k :| 0 <= k < |r| && r[k] == cls;
          assert idx[k] in idx;
        }
        if exists i :: 0 <= i < |rules| && rules[i].cssClass == cls && isMatch(rules[i].re, title) {
          var i :| 0 <= i < |rules| && rules[i].cssClass == cls && isMatch(rules[i].re, title);
          var k :| 0 <= k < |idx| && idx[k] == i;
          assert r[k] == cls;
        }
      }
      MatchIndicesBound(rules, title, isMatch);
    }
  }
}
