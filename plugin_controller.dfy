/**
 * The logic of the plugin object (plugin/src/main.ts) that is not rendering: the cache
 * of which notes were scanned for which group, the names handed to blocks without a
 * source note, where a group block looks for habits, the stats update after a click,
 * the overdue warning, the note a click writes, and the group block's duplicates and
 * summary.
 *
 * The fields the plugin updates in place are those of the class `HabitButtonPlugin`
 * and of the per-card class `HabitCard`; the rest are functions.
 */
module Controller {
  import opened Wrappers
  import opened HabitText
  import opened OrderedMaps
  import opened HabitOptions
  import opened TagScanner
  import opened Streaks
  import HS = HabitStats
  import Registry
  import EventBus

  // ---------------------------------------------------------------------
  // The scan cache
  // ---------------------------------------------------------------------

  /**
   * `stalePaths` (notes changed since they were last scanned) and `groupScanCache`
   * (note path -> the normalised groups it was scanned for since).
   */
  datatype ScanCache = ScanCache(stale: set<string>, scanned: map<string, set<string>>)

  /** A note is never both stale and recorded as scanned. */
  predicate CacheValid(c: ScanCache) {
    forall p :: p in c.stale ==> p !in c.scanned
  }

  /** `markPathStale`: an empty path is ignored; otherwise the note is stale and forgets its scans. */
  function MarkStale(c: ScanCache, path: string): ScanCache {
    if path == "" then c else ScanCache(c.stale + {path}, c.scanned - {path})
  }

  /** `markGroupScanFresh`: the note was scanned for the group, and is no longer stale. */
  function MarkFresh(c: ScanCache, path: string, group: string): ScanCache {
    var groups := if path in c.scanned then c.scanned[path] else {};
    ScanCache(c.stale - {path}, c.scanned[path := groups + {group}])
  }

  /** `shouldScanPath`: forced, stale, never scanned, or not scanned for this group. */
  predicate ShouldScan(c: ScanCache, path: string, group: string, force: bool) {
    force || path in c.stale || path !in c.scanned || group !in c.scanned[path]
  }

  lemma {:induction false} MarkStaleValid(c: ScanCache, path: string)
    requires CacheValid(c)
    ensures CacheValid(MarkStale(c, path))
  {
  }

  lemma {:induction false} MarkFreshValid(c: ScanCache, path: string, group: string)
    requires CacheValid(c)
    ensures CacheValid(MarkFresh(c, path, group))
  {
  }

  /** A forced scan always scans. */
  lemma {:induction false} ForceScans(c: ScanCache, path: string, group: string)
    ensures ShouldScan(c, path, group, true)
  {
  }

  /** Right after a note was scanned for a group, it is not scanned again for it. */
  lemma {:induction false} FreshSkips(c: ScanCache, path: string, group: string)
    ensures !ShouldScan(MarkFresh(c, path, group), path, group, false)
  {
  }

  /**
   * A note skipped for a group stays skipped through every other cache update except
   * its own change: scans of any note for any group, and changes of other notes.
   */
  lemma {:induction false} SkipSurvives(c: ScanCache, path: string, group: string, other: string, otherGroup: string)
    requires !ShouldScan(c, path, group, false)
    ensures !ShouldScan(MarkFresh(c, other, otherGroup), path, group, false)
    ensures other != path ==> !ShouldScan(MarkStale(c, other), path, group, false)
  {
  }

  /** Once a note changed, it is scanned again for every group. */
  lemma {:induction false} StaleScans(c: ScanCache, path: string, group: string)
    requires path != ""
    ensures ShouldScan(MarkStale(c, path), path, group, false)
  {
  }

  /** Cache updates of one note leave the decision for every other note as it was. */
  lemma {:induction false} OtherNotesUnaffected(c: ScanCache, path: string, group: string, other: string,
                                                 otherGroup: string, force: bool)
    requires other != path
    ensures ShouldScan(MarkFresh(c, path, group), other, otherGroup, force) == ShouldScan(c, other, otherGroup, force)
    ensures ShouldScan(MarkStale(c, path), other, otherGroup, force) == ShouldScan(c, other, otherGroup, force)
  {
  }

  // ---------------------------------------------------------------------
  // Source paths
  // ---------------------------------------------------------------------

  /** The prefix of the names handed to blocks without a source note. */
  const UNKNOWN_PREFIX: string := "__unknown__"

  /** The `n`-th anonymous source path, `__unknown__/n`. */
  function AnonymousPath(n: nat): (p: string)
    ensures StartsWith(p, UNKNOWN_PREFIX)
  {
    UNKNOWN_PREFIX + "/" + NatToString(n)
  }

  /** Distinct counters give distinct anonymous paths. */
  lemma {:induction false} AnonymousPathInjective(m: nat, n: nat)
    requires AnonymousPath(m) == AnonymousPath(n)
    ensures m == n
  {
    var k := |UNKNOWN_PREFIX + "/"|;
    assert NatToString(m) == AnonymousPath(m)[k..];
    assert NatToString(n) == AnonymousPath(n)[k..];
    NatToStringRoundTrip(m);
    NatToStringRoundTrip(n);
  }

  /**
   * `resolveSourcePath`: the trimmed note path when there is one, else the next anonymous
   * path; the second component is the counter afterwards.
   */
  function SourcePathOf(candidate: Option<string>, counter: nat): (string, nat) {
    if candidate.Some? && Trim(candidate.value) != "" then (Trim(candidate.value), counter)
    else (AnonymousPath(counter + 1), counter + 1)
  }

  /**
   * A note path is kept (trimmed), and only a missing or blank one advances the counter;
   * the anonymous path then names the new counter, which is above every earlier one.
   */
  lemma {:induction false} SourcePathSpec(candidate: Option<string>, counter: nat)
    ensures var (path, next) := SourcePathOf(candidate, counter);
      && (candidate.Some? && Trim(candidate.value) != "" ==> path == Trim(candidate.value) && next == counter)
      && (candidate.None? || Trim(candidate.value) == "" ==>
            next == counter + 1 && path == AnonymousPath(next)
            && forall n: nat :: n <= counter ==> path != AnonymousPath(n))
  {
    if candidate.None? || Trim(candidate.value) == "" {
      forall n: nat | n <= counter ensures AnonymousPath(counter + 1) != AnonymousPath(n) {
        if AnonymousPath(counter + 1) == AnonymousPath(n) {
          AnonymousPathInjective(counter + 1, n);
        }
      }
    }
  }

  /** Some anonymous path up to `counter`. */
  ghost predicate IssuedBy(p: string, counter: nat) {
    exists n: nat :: 1 <= n <= counter && p == AnonymousPath(n)
  }

  // ---------------------------------------------------------------------
  // Where a group block looks for habits
  // ---------------------------------------------------------------------

  /** An entry of `habitsLocations` as the group block uses it: trimmed, then slash-trimmed. */
  function LocationKey(value: string): (r: string)
    ensures r == [] || (r[0] != '/' && r[|r| - 1] != '/')
  {
    TrimSlashes(Trim(value))
  }

  /** The keys of the listed locations, in order. */
  function LocationKeys(items: seq<string>): (keys: seq<string>)
    ensures |keys| == |items|
    ensures forall i :: 0 <= i < |items| ==> keys[i] == LocationKey(items[i])
  {
    seq(|items|, i requires 0 <= i < |items| => LocationKey(items[i]))
  }

  /** The `push` helper on a location's key: a non-empty key joins the set unless already there. */
  function PushKey(unique: seq<string>, key: string): seq<string> {
    if key == "" || key in unique then unique else unique + [key]
  }

  /** Every key pushed in order, starting from the empty set. */
  function PushAll(keys: seq<string>): seq<string>
    decreases |keys|
  {
    if keys == [] then [] else PushKey(PushAll(keys[..|keys| - 1]), keys[|keys| - 1])
  }

  /**
   * `resolveHabitGroupLocations`: the listed locations when there are any; otherwise the
   * block's own note, unless that is an anonymous path.
   */
  function GroupLocations(locations: seq<string>, fallbackPath: string): seq<string> {
    if |locations| > 0 then PushAll(LocationKeys(locations))
    else if StartsWith(fallbackPath, UNKNOWN_PREFIX) then []
    else PushKey([], LocationKey(fallbackPath))
  }

  lemma {:induction false} DistinctSnoc(s: seq<string>, x: string)
    requires Distinct(s) && x !in s
    ensures Distinct(s + [x])
  {
    var r := s + [x];
    forall i, j | 0 <= i < j < |r| ensures r[i] != r[j] {
      assert r[i] == s[i];
      if j < |s| {
        assert r[j] == s[j];
      }
    }
  }

  /** The pushed set holds each non-empty key once. */
  lemma {:induction false} PushAllSpec(keys: seq<string>)
    ensures Distinct(PushAll(keys))
    ensures forall x :: x in PushAll(keys) <==> x != "" && x in keys
    decreases |keys|
  {
    if keys != [] {
      var front := keys[..|keys| - 1];
      var last := keys[|keys| - 1];
      PushAllSpec(front);
      var before := PushAll(front);
      if last != "" && last !in before {
        DistinctSnoc(before, last);
      }
      assert keys == front + [last];
    }
  }

  /** The listed locations' set: each non-empty key once, without a slash at either end. */
  lemma {:induction false} ListedLocations(locations: seq<string>, r: seq<string>)
    requires r == PushAll(LocationKeys(locations))
    ensures Distinct(r)
    ensures forall x :: x in r <==> x != "" && exists i :: 0 <= i < |locations| && LocationKey(locations[i]) == x
    ensures forall x :: x in r ==> x[0] != '/' && x[|x| - 1] != '/'
  {
    var keys := LocationKeys(locations);
    PushAllSpec(keys);
    forall x | x in keys ensures exists i :: 0 <= i < |locations| && LocationKey(locations[i]) == x {
      var i :| 0 <= i < |keys| && keys[i] == x;
    }
    forall x | x in r ensures x[0] != '/' && x[|x| - 1] != '/' {
      var i :| 0 <= i < |keys| && keys[i] == x;
    }
  }

  /**
   * The locations are distinct, non-empty and without a slash at either end; each is the
   * key of a listed location, or, when none is listed, of the block's own note provided
   * that is not anonymous.
   */
  lemma {:induction false} GroupLocationsSpec(locations: seq<string>, fallbackPath: string)
    ensures Distinct(GroupLocations(locations, fallbackPath))
    ensures forall x :: x in GroupLocations(locations, fallbackPath) ==> x != "" && x[0] != '/' && x[|x| - 1] != '/'
    ensures |locations| > 0 ==> forall x :: x in GroupLocations(locations, fallbackPath) <==>
      x != "" && exists i :: 0 <= i < |locations| && LocationKey(locations[i]) == x
    ensures |locations| == 0 ==>
      (GroupLocations(locations, fallbackPath) == [] <==>
         StartsWith(fallbackPath, UNKNOWN_PREFIX) || LocationKey(fallbackPath) == "")
    ensures |locations| == 0 && GroupLocations(locations, fallbackPath) != [] ==>
      GroupLocations(locations, fallbackPath) == [LocationKey(fallbackPath)]
  {
    var r := GroupLocations(locations, fallbackPath);
    if |locations| > 0 {
      ListedLocations(locations, r);
    } else {
      assert locations == [];
      FallbackLocations(fallbackPath);
      AtMostOneKey(r, StartsWith(fallbackPath, UNKNOWN_PREFIX), LocationKey(fallbackPath));
    }
  }

  /** With no listed location: the block's own note's key, unless anonymous or empty. */
  lemma {:induction false} FallbackLocations(fallbackPath: string)
    ensures GroupLocations([], fallbackPath) ==
      if StartsWith(fallbackPath, UNKNOWN_PREFIX) || LocationKey(fallbackPath) == "" then []
      else [LocationKey(fallbackPath)]
  {
  }

  /** A list that is empty or holds one slash-trimmed key. */
  lemma {:induction false} AtMostOneKey(r: seq<string>, anonymous: bool, key: string)
    requires r == if anonymous || key == "" then [] else [key]
    requires key == [] || (key[0] != '/' && key[|key| - 1] != '/')
    ensures Distinct(r)
    ensures forall x :: x in r ==> x != "" && x[0] != '/' && x[|x| - 1] != '/'
    ensures r == [] <==> anonymous || key == ""
    ensures r != [] ==> r == [key]
  {
    if r != [] {
      assert forall x :: x in r ==> x == key;
    }
  }

  /** One step of the push loop, stated on the values after the step. */
  lemma {:induction false} PushStep(keys: seq<string>, i: nat, before: seq<string>, after: seq<string>)
    requires 0 < i <= |keys|
    requires before == PushAll(keys[..i - 1])
    requires after == PushKey(before, keys[i - 1])
    ensures after == PushAll(keys[..i])
  {
    assert keys[..i][..i - 1] == keys[..i - 1];
  }

  /** The loop of `resolveHabitGroupLocations` over the listed locations, building the set `unique`. */
  method PushListed(locations: seq<string>) returns (unique: seq<string>)
    ensures unique == PushAll(LocationKeys(locations))
  {
    unique := [];
    ghost var keys := LocationKeys(locations);
    var i := 0;
    while i < |locations|
      invariant 0 <= i <= |locations|
      invariant unique == PushAll(keys[..i])
    {
      ghost var before := unique;
      var trimmed := LocationKey(locations[i]);
      if trimmed != "" && trimmed !in unique {
        unique := unique + [trimmed];
      }
      i := i + 1;
      PushStep(keys, i, before, unique);
    }
    assert keys[..i] == keys;
  }

  /** `resolveHabitGroupLocations`. */
  method ResolveHabitGroupLocations(locations: seq<string>, fallbackPath: string) returns (unique: seq<string>)
    ensures unique == GroupLocations(locations, fallbackPath)
  {
    if |locations| > 0 {
      unique := PushListed(locations);
    } else if !StartsWith(fallbackPath, UNKNOWN_PREFIX) {
      var trimmed := LocationKey(fallbackPath);
      unique := if trimmed != "" then [trimmed] else [];
    } else {
      unique := [];
    }
  }

  // ---------------------------------------------------------------------
  // Which notes a location names
  // ---------------------------------------------------------------------

  /** `s.lastIndexOf(c)`: the last index holding `c`, or -1. */
  function LastIndexOf(s: string, c: char): (r: int)
    ensures -1 <= r < |s|
    ensures r >= 0 ==> s[r] == c
    ensures forall j :: r < j < |s| ==> s[j] != c
    decreases |s|
  {
    if s == [] then -1
    else if s[|s| - 1] == c then |s| - 1
    else LastIndexOf(s[..|s| - 1], c)
  }

  /** A dot after the last slash: the location names a file with an extension. */
  predicate HasExtension(path: string) {
    LastIndexOf(path, '.') > LastIndexOf(path, '/')
  }

  /** A note directly inside the folder `dir`: `dir/name` with no further slash. */
  predicate IsDirectChild(path: string, dir: string) {
    && StartsWith(path, dir + "/")
    && var rest := path[|dir| + 1..];
    rest != [] && '/' !in rest
  }

  /** The markdown files directly inside `dir`, in vault order. */
  function DirectChildren(files: seq<string>, dir: string): (r: seq<string>)
    ensures forall x :: x in r <==> x in files && IsDirectChild(x, dir)
    decreases |files|
  {
    if files == [] then []
    else
      assert files == [files[0]] + files[1..];
      (if IsDirectChild(files[0], dir) then [files[0]] else []) + DirectChildren(files[1..], dir)
  }

  lemma {:induction false} NoDirectChildren(files: seq<string>, dir: string)
    requires forall f :: f in files ==> !IsDirectChild(f, dir)
    ensures DirectChildren(files, dir) == []
    decreases |files|
  {
    if files != [] {
      assert files[0] in files;
      NoDirectChildren(files[1..], dir);
    }
  }

  /** The markdown files named `base.` followed by anything, in vault order. */
  function DottedNamesakes(files: seq<string>, base: string): (r: seq<string>)
    ensures forall x :: x in r <==> x in files && StartsWith(x, base + ".")
    decreases |files|
  {
    if files == [] then []
    else
      assert files == [files[0]] + files[1..];
      (if StartsWith(files[0], base + ".") then [files[0]] else []) + DottedNamesakes(files[1..], base)
  }

  /** Code-point order on strings, standing for `localeCompare`. */
  predicate LexLe(a: string, b: string)
    decreases |a|
  {
    a == [] || (b != [] && (a[0] < b[0] || (a[0] == b[0] && LexLe(a[1..], b[1..]))))
  }

  lemma {:induction false} LexLeTotal(a: string, b: string)
    ensures LexLe(a, b) || LexLe(b, a)
    decreases |a|
  {
    if a != [] && b != [] && a[0] == b[0] {
      LexLeTotal(a[1..], b[1..]);
    }
  }

  lemma {:induction false} LexLeRefl(a: string)
    ensures LexLe(a, a)
    decreases |a|
  {
    if a != [] {
      LexLeRefl(a[1..]);
    }
  }

  lemma {:induction false} LexLeTrans(a: string, b: string, c: string)
    requires LexLe(a, b) && LexLe(b, c)
    ensures LexLe(a, c)
    decreases |a|
  {
    if a != [] && a[0] == b[0] && b[0] == c[0] {
      LexLeTrans(a[1..], b[1..], c[1..]);
    }
  }

  /** The first of the paths once sorted: the least in code-point order. */
  function LexMin(xs: seq<string>): (m: string)
    requires xs != []
    ensures m in xs
    ensures forall x :: x in xs ==> LexLe(m, x)
    decreases |xs|
  {
    if |xs| == 1 then
      LexLeRefl(xs[0]);
      xs[0]
    else
      var rest := LexMin(xs[1..]);
      assert xs == [xs[0]] + xs[1..];
      LexLeTotal(xs[0], rest);
      if LexLe(xs[0], rest) then
        forall x | x in xs[1..] ensures LexLe(xs[0], x) {
          LexLeTrans(xs[0], rest, x);
        }
        LexLeRefl(xs[0]);
        xs[0]
      else
        rest
  }

  /**
   * `resolveLocationPaths`: the notes directly in the folder the location names; else the
   * note with exactly that path; else that path plus `.md`; else, when the location has
   * no extension, the first in sorted order of the notes named the location plus a dot;
   * else none.
   */
  function LocationPaths(location: string, files: seq<string>): seq<string> {
    PathsFor(TrimSlashes(location), files)
  }

  /** The search of `resolveLocationPaths` for the slash-trimmed location `n`. */
  function PathsFor(n: string, files: seq<string>): seq<string> {
    if n == "" then []
    else
      var children := DirectChildren(files, n);
      if children != [] then children
      else if n in files then [n]
      else if n + ".md" in files then [n + ".md"]
      else if !HasExtension(n) && DottedNamesakes(files, n) != [] then [LexMin(DottedNamesakes(files, n))]
      else []
  }

  /** Every path found is a note of the vault, and an empty location finds nothing. */
  lemma {:induction false} LocationPathsInVault(n: string, files: seq<string>)
    ensures forall x :: x in PathsFor(n, files) ==> x in files
    ensures n == "" ==> PathsFor(n, files) == []
  {
  }

  /** A folder wins: when the location has notes directly inside it, those are exactly the result. */
  lemma {:induction false} LocationPathsFolder(n: string, files: seq<string>, f: string)
    requires n != "" && f in files && IsDirectChild(f, n)
    ensures forall x :: x in PathsFor(n, files) <==> x in files && IsDirectChild(x, n)
  {
    assert f in DirectChildren(files, n);
  }

  /**
   * Without notes directly inside the location there is at most one path, chosen in this
   * order: the exact path, then `.md`, then the least `location.*` if the location has no
   * extension; nothing is found exactly when none of these exists.
   */
  lemma {:induction false} LocationPathsSingle(n: string, files: seq<string>)
    requires n != ""
    requires forall f :: f in files ==> !IsDirectChild(f, n)
    ensures |PathsFor(n, files)| <= 1
    ensures n in files ==> PathsFor(n, files) == [n]
    ensures n !in files && n + ".md" in files ==> PathsFor(n, files) == [n + ".md"]
    ensures n !in files && n + ".md" !in files ==>
      (PathsFor(n, files) != [] <==> !HasExtension(n) && exists f :: f in files && StartsWith(f, n + "."))
    ensures n !in files && n + ".md" !in files && PathsFor(n, files) != [] ==>
      && StartsWith(PathsFor(n, files)[0], n + ".")
      && forall f :: f in files && StartsWith(f, n + ".") ==> LexLe(PathsFor(n, files)[0], f)
  {
    NoDirectChildren(files, n);
    if (exists f :: f in files && StartsWith(f, n + ".")) {
      var f :| f in files && StartsWith(f, n + ".");
      assert f in DottedNamesakes(files, n);
    }
  }

  // ---------------------------------------------------------------------
  // The overdue warning
  // ---------------------------------------------------------------------

  /** The warning of a card: the overdue mark on the last-mark label, and the hours-left hint. */
  datatype MetaWarning = MetaWarning(overdue: bool, hoursLeft: Option<int>)

  /**
   * `renderMeta`'s warning (plugin/src/main.ts:340-367), in whole milliseconds: with a
   * last mark, the time left is the allowed gap minus the time since it. A live streak
   * warns, and shows the time left rounded up to hours, while that time is positive and
   * within the warning window; a broken streak with a last mark always warns.
   */
  function MetaWarningOf(stats: HS.HabitStats, now: int): MetaWarning {
    if stats.lastTs.None? then MetaWarning(false, None)
    else
      var remMs := stats.allowedGapH * HS.MS_PER_HOUR - (now - stats.lastTs.value);
      var closing := stats.streak > 0 && 0 < remMs <= stats.warningWindowHours * HS.MS_PER_HOUR;
      MetaWarning(closing || stats.streak == 0,
                  if closing then Some((remMs + HS.MS_PER_HOUR - 1) / HS.MS_PER_HOUR) else None)
  }

  /** `remainingHours` as the source computes it, in exact real hours. */
  function RemainingHours(stats: HS.HabitStats, now: int): real
    requires stats.lastTs.Some?
  {
    stats.allowedGapH as real - (now - stats.lastTs.value) as real / 3600000.0
  }

  /** `shouldWarn`, in exact real hours. */
  predicate WarnsByHours(stats: HS.HabitStats, now: int) {
    && stats.lastTs.Some?
    && ((stats.streak > 0 && 0.0 < RemainingHours(stats, now) <= stats.warningWindowHours as real)
        || stats.streak == 0)
  }

  /** Whole milliseconds over an hour compare with whole hours as the milliseconds do. */
  lemma HoursOfMs(ms: int, hours: int)
    ensures ms as real / 3600000.0 > 0.0 <==> ms > 0
    ensures ms as real / 3600000.0 <= hours as real <==> ms <= hours * 3600000
    ensures (hours as real) < ms as real / 3600000.0 <==> hours * 3600000 < ms
  {
  }

  lemma RemainingIsMs(stats: HS.HabitStats, now: int)
    requires stats.lastTs.Some?
    ensures RemainingHours(stats, now)
      == (stats.allowedGapH * HS.MS_PER_HOUR - (now - stats.lastTs.value)) as real / 3600000.0
  {
  }

  /** The overdue mark in milliseconds is the source's mark in hours, both ways. */
  lemma {:induction false} OverdueMatchesHours(stats: HS.HabitStats, now: int)
    ensures MetaWarningOf(stats, now).overdue <==> WarnsByHours(stats, now)
  {
    if stats.lastTs.Some? {
      var remMs := stats.allowedGapH * HS.MS_PER_HOUR - (now - stats.lastTs.value);
      RemainingIsMs(stats, now);
      HoursOfMs(remMs, stats.warningWindowHours);
    }
  }

  /**
   * The hint appears exactly for a live streak whose time left is positive and within the
   * window, and it is that time rounded up to whole hours, so at most the window.
   */
  lemma {:induction false} HintIsCeiling(stats: HS.HabitStats, now: int)
    ensures MetaWarningOf(stats, now).hoursLeft.Some? <==>
      stats.lastTs.Some? && stats.streak > 0
      && 0.0 < RemainingHours(stats, now) <= stats.warningWindowHours as real
    ensures MetaWarningOf(stats, now).hoursLeft.Some? ==>
      && ((MetaWarningOf(stats, now).hoursLeft.value - 1) as real) < RemainingHours(stats, now)
      && RemainingHours(stats, now) <= MetaWarningOf(stats, now).hoursLeft.value as real
      && 1 <= MetaWarningOf(stats, now).hoursLeft.value <= stats.warningWindowHours
    ensures MetaWarningOf(stats, now).hoursLeft.Some? ==> MetaWarningOf(stats, now).overdue
  {
    if stats.lastTs.Some? {
      var remMs := stats.allowedGapH * HS.MS_PER_HOUR - (now - stats.lastTs.value);
      RemainingIsMs(stats, now);
      HoursOfMs(remMs, stats.warningWindowHours);
      if stats.streak > 0 && 0 < remMs <= stats.warningWindowHours * HS.MS_PER_HOUR {
        var h := (remMs + HS.MS_PER_HOUR - 1) / HS.MS_PER_HOUR;
        assert (h - 1) * HS.MS_PER_HOUR < remMs <= h * HS.MS_PER_HOUR;
        HoursOfMs(remMs, h);
        HoursOfMs(remMs, h - 1);
        assert remMs + HS.MS_PER_HOUR - 1 < (stats.warningWindowHours + 1) * HS.MS_PER_HOUR;
      }
    }
  }

  /** A card with no mark never warns, whatever its streak. */
  lemma {:induction false} NoMarkNoWarning(stats: HS.HabitStats, now: int)
    requires stats.lastTs.None?
    ensures MetaWarningOf(stats, now) == MetaWarning(false, None)
  {
  }

  /** A 24-hour grace period with a 6-hour window, marked 26 hours ago: overdue, four hours left. */
  lemma {:induction false} WarningFourHoursLeft(stats: HS.HabitStats, now: int)
    requires stats.allowedGapH == 30 && stats.warningWindowHours == 6 && stats.streak == 1
    requires stats.lastTs == Some(now - 26 * HS.MS_PER_HOUR)
    ensures MetaWarningOf(stats, now) == MetaWarning(true, Some(4))
  {
    assert (4 * HS.MS_PER_HOUR + HS.MS_PER_HOUR - 1) / HS.MS_PER_HOUR == 4;
  }

  /** Marked 72 hours ago with the streak broken: overdue, with no hint. */
  lemma {:induction false} WarningBrokenStreak(stats: HS.HabitStats, now: int)
    requires stats.allowedGapH == 30 && stats.warningWindowHours == 6 && stats.streak == 0
    requires stats.lastTs == Some(now - 72 * HS.MS_PER_HOUR)
    ensures MetaWarningOf(stats, now) == MetaWarning(true, None)
  {
  }

  // ---------------------------------------------------------------------
  // The note a click writes
  // ---------------------------------------------------------------------

  /** `logHabitEntry`'s target: `YYYY-MM-DD.md` inside the slash-trimmed daily folder, if any. */
  function DailyNotePath(dailyFolder: string, y: int, mo: int, d: int): string {
    NotePathIn(TrimSlashes(dailyFolder), IsoOf(y, mo, d))
  }

  /** The note `iso.md` inside `folder`, or at the top when there is no folder. */
  function NotePathIn(folder: string, iso: string): string {
    if folder != "" then folder + "/" + iso + ".md" else iso + ".md"
  }

  lemma LowerMd()
    ensures Lower(".md") == ".md"
  {
    assert ".md" == ['.'] + "md";
    assert "md" == ['m'] + "d";
  }

  /** The note file name ends in `.md`, and without it is the day's ISO date. */
  lemma {:induction false} StripDatedName(iso: string)
    ensures HS.StripMd(iso + ".md") == iso
  {
    var p := iso + ".md";
    assert p[|p| - 3..] == ".md";
    LowerMd();
  }

  /**
   * The collector finds the note a click writes: the note lies in the daily folder the
   * collector filters on, and its path below that folder, without `.md`, is the day's
   * ISO date, which is what the collector hands to the note-name parser.
   */
  lemma {:induction false} DailyNoteInFolder(folder: string, iso: string)
    ensures HS.InFolder(NotePathIn(folder, iso), folder)
    ensures folder != "" ==> HS.SliceFrom(HS.StripMd(NotePathIn(folder, iso)), |folder| + 1) == iso
    ensures folder == "" ==> HS.StripMd(NotePathIn(folder, iso)) == iso
  {
    if folder != "" {
      var path := NotePathIn(folder, iso);
      StripDatedName(folder + "/" + iso);
      assert (folder + "/" + iso)[|folder| + 1..] == iso;
      assert path[..|folder + "/"|] == folder + "/";
    } else {
      StripDatedName(iso);
    }
  }

  /** The note before the click's line: the existing note, or the template ended by a newline. */
  function NoteBefore(existing: Option<string>, template: string): string {
    if existing.Some? then existing.value
    else if template != "" then EnsureTrailingNewline(template)
    else ""
  }

  /**
   * The note after a click: the line appended to an existing note, or a new note of the
   * template (if any, made newline-terminated) followed by the line.
   */
  function LoggedContent(existing: Option<string>, template: string, line: string): string {
    NoteBefore(existing, template) + line
  }

  /**
   * The collector reads back from the written note exactly its occurrences before, plus
   * one occurrence of the habit at the logged time; a new note starts with its template.
   */
  lemma {:induction false} LoggedNoteRematched(existing: Option<string>, template: string, prefix: string, key: string,
                                               hours: int, minutes: int)
    requires IsHabitKey(prefix) && key != [] && IsHabitKey(key)
    requires 0 <= hours < 24 && 0 <= minutes < 60
    ensures Scan(LoggedContent(existing, template, LogLine(HabitTag(prefix, key), hours, minutes)), prefix)
      == Scan(NoteBefore(existing, template), prefix) + [Occurrence(key, Some(Clock(hours, minutes)))]
    ensures existing.None? ==> StartsWith(LoggedContent(existing, template, LogLine(HabitTag(prefix, key), hours, minutes)), template)
  {
    AppendLogLine(NoteBefore(existing, template), prefix, key, hours, minutes);
  }

  // ---------------------------------------------------------------------
  // The click
  // ---------------------------------------------------------------------

  /**
   * The stats after a click: the day's count is one more and no other count changes, the
   * day is marked, its latest time is the click's, the last timestamp is the latest of
   * the per-day times, and the streak is recomputed from them.
   */
  lemma {:induction false} ClickEffect(stats: HS.HabitStats, iso: string, ts: int, now: int)
    requires stats.lastTsByISO.Valid()
    ensures var r := HS.ClickedStats(stats, iso, ts, now);
      && iso in r.countsByISO
      && r.countsByISO[iso] == (if iso in stats.countsByISO then stats.countsByISO[iso] else 0) + 1
      && (forall d :: d in stats.countsByISO && d != iso ==> r.countsByISO[d] == stats.countsByISO[d])
      && r.hasByISO == stats.hasByISO + {iso}
      && r.lastTsByISO.entries == stats.lastTsByISO.entries[iso := ts]
      && r.lastTs.Some?
      && r.lastTs.value in r.lastTsByISO.entries.Values
      && (forall d :: d in r.lastTsByISO.entries ==> r.lastTsByISO.entries[d] <= r.lastTs.value)
      && r.streak == Streak(SortAscending(r.lastTsByISO.Values()), stats.allowedGapMs, now)
  {
    var r := HS.ClickedStats(stats, iso, ts, now);
    var last := r.lastTsByISO;
    var vs := last.Values();
    assert iso in last.entries;
    assert vs != [] by {
      assert iso in last.keys;
    }
    LastOfSortedIsMax(vs);
    var top := LastOf(SortAscending(vs)).value;
    var i :| 0 <= i < |vs| && vs[i] == top;
    assert last.entries[last.keys[i]] == top;
    forall d | d in last.entries ensures last.entries[d] <= top {
      var j :| 0 <= j < |last.keys| && last.keys[j] == d;
      assert vs[j] in vs;
    }
  }

  /** The click update of `current`, step by step as the click handler does it. */
  method ApplyClick(current: HS.HabitStats, iso: string, ts: int, now: int) returns (updated: HS.HabitStats)
    requires current.lastTsByISO.Valid()
    ensures updated == HS.ClickedStats(current, iso, ts, now)
  {
    var count := if iso in current.countsByISO then current.countsByISO[iso] else 0;
    var counts := current.countsByISO[iso := count + 1];
    var has := current.hasByISO + {iso};
    var last := current.lastTsByISO.Put(iso, ts);
    var sorted := SortAscending(last.Values());
    var streak := ComputeStreakByDays(sorted, current.allowedGapMs, now);
    updated := current.(countsByISO := counts, hasByISO := has, lastTsByISO := last,
                        lastTs := LastOf(sorted), streak := streak);
    ghost var expected := HS.ClickedStats(current, iso, ts, now);
    assert updated.countsByISO == expected.countsByISO;
    assert updated.lastTsByISO == expected.lastTsByISO;
    assert updated.streak == expected.streak;
  }

  /** A card's stats, which a click updates in place (plugin/src/main.ts:389-404). */
  class HabitCard {
    var stats: HS.HabitStats

    constructor(stats: HS.HabitStats)
      ensures this.stats == stats
    {
      this.stats := stats;
    }

    /** Records a click logged at `ts`, on the local day `day` that `ts` lies in. */
    method Click(day: HS.Day, ts: int, now: int)
      requires stats.lastTsByISO.Valid()
      requires HS.OnDay(ts, day)
      modifies this
      ensures stats == HS.ClickedStats(old(stats), IsoOf(day.y, day.mo, day.d), ts, now)
    {
      stats := ApplyClick(stats, IsoOf(day.y, day.mo, day.d), ts, now);
    }
  }

  // ---------------------------------------------------------------------
  // The group block
  // ---------------------------------------------------------------------

  /** One reported duplicate: a habit key and its records in the group. */
  datatype GroupDuplicate = GroupDuplicate(habitKey: string, records: seq<Registry.Record>)

  /** The records whose group normalises to `group`, in order. */
  function InGroupOnly(records: seq<Registry.Record>, group: string): (r: seq<Registry.Record>)
    ensures |r| <= |records|
    ensures forall x :: x in r <==> x in records && Registry.GroupKey(x.group) == group
    decreases |records|
  {
    if records == [] then []
    else
      assert records == [records[0]] + records[1..];
      (if Registry.GroupKey(records[0].group) == group then [records[0]] else []) + InGroupOnly(records[1..], group)
  }

  /** The duplicate loop of `collectGroupDuplicates` over the keys `ks`. */
  function GroupDuplicatesUnder(dups: OMap<string, seq<Registry.Record>>, ks: seq<string>, group: string): seq<GroupDuplicate>
    requires forall k :: k in ks ==> k in dups.entries
    decreases |ks|
  {
    if ks == [] then []
    else
      var before := GroupDuplicatesUnder(dups, ks[..|ks| - 1], group);
      var k := ks[|ks| - 1];
      var scoped := InGroupOnly(dups.entries[k], group);
      if |scoped| > 1 then before + [GroupDuplicate(k, scoped)] else before
  }

  /** `collectGroupDuplicates` over the registry's duplicates. */
  function CollectGroupDuplicates(dups: OMap<string, seq<Registry.Record>>, group: string): seq<GroupDuplicate>
    requires dups.Valid()
  {
    GroupDuplicatesUnder(dups, dups.keys, group)
  }

  /** The habit keys of the reported duplicates, in order. */
  function KeysOf(ds: seq<GroupDuplicate>): (ks: seq<string>)
    ensures |ks| == |ds|
    ensures forall i :: 0 <= i < |ds| ==> ks[i] == ds[i].habitKey
  {
    seq(|ds|, i requires 0 <= i < |ds| => ds[i].habitKey)
  }

  lemma KeysOfSnoc(ds: seq<GroupDuplicate>, d: GroupDuplicate)
    ensures KeysOf(ds + [d]) == KeysOf(ds) + [d.habitKey]
  {
  }

  /**
   * Each reported key comes from `ks`, with its records in the group, which are more than
   * one; every key of `ks` with more than one record in the group is reported.
   */
  lemma {:induction false} GroupDuplicatesUnderSpec(dups: OMap<string, seq<Registry.Record>>, ks: seq<string>, group: string)
    requires forall k :: k in ks ==> k in dups.entries
    ensures forall k :: k in KeysOf(GroupDuplicatesUnder(dups, ks, group)) <==>
      k in ks && |InGroupOnly(dups.entries[k], group)| > 1
    ensures forall i :: 0 <= i < |GroupDuplicatesUnder(dups, ks, group)| ==>
      GroupDuplicatesUnder(dups, ks, group)[i].records
        == InGroupOnly(dups.entries[GroupDuplicatesUnder(dups, ks, group)[i].habitKey], group)
    decreases |ks|
  {
    if ks != [] {
      var front := ks[..|ks| - 1];
      var k := ks[|ks| - 1];
      assert ks == front + [k];
      GroupDuplicatesUnderSpec(dups, front, group);
      var before := GroupDuplicatesUnder(dups, front, group);
      var scoped := InGroupOnly(dups.entries[k], group);
      var after := GroupDuplicatesUnder(dups, ks, group);
      assert ks[..|ks| - 1] == front;
      assert after == if |scoped| > 1 then before + [GroupDuplicate(k, scoped)] else before;
      GroupDuplicatesStep(dups, ks, front, k, group, before, scoped, after);
    }
  }

  /** The inductive step of `GroupDuplicatesUnderSpec`, for the last key `k`. */
  lemma {:induction false} GroupDuplicatesStep(dups: OMap<string, seq<Registry.Record>>, ks: seq<string>, front: seq<string>,
                                               k: string, group: string, before: seq<GroupDuplicate>,
                                               scoped: seq<Registry.Record>, after: seq<GroupDuplicate>)
    requires ks == front + [k] && forall k' :: k' in ks ==> k' in dups.entries
    requires scoped == InGroupOnly(dups.entries[k], group)
    requires after == if |scoped| > 1 then before + [GroupDuplicate(k, scoped)] else before
    requires forall k' :: k' in KeysOf(before) <==> k' in front && |InGroupOnly(dups.entries[k'], group)| > 1
    requires forall i :: 0 <= i < |before| ==> before[i].records == InGroupOnly(dups.entries[before[i].habitKey], group)
    ensures forall k' :: k' in KeysOf(after) <==> k' in ks && |InGroupOnly(dups.entries[k'], group)| > 1
    ensures forall i :: 0 <= i < |after| ==> after[i].records == InGroupOnly(dups.entries[after[i].habitKey], group)
  {
    var hit := |scoped| > 1;
    if hit {
      KeysOfSnoc(before, GroupDuplicate(k, scoped));
    }
    assert KeysOf(after) == if hit then KeysOf(before) + [k] else KeysOf(before);
    forall k' ensures k' in KeysOf(after) <==> k' in ks && |InGroupOnly(dups.entries[k'], group)| > 1 {
      assert k' in ks <==> k' in front || k' == k;
    }
    forall i | 0 <= i < |after| ensures after[i].records == InGroupOnly(dups.entries[after[i].habitKey], group) {
      if i < |before| {
        assert after[i] == before[i];
      }
    }
  }

  /** Keys without repeats are reported at most once each. */
  lemma {:induction false} GroupDuplicatesDistinct(dups: OMap<string, seq<Registry.Record>>, ks: seq<string>, group: string)
    requires forall k :: k in ks ==> k in dups.entries
    requires Distinct(ks)
    ensures Distinct(KeysOf(GroupDuplicatesUnder(dups, ks, group)))
    decreases |ks|
  {
    if ks != [] {
      var front := ks[..|ks| - 1];
      var k := ks[|ks| - 1];
      assert forall x :: x in front ==> x in ks;
      DistinctFront(ks);
      GroupDuplicatesDistinct(dups, front, group);
      GroupDuplicatesUnderSpec(dups, front, group);
      var before := GroupDuplicatesUnder(dups, front, group);
      var scoped := InGroupOnly(dups.entries[k], group);
      if |scoped| > 1 {
        KeysOfSnoc(before, GroupDuplicate(k, scoped));
        DistinctSnoc(KeysOf(before), k);
      }
    }
  }

  /**
   * Over the registry's table: a habit key is reported exactly when more than one of its
   * records is in the group, once, with those records.
   */
  lemma {:induction false} GroupDuplicatesOfTable(t: Registry.Table, group: string)
    requires Registry.TableValid(t)
    ensures Registry.Duplicates(t).Valid()
    ensures var r := CollectGroupDuplicates(Registry.Duplicates(t), group);
      && Distinct(KeysOf(r))
      && (forall k :: k in KeysOf(r) <==>
            k in t.entries && |InGroupOnly(Registry.InnerRecords(t.entries[k]), group)| > 1)
      && (forall i :: 0 <= i < |r| ==>
            r[i].records == InGroupOnly(Registry.InnerRecords(t.entries[r[i].habitKey]), group))
  {
    var dups := Registry.Duplicates(t);
    Registry.DuplicatesSpec(t);
    GroupDuplicatesUnderSpec(dups, dups.keys, group);
    GroupDuplicatesDistinct(dups, dups.keys, group);
    forall k | k in t.entries && |InGroupOnly(Registry.InnerRecords(t.entries[k]), group)| > 1
      ensures k in dups.entries
    {
      assert t.entries[k].Valid();
    }
  }

  /** The count of records with a live streak. */
  function ActiveCount(records: seq<Registry.Record>): (n: nat)
    ensures n <= |records|
    decreases |records|
  {
    if records == [] then 0
    else ActiveCount(records[..|records| - 1]) + (if records[|records| - 1].stats.streak > 0 then 1 else 0)
  }

  /** All records are active exactly when each has a live streak, and none exactly when none has. */
  lemma {:induction false} ActiveCountSpec(records: seq<Registry.Record>)
    ensures ActiveCount(records) == |records| <==> forall i :: 0 <= i < |records| ==> records[i].stats.streak > 0
    ensures ActiveCount(records) == 0 <==> forall i :: 0 <= i < |records| ==> records[i].stats.streak == 0
    decreases |records|
  {
    if records != [] {
      var front := records[..|records| - 1];
      ActiveCountSpec(front);
      assert forall i :: 0 <= i < |front| ==> front[i] == records[i];
    }
  }

  /** The group summary `active/total`. */
  function GroupSummary(records: seq<Registry.Record>): string {
    NatToString(ActiveCount(records)) + "/" + NatToString(|records|)
  }

  // ---------------------------------------------------------------------
  // The plugin's fields
  // ---------------------------------------------------------------------

  /** The fields of the plugin object that the logic above updates in place. */
  class HabitButtonPlugin {
    var stalePaths: set<string>
    var groupScanCache: map<string, set<string>>
    var anonymousSourceCounter: nat
    /** The anonymous paths handed out so far. */
    ghost var issued: set<string>
    /** `this.registry` and `this.events`. */
    const registry: Registry.HabitRegistry
    const events: EventBus.HabitEventBus

    function Cache(): ScanCache
      reads this
    {
      ScanCache(stalePaths, groupScanCache)
    }

    ghost predicate Valid()
      reads this
    {
      && CacheValid(Cache())
      && forall p :: p in issued ==> IssuedBy(p, anonymousSourceCounter)
    }

    constructor()
      ensures Valid()
      ensures stalePaths == {} && groupScanCache == map[] && anonymousSourceCounter == 0 && issued == {}
      ensures fresh(registry) && registry.Valid() && registry.records == Empty()
      ensures fresh(events) && events.Valid() && events.groupListeners == Empty()
    {
      stalePaths := {};
      groupScanCache := map[];
      anonymousSourceCounter := 0;
      issued := {};
      registry := new Registry.HabitRegistry();
      events := new EventBus.HabitEventBus();
    }

    /** `markPathStale`. */
    method MarkPathStale(path: string)
      requires Valid()
      modifies this
      ensures Valid()
      ensures Cache() == MarkStale(old(Cache()), path)
      ensures anonymousSourceCounter == old(anonymousSourceCounter) && issued == old(issued)
    {
      MarkStaleValid(Cache(), path);
      if path == "" {
        return;
      }
      stalePaths := stalePaths + {path};
      groupScanCache := groupScanCache - {path};
    }

    /** `shouldScanPath`. */
    function ShouldScanPath(path: string, normalizedGroup: string, force: bool): bool
      reads this
    {
      ShouldScan(Cache(), path, normalizedGroup, force)
    }

    /** `markGroupScanFresh`. */
    method MarkGroupScanFresh(path: string, normalizedGroup: string)
      requires Valid()
      modifies this
      ensures Valid()
      ensures Cache() == MarkFresh(old(Cache()), path, normalizedGroup)
      ensures anonymousSourceCounter == old(anonymousSourceCounter) && issued == old(issued)
    {
      MarkFreshValid(Cache(), path, normalizedGroup);
      var groups := if path in groupScanCache then groupScanCache[path] else {};
      groupScanCache := groupScanCache[path := groups + {normalizedGroup}];
      stalePaths := stalePaths - {path};
    }

    /**
     * `resolveSourcePath`: a blank candidate gets the next anonymous path, one never
     * handed out before.
     */
    method ResolveSourcePath(candidate: Option<string>) returns (path: string)
      requires Valid()
      modifies this
      ensures Valid()
      ensures (path, anonymousSourceCounter) == SourcePathOf(candidate, old(anonymousSourceCounter))
      ensures Cache() == old(Cache())
      ensures candidate.None? || Trim(candidate.value) == "" ==> path !in old(issued) && issued == old(issued) + {path}
      ensures candidate.Some? && Trim(candidate.value) != "" ==> issued == old(issued)
    {
      if candidate.Some? {
        var trimmed := Trim(candidate.value);
        if trimmed != "" {
          return trimmed;
        }
      }
      SourcePathSpec(candidate, anonymousSourceCounter);
      anonymousSourceCounter := anonymousSourceCounter + 1;
      path := AnonymousPath(anonymousSourceCounter);
      forall p | p in issued ensures IssuedBy(p, anonymousSourceCounter) {
        var n: nat :| 1 <= n <= anonymousSourceCounter - 1 && p == AnonymousPath(n);
      }
      issued := issued + {path};
    }

    /**
     * `logHabitEntry` without the vault: the existing daily note, if any, and the template
     * text (empty when there is none or it cannot be read) are given, with the instant `now`
     * and its wall-clock reading; the note's path and new text are returned with the instant,
     * which lies in the note's day, and the note is marked stale.
     */
    method LogHabitEntry(options: Resolved, existing: Option<string>, template: string,
                         now: int, day: HS.Day, hours: int, minutes: int)
      returns (path: string, content: string, timestamp: int)
      requires Valid()
      requires HS.ReadsAs(now, day, hours, minutes)
      modifies this
      ensures Valid()
      ensures timestamp == now && HS.OnDay(timestamp, day)
      ensures path == DailyNotePath(options.dailyFolder, day.y, day.mo, day.d)
      ensures content == LoggedContent(existing, template, LogLine(options.habitTag, hours, minutes))
      ensures Cache() == MarkStale(old(Cache()), path)
      ensures anonymousSourceCounter == old(anonymousSourceCounter) && issued == old(issued)
    {
      var folder := TrimSlashes(options.dailyFolder);
      path := NotePathIn(folder, IsoOf(day.y, day.mo, day.d));
      var habitLine := LogLine(options.habitTag, hours, minutes);
      if existing.None? {
        var templateContent := template;
        if templateContent != "" {
          templateContent := EnsureTrailingNewline(templateContent);
        }
        content := templateContent + habitLine;
      } else {
        content := existing.value + habitLine;
      }
      MarkPathStale(path);
      HS.ReadingOnDay(now, day, hours, minutes);
      timestamp := now;
    }

    /**
     * `onunload` without the styles: the registry, the counter, the event bus and the
     * caches are cleared, so the counter starts again from zero.
     */
    method Unload()
      modifies this, registry, events
      ensures Valid()
      ensures stalePaths == {} && groupScanCache == map[] && anonymousSourceCounter == 0 && issued == {}
      ensures registry.Valid() && registry.records == Empty()
      ensures events.Valid() && events.groupListeners == Empty()
    {
      registry.Clear();
      anonymousSourceCounter := 0;
      events.Clear();
      stalePaths := {};
      groupScanCache := map[];
      issued := {};
    }
  }
}
