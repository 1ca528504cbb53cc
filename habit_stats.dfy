/**
 * The stats collector (plugin/src/habit-core.ts:332-423): every daily note in the
 * configured folder is named after its day; each occurrence of the habit's tag in it
 * is a mark on that day at the logged time (midnight when none). The marks are
 * tallied per day (count, presence, latest time), and the latest times give the
 * last timestamp and the streak.
 */
module HabitStats {
  import opened Wrappers
  import opened HabitText
  import opened HabitOptions
  import opened OrderedMaps
  import opened TagScanner
  import opened Streaks

  const MS_PER_MINUTE: int := 60000
  const MS_PER_HOUR: int := 3600000
  const MS_PER_DAY: int := 86400000

  /** A calendar day as `parseDailyNoteName` returns it. */
  datatype Day = Day(y: int, mo: int, d: int)

  /** The number of days from 1970-01-01 to a date of the proleptic Gregorian calendar. */
  function DaysFromCivil(y: int, m: int, d: int): int {
    var yy := if m <= 2 then y - 1 else y;
    var era := yy / 400;
    var yoe := yy - era * 400;
    var mp := if m > 2 then m - 3 else m + 9;
    var doy := (153 * mp + 2) / 5 + d - 1;
    var doe := yoe * 365 + yoe / 4 - yoe / 100 + doy;
    era * 146097 + doe - 719468
  }

  /** The full year `new Date(y, …)` takes: a year from 0 to 99 counts from 1900. */
  function DateYear(y: int): int {
    if 0 <= y <= 99 then 1900 + y else y
  }

  /** `makeLocalDate(y, mo, d, hh, mm).getTime()`, with local time taken as UTC. */
  function LocalTimestamp(day: Day, hours: int, minutes: int): int {
    DaysFromCivil(DateYear(day.y), day.mo, day.d) * MS_PER_DAY + hours * MS_PER_HOUR + minutes * MS_PER_MINUTE
  }

  /** A note dated in the years 0 to 99 is timestamped in the twentieth century, as `new Date` reads it. */
  lemma {:induction false} TwoDigitYears(day: Day, hours: int, minutes: int)
    requires 0 <= day.y <= 99
    ensures LocalTimestamp(day, hours, minutes) == LocalTimestamp(Day(day.y + 1900, day.mo, day.d), hours, minutes)
  {
  }

  /** The epoch is day zero, and a later time of the same day is a later timestamp. */
  lemma {:induction false} LocalTimestampFacts(day: Day, h1: int, m1: int, h2: int, m2: int)
    ensures DaysFromCivil(1970, 1, 1) == 0
    ensures h1 * 60 + m1 <= h2 * 60 + m2 ==> LocalTimestamp(day, h1, m1) <= LocalTimestamp(day, h2, m2)
    ensures LocalTimestamp(Day(day.y, day.mo, day.d + 1), h1, m1) == LocalTimestamp(day, h1, m1) + MS_PER_DAY
  {
  }

  /** The wall-clock reading of the instant `ts`: it lies in the minute `hours:minutes` of `day`. */
  predicate ReadsAs(ts: int, day: Day, hours: int, minutes: int) {
    && 0 <= hours < 24 && 0 <= minutes < 60
    && LocalTimestamp(day, hours, minutes) <= ts < LocalTimestamp(day, hours, minutes) + MS_PER_MINUTE
  }

  /** The instant `ts` lies in the local day `day`. */
  predicate OnDay(ts: int, day: Day) {
    LocalTimestamp(day, 0, 0) <= ts < LocalTimestamp(day, 0, 0) + MS_PER_DAY
  }

  /** An instant read as a minute of a day lies in that day. */
  lemma {:induction false} ReadingOnDay(ts: int, day: Day, hours: int, minutes: int)
    requires ReadsAs(ts, day, hours, minutes)
    ensures OnDay(ts, day)
  {
    assert hours * MS_PER_HOUR + minutes * MS_PER_MINUTE + MS_PER_MINUTE <= MS_PER_DAY;
  }

  /** One instant has one reading within a day: its hour and minute are determined. */
  lemma {:induction false} ReadingUnique(ts: int, day: Day, h1: int, m1: int, h2: int, m2: int)
    requires ReadsAs(ts, day, h1, m1) && ReadsAs(ts, day, h2, m2)
    ensures h1 == h2 && m1 == m2
  {
    var a, b := h1 * 60 + m1, h2 * 60 + m2;
    assert LocalTimestamp(day, h1, m1) == LocalTimestamp(day, 0, 0) + a * MS_PER_MINUTE;
    assert LocalTimestamp(day, h2, m2) == LocalTimestamp(day, 0, 0) + b * MS_PER_MINUTE;
    assert a == b;
    assert h1 == a / 60 && h2 == b / 60;
  }

  // ---------------------------------------------------------------------
  // The per-day tally
  // ---------------------------------------------------------------------

  /** One occurrence that counts: its day's ISO date and its timestamp. */
  datatype Mark = Mark(iso: string, ts: int)

  /** `countsByISO`, `hasByISO` and `lastTsByISO` while they are filled. */
  datatype Tally = Tally(counts: map<string, nat>, has: set<string>, last: OMap<string, int>)

  function EmptyTally(): (t: Tally)
    ensures t.counts == map[] && t.has == {} && t.last.entries == map[] && t.last.Valid()
  {
    Tally(map[], {}, Empty())
  }

  /**
   * One mark (plugin/src/habit-core.ts:377-383): its day's count goes up by one, the day
   * is present, and its latest time is replaced when the mark is strictly later.
   */
  function AddMark(t: Tally, m: Mark): (r: Tally) {
    var count := if m.iso in t.counts then t.counts[m.iso] else 0;
    var last :=
      if m.iso !in t.last.entries || m.ts > t.last.entries[m.iso] then t.last.Put(m.iso, m.ts)
      else t.last;
    Tally(t.counts[m.iso := count + 1], t.has + {m.iso}, last)
  }

  /** The tally of the marks in the order they are met. */
  function TallyOf(marks: seq<Mark>): Tally
    decreases |marks|
  {
    if marks == [] then EmptyTally()
    else AddMark(TallyOf(marks[..|marks| - 1]), marks[|marks| - 1])
  }

  lemma TallySnoc(marks: seq<Mark>, m: Mark)
    ensures TallyOf(marks + [m]) == AddMark(TallyOf(marks), m)
  {
    assert (marks + [m])[..|marks|] == marks;
  }

  /** The number of marks on the day `iso`. */
  function CountOf(marks: seq<Mark>, iso: string): nat
    decreases |marks|
  {
    if marks == [] then 0
    else CountOf(marks[..|marks| - 1], iso) + (if marks[|marks| - 1].iso == iso then 1 else 0)
  }

  /** Some mark falls on the day `iso`. */
  predicate Marked(marks: seq<Mark>, iso: string) {
    exists i :: 0 <= i < |marks| && marks[i].iso == iso
  }

  /** The tally's latest-time map is a valid ordered map whose days are the present days. */
  lemma {:induction false} TallyValid(marks: seq<Mark>)
    ensures TallyOf(marks).last.Valid()
    ensures TallyOf(marks).has == TallyOf(marks).counts.Keys
    ensures TallyOf(marks).last.entries.Keys == TallyOf(marks).has
    decreases |marks|
  {
    if marks != [] {
      var front := marks[..|marks| - 1];
      TallyValid(front);
      AddMarkValid(TallyOf(front), marks[|marks| - 1]);
    }
  }

  /** One mark keeps the three day sets equal and the latest-time map valid. */
  lemma {:induction false} AddMarkValid(t: Tally, m: Mark)
    requires t.last.Valid() && t.has == t.counts.Keys && t.last.entries.Keys == t.has
    ensures AddMark(t, m).last.Valid()
    ensures AddMark(t, m).has == AddMark(t, m).counts.Keys
    ensures AddMark(t, m).last.entries.Keys == AddMark(t, m).has
  {
    var r := AddMark(t, m);
    assert r.counts.Keys == t.counts.Keys + {m.iso};
    assert r.last.entries.Keys == t.last.entries.Keys + {m.iso};
  }

  /** A day is present exactly when some mark falls on it. */
  lemma {:induction false} TallyHas(marks: seq<Mark>)
    ensures forall iso :: iso in TallyOf(marks).has <==> Marked(marks, iso)
    decreases |marks|
  {
    if marks != [] {
      var front := marks[..|marks| - 1];
      TallyHas(front);
      forall iso ensures Marked(marks, iso) <==> Marked(front, iso) || marks[|marks| - 1].iso == iso {
        if Marked(front, iso) {
          var i :| 0 <= i < |front| && front[i].iso == iso;
          assert marks[i] == front[i];
        }
        if Marked(marks, iso) && marks[|marks| - 1].iso != iso {
          var i :| 0 <= i < |marks| && marks[i].iso == iso;
          assert front[i] == marks[i];
        }
      }
    }
  }

  /** `countsByISO` holds the number of marks of each present day, and no absent day. */
  lemma {:induction false} TallyCounts(marks: seq<Mark>)
    ensures forall iso :: iso in TallyOf(marks).counts ==> TallyOf(marks).counts[iso] == CountOf(marks, iso)
    ensures forall iso :: iso !in TallyOf(marks).counts ==> CountOf(marks, iso) == 0
    decreases |marks|
  {
    if marks != [] {
      TallyCounts(marks[..|marks| - 1]);
    }
  }

  /** No mark of a present day is later than its recorded latest time. */
  lemma {:induction false} TallyLastUpper(marks: seq<Mark>)
    ensures forall i :: 0 <= i < |marks| ==>
      marks[i].iso in TallyOf(marks).last.entries && marks[i].ts <= TallyOf(marks).last.entries[marks[i].iso]
    decreases |marks|
  {
    if marks != [] {
      var front := marks[..|marks| - 1];
      TallyLastUpper(front);
      forall i | 0 <= i < |marks| - 1
        ensures marks[i].iso in TallyOf(marks).last.entries
        ensures marks[i].ts <= TallyOf(marks).last.entries[marks[i].iso]
      {
        assert marks[i] == front[i];
      }
    }
  }

  /** The recorded latest time of a day is the time of one of its marks. */
  lemma {:induction false} TallyLastAttained(marks: seq<Mark>)
    ensures forall iso :: iso in TallyOf(marks).last.entries ==>
      exists i :: 0 <= i < |marks| && marks[i].iso == iso && marks[i].ts == TallyOf(marks).last.entries[iso]
    decreases |marks|
  {
    if marks != [] {
      var front := marks[..|marks| - 1];
      TallyLastAttained(front);
      var t := TallyOf(marks);
      forall iso | iso in t.last.entries
        ensures exists i :: 0 <= i < |marks| && marks[i].iso == iso && marks[i].ts == t.last.entries[iso]
      {
        var m := marks[|marks| - 1];
        assert t == AddMark(TallyOf(front), m);
        if iso == m.iso && t.last.entries[iso] == m.ts {
          assert marks[|marks| - 1].iso == iso;
        } else {
          assert iso in TallyOf(front).last.entries && t.last.entries[iso] == TallyOf(front).last.entries[iso];
          var i :| 0 <= i < |front| && front[i].iso == iso && front[i].ts == TallyOf(front).last.entries[iso];
          assert marks[i] == front[i];
        }
      }
    }
  }

  // ---------------------------------------------------------------------
  // The notes and their marks
  // ---------------------------------------------------------------------

  /** A markdown file: its vault path, its base name and its cached content. */
  datatype NoteFile = NoteFile(path: string, basename: string, content: string)

  /** What `createStatsContext` passes (plugin/src/main.ts:178-192), without the vault. */
  datatype StatsContext = StatsContext(tagPrefix: string, defaultGracePeriodHours: int, defaultWarningWindowHours: int)

  /** `parseDailyNoteName(name, format)`, which the model takes as given. */
  type DayParser = (string, string) -> Option<Day>

  /** What the collector looks in and for, computed once (plugin/src/habit-core.ts:340-351). */
  datatype Scope = Scope(folder: string, format: string, prefix: string, needle: string)

  function ScopeOf(options: Resolved, context: StatsContext): (s: Scope)
    ensures s.folder == TrimSlashes(options.dailyFolder)
    ensures s.needle == Lower(options.habitKey) && s.prefix == context.tagPrefix
  {
    Scope(TrimSlashes(options.dailyFolder), options.dailyNoteFormat, context.tagPrefix, Lower(options.habitKey))
  }

  /** `s.slice(k)` for a non-negative `k`. */
  function SliceFrom(s: string, k: nat): string {
    if k <= |s| then s[k..] else []
  }

  /** `path.replace(/\.md$/i, "")`. */
  function StripMd(path: string): (r: string)
    ensures |r| == |path| || (|r| == |path| - 3 && r == path[..|path| - 3])
  {
    if |path| >= 3 && Lower(path[|path| - 3..]) == ".md" then path[..|path| - 3] else path
  }

  /** The folder filter: every file when no folder is set, else those under `folder/`. */
  predicate InFolder(path: string, folder: string) {
    folder == [] || StartsWith(path, folder + "/")
  }

  /**
   * The day a note stands for: its path below the folder, without `.md`, read in the
   * note format, and, only when no folder is set, its base name as a second try.
   */
  function FileDay(file: NoteFile, scope: Scope, parseDay: DayParser): Option<Day> {
    var withoutExt := StripMd(file.path);
    var relative := if scope.folder != [] then SliceFrom(withoutExt, |scope.folder| + 1) else withoutExt;
    var day := parseDay(relative, scope.format);
    if day.None? && scope.folder == [] then parseDay(file.basename, scope.format) else day
  }

  /** The mark of an occurrence: its day, at the logged time or `00:00`. */
  function OccurrenceMark(day: Day, occ: Occurrence): (m: Mark)
    ensures m.iso == IsoOf(day.y, day.mo, day.d)
    ensures occ.time.None? ==> m.ts == LocalTimestamp(day, 0, 0)
    ensures occ.time.Some? ==> m.ts == LocalTimestamp(day, occ.time.value.hours, occ.time.value.minutes)
  {
    var clock := occ.time.GetOr(Clock(0, 0));
    Mark(IsoOf(day.y, day.mo, day.d), LocalTimestamp(day, clock.hours, clock.minutes))
  }

  /** The marks of the occurrences whose token, lower-cased, is the habit key. */
  function MatchingMarks(occs: seq<Occurrence>, needle: string, day: Day): (r: seq<Mark>)
    ensures |r| <= |occs|
    decreases |occs|
  {
    if occs == [] then []
    else
      var occ := occs[|occs| - 1];
      MatchingMarks(occs[..|occs| - 1], needle, day)
        + (if Lower(occ.token) == needle then [OccurrenceMark(day, occ)] else [])
  }

  lemma MatchingSnoc(occs: seq<Occurrence>, occ: Occurrence, needle: string, day: Day)
    ensures MatchingMarks(occs + [occ], needle, day)
      == MatchingMarks(occs, needle, day) + (if Lower(occ.token) == needle then [OccurrenceMark(day, occ)] else [])
  {
    assert (occs + [occ])[..|occs|] == occs;
  }

  /** The marks one note contributes. */
  function FileMarks(file: NoteFile, scope: Scope, parseDay: DayParser): seq<Mark> {
    if !InFolder(file.path, scope.folder) then []
    else
      match FileDay(file, scope, parseDay)
      case None => []
      case Some(day) =>
        if file.content == [] then [] else MatchingMarks(Scan(file.content, scope.prefix), scope.needle, day)
  }

  /** The marks of all notes, note by note. */
  function AllMarks(files: seq<NoteFile>, scope: Scope, parseDay: DayParser): seq<Mark>
    decreases |files|
  {
    if files == [] then []
    else AllMarks(files[..|files| - 1], scope, parseDay) + FileMarks(files[|files| - 1], scope, parseDay)
  }

  lemma AllMarksSnoc(files: seq<NoteFile>, f: nat, scope: Scope, parseDay: DayParser)
    requires f < |files|
    ensures AllMarks(files[..f + 1], scope, parseDay) == AllMarks(files[..f], scope, parseDay) + FileMarks(files[f], scope, parseDay)
  {
    assert files[..f + 1][..f] == files[..f];
  }

  // ---------------------------------------------------------------------
  // The stats
  // ---------------------------------------------------------------------

  /** `HabitStats`. */
  datatype HabitStats = HabitStats(
    countsByISO: map<string, nat>,
    hasByISO: set<string>,
    lastTsByISO: OMap<string, int>,
    lastTs: Option<int>,
    streak: nat,
    allowedGapH: int,
    allowedGapMs: int,
    warningWindowHours: int)

  /** The grace period: the block's, at least one hour, or the context default. */
  function BaseThreshold(options: Resolved, context: StatsContext): (h: int)
    ensures options.gracePeriodHours.Some? ==> 1 <= h && options.gracePeriodHours.value <= h
    ensures options.gracePeriodHours.None? ==> h == context.defaultGracePeriodHours
  {
    if options.gracePeriodHours.Some? then MaxInt(1, options.gracePeriodHours.value)
    else context.defaultGracePeriodHours
  }

  /** The warning window, never negative; the resolved window is already a whole number. */
  function WarningWindow(options: Resolved): (h: int)
    ensures 0 <= h && options.warningWindowHours <= h
    ensures options.warningWindowHours >= 0 ==> h == options.warningWindowHours
  {
    MaxInt(0, options.warningWindowHours)
  }

  /** The allowed gap between two days of a streak: the grace period plus the warning window. */
  function AllowedGapH(options: Resolved, context: StatsContext): (h: int)
    ensures h == BaseThreshold(options, context) + WarningWindow(options)
    ensures options.gracePeriodHours.Some? ==> 1 <= h
  {
    BaseThreshold(options, context) + WarningWindow(options)
  }

  /** The stats of a finished tally, for the given thresholds and current time. */
  function StatsOfTally(t: Tally, allowedGapH: int, warningWindow: int, now: int): HabitStats
    requires t.last.Valid()
  {
    var sorted := SortAscending(t.last.Values());
    HabitStats(t.counts, t.has, t.last, LastOf(sorted), Streak(sorted, allowedGapH * MS_PER_HOUR, now),
      allowedGapH, allowedGapH * MS_PER_HOUR, warningWindow)
  }

  /** The stats of a sequence of marks, for the given thresholds and current time. */
  function StatsOf(marks: seq<Mark>, allowedGapH: int, warningWindow: int, now: int): HabitStats {
    TallyValid(marks);
    StatsOfTally(TallyOf(marks), allowedGapH, warningWindow, now)
  }

  /** One step of the match loop on a match at `pos`: the occurrence is scanned and the scan resumes after it. */
  lemma {:induction false} ScanStepMatch(content: string, pos: nat, prefix: string, done: seq<Occurrence>, m: Match,
                                         pos': nat, done': seq<Occurrence>)
    requires pos < |content|
    requires Scan(content, prefix) == done + Scan(content[pos..], prefix)
    requires MatchAt(content[pos..], prefix) == Some(m)
    requires pos' == pos + m.length && done' == done + [m.occ]
    ensures pos' <= |content|
    ensures Scan(content, prefix) == done' + Scan(content[pos'..], prefix)
  {
    DropDrop(content, pos, m.length);
    ScanResume(Scan(content, prefix), done, content[pos..], prefix, m, content[pos'..]);
  }

  /** Where the scan still to do starts with a match, its occurrence is done and the scan resumes after it. */
  lemma {:induction false} ScanResume(whole: seq<Occurrence>, done: seq<Occurrence>, tail: string, prefix: string,
                                      m: Match, rest: string)
    requires whole == done + Scan(tail, prefix)
    requires MatchAt(tail, prefix) == Some(m) && rest == tail[m.length..]
    ensures whole == (done + [m.occ]) + Scan(rest, prefix)
  {
    ScanOnMatch(tail, prefix, m);
    SnocAppend(done, m.occ, Scan(rest, prefix));
  }

  lemma DropDrop(s: string, i: nat, j: nat)
    requires i + j <= |s|
    ensures s[i..][j..] == s[i + j..]
  {
  }

  lemma SnocAppend<T>(s: seq<T>, x: T, rest: seq<T>)
    ensures (s + [x]) + rest == s + ([x] + rest)
  {
  }

  /** One step of the match loop on a miss at `pos`: the scan resumes one character later. */
  lemma {:induction false} ScanStepMiss(content: string, pos: nat, prefix: string, done: seq<Occurrence>)
    requires pos < |content|
    requires Scan(content, prefix) == done + Scan(content[pos..], prefix)
    requires MatchAt(content[pos..], prefix).None?
    ensures Scan(content, prefix) == done + Scan(content[pos + 1..], prefix)
  {
    ScanOnMiss(content[pos..], prefix);
    assert content[pos..][1..] == content[pos + 1..];
  }

  /** The tally after one more occurrence: a mark when its token is the habit key, else nothing. */
  lemma {:induction false} MatchStep(marks: seq<Mark>, done: seq<Occurrence>, occ: Occurrence, needle: string, day: Day)
    ensures TallyOf(marks + MatchingMarks(done + [occ], needle, day))
      == if Lower(occ.token) == needle then AddMark(TallyOf(marks + MatchingMarks(done, needle, day)), OccurrenceMark(day, occ))
         else TallyOf(marks + MatchingMarks(done, needle, day))
  {
    MatchingSnoc(done, occ, needle, day);
    var before := marks + MatchingMarks(done, needle, day);
    if Lower(occ.token) == needle {
      TallySnoc(before, OccurrenceMark(day, occ));
      assert before + [OccurrenceMark(day, occ)] == marks + MatchingMarks(done + [occ], needle, day);
    } else {
      assert before == marks + MatchingMarks(done + [occ], needle, day);
    }
  }

  /** One occurrence met by the loop: counted when its token is the habit key. */
  method CountOccurrence(tally: Tally, occ: Occurrence, needle: string, day: Day,
                         ghost marks: seq<Mark>, ghost done: seq<Occurrence>)
    returns (r: Tally)
    requires tally == TallyOf(marks + MatchingMarks(done, needle, day))
    ensures r == TallyOf(marks + MatchingMarks(done + [occ], needle, day))
  {
    MatchStep(marks, done, occ, needle, day);
    r := tally;
    if Lower(occ.token) == needle {
      var mark := OccurrenceMark(day, occ);
      var counts, has, last := RecordMark(tally.counts, tally.has, tally.last, mark.iso, mark.ts);
      r := Tally(counts, has, last);
    }
  }

  /** The tally after the marks of one note's occurrences, met one `exec` at a time. */
  method TallyNote(content: string, prefix: string, needle: string, day: Day, tally: Tally, ghost marks: seq<Mark>)
    returns (r: Tally)
    requires tally == TallyOf(marks)
    ensures r == TallyOf(marks + MatchingMarks(Scan(content, prefix), needle, day))
  {
    r := tally;
    var pos := 0;
    ghost var done: seq<Occurrence> := [];
    assert marks + MatchingMarks(done, needle, day) == marks;
    assert content[pos..] == content;
    while pos < |content|
      invariant 0 <= pos <= |content|
      invariant Scan(content, prefix) == done + Scan(content[pos..], prefix)
      invariant r == TallyOf(marks + MatchingMarks(done, needle, day))
      decreases |content| - pos
    {
      var found := MatchAt(content[pos..], prefix);
      if found.Some? {
        r := CountOccurrence(r, found.value.occ, needle, day, marks, done);
        ghost var pos0, done0 := pos, done;
        done := done + [found.value.occ];
        pos := pos + found.value.length;
        ScanStepMatch(content, pos0, prefix, done0, found.value, pos, done);
      } else {
        ScanStepMiss(content, pos, prefix, done);
        pos := pos + 1;
      }
    }
    assert content[pos..] == [];
    assert done == Scan(content, prefix);
  }

  /** The three updates of one counted occurrence (plugin/src/habit-core.ts:377-383). */
  method RecordMark(counts: map<string, nat>, has: set<string>, last: OMap<string, int>, iso: string, ts: int)
    returns (counts': map<string, nat>, has': set<string>, last': OMap<string, int>)
    ensures Tally(counts', has', last') == AddMark(Tally(counts, has, last), Mark(iso, ts))
  {
    counts' := counts[iso := (if iso in counts then counts[iso] else 0) + 1];
    has' := has + {iso};
    last' := last;
    if iso !in last.entries || ts > last.entries[iso] {
      last' := last.Put(iso, ts);
    }
  }

  /** One note: skipped outside the folder, without a day or when empty, else read for marks. */
  method TallyFile(file: NoteFile, scope: Scope, parseDay: DayParser, tally: Tally, ghost marks: seq<Mark>)
    returns (r: Tally)
    requires tally == TallyOf(marks)
    ensures r == TallyOf(marks + FileMarks(file, scope, parseDay))
  {
    r := tally;
    assert marks + [] == marks;
    if InFolder(file.path, scope.folder) {
      var day := FileDay(file, scope, parseDay);
      if day.Some? && file.content != [] {
        r := TallyNote(file.content, scope.prefix, scope.needle, day.value, tally, marks);
      }
    }
  }

  /**
   * `collectHabitStats`: the notes in the daily folder, each read for occurrences of the
   * habit's tag; the result is the stats of all their marks.
   */
  method CollectHabitStats(files: seq<NoteFile>, options: Resolved, context: StatsContext, parseDay: DayParser, now: int)
    returns (stats: HabitStats)
    ensures stats == StatsOf(AllMarks(files, ScopeOf(options, context), parseDay),
      AllowedGapH(options, context), WarningWindow(options), now)
  {
    var scope := ScopeOf(options, context);
    var tally := TallyFiles(files, scope, parseDay);
    ghost var marks := AllMarks(files, scope, parseDay);
    TallyValid(marks);
    var baseThreshold := BaseThreshold(options, context);
    var warningWindow := WarningWindow(options);
    stats := FinishStats(tally, baseThreshold, warningWindow, now);
    assert baseThreshold + warningWindow == AllowedGapH(options, context);
    assert stats == StatsOf(marks, baseThreshold + warningWindow, warningWindow, now);
  }

  /** The loop over the notes: the tally of all their marks. */
  method TallyFiles(files: seq<NoteFile>, scope: Scope, parseDay: DayParser) returns (tally: Tally)
    ensures tally == TallyOf(AllMarks(files, scope, parseDay))
  {
    tally := EmptyTally();
    ghost var marks: seq<Mark> := [];
    var f := 0;
    while f < |files|
      invariant 0 <= f <= |files|
      invariant marks == AllMarks(files[..f], scope, parseDay)
      invariant tally == TallyOf(marks)
    {
      AllMarksSnoc(files, f, scope, parseDay);
      tally := TallyFile(files[f], scope, parseDay, tally, marks);
      marks := marks + FileMarks(files[f], scope, parseDay);
      f := f + 1;
    }
    assert files[..f] == files;
  }

  /** The thresholds, the sorted latest day times, the last timestamp and the streak. */
  method FinishStats(tally: Tally, baseThreshold: int, warningWindow: int, now: int) returns (stats: HabitStats)
    requires tally.last.Valid()
    ensures stats == StatsOfTally(tally, baseThreshold + warningWindow, warningWindow, now)
  {
    var allowedGapH := baseThreshold + warningWindow;
    var allowedGapMs := allowedGapH * MS_PER_HOUR;
    var dayTimestamps := SortAscending(tally.last.Values());
    var lastTs := if |dayTimestamps| > 0 then Some(dayTimestamps[|dayTimestamps| - 1]) else None;
    var streak := ComputeStreakByDays(dayTimestamps, allowedGapMs, now);
    stats := HabitStats(tally.counts, tally.has, tally.last, lastTs, streak, allowedGapH, allowedGapMs, warningWindow);
  }

  // ---------------------------------------------------------------------
  // What the stats say
  // ---------------------------------------------------------------------

  /**
   * The per-day maps agree: the present days are the days with marks, each with its
   * number of marks; the latest-time map has the same days.
   */
  lemma {:induction false} StatsDays(marks: seq<Mark>, allowedGapH: int, warningWindow: int, now: int)
    ensures var s := StatsOf(marks, allowedGapH, warningWindow, now);
      && s.hasByISO == s.countsByISO.Keys
      && s.lastTsByISO.entries.Keys == s.hasByISO
      && s.lastTsByISO.Valid()
    ensures var s := StatsOf(marks, allowedGapH, warningWindow, now);
      forall iso :: iso in s.hasByISO <==> Marked(marks, iso)
    ensures var s := StatsOf(marks, allowedGapH, warningWindow, now);
      forall iso :: iso in s.countsByISO ==> s.countsByISO[iso] == CountOf(marks, iso)
  {
    TallyValid(marks);
    TallyHas(marks);
    TallyCounts(marks);
  }

  /** The last timestamp is the latest mark of all, and there is one exactly when there are marks. */
  lemma {:induction false} StatsLastTs(marks: seq<Mark>, allowedGapH: int, warningWindow: int, now: int)
    ensures StatsOf(marks, allowedGapH, warningWindow, now).lastTs.None? <==> marks == []
    ensures var last := StatsOf(marks, allowedGapH, warningWindow, now).lastTs;
      last.Some? ==>
        && (forall i :: 0 <= i < |marks| ==> marks[i].ts <= last.value)
        && (exists i :: 0 <= i < |marks| && marks[i].ts == last.value)
  {
    TallyValid(marks);
    TallyLastUpper(marks);
    TallyLastAttained(marks);
    var t := TallyOf(marks);
    assert StatsOf(marks, allowedGapH, warningWindow, now).lastTs == LastOf(SortAscending(t.last.Values()));
    LatestOfTally(t, marks);
  }

  /** The latest of the days' latest times is the latest mark, for any tally bounded and attained by the marks. */
  lemma {:induction false} LatestOfTally(t: Tally, marks: seq<Mark>)
    requires t.last.Valid()
    requires forall i :: 0 <= i < |marks| ==>
      marks[i].iso in t.last.entries && marks[i].ts <= t.last.entries[marks[i].iso]
    requires forall iso :: iso in t.last.entries ==>
      exists i :: 0 <= i < |marks| && marks[i].iso == iso && marks[i].ts == t.last.entries[iso]
    ensures LastOf(SortAscending(t.last.Values())).None? <==> marks == []
    ensures var last := LastOf(SortAscending(t.last.Values()));
      last.Some? ==>
        && (forall i :: 0 <= i < |marks| ==> marks[i].ts <= last.value)
        && (exists i :: 0 <= i < |marks| && marks[i].ts == last.value)
  {
    var vs := t.last.Values();
    LastOfSortedIsMax(vs);
    var last := LastOf(SortAscending(vs));
    if marks == [] {
      assert t.last.entries.Keys == {};
    } else {
      assert marks[0].iso in t.last.entries;
      var k :| 0 <= k < |t.last.keys| && t.last.keys[k] == marks[0].iso;
      assert vs[k] in vs;
      forall i | 0 <= i < |marks| ensures marks[i].ts <= last.value {
        var j :| 0 <= j < |t.last.keys| && t.last.keys[j] == marks[i].iso;
        assert vs[j] in vs;
      }
      var top := last.value;
      var j :| 0 <= j < |vs| && vs[j] == top;
      var iso := t.last.keys[j];
      assert iso in t.last.entries && vs[j] == t.last.entries[iso];
      assert exists i :: 0 <= i < |marks| && marks[i].iso == iso && marks[i].ts == t.last.entries[iso];
    }
  }

  /** The streak is the streak of the sorted latest day times, and never more than the present days. */
  lemma {:induction false} StatsStreak(marks: seq<Mark>, allowedGapH: int, warningWindow: int, now: int)
    ensures StatsOf(marks, allowedGapH, warningWindow, now).streak <= |StatsOf(marks, allowedGapH, warningWindow, now).hasByISO|
    ensures StatsOf(marks, allowedGapH, warningWindow, now).allowedGapMs == allowedGapH * MS_PER_HOUR
  {
    TallyValid(marks);
    var t := TallyOf(marks);
    var sorted := SortAscending(t.last.Values());
    StreakBounds(sorted, allowedGapH * MS_PER_HOUR, now);
    SizeIsCardinality(t.last);
  }

  /** `cloneHabitStats`: a copy holding the same counts, days, times and thresholds. */
  function CloneHabitStats(stats: HabitStats): (r: HabitStats)
    ensures r == stats
  {
    HabitStats(stats.countsByISO, stats.hasByISO, OMap(stats.lastTsByISO.keys, stats.lastTsByISO.entries),
      stats.lastTs, stats.streak, stats.allowedGapH, stats.allowedGapMs, stats.warningWindowHours)
  }

  // ---------------------------------------------------------------------
  // A click
  // ---------------------------------------------------------------------

  /**
   * The stats update after a logged click (plugin/src/main.ts:389-400): the day's count
   * goes up, the day is present, its latest time becomes the click's time
   * unconditionally, and the last timestamp and the streak are recomputed.
   */
  function ClickedStats(stats: HabitStats, iso: string, ts: int, now: int): (r: HabitStats)
    requires stats.lastTsByISO.Valid()
    ensures r.countsByISO.Keys == stats.countsByISO.Keys + {iso}
    ensures r.hasByISO == stats.hasByISO + {iso}
    ensures r.lastTsByISO.Valid() && r.lastTsByISO.entries == stats.lastTsByISO.entries[iso := ts]
    ensures r.allowedGapMs == stats.allowedGapMs && r.allowedGapH == stats.allowedGapH
  {
    var count := if iso in stats.countsByISO then stats.countsByISO[iso] else 0;
    var last := stats.lastTsByISO.Put(iso, ts);
    var sorted := SortAscending(last.Values());
    stats.(countsByISO := stats.countsByISO[iso := count + 1], hasByISO := stats.hasByISO + {iso},
      lastTsByISO := last, lastTs := LastOf(sorted), streak := Streak(sorted, stats.allowedGapMs, now))
  }

  /** A click no earlier than its day's latest time updates that time as a mark does. */
  lemma {:induction false} ClickIsAddMark(t: Tally, m: Mark)
    requires t.last.Valid()
    requires m.iso in t.last.entries ==> t.last.entries[m.iso] <= m.ts
    ensures AddMark(t, m).last == t.last.Put(m.iso, m.ts)
  {
    if m.iso in t.last.entries && m.ts == t.last.entries[m.iso] {
      assert t.last.entries[m.iso := m.ts] == t.last.entries;
    }
  }

  /** The tally after such a click, field by field. */
  lemma {:induction false} AddLatestMark(t: Tally, m: Mark)
    requires t.last.Valid()
    requires m.iso in t.last.entries ==> t.last.entries[m.iso] <= m.ts
    ensures AddMark(t, m) ==
      Tally(t.counts[m.iso := (if m.iso in t.counts then t.counts[m.iso] else 0) + 1], t.has + {m.iso},
        t.last.Put(m.iso, m.ts))
  {
    ClickIsAddMark(t, m);
  }

  /** The click update on the stats of a tally, as the stats of the updated fields. */
  lemma {:induction false} ClickedTally(t: Tally, iso: string, ts: int, allowedGapH: int, warningWindow: int,
                                        now0: int, now: int)
    requires t.last.Valid()
    ensures t.last.Put(iso, ts).Valid()
    ensures ClickedStats(StatsOfTally(t, allowedGapH, warningWindow, now0), iso, ts, now)
      == StatsOfTally(Tally(t.counts[iso := (if iso in t.counts then t.counts[iso] else 0) + 1], t.has + {iso},
           t.last.Put(iso, ts)), allowedGapH, warningWindow, now)
  {
    var before := StatsOfTally(t, allowedGapH, warningWindow, now0);
    assert before.countsByISO == t.counts && before.hasByISO == t.has && before.lastTsByISO == t.last;
    assert before.allowedGapMs == allowedGapH * MS_PER_HOUR && before.allowedGapH == allowedGapH;
    assert before.warningWindowHours == warningWindow;
  }

  /** The click update on the stats of a tally is the stats of the tally with the mark added. */
  lemma {:induction false} ClickOnTally(t: Tally, m: Mark, allowedGapH: int, warningWindow: int, now0: int, now: int)
    requires t.last.Valid()
    requires m.iso in t.last.entries ==> t.last.entries[m.iso] <= m.ts
    ensures AddMark(t, m).last.Valid()
    ensures ClickedStats(StatsOfTally(t, allowedGapH, warningWindow, now0), m.iso, m.ts, now)
      == StatsOfTally(AddMark(t, m), allowedGapH, warningWindow, now)
  {
    var count := if m.iso in t.counts then t.counts[m.iso] else 0;
    var added := Tally(t.counts[m.iso := count + 1], t.has + {m.iso}, t.last.Put(m.iso, m.ts));
    AddLatestMark(t, m);
    assert AddMark(t, m) == added;
    calc {
      ClickedStats(StatsOfTally(t, allowedGapH, warningWindow, now0), m.iso, m.ts, now);
    == { ClickedTally(t, m.iso, m.ts, allowedGapH, warningWindow, now0, now); }
      StatsOfTally(added, allowedGapH, warningWindow, now);
    }
  }

  /**
   * A click that is no earlier than every mark of its day leaves the stats exactly as
   * collecting them again with the click's mark added would.
   */
  lemma {:induction false} ClickAgreesWithRecount(marks: seq<Mark>, allowedGapH: int, warningWindow: int,
                                                    m: Mark, now0: int, now: int)
    requires forall i :: 0 <= i < |marks| && marks[i].iso == m.iso ==> marks[i].ts <= m.ts
    ensures StatsOf(marks, allowedGapH, warningWindow, now0).lastTsByISO.Valid()
    ensures ClickedStats(StatsOf(marks, allowedGapH, warningWindow, now0), m.iso, m.ts, now)
      == StatsOf(marks + [m], allowedGapH, warningWindow, now)
  {
    TallyValid(marks);
    TallySnoc(marks, m);
    TallyLastAttained(marks);
    var t := TallyOf(marks);
    if m.iso in t.last.entries {
      var i :| 0 <= i < |marks| && marks[i].iso == m.iso && marks[i].ts == t.last.entries[m.iso];
    }
    ClickOnTally(t, m, allowedGapH, warningWindow, now0, now);
  }

  /**
   * A click earlier than a mark already counted on its day (a time written by hand later in
   * the day) sets the day's latest time back, where collecting again keeps the later mark.
   */
  lemma {:induction false} ClickCanSetLatestBack(iso: string, ts: int, later: int, allowedGapH: int,
                                                   warningWindow: int, now: int)
    requires ts < later
    ensures var before := StatsOf([Mark(iso, later)], allowedGapH, warningWindow, now);
      && before.lastTsByISO.Valid()
      && ClickedStats(before, iso, ts, now).lastTsByISO.entries[iso] == ts
      && StatsOf([Mark(iso, later), Mark(iso, ts)], allowedGapH, warningWindow, now).lastTsByISO.entries[iso] == later
  {
    var a, b := Mark(iso, later), Mark(iso, ts);
    TallyValid([a]);
    TallyValid([a, b]);
    TallySnoc([a], b);
    TallySnoc([], a);
    assert [] + [a] == [a] && [a] + [b] == [a, b];
  }
}
