# Habit tracking plugin core, modelled in Dafny

This project models the logic of an Obsidian plugin that tracks habits.

- Each `habit-button` block resolves its options from the block's fields and the plugin settings.
- The stats collector reads every daily note and counts the tags `#<prefix>_<habitKey>`, each with an optional `HH:MM`.
- From those counts it derives the per-day counts, the last mark of each day, the latest mark and the current streak.
- A click appends a log line to today's note and updates the card's stats in place.
- A registry keeps one record per (habit key, source note).
- An event bus tells `habit-group` blocks when a record of their group changes.
- A group block lists its habits, reports duplicates and shows how many habits are active.
- Messages come from per-locale templates with `${n}` placeholders.

The model has one module per concern:

| module | file | source |
|---|---|---|
| `Wrappers` | wrappers.dfy | `Option` |
| `HabitText` | habit_text.dfy | the string helpers of `plugin/src/habit-core.ts` |
| `OrderedMaps` | ordered_maps.dfy | JavaScript `Map`/`Set` with insertion order |
| `HabitOptions` | habit_options.dfy | `clampPositive`, `normalizeDailyNoteFormat`, `resolveHabitOptions` |
| `TagScanner` | tag_scanner.dfy | the collector's regular expression, and the log line a click writes |
| `Streaks` | streaks.dfy | `sortDatesAscending`, `computeStreakByDays` |
| `HabitStats` | habit_stats.dfy | `collectHabitStats`, `cloneHabitStats`, the click's stats update |
| `Registry` | habit_registry.dfy | `plugin/src/habit-registry.ts` (class `HabitRegistry`) |
| `EventBus` | habit_event_bus.dfy | `plugin/src/habit-event-bus.ts` (class `HabitEventBus`) |
| `Controller` | plugin_controller.dfy | the non-rendering logic of `plugin/src/main.ts` (classes `HabitButtonPlugin` and `HabitCard`) |
| `I18n` | i18n.dfy | `plugin/src/i18n.ts` (class `Localization`) |

How the model is built:

- Code that updates state in place is a class whose methods carry `modifies` clauses:
  - the registry's table;
  - the bus's listener map;
  - the plugin's scan cache and anonymous counter;
  - a card's stats;
  - the current locale.
- Each such method is proved equal to a function of the old state. Lemmas about that function state what the source promises.
- Loops in the source are `while` loops with invariants. This covers:
  - the collector's file, match and mark loops;
  - the streak's backward loop;
  - the registry's getters and prune;
  - the emit loop;
  - the group-locations set.
- Timestamps are whole milliseconds.
- "Now" is a parameter.
- Each note's calendar day is an input, given by a day parser the caller supplies.

Where the code and its tests disagree, the model follows the code.

- `plugin/tests/locale-refresh.test.ts:26-35` expects an explicit locale `ua` to become current. The locale table (`plugin/src/i18n.ts:4-7`) only has `en` and `ru`, so `resolveLocale` returns `en` (`I18n.ResolveUnsupportedPreference`).

Some source behaviours the model exposes as lemmas:

- The click update writes the click's timestamp as the day's last mark even when a note of that day already holds a later time (`HabitStats.ClickCanSetLatestBack`). A recount keeps the later one.
  - The two agree whenever the click is the day's latest mark (`HabitStats.ClickAgreesWithRecount`).
- A habit whose title has no key character has the key "". The line it logs, `#<prefix>_ HH:MM`, is never counted back (`TagScanner.EmptyKeyLineNotRematched`).

## Model

| member | source | states |
|---|---|---|
| HabitText.Lower | plugin/src/habit-core.ts:200 | within the modelled ASCII and Cyrillic case mapping, `toLowerCase` keeps the length and lowers each character; key characters are unchanged |
| HabitText.LowerIdempotent | plugin/src/habit-core.ts:200 | lower-casing twice is lower-casing once |
| HabitText.CollapseRunsNoAdjacent | plugin/src/habit-core.ts:204 | after `/_+/g` → `_`, no two adjacent characters are both `_` |
| HabitText.CollapseRunsIdentity | plugin/src/habit-core.ts:204 | a string with no run to collapse is left as it is |
| HabitText.TrimBy | plugin/src/habit-core.ts:205 | stripping both ends leaves an infix of the input that neither starts nor ends with a stripped character |
| HabitText.ToHabitKey | plugin/src/habit-core.ts:199-206 | the key has only `[a-zа-яё0-9_]`, no `_` at either end and no `__` |
| HabitText.ToHabitKeyFixesKeys | plugin/src/habit-core.ts:199-206 | every string of that shape is its own key |
| HabitText.ToHabitKeyIdempotent | plugin/src/habit-core.ts:199-206 | `toHabitKey(toHabitKey(v)) == toHabitKey(v)` |
| HabitText.ToHabitKeyIgnoresCase | plugin/src/habit-core.ts:200 | the key does not depend on letter case |
| HabitText.ToHabitKeyTwoWords | plugin/src/habit-core.ts:201-202 | two words joined by a whitespace character become the words joined by `_` |
| HabitText.MorningStretchKey | plugin/src/habit-core.ts:199-206 | "Morning Stretch" has the key "morning_stretch" |
| HabitText.NormalizeTagPrefix | plugin/src/habit-core.ts:183-191 | the prefix is never empty and has the key shape; a blank input gives "habit" |
| HabitText.NormalizeTagPrefixFixesKeys | plugin/src/habit-core.ts:183-191 | a non-empty prefix that is already normal is kept |
| HabitText.NormalizeTagPrefixTwoWords | plugin/src/habit-core.ts:186-189 | a disallowed character between two words becomes `_` |
| HabitText.SanitizedKeyKept | plugin/src/habit-core.ts:186-189 | when replacing the disallowed characters already gives a key, collapsing and trimming change nothing |
| HabitText.RitualPrefix | plugin/src/habit-core.ts:183-191 | "  R!it-Ual  " is normalised to "r_it_ual" |
| HabitText.SanitizeChars | plugin/src/habit-core.ts:187 | every character outside the key class becomes `_`; the length is kept; a string of key characters is unchanged |
| HabitText.SanitizePrefix | plugin/src/habit-core.ts:186-190 | replacing, collapsing and trimming `_` always yields the key shape |
| HabitText.TrimSlashes | plugin/src/habit-core.ts:166-168 | no `/` is left at either end; the result is an infix of the path; a path with no slash at its ends is unchanged |
| HabitText.TrimSlashesIdempotent | plugin/src/habit-core.ts:166-168 | trimming slashes twice is trimming once |
| HabitText.EnsureTrailingNewline | plugin/src/habit-core.ts:161-164 | the result ends in "\n" and extends the input by at most that character; a string already ending in "\n" is unchanged |
| HabitText.EnsureTrailingNewlineIdempotent | plugin/src/habit-core.ts:161-164 | applying it twice is applying it once |
| HabitText.NormalizeWhitespace | plugin/src/habit-core.ts:170-172 | only single spaces remain as whitespace, none at the ends; the result is empty exactly when the input is all whitespace |
| HabitText.TrimBlankIffAllSpace | plugin/src/habit-core.ts:170-172 | `trim()` is empty exactly when every character is whitespace |
| HabitText.NormalizeWhitespaceIdempotent | plugin/src/habit-core.ts:170-172 | normalising twice is normalising once |
| HabitText.CapitalizeFirst | plugin/src/habit-core.ts:174-177 | the length is kept, the first character is upper-cased and the rest is unchanged |
| HabitText.NatToString | plugin/src/habit-core.ts:153-155 | `String(n)` of a natural number is one or more digits, one exactly below 10 and two exactly from 10 to 99 |
| HabitText.IntToString | plugin/src/habit-core.ts:153-155 | `String(n)` is non-empty, all digits for `n >= 0` and starts with `-` below 0 |
| HabitText.NatToStringRoundTrip | plugin/src/habit-core.ts:153-155 | the decimal digits of `String(n)` read back as `n` |
| HabitText.IntToStringInjective | plugin/src/habit-core.ts:153-155 | different integers print differently |
| HabitText.Pad2 | plugin/src/habit-core.ts:153-155 | at least two characters; for 0..99, two digits that read back as the number; from 10 on, `String(n)` itself |
| HabitText.IsoOf | plugin/src/habit-core.ts:304-306 | `y-MM-DD` is the year's digits plus six characters |
| HabitText.IsoOfInjective | plugin/src/habit-core.ts:304-306 | different dates give different ISO names |
| HabitText.HHMM | plugin/src/habit-core.ts:157-159 | five characters `HH:MM` whose digit pairs read back as the hour and the minute |
| OrderedMaps.Without | plugin/src/habit-event-bus.ts:24 | `set.delete(x)`: the result holds exactly the other elements, removes every copy of `x` (exactly one when the sequence is distinct, as a `Set`'s is), is the input when `x` is absent, and stays distinct |
| OrderedMaps.WithoutKeepsOrder | plugin/src/habit-event-bus.ts:24 | the kept elements are a subsequence of the input: an increasing index map picks them out, so their order is kept |
| OrderedMaps.WithoutCounts | plugin/src/habit-event-bus.ts:24 | every element other than `x` is kept as often as it occurs, and no copy of `x` is left |
| OrderedMaps.OMap.Put | plugin/src/habit-registry.ts:98 | `map.set`: the value is stored; a present key keeps its place and a new key goes last; a valid map stays valid |
| OrderedMaps.OMap.Remove | plugin/src/habit-registry.ts:110-113 | `map.delete`: the key is gone, the order is otherwise kept and the size drops by one |
| OrderedMaps.OMap.Values | plugin/src/habit-registry.ts:142 | `map.values()` lists the values in key order |
| OrderedMaps.SizeIsCardinality | plugin/src/habit-registry.ts:179 | `map.size` is the number of keys |
| HabitOptions.Round | plugin/src/habit-core.ts:195 | `Math.round(x)` is the integer within half a unit of `x`, halves rounding up |
| HabitOptions.ClampPositive | plugin/src/habit-core.ts:193-197 | a non-finite value gives the fallback; a finite one gives a result in [min, max], or `max` when `min > max` |
| HabitOptions.ClampPositiveNearest | plugin/src/habit-core.ts:193-197 | the result is the value of [min, max] nearest to the rounded input |
| HabitOptions.ClampPositiveKeepsInRange | plugin/src/habit-core.ts:193-197 | an integer already in range is returned as it is |
| HabitOptions.ClampPositiveIdempotent | plugin/src/habit-core.ts:193-197 | clamping a clamped value changes nothing |
| HabitOptions.NormalizeDailyNoteFormat | plugin/src/habit-core.ts:135-139 | a non-blank format is trimmed and kept; otherwise the trimmed fallback, else the default; never empty |
| HabitOptions.Clamped | plugin/src/habit-core.ts:242-271 | a finite block value is rounded and clamped; otherwise the clamped setting or the default; the result is within [min, MAX_SAFE_INTEGER] |
| HabitOptions.BlockTitle | plugin/src/habit-core.ts:226 | the title is empty exactly when the block's title is missing or all whitespace |
| HabitOptions.HabitTag | plugin/src/habit-core.ts:295 | the tag is `#`, the prefix, `_` and the key |
| HabitOptions.AtLeastOne | plugin/src/habit-core.ts:232-233 | a finite block value is raised to at least 1, else the setting is used as it is |
| HabitOptions.ResolveHabitOptions | plugin/src/habit-core.ts:221-298 | `null` exactly when the title is missing or blank; otherwise the title is normalised and non-empty and every field is merged |
| HabitOptions.DailyFolderOf | plugin/src/habit-core.ts:235-236 | the folder is the trimmed setting with its slashes trimmed, so it never starts or ends with `/`; a blank setting gives the vault root `""` |
| HabitOptions.Merge | plugin/src/habit-core.ts:229-297 | every resolved field: key `toHabitKey(title)` of the key shape, tag `#prefix_key`, clamped sizes, gaps, grace and warning window, weeks and days by `AtLeastOne` (a finite block value raised to at least 1, else the setting unchanged); the group present exactly for a non-empty block group and whitespace-normalised, the icon passed through, the daily folder trimmed and without a slash at either end, a non-empty note format, the layout `row`/`grid` or the setting's, the template path present exactly when its trimmed setting is non-empty, the border defaulting to shown |
| HabitOptions.ResolvedNumbersInRange | plugin/src/habit-core.ts:232-271 | cell size, dot size and grace are at least 1; gaps and warning window at least 0; finite weeks and days at least 1 |
| HabitOptions.ResolveClampCase | plugin/src/habit-core.ts:232-271 | weeks 0, cell size 0, cell gap −5, dot size −2, dot gap −4, grace 24 and a non-number warning window resolve to 1, 1, 0, 1, 0, 24 and the setting's 5 |
| TagScanner.RunLength | plugin/src/habit-core.ts:348 | the length of the maximal run of matching characters at the start |
| TagScanner.MatchAtShape | plugin/src/habit-core.ts:347-350 | a match starts with `#<prefix>_` (prefix up to case) and its token is the maximal non-empty run of `[^\s#]` after it |
| TagScanner.NoHashNoMatch | plugin/src/habit-core.ts:347-350 | text without `#` holds no occurrence |
| TagScanner.ScanAppend | plugin/src/habit-core.ts:365-366 | scanning a note followed by a line that begins a new line gives the note's occurrences and then the line's |
| TagScanner.LineOf | plugin/src/main.ts:807 | the log line starts with a newline |
| TagScanner.LogLine | plugin/src/main.ts:807 | `"\n- " + tag + " " + HH:MM + "\n"` starts with a newline |
| TagScanner.HHMMClockText | plugin/src/habit-core.ts:370-371 | the clock text a click writes is read back as that hour and minute |
| TagScanner.TagMatch | plugin/src/habit-core.ts:347-350 | a tag followed by whitespace and a time matches as that key with that time |
| TagScanner.EmptyTokenNoMatch | plugin/src/habit-core.ts:348 | `#<prefix>_` followed by whitespace is not a match |
| TagScanner.TaggedTimeRematched | plugin/src/habit-core.ts:347-350 | a tag, a space and `HH:MM` scan as exactly one occurrence of that key at that time |
| TagScanner.LineRematched | plugin/src/main.ts:807 | the log line of a non-empty key scans as exactly one occurrence at its time |
| TagScanner.LogLineRematched | plugin/src/main.ts:807 | the line a click writes at `hh:mm` is collected back as that key at `hh:mm` |
| TagScanner.AppendLogLine | plugin/src/main.ts:807-832 | a note with the log line appended scans as the note's occurrences plus the logged one |
| TagScanner.EmptyKeyLineNotRematched | plugin/src/main.ts:807 | the log line of an empty key holds no occurrence |
| Streaks.Insert | plugin/src/habit-core.ts:314-316 | inserting into a sorted list keeps it sorted and adds exactly that element |
| Streaks.SortAscending | plugin/src/habit-core.ts:314-316 | `sortDatesAscending` is sorted and a permutation of its input |
| Streaks.SortedUnique | plugin/src/habit-core.ts:314-316 | two sorted permutations of the same values are equal, so the order of `Map.values()` does not matter |
| Streaks.LastOf | plugin/src/habit-core.ts:395 | the last element, or none for an empty list |
| Streaks.LastOfSortedIsMax | plugin/src/habit-core.ts:394-395 | the last sorted timestamp is the maximum and is one of the inputs; none exactly when there are none |
| Streaks.ChainStart | plugin/src/habit-core.ts:324-328 | the start of the trailing run of gaps no larger than the allowed gap; the gap before it is larger |
| Streaks.ChainStartLeast | plugin/src/habit-core.ts:324-328 | the run is the longest trailing run |
| Streaks.ComputeStreakByDays | plugin/src/habit-core.ts:318-330 | the backward loop returns the streak function's value |
| Streaks.StreakBounds | plugin/src/habit-core.ts:318-330 | `streak <= length`; `streak > 0` exactly when there is a day and `now − last <= allowedGapMs` |
| Streaks.StreakIsMaximalRun | plugin/src/habit-core.ts:324-328 | a positive streak counts 1 plus the trailing consecutive pairs within the gap, and stops at the first larger gap |
| Streaks.StreakAllClose | plugin/src/habit-core.ts:324-328 | when all gaps are within the allowed gap and the last day is recent, the streak is the number of days |
| Streaks.ChainStartMonotone | plugin/src/habit-core.ts:324-328 | a larger allowed gap never moves the start of the run later |
| Streaks.StreakMonotone | plugin/src/habit-core.ts:318-330 | a larger allowed gap never gives a smaller streak |
| HabitStats.LocalTimestampFacts | plugin/src/habit-core.ts:300-302 | a later wall-clock time of the same day gives a later timestamp; the next day is 24 hours on |
| HabitStats.TwoDigitYears | plugin/src/habit-core.ts:300-302 | `new Date(y, …)` reads a year from 0 to 99 as 1900 + y, so a note dated in those years is timestamped in the twentieth century, while its ISO name keeps the year as parsed |
| HabitStats.ReadingOnDay | plugin/src/main.ts:799-807 | the instant whose date getters give the note's name and whose `nowHHMM` gives the log line lies in that day, which is the day the click handler derives from the same instant (main.ts:389-393) |
| HabitStats.ReadingUnique | plugin/src/main.ts:807 | one instant has one hour and minute within its day, so the logged `HH:MM` is determined by the instant |
| HabitStats.TallyValid | plugin/src/habit-core.ts:377-383 | `hasByISO` is the key set of `countsByISO` and of `lastTsByISO` |
| HabitStats.TallyHas | plugin/src/habit-core.ts:378 | a day is in `hasByISO` exactly when one of the marks is on that day |
| HabitStats.TallyCounts | plugin/src/habit-core.ts:377 | each day's count is the number of marks on that day |
| HabitStats.TallyLastUpper | plugin/src/habit-core.ts:380-383 | every mark is at or before its day's last timestamp |
| HabitStats.TallyLastAttained | plugin/src/habit-core.ts:380-383 | each day's last timestamp is one of that day's marks |
| HabitStats.ScopeOf | plugin/src/habit-core.ts:340-351 | the folder is slash-trimmed, the needle is the lower-cased key and the prefix is the context's |
| HabitStats.StripMd | plugin/src/habit-core.ts:354 | the result is the path itself or the path without its last three characters (a trailing `.md` in any case) |
| HabitStats.OccurrenceMark | plugin/src/habit-core.ts:370-375 | a mark is on the note's day, at its time or at 00:00 when none is given |
| HabitStats.MatchingSnoc | plugin/src/habit-core.ts:367-368 | one more occurrence adds one mark exactly when its lower-cased token is the needle |
| HabitStats.BaseThreshold | plugin/src/habit-core.ts:387-389 | the grace is at least 1, or the context's default when it is absent |
| HabitStats.WarningWindow | plugin/src/habit-core.ts:390 | the warning window is at least 0 and keeps a non-negative value |
| HabitStats.AllowedGapH | plugin/src/habit-core.ts:391 | allowed gap = grace threshold + warning window |
| HabitStats.CountOccurrence | plugin/src/habit-core.ts:367-383 | one occurrence updates the tally as the mark list with it |
| HabitStats.TallyNote | plugin/src/habit-core.ts:365-384 | the `exec` loop over one note tallies the marks of every scanned occurrence |
| HabitStats.RecordMark | plugin/src/habit-core.ts:377-383 | the three updates of one mark: count + 1, the day added, the day's last timestamp raised |
| HabitStats.TallyFile | plugin/src/habit-core.ts:353-384 | one pass over a file adds exactly the file's marks: the matching occurrences on its day, none when it is outside the folder, has no parsable day or is empty |
| HabitStats.TallyFiles | plugin/src/habit-core.ts:353-384 | the loop over the notes ends with the tally of every mark of every note, in note order |
| HabitStats.CollectHabitStats | plugin/src/habit-core.ts:332-408 | the collector returns the stats of all marks of all files in scope |
| HabitStats.FinishStats | plugin/src/habit-core.ts:387-407 | the thresholds, `lastTs` and the streak from the tally |
| HabitStats.StatsDays | plugin/src/habit-core.ts:377-383 | in the result, the has-set is the day set of the counts and of the last map; a day is present exactly when marked; counts are the number of marks |
| HabitStats.StatsLastTs | plugin/src/habit-core.ts:394-395 | `lastTs` is null exactly when there is no mark; otherwise it is the maximum mark and is attained |
| HabitStats.StatsStreak | plugin/src/habit-core.ts:392-396 | the streak is at most the number of days; `allowedGapMs = allowedGapH * 3600000` |
| HabitStats.CloneHabitStats | plugin/src/habit-core.ts:410-423 | the copy equals the original |
| HabitStats.ClickedStats | plugin/src/main.ts:395-402 | after a click, the day joins the counts and the has-set, its last timestamp is the click's, and the thresholds are kept |
| HabitStats.ClickOnTally | plugin/src/main.ts:395-402 | when the click is its day's latest mark, the click update equals a recount with the new mark |
| HabitStats.ClickAgreesWithRecount | plugin/src/main.ts:395-402 | the incremental update after a click from the collected stats equals collecting again with the new mark |
| HabitStats.ClickCanSetLatestBack | plugin/src/main.ts:400 | a click earlier than its day's last mark sets the day's last timestamp back, where a recount would not |
| Registry.FingerprintIgnoresNaming | plugin/src/habit-registry.ts:25-63 | inputs that differ only in title, normalized title, key, tag, note format, border or map order have the same fingerprint |
| Registry.FingerprintSeesShape | plugin/src/habit-registry.ts:25-63 | equal fingerprints mean equal group, folder, prefix, icon, layout, weeks, days, sizes and gaps, template path, thresholds, counts, has-set, last map, `lastTs`, streak and gaps |
| Registry.CloneRecord | plugin/src/habit-registry.ts:65-74 | a copy holds the stored record's values |
| Registry.MakeEntry | plugin/src/habit-registry.ts:80-89 | the stored entry has the input's fields, the given time and the input's fingerprint |
| Registry.UpsertLookup | plugin/src/habit-registry.ts:91-102 | after upsert, the pair holds the new entry, every other pair is unchanged and the returned record is the new one |
| Registry.UpsertChanged | plugin/src/habit-registry.ts:97-100 | `changed` exactly when the pair was absent or its fingerprint differs |
| Registry.UpsertSameShapeUnchanged | plugin/src/habit-registry.ts:97-100 | the first upsert reports a change; an upsert with an equal fingerprint then reports none |
| Registry.UpsertValid | plugin/src/habit-registry.ts:91-98 | upsert keeps the table well formed: keys as stored and no empty inner table |
| Registry.UpsertSize | plugin/src/habit-registry.ts:91-98 | size grows by 1 exactly when the pair was absent |
| Registry.RemoveAbsent | plugin/src/habit-registry.ts:105-109 | removing an absent pair returns null and changes nothing |
| Registry.RemovePresent | plugin/src/habit-registry.ts:105-115 | removing a present pair returns its record and deletes it alone; no key is left with an empty inner table; size drops by 1 |
| Registry.RemoveValid | plugin/src/habit-registry.ts:105-115 | remove keeps the table well formed |
| Registry.ClearSize | plugin/src/habit-registry.ts:117-119 | a cleared table is well formed and has size 0 |
| Registry.PruneKeysSpec | plugin/src/habit-registry.ts:124-135 | the loop over keys removes exactly the prunable records at the path and returns them; other keys are untouched |
| Registry.PruneTableSpec | plugin/src/habit-registry.ts:121-137 | prune deletes exactly the pairs at the path whose record is in the target group (any group when it is blank) and whose key is not kept, leaves every other pair as it was, returns exactly the deleted records, and keeps the table valid |
| Registry.PruneKeysOrder | plugin/src/habit-registry.ts:124-135 | the loop returns the removed records in the order it visits their keys, and each is judged prunable in the table as it was at the start |
| Registry.PruneTableOrder | plugin/src/habit-registry.ts:121-137 | the removed list is the prunable records at the path in the registry's key order, the order in which group listeners are then notified |
| Registry.InnerRecords | plugin/src/habit-registry.ts:142-144 | one record per source path, in insertion order |
| Registry.InnerRecordsMembers | plugin/src/habit-registry.ts:142-144 | the records of an inner table are exactly its stored records |
| Registry.RecordsUnderMembers | plugin/src/habit-registry.ts:139-147 | the nested loop lists exactly the records under the visited keys, one per pair |
| Registry.AllRecordsSpec | plugin/src/habit-registry.ts:139-147 | `getAll` lists exactly the stored records, as many as `size()` |
| Registry.FilterGroup | plugin/src/habit-registry.ts:155 | keeps exactly the records whose lower-cased group is the target |
| Registry.ByGroupSpec | plugin/src/habit-registry.ts:149-161 | `getByGroup` is empty for a blank group and otherwise lists exactly the stored records whose lower-cased group equals the trimmed, lower-cased argument |
| Registry.FilterGroupKeepsOrder | plugin/src/habit-registry.ts:152-158 | the group's records come out as a subsequence of the list scanned, so in its order |
| Registry.ByGroupOrder | plugin/src/habit-registry.ts:149-161 | `getByGroup` lists the group's records in the order `getAll` lists them |
| Registry.DuplicatesUnderSpec | plugin/src/habit-registry.ts:165-172 | over any visited keys, the loop keeps exactly those with more than one source path, each with its records |
| Registry.DuplicatesSpec | plugin/src/habit-registry.ts:163-174 | `getDuplicates` maps exactly the keys with more than one source path, each to its records |
| Registry.RemoveOneOfTwo | plugin/src/habit-registry.ts:105-115 | removing one of two records of a key leaves it out of the duplicates |
| Registry.PushInner | plugin/src/habit-registry.ts:142-144 | the inner loop appends the inner table's records |
| Registry.PushInGroup | plugin/src/habit-registry.ts:153-158 | the inner loop appends the records of the group |
| Registry.PruneOne | plugin/src/habit-registry.ts:125-134 | one step of the prune loop |
| Registry.HabitRegistry.constructor | plugin/src/habit-registry.ts:77 | the registry starts empty |
| Registry.HabitRegistry.Upsert | plugin/src/habit-registry.ts:79-103 | the new table, the change flag and the record are those of the upsert function |
| Registry.HabitRegistry.Remove | plugin/src/habit-registry.ts:105-115 | the new table and the returned record are those of the remove function |
| Registry.HabitRegistry.Clear | plugin/src/habit-registry.ts:117-119 | the table is empty |
| Registry.HabitRegistry.PruneSourceRecords | plugin/src/habit-registry.ts:121-137 | the new table and the removed records are those of the prune function |
| Registry.HabitRegistry.GetAll | plugin/src/habit-registry.ts:139-147 | returns every stored record |
| Registry.HabitRegistry.GetByGroup | plugin/src/habit-registry.ts:149-161 | returns the records of the group |
| Registry.HabitRegistry.GetDuplicates | plugin/src/habit-registry.ts:163-174 | returns the duplicates map |
| Registry.HabitRegistry.Size | plugin/src/habit-registry.ts:176-182 | returns the number of stored pairs |
| EventBus.NormalizeGroup | plugin/src/habit-event-bus.ts:3-7 | null exactly for a missing or blank name; otherwise the trimmed, lower-cased, non-empty name |
| EventBus.NormalizeGroupIdempotent | plugin/src/habit-event-bus.ts:3-7 | a normalised name normalises to itself |
| EventBus.SubscribeValid | plugin/src/habit-event-bus.ts:12-20 | `onGroup` keeps every listener set duplicate-free and non-empty |
| EventBus.DisposeValid | plugin/src/habit-event-bus.ts:21-28 | the disposer keeps the table well formed |
| EventBus.SubscribeReaches | plugin/src/habit-event-bus.ts:12-20 | after `onGroup("Focus", l)`, `l` is listed exactly once under every name that normalises like "Focus"; other names are unchanged |
| EventBus.SubscribeTwice | plugin/src/habit-event-bus.ts:20 | subscribing the same listener twice is subscribing once |
| EventBus.SubscribeBlank | plugin/src/habit-event-bus.ts:13-14 | a blank group registers nothing and returns a no-op disposer |
| EventBus.DisposeRemovesOwn | plugin/src/habit-event-bus.ts:21-28 | the disposer removes only its own listener and deletes the group when it is left empty; other groups are unchanged |
| EventBus.DisposeTwice | plugin/src/habit-event-bus.ts:21-28 | disposing twice is disposing once |
| EventBus.SubscribeDispose | plugin/src/habit-event-bus.ts:12-28 | subscribing a new listener and disposing it restores the table |
| EventBus.Throwers | plugin/src/habit-event-bus.ts:37-41 | the logged listeners are exactly the called ones that throw |
| EventBus.EmitCallsEachOnce | plugin/src/habit-event-bus.ts:31-43 | no listener is called twice; nobody is called for a blank or unknown name; the logged ones are the called ones that throw |
| EventBus.ClearSilences | plugin/src/habit-event-bus.ts:45-47 | after `clear()` no emit calls anybody |
| EventBus.HabitEventBus.constructor | plugin/src/habit-event-bus.ts:10 | the bus starts empty |
| EventBus.HabitEventBus.OnGroup | plugin/src/habit-event-bus.ts:12-29 | the new table and the disposer are those of the subscribe function |
| EventBus.HabitEventBus.Dispose | plugin/src/habit-event-bus.ts:21-28 | the new table is that of the dispose function |
| EventBus.HabitEventBus.EmitGroup | plugin/src/habit-event-bus.ts:31-43 | the loop calls and logs the listeners the emit function names |
| EventBus.HabitEventBus.Clear | plugin/src/habit-event-bus.ts:45-47 | the table is empty |
| Controller.MarkStaleValid | plugin/src/main.ts:202-206 | marking stale keeps a stale path out of the scanned cache |
| Controller.MarkFreshValid | plugin/src/main.ts:216-224 | marking fresh keeps that invariant |
| Controller.ForceScans | plugin/src/main.ts:209 | `force` always scans |
| Controller.FreshSkips | plugin/src/main.ts:208-224 | after `markGroupScanFresh(p, g)` the path is not rescanned for `g` |
| Controller.SkipSurvives | plugin/src/main.ts:202-224 | a skip stays a skip through fresh marks and through stale marks of other paths |
| Controller.StaleScans | plugin/src/main.ts:202-214 | after `markPathStale(p)` the path is scanned for every group |
| Controller.OtherNotesUnaffected | plugin/src/main.ts:202-224 | marking one path changes no decision about another |
| Controller.AnonymousPath | plugin/src/main.ts:230 | an anonymous path starts with `__unknown__` |
| Controller.AnonymousPathInjective | plugin/src/main.ts:230 | different counters give different paths |
| Controller.SourcePathSpec | plugin/src/main.ts:226-231 | a non-blank candidate is returned trimmed; otherwise the counter goes up and the path differs from every one issued before |
| Controller.LocationKey | plugin/src/main.ts:544 | a location key has no `/` at either end |
| Controller.LocationKeys | plugin/src/main.ts:549-551 | one key per listed location |
| Controller.PushAllSpec | plugin/src/main.ts:541-546 | the set built by `push` is duplicate-free and holds exactly the non-empty keys |
| Controller.ListedLocations | plugin/src/main.ts:548-551 | the listed locations give exactly their distinct non-empty keys |
| Controller.GroupLocationsSpec | plugin/src/main.ts:537-557 | the result is distinct, non-empty and slash-trimmed; listed locations are used when there are any; the fallback is used only when none are listed and it does not start with `__unknown__` |
| Controller.PushListed | plugin/src/main.ts:548-551 | the loop over the listed locations builds the set of their keys |
| Controller.ResolveHabitGroupLocations | plugin/src/main.ts:537-557 | the method returns the group-locations function's value |
| Controller.LastIndexOf | plugin/src/main.ts:598-599 | `lastIndexOf`: −1 or the index of the last occurrence |
| Controller.DirectChildren | plugin/src/main.ts:583-589 | exactly the files directly inside the folder |
| Controller.NoDirectChildren | plugin/src/main.ts:583-590 | with no file directly inside the location, the folder case is empty and the single-file cases apply |
| Controller.DottedNamesakes | plugin/src/main.ts:600-602 | exactly the files that start with `loc.` |
| Controller.LexLeTotal | plugin/src/main.ts:602 | the order of the sort is total |
| Controller.LexLeTrans | plugin/src/main.ts:602 | the order of the sort is transitive |
| Controller.LexMin | plugin/src/main.ts:602-605 | the first element after sorting is in the list and precedes every element |
| Controller.LocationPathsInVault | plugin/src/main.ts:579-610 | every resolved path is a vault file; a blank location gives none |
| Controller.LocationPathsFolder | plugin/src/main.ts:583-590 | when the location has direct children, the result is exactly those children |
| Controller.LocationPathsSingle | plugin/src/main.ts:592-609 | with no children, the exact path, else `loc.md`, else the first `loc.*` when `loc` has no extension, else nothing |
| Controller.HoursOfMs | plugin/src/main.ts:341-346 | comparisons of hours as reals are the same comparisons in milliseconds |
| Controller.RemainingIsMs | plugin/src/main.ts:345-346 | the remaining hours are the remaining milliseconds over 3600000 |
| Controller.OverdueMatchesHours | plugin/src/main.ts:340-353 | the overdue flag in milliseconds equals the rule in real hours: alive with 0 < remaining <= window, or a last mark with a broken streak |
| Controller.HintIsCeiling | plugin/src/main.ts:362-366 | the hint is shown exactly when alive with 0 < remaining <= window; it is the ceiling of the remaining hours, between 1 and the window; a hint implies the flag |
| Controller.NoMarkNoWarning | plugin/src/main.ts:340-366 | with no mark there is neither flag nor hint |
| Controller.WarningFourHoursLeft | plugin/src/main.ts:340-366 | gap total 30 with window 6, last mark 26 hours ago gives the flag and the hint 4 |
| Controller.WarningBrokenStreak | plugin/src/main.ts:340-366 | a broken streak with a mark 72 hours ago gives the flag and no hint |
| Controller.StripDatedName | plugin/src/habit-core.ts:354 | removing `.md` from `iso.md` gives `iso` |
| Controller.DailyNoteInFolder | plugin/src/main.ts:799-805 | the logged note is inside the daily folder and its name without `.md` is the day's ISO name, as the collector reads it |
| Controller.LoggedNoteRematched | plugin/src/main.ts:807-832 | the note after logging scans as before plus the logged key at the logged time; a new note starts with its template |
| Controller.ClickEffect | plugin/src/main.ts:395-402 | the day's count rises by 1, others are unchanged, the day joins the has-set, its last timestamp is the click's, `lastTs` is the maximum and the streak is recomputed from the sorted days |
| Controller.ApplyClick | plugin/src/main.ts:395-402 | the updates compute the click's stats |
| Controller.HabitCard.constructor | plugin/src/main.ts:320-328 | a card holds the stats it was built with |
| Controller.HabitCard.Click | plugin/src/main.ts:386-402 | for a click timestamp lying in the given local day, the card's stats become the click update at that day's ISO name, the day being the one the timestamp's date getters read |
| Controller.InGroupOnly | plugin/src/main.ts:678 | keeps exactly the records whose trimmed, lower-cased group is the one asked for |
| Controller.KeysOf | plugin/src/main.ts:680 | the habit keys of the reported duplicates, in order |
| Controller.GroupDuplicatesUnderSpec | plugin/src/main.ts:677-682 | a key is reported exactly when more than one of its records is in the group, with those records |
| Controller.GroupDuplicatesDistinct | plugin/src/main.ts:677-682 | no key is reported twice |
| Controller.GroupDuplicatesOfTable | plugin/src/main.ts:672-684 | from the registry: distinct keys, reported exactly when the key has more than one record in the group, each with those records |
| Controller.ActiveCount | plugin/src/main.ts:517 | the active count is at most the total |
| Controller.ActiveCountSpec | plugin/src/main.ts:517-519 | all are active exactly when every streak is positive; none exactly when every streak is 0 |
| Controller.HabitButtonPlugin.constructor | plugin/src/main.ts:68-72 | a new empty registry and event bus, empty caches and counter 0 |
| Controller.HabitButtonPlugin.MarkPathStale | plugin/src/main.ts:202-206 | the cache becomes that of the stale mark; the counter is kept |
| Controller.HabitButtonPlugin.MarkGroupScanFresh | plugin/src/main.ts:216-224 | the cache becomes that of the fresh mark; the counter is kept |
| Controller.HabitButtonPlugin.ResolveSourcePath | plugin/src/main.ts:226-231 | path and counter follow the source-path function; an anonymous path was never issued before |
| Controller.HabitButtonPlugin.LogHabitEntry | plugin/src/main.ts:798-833 | for an instant read as a day, hour and minute, the path is `folder/YYYY-MM-DD.md` or the bare name of that day; the content is the existing note, or the newline-terminated template, plus the log line at that hour and minute; the path is marked stale; the instant is returned and lies in the note's day |
| Controller.HabitButtonPlugin.Unload | plugin/src/main.ts:128-135 | the registry and the event bus are cleared and valid, the caches emptied and the counter reset |
| I18n.DigitRun | plugin/src/i18n.ts:24 | the leading run of digits, and the character after it is no digit |
| I18n.PlaceholderAt | plugin/src/i18n.ts:24 | a placeholder spans more than three characters and lies within the template |
| I18n.FormatPlain | plugin/src/i18n.ts:23-28 | text without `$` is unchanged |
| I18n.FormatPlainPrefix | plugin/src/i18n.ts:23-28 | text without `$` in front is copied and the rest formatted |
| I18n.FormatPlaceholderFront | plugin/src/i18n.ts:24-27 | `${n}` becomes the n-th argument, 1-based, or "" when out of range |
| I18n.FormatPlaceholder | plugin/src/i18n.ts:23-28 | `text${n}rest` formats as the text, the n-th argument (not formatted again) and the formatted rest |
| I18n.FormatOverdueExample | plugin/src/i18n.ts:23-28 | `<${1}h` with "4" gives `<4h` |
| I18n.TranslateSpec | plugin/src/i18n.ts:30-36 | the current locale's template, else the English one, else the key; an empty template gives the key |
| I18n.MissingKeyShown | plugin/src/i18n.ts:33-34 | a key in no dictionary is shown as itself |
| I18n.FirstMatch | plugin/src/i18n.ts:41-43 | the first supported code the tag matches; none exactly when it matches none |
| I18n.CodesExclusive | plugin/src/i18n.ts:42 | no tag matches both codes |
| I18n.MatchLocaleSpec | plugin/src/i18n.ts:38-45 | a tag matches a locale exactly when it is non-empty and, lower-cased, is the code or starts with `code-` |
| I18n.MatchRegionTag | plugin/src/i18n.ts:38-45 | "ru-RU" gives `ru` and "EN" gives `en` |
| I18n.MatchUnsupported | plugin/src/i18n.ts:38-45 | "ua" and "english" match no locale |
| I18n.FirstCandidateSpec | plugin/src/i18n.ts:61-64 | the first candidate that matches, none exactly when none does |
| I18n.ResolveLocaleSpec | plugin/src/i18n.ts:53-67 | a set preference gives its match, else `en`; "auto" gives the first matching candidate, else `en` |
| I18n.ResolveUnsupportedPreference | plugin/src/i18n.ts:57-58 | an explicit "ua" resolves to `en` |
| I18n.Localization.constructor | plugin/src/i18n.ts:19-21 | the current locale starts as the fallback `en`; the dictionaries are kept |
| I18n.Localization.ApplyLocale | plugin/src/i18n.ts:69-76 | the returned locale is the resolved one and becomes current |

## Left out

- Rendering is not modelled: cards, heatmaps (`renderHeatRow`, `renderHeatGrid`), the duplicate list, the group summary's DOM, styles and the render-child disposal.
- `renderHabitGroup`'s control flow, `scanHabitGroupLocations`, `scanHabitFileForGroup` and `extractHabitButtonBlocks` are not modelled. The model keeps the parts these call: the registry, the scan cache, group locations, location paths, duplicates and the active count.
- Vault I/O, `Notice`, async and the metadata-cache hook are host calls. The corpus is a list of (path, basename, content) and the day parser is a parameter.
- `parseDailyNoteName` and `formatDailyNoteName` wrap the `moment` library, so a note's day comes from the given day parser.
- `parseHabitBlock` and `parseHabitGroupBlock` wrap the YAML parser, so options start from an already parsed record.
- Only ASCII and Russian Cyrillic have case mapping (`toLowerCase`, `toUpperCase`, the `i` flag); other scripts are taken as caseless.
- Local time is taken as UTC: no time zone or daylight saving.
- `localeCompare` is taken as code-point order, both in the location sort and in the fingerprint's sorted arrays.
- `JSON.stringify` is replaced by equality of the projected fields, with the maps compared as maps.
- `Date.now()` is a parameter, and the overdue computation is in whole milliseconds, not floating-point hours.
- Registry.HabitRegistry.Upsert: `updatedAt` is the given time, not the clock.
- The copies made by `cloneRecord`, `cloneHabitStats` and the getters are values, so aliasing between a caller and the stored stats cannot arise in the model.
- The prune loop deletes keys while it iterates over the JavaScript `Map`. The model visits the keys present at the start, which is the order that iteration follows.
- The date getters (`getFullYear`, `getMonth`, `getDate`, `getHours`, `getMinutes`) are not computed. `logHabitEntry` takes the instant together with its day, hour and minute, tied to it by `HabitStats.ReadsAs`. The click takes the day with a timestamp that `HabitStats.OnDay` places in that day. Seconds are kept in the timestamp.
- `DEFAULT_DAILY_NOTE_FORMAT` is imported from settings.ts, which is not part of this model; "YYYY-MM-DD" is assumed.
- `habitsLocations` given as something other than a list of strings is not modelled.
- The message dictionaries (`locales/en.json`, `locales/ru.json`) are not part of this model, so they are a parameter: a `Catalog`.
- Anonymous source paths are unique only between unloads, as in the source: `onunload` resets the counter.
- `Number(indexRaw)` loses precision above 2^53 in `format`; the model reads the digits exactly.
- The event bus's listeners are ids. Reentrant subscription or disposal from inside a listener is not modelled; the emit loop iterates over a snapshot, as `Array.from` does.
- i18n-wrapper.ts wraps a foreign library and is not part of this model. habit-button.js, settings.ts and the tests are not part of this model either.
