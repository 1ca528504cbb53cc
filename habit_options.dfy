/**
 * Option resolution for one `habit-button` block (plugin/src/habit-core.ts):
 * the numeric clamp `clampPositive`, the daily-note format fallback and
 * `resolveHabitOptions`, which merges the block's fields over the plugin
 * settings or rejects a block without a title.
 *
 * Block and settings fields arrive from YAML and stored JSON, so a numeric field
 * may hold anything; the model keeps only what `Number.isFinite` can tell apart.
 */
module HabitOptions {
  import opened Wrappers
  import opened HabitText

  /** A JavaScript value as `Number.isFinite` sees it: a finite number, or anything else. */
  datatype Num = Finite(x: real) | NonFinite

  /** `Number.MAX_SAFE_INTEGER`. */
  const MAX_SAFE_INTEGER: int := 9007199254740991

  /** The daily-note format used when neither the settings nor the defaults give one. */
  const DEFAULT_DAILY_NOTE_FORMAT: string := "YYYY-MM-DD"

  datatype Layout = Grid | Row

  function MaxInt(a: int, b: int): int { if a >= b then a else b }

  function MinInt(a: int, b: int): int { if a <= b then a else b }

  function MaxReal(a: real, b: real): real { if a >= b then a else b }

  function Abs(n: int): nat { if n < 0 then -n else n }

  /** `Math.round`: the nearest integer, halves rounded towards +infinity. */
  function Round(x: real): (n: int)
    ensures n as real - 0.5 <= x < n as real + 0.5
  {
    (x + 0.5).Floor
  }

  /**
   * `clampPositive` (plugin/src/habit-core.ts:193-197): the fallback for a non-finite value,
   * otherwise the rounded value limited to `[min, max]`.
   */
  function ClampPositive(value: Num, fallback: int, min: int := 1, max: int := MAX_SAFE_INTEGER): (r: int)
    ensures value.NonFinite? ==> r == fallback
    ensures value.Finite? && min <= max ==> min <= r <= max
    ensures value.Finite? && min > max ==> r == max
  {
    if value.NonFinite? then fallback else MinInt(max, MaxInt(min, Round(value.x)))
  }

  /** A finite value clamps to the point of `[min, max]` nearest to its rounding. */
  lemma {:induction false} ClampPositiveNearest(x: real, fallback: int, min: int, max: int, y: int)
    requires min <= y <= max
    ensures Abs(ClampPositive(Finite(x), fallback, min, max) - Round(x)) <= Abs(y - Round(x))
  {
  }

  /** An integer already inside `[min, max]` is kept. */
  lemma {:induction false} ClampPositiveKeepsInRange(n: int, fallback: int, min: int, max: int)
    requires min <= n <= max
    ensures ClampPositive(Finite(n as real), fallback, min, max) == n
  {
    assert Round(n as real) == n;
  }

  /** Clamping twice is clamping once. */
  lemma {:induction false} ClampPositiveIdempotent(v: Num, fallback: int, min: int, max: int)
    requires min <= max && min <= fallback <= max
    ensures ClampPositive(Finite(ClampPositive(v, fallback, min, max) as real), fallback, min, max)
      == ClampPositive(v, fallback, min, max)
  {
    ClampPositiveKeepsInRange(ClampPositive(v, fallback, min, max), fallback, min, max);
  }

  /**
   * `normalizeDailyNoteFormat` (plugin/src/habit-core.ts:135-139): the trimmed format, else
   * the trimmed fallback, else the built-in default.
   */
  function NormalizeDailyNoteFormat(format: Option<string>, fallback: Option<string>): (r: string)
    ensures r != []
    ensures Trim(format.GetOr("")) != [] ==> r == Trim(format.GetOr(""))
    ensures Trim(format.GetOr("")) == [] && Trim(fallback.GetOr(DEFAULT_DAILY_NOTE_FORMAT)) != [] ==>
      r == Trim(fallback.GetOr(DEFAULT_DAILY_NOTE_FORMAT))
  {
    var candidate := Trim(format.GetOr(""));
    var fallbackCandidate := Trim(fallback.GetOr(DEFAULT_DAILY_NOTE_FORMAT));
    if candidate != [] then candidate
    else if fallbackCandidate != [] then fallbackCandidate
    else DEFAULT_DAILY_NOTE_FORMAT
  }

  /**
   * The plugin settings as loaded from storage. Any field may be missing or of the wrong
   * type, which `None` and `NonFinite` stand for.
   */
  datatype Settings = Settings(
    dailyFolder: Option<string>,
    dailyNoteFormat: Option<string>,
    templatePath: Option<string>,
    tagPrefix: Option<string>,
    defaultLayout: Layout,
    weeks: Num,
    days: Num,
    defaultCellSize: Num,
    defaultCellGap: Num,
    defaultDotSize: Num,
    defaultDotGap: Num,
    defaultWarningWindowHours: Num,
    defaultGracePeriodHours: Num)

  /** The built-in default settings that stored values fall back to. */
  datatype Defaults = Defaults(
    dailyFolder: string,
    dailyNoteFormat: Option<string>,
    tagPrefix: string,
    defaultCellSize: int,
    defaultCellGap: int,
    defaultDotSize: int,
    defaultDotGap: int,
    defaultWarningWindowHours: int,
    defaultGracePeriodHours: int)

  /** Defaults that are themselves inside the ranges the clamps enforce. */
  predicate DefaultsInRange(d: Defaults) {
    && 1 <= d.defaultCellSize <= MAX_SAFE_INTEGER
    && 0 <= d.defaultCellGap <= MAX_SAFE_INTEGER
    && 1 <= d.defaultDotSize <= MAX_SAFE_INTEGER
    && 0 <= d.defaultDotGap <= MAX_SAFE_INTEGER
    && 0 <= d.defaultWarningWindowHours <= MAX_SAFE_INTEGER
    && 1 <= d.defaultGracePeriodHours <= MAX_SAFE_INTEGER
  }

  /**
   * A parsed `habit-button` block. A falsy title or group (absent, empty, `0`, `false`)
   * is `None`; other values are given as the string `String(value)` yields.
   */
  datatype RawBlock = RawBlock(
    title: Option<string>,
    group: Option<string>,
    gracePeriodHours: Num,
    warningWindowHours: Num,
    icon: Option<string>,
    heatLayout: Option<string>,
    weeks: Num,
    days: Num,
    cellSize: Num,
    cellGap: Num,
    dotSize: Num,
    dotGap: Num,
    border: Option<bool>)

  /** `ResolvedHabitOptions`. */
  datatype Resolved = Resolved(
    title: string,
    normalizedTitle: string,
    group: Option<string>,
    gracePeriodHours: Option<int>,
    warningWindowHours: int,
    icon: Option<string>,
    dailyFolder: string,
    dailyNoteFormat: string,
    heatLayout: Layout,
    weeks: Num,
    days: Num,
    cellSize: int,
    cellGap: int,
    dotSize: int,
    dotGap: int,
    templatePath: Option<string>,
    habitKey: string,
    habitTag: string,
    tagPrefix: string,
    border: bool)

  /**
   * A numeric block field: the block value clamped with the clamped setting as its
   * fallback, so a non-finite value falls back to the setting and a non-finite setting to the
   * built-in default.
   */
  function Clamped(value: Num, setting: Num, default: int, min: int): (r: int)
    ensures min <= default <= MAX_SAFE_INTEGER ==> min <= r <= MAX_SAFE_INTEGER
    ensures value.NonFinite? ==> r == ClampPositive(setting, default, min)
    ensures value.NonFinite? && setting.NonFinite? ==> r == default
    ensures value.Finite? && min <= Round(value.x) <= MAX_SAFE_INTEGER ==> r == Round(value.x)
  {
    ClampPositive(value, ClampPositive(setting, default, min), min)
  }

  /** The block title after whitespace normalisation, "" when it is falsy. */
  function BlockTitle(raw: RawBlock): (title: string)
    ensures title == [] <==> raw.title.None? || All(raw.title.value, IsSpace)
  {
    match raw.title
    case None => ""
    case Some(s) => NormalizeWhitespace(s)
  }

  /** The tag every log line of a habit carries: `#<prefix>_<key>`. */
  function HabitTag(prefix: string, key: string): (tag: string)
    ensures |tag| == |prefix| + |key| + 2
    ensures tag[0] == '#' && tag[1..|prefix| + 1] == prefix && tag[|prefix| + 1] == '_'
    ensures tag[|prefix| + 2..] == key
  {
    "#" + prefix + "_" + key
  }

  function LayoutOf(value: Option<string>, fallback: Layout): Layout {
    if value == Some("row") then Row else if value == Some("grid") then Grid else fallback
  }

  /** `weeks` and `days`: a finite block value raised to at least 1, otherwise the setting. */
  function AtLeastOne(value: Num, setting: Num): (r: Num)
    ensures value.Finite? ==> r.Finite? && r.x >= 1.0 && (value.x >= 1.0 ==> r.x == value.x)
    ensures value.NonFinite? ==> r == setting
  {
    if value.Finite? then Finite(MaxReal(1.0, value.x)) else setting
  }

  /** A path that neither starts nor ends with `/`. */
  predicate NoEndSlash(path: string) {
    path == [] || (path[0] != '/' && path[|path| - 1] != '/')
  }

  /** The daily folder: the setting trimmed of whitespace, then of slashes unless it is blank. */
  function DailyFolderOf(setting: string): (folder: string)
    ensures folder == TrimSlashes(Trim(setting))
    ensures NoEndSlash(folder)
  {
    var trimmed := Trim(setting);
    if trimmed != [] then TrimSlashes(trimmed) else ""
  }

  /**
   * `resolveHabitOptions` (plugin/src/habit-core.ts:221-298): `None` exactly when the title is
   * blank, otherwise the block merged over the settings.
   */
  function ResolveHabitOptions(raw: RawBlock, settings: Settings, defaults: Defaults): (r: Option<Resolved>)
    ensures r.None? <==> raw.title.None? || All(raw.title.value, IsSpace)
    ensures r.Some? ==> r.value.title == NormalizeWhitespace(raw.title.value) && r.value.title != []
    ensures r.Some? ==> r.value == Merge(r.value.title, raw, settings, defaults)
  {
    var title := BlockTitle(raw);
    if title == [] then None else Some(Merge(title, raw, settings, defaults))
  }

  /**
   * The non-null branch of `resolveHabitOptions`: the key and tag come from the title and the
   * tag prefix, every number is clamped into its range with the settings as its fallback.
   */
  function Merge(title: string, raw: RawBlock, settings: Settings, defaults: Defaults): (o: Resolved)
    ensures o.title == title
    ensures o.normalizedTitle == CapitalizeFirst(title)
    ensures o.habitKey == ToHabitKey(title) && IsHabitKey(o.habitKey)
    ensures o.tagPrefix == NormalizeTagPrefix(settings.tagPrefix.GetOr(defaults.tagPrefix))
    ensures o.habitTag == HabitTag(o.tagPrefix, o.habitKey)
    ensures o.cellSize == Clamped(raw.cellSize, settings.defaultCellSize, defaults.defaultCellSize, 1)
    ensures o.cellGap == Clamped(raw.cellGap, settings.defaultCellGap, defaults.defaultCellGap, 0)
    ensures o.dotSize == Clamped(raw.dotSize, settings.defaultDotSize, defaults.defaultDotSize, 1)
    ensures o.dotGap == Clamped(raw.dotGap, settings.defaultDotGap, defaults.defaultDotGap, 0)
    ensures o.gracePeriodHours ==
      Some(Clamped(raw.gracePeriodHours, settings.defaultGracePeriodHours, defaults.defaultGracePeriodHours, 1))
    ensures o.warningWindowHours ==
      Clamped(raw.warningWindowHours, settings.defaultWarningWindowHours, defaults.defaultWarningWindowHours, 0)
    ensures o.weeks == AtLeastOne(raw.weeks, settings.weeks)
    ensures o.days == AtLeastOne(raw.days, settings.days)
    ensures o.border == raw.border.GetOr(true)
    ensures o.group.Some? <==> raw.group.Some? && raw.group.value != []
    ensures o.group.Some? ==> o.group.value == NormalizeWhitespace(raw.group.value)
    ensures o.icon == raw.icon
    ensures o.dailyFolder == TrimSlashes(Trim(settings.dailyFolder.GetOr(defaults.dailyFolder)))
    ensures NoEndSlash(o.dailyFolder)
    ensures o.dailyNoteFormat == NormalizeDailyNoteFormat(settings.dailyNoteFormat, defaults.dailyNoteFormat)
    ensures o.dailyNoteFormat != []
    ensures raw.heatLayout == Some("row") ==> o.heatLayout == Row
    ensures raw.heatLayout == Some("grid") ==> o.heatLayout == Grid
    ensures raw.heatLayout != Some("row") && raw.heatLayout != Some("grid") ==> o.heatLayout == settings.defaultLayout
    ensures o.templatePath.Some? <==> Trim(settings.templatePath.GetOr("")) != []
    ensures o.templatePath.Some? ==> o.templatePath.value == Trim(settings.templatePath.GetOr(""))
  {
    var templateCandidate := Trim(settings.templatePath.GetOr(""));
    var tagPrefix := NormalizeTagPrefix(settings.tagPrefix.GetOr(defaults.tagPrefix));
    var habitKey := ToHabitKey(title);
    Resolved(
      title := title,
      normalizedTitle := CapitalizeFirst(title),
      group := if raw.group.Some? && raw.group.value != [] then Some(NormalizeWhitespace(raw.group.value)) else None,
      gracePeriodHours :=
        Some(Clamped(raw.gracePeriodHours, settings.defaultGracePeriodHours, defaults.defaultGracePeriodHours, 1)),
      warningWindowHours :=
        Clamped(raw.warningWindowHours, settings.defaultWarningWindowHours, defaults.defaultWarningWindowHours, 0),
      icon := raw.icon,
      dailyFolder := DailyFolderOf(settings.dailyFolder.GetOr(defaults.dailyFolder)),
      dailyNoteFormat := NormalizeDailyNoteFormat(settings.dailyNoteFormat, defaults.dailyNoteFormat),
      heatLayout := LayoutOf(raw.heatLayout, settings.defaultLayout),
      weeks := AtLeastOne(raw.weeks, settings.weeks),
      days := AtLeastOne(raw.days, settings.days),
      cellSize := Clamped(raw.cellSize, settings.defaultCellSize, defaults.defaultCellSize, 1),
      cellGap := Clamped(raw.cellGap, settings.defaultCellGap, defaults.defaultCellGap, 0),
      dotSize := Clamped(raw.dotSize, settings.defaultDotSize, defaults.defaultDotSize, 1),
      dotGap := Clamped(raw.dotGap, settings.defaultDotGap, defaults.defaultDotGap, 0),
      templatePath := if templateCandidate != [] then Some(templateCandidate) else None,
      habitKey := habitKey,
      habitTag := HabitTag(tagPrefix, habitKey),
      tagPrefix := tagPrefix,
      border := raw.border.GetOr(true))
  }

  /**
   * Resolved numbers lie in their ranges: sizes and the grace period at least 1, gaps and the
   * warning window at least 0, weeks and days at least 1 when the block gives them, provided
   * the built-in defaults are in range themselves.
   */
  lemma {:induction false} ResolvedNumbersInRange(raw: RawBlock, settings: Settings, defaults: Defaults)
    requires DefaultsInRange(defaults)
    requires ResolveHabitOptions(raw, settings, defaults).Some?
    ensures 1 <= ResolveHabitOptions(raw, settings, defaults).value.cellSize
    ensures 1 <= ResolveHabitOptions(raw, settings, defaults).value.dotSize
    ensures 0 <= ResolveHabitOptions(raw, settings, defaults).value.cellGap
    ensures 0 <= ResolveHabitOptions(raw, settings, defaults).value.dotGap
    ensures 0 <= ResolveHabitOptions(raw, settings, defaults).value.warningWindowHours
    ensures ResolveHabitOptions(raw, settings, defaults).value.gracePeriodHours.Some?
    ensures 1 <= ResolveHabitOptions(raw, settings, defaults).value.gracePeriodHours.value
    ensures raw.weeks.Finite? ==> ResolveHabitOptions(raw, settings, defaults).value.weeks.Finite?
    ensures raw.weeks.Finite? ==> ResolveHabitOptions(raw, settings, defaults).value.weeks.x >= 1.0
    ensures raw.days.Finite? ==> ResolveHabitOptions(raw, settings, defaults).value.days.Finite?
    ensures raw.days.Finite? ==> ResolveHabitOptions(raw, settings, defaults).value.days.x >= 1.0
  {
  }

  /**
   * The clamping case of the option tests: weeks 0, cell size 0, cell gap -5, dot size -2,
   * dot gap -4 and an invalid warning window give 1, 1, 0, 1, 0 and the configured window.
   */
  lemma {:induction false} ResolveClampCase(raw: RawBlock, settings: Settings, defaults: Defaults)
    requires raw.title == Some("Clamp Case")
    requires raw.weeks == Finite(0.0) && raw.cellSize == Finite(0.0) && raw.cellGap == Finite(-5.0)
    requires raw.dotSize == Finite(-2.0) && raw.dotGap == Finite(-4.0)
    requires raw.gracePeriodHours == Finite(24.0) && raw.warningWindowHours.NonFinite?
    requires settings.defaultWarningWindowHours == Finite(5.0)
    ensures ResolveHabitOptions(raw, settings, defaults).Some?
    ensures var o := ResolveHabitOptions(raw, settings, defaults).value;
      && o.weeks == Finite(1.0) && o.cellSize == 1 && o.cellGap == 0 && o.dotSize == 1 && o.dotGap == 0
      && o.gracePeriodHours == Some(24) && o.warningWindowHours == 5
  {
    assert !IsSpace('C');
    assert raw.title.value[0] == 'C';
    assert Round(24.0) == 24 && Round(5.0) == 5;
  }
}
