/**
 * The habit registry (plugin/src/habit-registry.ts): a two-level table from habit key to
 * source path to the record last published for that pair. The tables are JavaScript `Map`s,
 * so both levels keep insertion order; they are modelled as `OMap`s. Each stored entry carries
 * the fingerprint of what it was published with, and an upsert reports a change exactly when
 * the pair is new or the fingerprint differs.
 *
 * Every operation is a function on a `Table` value, and the class `HabitRegistry` holds one
 * such table in its field `records`; its methods update the field as the source does and
 * are proved to produce the function's result. The lemmas state what the source promises
 * about each operation in terms of `Lookup`, the record at a (habit key, source path) pair.
 */
module Registry {
  import opened Wrappers
  import opened HabitText
  import opened HabitOptions
  import opened OrderedMaps
  import HS = HabitStats

  // ---------------------------------------------------------------------
  // Records and fingerprints
  // ---------------------------------------------------------------------

  /** `HabitRegistryUpsertInput`. */
  datatype Input = Input(habitKey: string, group: Option<string>, sourcePath: string,
                         options: Resolved, stats: HS.HabitStats)

  /** `HabitRegistryRecord`; `updatedAt` is the time of the upsert that stored it. */
  datatype Record = Record(habitKey: string, group: Option<string>, sourcePath: string,
                           options: Resolved, stats: HS.HabitStats, updatedAt: int)

  /** The option fields the fingerprint serialises (an absent value is `null`). */
  datatype OptionShape = OptionShape(
    group: Option<string>, dailyFolder: string, heatLayout: Layout, weeks: Num, days: Num,
    cellSize: int, cellGap: int, dotSize: int, dotGap: int, warningWindowHours: int,
    gracePeriodHours: Option<int>, templatePath: Option<string>, icon: Option<string>,
    tagPrefix: string)

  /**
   * The stats fields the fingerprint serialises. The source sorts the entries of the count
   * and latest-time maps and the members of the day set by key before serialising them, so
   * two serialisations agree exactly when the maps and the set are equal: they are kept here
   * as a map and a set.
   */
  datatype StatsShape = StatsShape(
    streak: nat, allowedGapH: int, allowedGapMs: int, warningWindowHours: int,
    counts: map<string, nat>, hasMarks: set<string>, lastMap: map<string, int>, lastTs: Option<int>)

  /** `fingerprintEntry`: the serialised projection, as a value compared by equality. */
  datatype Fingerprint = Fingerprint(optionShape: OptionShape, statsShape: StatsShape)

  /** `InternalRegistryEntry`: a record with the fingerprint it was stored under. */
  datatype Entry = Entry(record: Record, fingerprint: Fingerprint)

  /** habitKey -> sourcePath -> entry. */
  type Table = OMap<string, OMap<string, Entry>>

  function Shape(group: Option<string>, options: Resolved, stats: HS.HabitStats): Fingerprint {
    Fingerprint(
      OptionShape(group, options.dailyFolder, options.heatLayout, options.weeks, options.days,
        options.cellSize, options.cellGap, options.dotSize, options.dotGap,
        options.warningWindowHours, options.gracePeriodHours, options.templatePath,
        options.icon, options.tagPrefix),
      StatsShape(stats.streak, stats.allowedGapH, stats.allowedGapMs, stats.warningWindowHours,
        stats.countsByISO, stats.hasByISO, stats.lastTsByISO.entries, stats.lastTs))
  }

  /** `fingerprintEntry(input)`. */
  function FingerprintEntry(input: Input): (f: Fingerprint) {
    Shape(input.group, input.options, input.stats)
  }

  /**
   * The fingerprint ignores the naming fields of the options (title, normalised title, key,
   * tag), the note format and the border flag, and the insertion order of the latest-time map.
   */
  lemma {:induction false} FingerprintIgnoresNaming(a: Input, b: Input)
    requires a.group == b.group
    requires b.options == a.options.(title := b.options.title, normalizedTitle := b.options.normalizedTitle,
      habitKey := b.options.habitKey, habitTag := b.options.habitTag,
      dailyNoteFormat := b.options.dailyNoteFormat, border := b.options.border)
    requires b.stats == a.stats.(lastTsByISO := b.stats.lastTsByISO)
    requires b.stats.lastTsByISO.entries == a.stats.lastTsByISO.entries
    ensures FingerprintEntry(a) == FingerprintEntry(b)
  {
  }

  /** Every field it serialises is seen: equal fingerprints mean equal projections. */
  lemma {:induction false} FingerprintSeesShape(a: Input, b: Input)
    requires FingerprintEntry(a) == FingerprintEntry(b)
    ensures a.group == b.group && a.options.dailyFolder == b.options.dailyFolder
    ensures a.options.tagPrefix == b.options.tagPrefix && a.options.icon == b.options.icon
    ensures a.options.gracePeriodHours == b.options.gracePeriodHours
    ensures a.options.warningWindowHours == b.options.warningWindowHours
    ensures a.stats.countsByISO == b.stats.countsByISO && a.stats.hasByISO == b.stats.hasByISO
    ensures a.stats.lastTsByISO.entries == b.stats.lastTsByISO.entries && a.stats.lastTs == b.stats.lastTs
    ensures a.stats.streak == b.stats.streak && a.stats.allowedGapMs == b.stats.allowedGapMs
    ensures a.options.heatLayout == b.options.heatLayout
    ensures a.options.weeks == b.options.weeks && a.options.days == b.options.days
    ensures a.options.cellSize == b.options.cellSize && a.options.cellGap == b.options.cellGap
    ensures a.options.dotSize == b.options.dotSize && a.options.dotGap == b.options.dotGap
    ensures a.options.templatePath == b.options.templatePath
    ensures a.stats.allowedGapH == b.stats.allowedGapH && a.stats.warningWindowHours == b.stats.warningWindowHours
  {
  }

  /** `cloneRecord`: the stored record without its fingerprint, as an independent copy. */
  function CloneRecord(e: Entry): (r: Record)
    ensures r == e.record
  {
    Record(e.record.habitKey, e.record.group, e.record.sourcePath, e.record.options,
      HS.CloneHabitStats(e.record.stats), e.record.updatedAt)
  }

  /** The entry an upsert of `input` at time `now` stores. */
  function MakeEntry(input: Input, now: int): (e: Entry)
    ensures e.record.habitKey == input.habitKey && e.record.sourcePath == input.sourcePath
    ensures e.record.group == input.group && e.record.options == input.options
    ensures e.record.stats == input.stats && e.record.updatedAt == now
    ensures e.fingerprint == FingerprintEntry(input)
  {
    Entry(Record(input.habitKey, input.group, input.sourcePath, input.options,
      HS.CloneHabitStats(input.stats), now), FingerprintEntry(input))
  }

  // ---------------------------------------------------------------------
  // The table
  // ---------------------------------------------------------------------

  /** An entry stored at (k, p) was published for that pair under its own fingerprint. */
  predicate EntryAt(e: Entry, k: string, p: string) {
    && e.record.habitKey == k && e.record.sourcePath == p
    && e.fingerprint == Shape(e.record.group, e.record.options, e.record.stats)
  }

  /** An inner table is never left empty. */
  predicate InnerValid(inner: OMap<string, Entry>, k: string) {
    && inner.Valid() && inner.keys != []
    && forall p :: p in inner.entries ==> EntryAt(inner.entries[p], k, p)
  }

  predicate TableValid(t: Table) {
    t.Valid() && forall k :: k in t.entries ==> InnerValid(t.entries[k], k)
  }

  /** The entry at (k, p), if any. */
  function Lookup(t: Table, k: string, p: string): Option<Entry> {
    if k in t.entries && p in t.entries[k].entries then Some(t.entries[k].entries[p]) else None
  }

  /** Nothing outside the pair (k, p) differs between `t` and `u`. */
  ghost predicate SameElsewhere(t: Table, u: Table, k: string, p: string) {
    forall k2, p2 :: (k2 != k || p2 != p) ==> Lookup(u, k2, p2) == Lookup(t, k2, p2)
  }

  /** The sum of the inner sizes under the keys `ks`. */
  function SizesUnder(t: Table, ks: seq<string>): nat
    requires forall k :: k in ks ==> k in t.entries
  {
    if ks == [] then 0 else t.entries[ks[0]].Size() + SizesUnder(t, ks[1..])
  }

  /** `size()`: the number of (habit key, source path) pairs. */
  function TotalSize(t: Table): nat
    requires t.Valid()
  {
    SizesUnder(t, t.keys)
  }

  /** The sum after one more key, as the loop of `size()` adds it. */
  lemma {:induction false} SizesSnoc(t: Table, ks: seq<string>, k: string)
    requires forall k2 :: k2 in ks ==> k2 in t.entries
    requires k in t.entries
    ensures SizesUnder(t, ks + [k]) == SizesUnder(t, ks) + t.entries[k].Size()
    decreases |ks|
  {
    if ks == [] {
      assert [k][1..] == [];
    } else {
      assert (ks + [k])[1..] == ks[1..] + [k];
      SizesSnoc(t, ks[1..], k);
    }
  }

  /**
   * Two tables whose inner sizes agree under the distinct keys `ks` except at `k` have sums
   * that differ by the difference at `k`.
   */
  lemma {:induction false} SizesExcept(t: Table, u: Table, k: string, ks: seq<string>)
    requires Distinct(ks)
    requires forall k2 :: k2 in ks ==> k2 in t.entries && k2 in u.entries
    requires forall k2 :: k2 in ks && k2 != k ==> u.entries[k2].Size() == t.entries[k2].Size()
    ensures SizesUnder(u, ks) + (if k in ks then t.entries[k].Size() else 0)
      == SizesUnder(t, ks) + (if k in ks then u.entries[k].Size() else 0)
    decreases |ks|
  {
    if ks != [] {
      TailDistinct(ks);
      SizesExcept(t, u, k, ks[1..]);
      assert k in ks <==> k == ks[0] || k in ks[1..];
    }
  }

  /** Deleting the key `k` from the distinct keys takes its inner size out of the sum. */
  lemma {:induction false} SizesWithout(t: Table, u: Table, k: string, ks: seq<string>)
    requires Distinct(ks)
    requires forall k2 :: k2 in ks ==> k2 in t.entries
    requires forall k2 :: k2 in ks && k2 != k ==> k2 in u.entries && u.entries[k2].Size() == t.entries[k2].Size()
    ensures SizesUnder(u, Without(ks, k)) + (if k in ks then t.entries[k].Size() else 0) == SizesUnder(t, ks)
    decreases |ks|
  {
    if ks != [] {
      TailDistinct(ks);
      if ks[0] == k {
        assert Without(ks, k) == ks[1..];
        SizesExcept(t, u, k, ks[1..]);
      } else {
        SizesWithout(t, u, k, ks[1..]);
        assert Without(ks, k) == [ks[0]] + Without(ks[1..], k);
        assert ([ks[0]] + Without(ks[1..], k))[1..] == Without(ks[1..], k);
      }
    }
  }

  /** The size of a valid table once the inner table at a present key changes. */
  lemma {:induction false} SizesReplace(t: Table, k: string, inner: OMap<string, Entry>)
    requires t.Valid() && k in t.entries
    ensures TotalSize(t.Put(k, inner)) + t.entries[k].Size() == TotalSize(t) + inner.Size()
  {
    SizesExcept(t, t.Put(k, inner), k, t.keys);
  }

  /** The size of a valid table once a present key is deleted. */
  lemma {:induction false} SizesDelete(t: Table, k: string)
    requires t.Valid() && k in t.entries
    ensures t.Remove(k).Valid()
    ensures TotalSize(t.Remove(k)) + t.entries[k].Size() == TotalSize(t)
  {
    SizesWithout(t, t.Remove(k), k, t.keys);
  }

  /** The size of a valid table once a new key is added last. */
  lemma {:induction false} SizesAppend(t: Table, k: string, inner: OMap<string, Entry>)
    requires t.Valid() && k !in t.entries
    ensures TotalSize(t.Put(k, inner)) == TotalSize(t) + inner.Size()
  {
    var u := t.Put(k, inner);
    SizesSnoc(u, t.keys, k);
    SizesExcept(t, u, k, t.keys);
  }

  // ---------------------------------------------------------------------
  // upsert, remove, clear
  // ---------------------------------------------------------------------

  /**
   * `upsert`: the entry built from `input` replaces whatever was stored at its pair (a new
   * key goes last); `changed` says the pair was absent or stored under another fingerprint.
   */
  function UpsertTable(t: Table, input: Input, now: int): (Table, bool, Record) {
    var entry := MakeEntry(input, now);
    var perKey := if input.habitKey in t.entries then t.entries[input.habitKey] else Empty();
    var existing := if input.sourcePath in perKey.entries then Some(perKey.entries[input.sourcePath]) else None;
    var changed := existing.None? || existing.value.fingerprint != entry.fingerprint;
    (t.Put(input.habitKey, perKey.Put(input.sourcePath, entry)), changed, CloneRecord(entry))
  }

  /** The upsert stores its entry at its pair and nothing else changes: it replaces, never merges. */
  lemma {:induction false} UpsertLookup(t: Table, input: Input, now: int)
    ensures Lookup(UpsertTable(t, input, now).0, input.habitKey, input.sourcePath) == Some(MakeEntry(input, now))
    ensures SameElsewhere(t, UpsertTable(t, input, now).0, input.habitKey, input.sourcePath)
    ensures UpsertTable(t, input, now).2 == MakeEntry(input, now).record
  {
  }

  /** The change flag: true exactly for a new pair or a different fingerprint. */
  lemma {:induction false} UpsertChanged(t: Table, input: Input, now: int)
    ensures UpsertTable(t, input, now).1 <==>
      Lookup(t, input.habitKey, input.sourcePath).None?
      || Lookup(t, input.habitKey, input.sourcePath).value.fingerprint != FingerprintEntry(input)
  {
  }

  /**
   * Re-publishing the same shape under another title, with stats built afresh (as different
   * instances with equal contents), is not a change.
   */
  lemma {:induction false} UpsertSameShapeUnchanged(t: Table, first: Input, second: Input, now1: int, now2: int)
    requires Lookup(t, first.habitKey, first.sourcePath).None?
    requires first.habitKey == second.habitKey && first.sourcePath == second.sourcePath
    requires FingerprintEntry(first) == FingerprintEntry(second)
    ensures UpsertTable(t, first, now1).1
    ensures !UpsertTable(UpsertTable(t, first, now1).0, second, now2).1
  {
    UpsertLookup(t, first, now1);
  }

  lemma {:induction false} UpsertValid(t: Table, input: Input, now: int)
    requires TableValid(t)
    ensures TableValid(UpsertTable(t, input, now).0)
  {
    var k := input.habitKey;
    var perKey := if k in t.entries then t.entries[k] else Empty();
    var e := MakeEntry(input, now);
    InnerPutValid(perKey, k, input.sourcePath, e);
    var u := t.Put(k, perKey.Put(input.sourcePath, e));
    assert u == UpsertTable(t, input, now).0;
    forall k2 | k2 in u.entries ensures InnerValid(u.entries[k2], k2) {
      if k2 != k {
        assert u.entries[k2] == t.entries[k2];
      }
    }
  }

  /** Storing an entry published for (k, p) keeps an inner table (or a fresh one) valid. */
  lemma {:induction false} InnerPutValid(inner: OMap<string, Entry>, k: string, p: string, e: Entry)
    requires inner == Empty() || InnerValid(inner, k)
    requires EntryAt(e, k, p)
    ensures InnerValid(inner.Put(p, e), k)
  {
    var r := inner.Put(p, e);
    assert p in r.keys;
    forall p2 | p2 in r.entries ensures EntryAt(r.entries[p2], k, p2) {
      if p2 != p {
        assert r.entries[p2] == inner.entries[p2];
      }
    }
  }

  /** `size()` grows by one exactly when the pair was absent. */
  lemma {:induction false} UpsertSize(t: Table, input: Input, now: int)
    requires TableValid(t)
    ensures UpsertTable(t, input, now).0.Valid()
    ensures TotalSize(UpsertTable(t, input, now).0)
      == TotalSize(t) + if Lookup(t, input.habitKey, input.sourcePath).None? then 1 else 0
  {
    UpsertValid(t, input, now);
    var u := UpsertTable(t, input, now).0;
    var k := input.habitKey;
    if k in t.entries {
      SizesReplace(t, k, t.entries[k].Put(input.sourcePath, MakeEntry(input, now)));
    } else {
      SizesAppend(t, k, Empty<string, Entry>().Put(input.sourcePath, MakeEntry(input, now)));
    }
  }

  /**
   * `remove`: an absent pair gives nothing and leaves the table as it is; a present one is
   * deleted, with its key when that empties the inner table, and its record returned.
   */
  function RemoveTable(t: Table, k: string, p: string): (Table, Option<Record>) {
    if k !in t.entries then (t, None)
    else if p !in t.entries[k].entries then (t, None)
    else
      var perKey := t.entries[k].Remove(p);
      (if perKey.Size() == 0 then t.Remove(k) else t.Put(k, perKey), Some(CloneRecord(t.entries[k].entries[p])))
  }

  lemma {:induction false} RemoveAbsent(t: Table, k: string, p: string)
    requires Lookup(t, k, p).None?
    ensures RemoveTable(t, k, p) == (t, None)
  {
  }

  /** A present pair: its record comes back, it is gone, nothing else changes, one pair fewer. */
  lemma {:induction false} RemovePresent(t: Table, k: string, p: string)
    requires TableValid(t) && Lookup(t, k, p).Some?
    ensures RemoveTable(t, k, p).1 == Some(Lookup(t, k, p).value.record)
    ensures Lookup(RemoveTable(t, k, p).0, k, p).None?
    ensures SameElsewhere(t, RemoveTable(t, k, p).0, k, p)
    ensures TableValid(RemoveTable(t, k, p).0)
    ensures TotalSize(RemoveTable(t, k, p).0) + 1 == TotalSize(t)
  {
    var perKey := t.entries[k].Remove(p);
    var u := RemoveTable(t, k, p).0;
    if perKey.Size() == 0 {
      assert u == t.Remove(k);
      RemoveEmptied(t, k, p, u);
    } else {
      assert u == t.Put(k, perKey);
      RemoveKept(t, k, p, u);
    }
  }

  /** Removing the last path of a key deletes the key. */
  lemma {:induction false} RemoveEmptied(t: Table, k: string, p: string, u: Table)
    requires TableValid(t) && Lookup(t, k, p).Some?
    requires t.entries[k].Remove(p).Size() == 0 && u == t.Remove(k)
    ensures Lookup(u, k, p).None? && SameElsewhere(t, u, k, p)
    ensures TableValid(u) && TotalSize(u) + 1 == TotalSize(t)
  {
    var perKey := t.entries[k].Remove(p);
    SizesDelete(t, k);
    assert perKey.entries.Keys == {};
  }

  /** Removing one of several paths of a key keeps the key with the other paths. */
  lemma {:induction false} RemoveKept(t: Table, k: string, p: string, u: Table)
    requires TableValid(t) && Lookup(t, k, p).Some?
    requires t.entries[k].Remove(p).Size() > 0 && u == t.Put(k, t.entries[k].Remove(p))
    ensures Lookup(u, k, p).None? && SameElsewhere(t, u, k, p)
    ensures TableValid(u) && TotalSize(u) + 1 == TotalSize(t)
  {
    var perKey := t.entries[k].Remove(p);
    SizesReplace(t, k, perKey);
    InnerRemoveValid(t.entries[k], k, p);
    TablePutValid(t, k, perKey);
    PutElsewhere(t, k, p, u);
  }

  /** An inner table that keeps some path after a removal is still valid. */
  lemma {:induction false} InnerRemoveValid(inner: OMap<string, Entry>, k: string, p: string)
    requires InnerValid(inner, k) && inner.Remove(p).Size() > 0
    ensures InnerValid(inner.Remove(p), k)
  {
  }

  /** Storing a valid inner table under its key keeps the table valid. */
  lemma {:induction false} TablePutValid(t: Table, k: string, inner: OMap<string, Entry>)
    requires TableValid(t) && InnerValid(inner, k)
    ensures TableValid(t.Put(k, inner))
  {
  }

  /** Replacing the inner entries of `k` by the same less `p` changes the pair (k, p) only. */
  lemma {:induction false} PutElsewhere(t: Table, k: string, p: string, u: Table)
    requires k in t.entries && u.entries.Keys == t.entries.Keys
    requires u.entries[k].entries == t.entries[k].entries - {p}
    requires forall k2 :: k2 in t.entries && k2 != k ==> u.entries[k2] == t.entries[k2]
    ensures Lookup(u, k, p).None? && SameElsewhere(t, u, k, p)
  {
  }


  /** Removal keeps the table valid on every path. */
  lemma {:induction false} RemoveValid(t: Table, k: string, p: string)
    requires TableValid(t)
    ensures TableValid(RemoveTable(t, k, p).0)
  {
    if Lookup(t, k, p).Some? {
      RemovePresent(t, k, p);
    }
  }

  /** `clear()` leaves no pair: its table has size zero. */
  lemma {:induction false} ClearSize()
    ensures TableValid(Empty()) && TotalSize(Empty()) == 0
  {
  }

  // ---------------------------------------------------------------------
  // pruneSourceRecords
  // ---------------------------------------------------------------------

  /** A group name as compared by the registry: trimmed and lowercased, absent as "". */
  function GroupKey(group: Option<string>): string {
    Lower(Trim(group.GetOr("")))
  }

  /**
   * The record at (k, path) is pruned: it exists, its group matches the target (a blank
   * target matches any group) and its key is not kept.
   */
  predicate Prunable(t: Table, k: string, path: string, target: string, keep: set<string>) {
    && Lookup(t, k, path).Some?
    && (target == "" || GroupKey(Lookup(t, k, path).value.record.group) == target)
    && k !in keep
  }

  /** One key of the pruning loop. */
  function PruneStep(t: Table, k: string, path: string, target: string, keep: set<string>): (Table, Option<Record>) {
    if Prunable(t, k, path, target, keep) then RemoveTable(t, k, path) else (t, None)
  }

  /** The pruning loop over the keys `ks`, in order, with the records it removed. */
  function PruneKeys(t: Table, ks: seq<string>, path: string, target: string, keep: set<string>): (Table, seq<Record>)
    decreases |ks|
  {
    if ks == [] then (t, [])
    else
      var before := PruneKeys(t, ks[..|ks| - 1], path, target, keep);
      var step := PruneStep(before.0, ks[|ks| - 1], path, target, keep);
      (step.0, if step.1.Some? then before.1 + [step.1.value] else before.1)
  }

  /**
   * `pruneSourceRecords`: the loop visits the keys in insertion order and only ever deletes
   * the key it is visiting, so it visits exactly the keys present when it starts.
   */
  function PruneTable(t: Table, path: string, group: Option<string>, keep: set<string>): (Table, seq<Record>) {
    PruneKeys(t, t.keys, path, GroupKey(group), keep)
  }

  /**
   * What pruning over distinct keys does: exactly the prunable pairs at `path` under those
   * keys are gone, every other pair is untouched, keys not visited keep their inner tables,
   * and the removed records are exactly those of the pruned pairs.
   */
  lemma {:induction false} PruneKeysSpec(t: Table, ks: seq<string>, path: string, target: string, keep: set<string>)
    requires TableValid(t) && Distinct(ks)
    ensures TableValid(PruneKeys(t, ks, path, target, keep).0)
    ensures forall k, p :: (Lookup(PruneKeys(t, ks, path, target, keep).0, k, p)
      == if p == path && k in ks && Prunable(t, k, path, target, keep) then None else Lookup(t, k, p))
    ensures forall k :: k in t.entries && k !in ks ==>
      k in PruneKeys(t, ks, path, target, keep).0.entries && PruneKeys(t, ks, path, target, keep).0.entries[k] == t.entries[k]
    ensures forall r :: r in PruneKeys(t, ks, path, target, keep).1 <==>
      exists k :: k in ks && Prunable(t, k, path, target, keep) && Lookup(t, k, path).value.record == r
    decreases |ks|
  {
    if ks != [] {
      var front, x := ks[..|ks| - 1], ks[|ks| - 1];
      assert ks == front + [x];
      DistinctFront(ks);
      PruneKeysSpec(t, front, path, target, keep);
      var before := PruneKeys(t, front, path, target, keep);
      assert Lookup(before.0, x, path) == Lookup(t, x, path);
      assert Prunable(before.0, x, path, target, keep) == Prunable(t, x, path, target, keep);
      var after := PruneKeys(t, ks, path, target, keep);
      assert ks[..|ks| - 1] == front;
      PruneLastTable(t, before.0, after.0, ks, front, x, path, target, keep);
      PruneLastRemoved(t, before.0, before.1, after.1, ks, front, x, path, target, keep);
    }
  }

  /** The last step of `PruneKeysSpec` on the table, from what holds after the keys before it. */
  lemma {:induction false} PruneLastTable(t: Table, mid: Table, u: Table, ks: seq<string>, front: seq<string>,
                                          x: string, path: string, target: string, keep: set<string>)
    requires ks == front + [x] && x !in front
    requires TableValid(mid)
    requires u == PruneStep(mid, x, path, target, keep).0
    requires forall k, p :: (Lookup(mid, k, p)
      == if p == path && k in front && Prunable(t, k, path, target, keep) then None else Lookup(t, k, p))
    requires forall k :: k in t.entries && k !in front ==> k in mid.entries && mid.entries[k] == t.entries[k]
    requires Prunable(mid, x, path, target, keep) == Prunable(t, x, path, target, keep)
    ensures TableValid(u)
    ensures forall k, p :: (Lookup(u, k, p)
      == if p == path && k in ks && Prunable(t, k, path, target, keep) then None else Lookup(t, k, p))
    ensures forall k :: k in t.entries && k !in ks ==>
      k in u.entries && u.entries[k] == t.entries[k]
  {
    if Prunable(t, x, path, target, keep) {
      RemovePresent(mid, x, path);
      RemoveTouchesOneKey(mid, x, path);
      assert u == RemoveTable(mid, x, path).0;
    } else {
      assert u == mid;
    }
  }

  /** The last step of `PruneKeysSpec` on the removed records. */
  lemma {:induction false} PruneLastRemoved(t: Table, mid: Table, removed: seq<Record>, res: seq<Record>, ks: seq<string>, front: seq<string>,
                                            x: string, path: string, target: string, keep: set<string>)
    requires ks == front + [x] && x !in front
    requires TableValid(mid)
    requires res ==
      if PruneStep(mid, x, path, target, keep).1.Some? then removed + [PruneStep(mid, x, path, target, keep).1.value] else removed
    requires Lookup(mid, x, path) == Lookup(t, x, path)
    requires forall r :: r in removed <==>
      exists k :: k in front && Prunable(t, k, path, target, keep) && Lookup(t, k, path).value.record == r
    requires Prunable(mid, x, path, target, keep) == Prunable(t, x, path, target, keep)
    ensures forall r :: r in res <==>
      exists k :: k in ks && Prunable(t, k, path, target, keep) && Lookup(t, k, path).value.record == r
  {
    var hit := Prunable(t, x, path, target, keep);
    if hit {
      assert PruneStep(mid, x, path, target, keep) == RemoveTable(mid, x, path);
      assert RemoveTable(mid, x, path).1 == Some(Lookup(t, x, path).value.record);
      assert res == removed + [Lookup(t, x, path).value.record];
    } else {
      assert PruneStep(mid, x, path, target, keep) == (mid, None);
      assert res == removed;
    }
    forall r ensures r in res <==> exists k :: k in ks && Prunable(t, k, path, target, keep) && Lookup(t, k, path).value.record == r {
      if r in res {
        if r in removed {
          var k :| k in front && Prunable(t, k, path, target, keep) && Lookup(t, k, path).value.record == r;
          assert k in ks;
        } else {
          assert hit && r == Lookup(t, x, path).value.record;
          assert x in ks;
        }
      }
      if exists k :: k in ks && Prunable(t, k, path, target, keep) && Lookup(t, k, path).value.record == r {
        var k :| k in ks && Prunable(t, k, path, target, keep) && Lookup(t, k, path).value.record == r;
        if k != x {
          assert k in front;
          assert r in removed;
        }
      }
    }
  }

  /** The records of the prunable pairs at `path` under the keys `ks`, in the order of `ks`. */
  function PrunableRecords(t: Table, ks: seq<string>, path: string, target: string, keep: set<string>): seq<Record>
    decreases |ks|
  {
    if ks == [] then []
    else
      var x := ks[|ks| - 1];
      PrunableRecords(t, ks[..|ks| - 1], path, target, keep)
        + if Prunable(t, x, path, target, keep) then [Lookup(t, x, path).value.record] else []
  }

  /**
   * The pruning loop returns the removed records in the order it visits their keys: each is
   * prunable in the table it started from, since earlier steps touch only their own keys.
   */
  lemma {:induction false} PruneKeysOrder(t: Table, ks: seq<string>, path: string, target: string, keep: set<string>)
    requires TableValid(t) && Distinct(ks)
    ensures PruneKeys(t, ks, path, target, keep).1 == PrunableRecords(t, ks, path, target, keep)
    decreases |ks|
  {
    if ks != [] {
      var front, x := ks[..|ks| - 1], ks[|ks| - 1];
      assert ks == front + [x];
      DistinctFront(ks);
      PruneKeysOrder(t, front, path, target, keep);
      PruneKeysSpec(t, front, path, target, keep);
      var before := PruneKeys(t, front, path, target, keep);
      assert Lookup(before.0, x, path) == Lookup(t, x, path);
      assert Prunable(before.0, x, path, target, keep) == Prunable(t, x, path, target, keep);
      PruneOrderStep(t, before.0, x, path, target, keep);
    }
  }

  /** The record one step of the loop removes is the one prunable in the starting table. */
  lemma {:induction false} PruneOrderStep(t: Table, mid: Table, x: string, path: string, target: string, keep: set<string>)
    requires Lookup(mid, x, path) == Lookup(t, x, path)
    requires Prunable(mid, x, path, target, keep) == Prunable(t, x, path, target, keep)
    ensures PruneStep(mid, x, path, target, keep).1
      == if Prunable(t, x, path, target, keep) then Some(Lookup(t, x, path).value.record) else None
  {
  }

  /** `pruneSourceRecords` returns the removed records in the registry's key order. */
  lemma {:induction false} PruneTableOrder(t: Table, path: string, group: Option<string>, keep: set<string>)
    requires TableValid(t)
    ensures PruneTable(t, path, group, keep).1 == PrunableRecords(t, t.keys, path, GroupKey(group), keep)
  {
    PruneKeysOrder(t, t.keys, path, GroupKey(group), keep);
  }

  /** Removal changes the inner table of its own key only. */
  lemma {:induction false} RemoveTouchesOneKey(t: Table, k: string, p: string)
    ensures forall k2 :: k2 in t.entries && k2 != k ==>
      k2 in RemoveTable(t, k, p).0.entries && RemoveTable(t, k, p).0.entries[k2] == t.entries[k2]
  {
  }

  /** `u` is `t` without exactly its prunable pairs at `path`. */
  ghost predicate PrunedExactly(t: Table, u: Table, path: string, target: string, keep: set<string>) {
    forall k, p :: (Lookup(u, k, p) == if p == path && Prunable(t, k, path, target, keep) then None else Lookup(t, k, p))
  }

  /** `removed` holds exactly the records of the prunable pairs of `t` at `path`. */
  ghost predicate RemovedExactly(t: Table, removed: seq<Record>, path: string, target: string, keep: set<string>) {
    forall r :: r in removed <==>
      exists k :: Prunable(t, k, path, target, keep) && Lookup(t, k, path).value.record == r
  }

  /** `pruneSourceRecords` as the source promises it, over the keys present at the start. */
  lemma {:induction false} PruneTableSpec(t: Table, path: string, group: Option<string>, keep: set<string>)
    requires TableValid(t)
    ensures TableValid(PruneTable(t, path, group, keep).0)
    ensures PrunedExactly(t, PruneTable(t, path, group, keep).0, path, GroupKey(group), keep)
    ensures RemovedExactly(t, PruneTable(t, path, group, keep).1, path, GroupKey(group), keep)
  {
    PruneTableLookup(t, path, group, keep);
    PruneTableRemoved(t, path, group, keep);
  }

  lemma {:induction false} PruneTableLookup(t: Table, path: string, group: Option<string>, keep: set<string>)
    requires TableValid(t)
    ensures TableValid(PruneTable(t, path, group, keep).0)
    ensures PrunedExactly(t, PruneTable(t, path, group, keep).0, path, GroupKey(group), keep)
  {
    PruneAllLookup(t, path, GroupKey(group), keep);
  }

  lemma {:induction false} PruneTableRemoved(t: Table, path: string, group: Option<string>, keep: set<string>)
    requires TableValid(t)
    ensures RemovedExactly(t, PruneTable(t, path, group, keep).1, path, GroupKey(group), keep)
  {
    PruneAllRemoved(t, path, GroupKey(group), keep);
  }

  /** Every prunable key is one of the keys the loop visits. */
  lemma {:induction false} PrunableListed(t: Table, path: string, target: string, keep: set<string>)
    requires TableValid(t)
    ensures forall k :: Prunable(t, k, path, target, keep) ==> k in t.keys
  {
    forall k | Prunable(t, k, path, target, keep) ensures k in t.keys {
      assert k in t.entries;
    }
  }

  lemma {:induction false} PruneAllLookup(t: Table, path: string, target: string, keep: set<string>)
    requires TableValid(t)
    ensures TableValid(PruneKeys(t, t.keys, path, target, keep).0)
    ensures forall k, p :: (Lookup(PruneKeys(t, t.keys, path, target, keep).0, k, p)
      == if p == path && Prunable(t, k, path, target, keep) then None else Lookup(t, k, p))
  {
    PruneKeysSpec(t, t.keys, path, target, keep);
    PrunableListed(t, path, target, keep);
  }

  lemma {:induction false} PruneAllRemoved(t: Table, path: string, target: string, keep: set<string>)
    requires TableValid(t)
    ensures forall r :: r in PruneKeys(t, t.keys, path, target, keep).1 <==>
      exists k :: Prunable(t, k, path, target, keep) && Lookup(t, k, path).value.record == r
  {
    PruneKeysSpec(t, t.keys, path, target, keep);
    PrunableListed(t, path, target, keep);
  }

  // ---------------------------------------------------------------------
  // getAll, getByGroup, getDuplicates
  // ---------------------------------------------------------------------

  /** The records of an inner table, in insertion order. */
  function InnerRecords(inner: OMap<string, Entry>): (rs: seq<Record>)
    requires inner.Valid()
    ensures |rs| == inner.Size()
    ensures forall i :: 0 <= i < |rs| ==> rs[i] == inner.entries[inner.keys[i]].record
  {
    var vs := inner.Values();
    seq(|vs|, i requires 0 <= i < |vs| => CloneRecord(vs[i]))
  }

  /** The records under the keys `ks`, key by key. */
  function RecordsUnder(t: Table, ks: seq<string>): seq<Record>
    requires TableValid(t) && forall k :: k in ks ==> k in t.entries
    decreases |ks|
  {
    if ks == [] then [] else RecordsUnder(t, ks[..|ks| - 1]) + InnerRecords(t.entries[ks[|ks| - 1]])
  }

  /** `getAll()`. */
  function AllRecords(t: Table): seq<Record>
    requires TableValid(t)
  {
    RecordsUnder(t, t.keys)
  }

  /** A record of an inner table is the record stored under one of its paths. */
  lemma {:induction false} InnerRecordsMembers(inner: OMap<string, Entry>)
    requires inner.Valid()
    ensures forall r :: r in InnerRecords(inner) <==> exists p :: p in inner.entries && inner.entries[p].record == r
  {
    var rs := InnerRecords(inner);
    forall r | r in rs ensures exists p :: p in inner.entries && inner.entries[p].record == r {
      var i :| 0 <= i < |rs| && rs[i] == r;
      assert inner.entries[inner.keys[i]].record == r;
    }
    forall p | p in inner.entries ensures inner.entries[p].record in rs {
      var i :| 0 <= i < |inner.keys| && inner.keys[i] == p;
      assert rs[i] == inner.entries[p].record;
    }
  }

  /** Some source path under one of the keys `ks` holds `r`. */
  ghost predicate StoredUnder(t: Table, ks: seq<string>, r: Record) {
    exists k, p :: k in ks && Lookup(t, k, p).Some? && Lookup(t, k, p).value.record == r
  }

  /** Being stored under one more key is being stored under the old keys or under the new one. */
  lemma {:induction false} StoredUnderSnoc(t: Table, front: seq<string>, x: string, r: Record)
    requires x in t.entries
    ensures StoredUnder(t, front + [x], r) <==>
      StoredUnder(t, front, r) || exists p :: p in t.entries[x].entries && t.entries[x].entries[p].record == r
  {
    if StoredUnder(t, front + [x], r) {
      var k, p :| k in front + [x] && Lookup(t, k, p).Some? && Lookup(t, k, p).value.record == r;
      if k != x {
        assert k in front;
      }
    }
    if StoredUnder(t, front, r) {
      var k, p :| k in front && Lookup(t, k, p).Some? && Lookup(t, k, p).value.record == r;
      assert k in front + [x];
    }
    if exists p :: p in t.entries[x].entries && t.entries[x].entries[p].record == r {
      var p :| p in t.entries[x].entries && t.entries[x].entries[p].record == r;
      assert x in front + [x] && Lookup(t, x, p).Some?;
    }
  }

  lemma {:induction false} RecordsUnderMembers(t: Table, ks: seq<string>)
    requires TableValid(t) && forall k :: k in ks ==> k in t.entries
    ensures forall r :: r in RecordsUnder(t, ks) <==> StoredUnder(t, ks, r)
    ensures |RecordsUnder(t, ks)| == SizesUnder(t, ks)
    decreases |ks|
  {
    if ks != [] {
      var front, x := ks[..|ks| - 1], ks[|ks| - 1];
      assert ks == front + [x];
      RecordsUnderMembers(t, front);
      InnerRecordsMembers(t.entries[x]);
      SizesSnoc(t, front, x);
      forall r ensures r in RecordsUnder(t, ks) <==> StoredUnder(t, ks, r) {
        StoredUnderSnoc(t, front, x, r);
      }
    } else {
      forall r ensures !StoredUnder(t, ks, r) {
      }
    }
  }

  /** `getAll()` lists each stored record, and as many records as `size()` counts. */
  lemma {:induction false} AllRecordsSpec(t: Table)
    requires TableValid(t)
    ensures forall r :: r in AllRecords(t) <==> exists k, p :: Lookup(t, k, p).Some? && Lookup(t, k, p).value.record == r
    ensures |AllRecords(t)| == TotalSize(t)
  {
    RecordsUnderMembers(t, t.keys);
    forall r ensures StoredUnder(t, t.keys, r) <==> exists k, p :: Lookup(t, k, p).Some? && Lookup(t, k, p).value.record == r {
      if exists k, p :: Lookup(t, k, p).Some? && Lookup(t, k, p).value.record == r {
        var k, p :| Lookup(t, k, p).Some? && Lookup(t, k, p).value.record == r;
        assert k in t.keys;
      }
    }
  }

  /** A record's group compared by `getByGroup`: lowercased only, absent as "". */
  predicate InGroup(r: Record, normalized: string) {
    Lower(r.group.GetOr("")) == normalized
  }

  /** The records of `rs` in the group, in order. */
  function FilterGroup(rs: seq<Record>, normalized: string): (out: seq<Record>)
    ensures forall r :: r in out <==> r in rs && InGroup(r, normalized)
    decreases |rs|
  {
    if rs == [] then []
    else
      var front := FilterGroup(rs[..|rs| - 1], normalized);
      assert rs == rs[..|rs| - 1] + [rs[|rs| - 1]];
      if InGroup(rs[|rs| - 1], normalized) then front + [rs[|rs| - 1]] else front
  }

  /** The group's records keep the order they have in the list filtered. */
  lemma {:induction false} FilterGroupKeepsOrder(rs: seq<Record>, normalized: string)
    ensures SubsequenceOf(FilterGroup(rs, normalized), rs)
    decreases |rs|
  {
    if rs == [] {
      assert PicksOut([], FilterGroup(rs, normalized), rs);
    } else {
      var front := rs[..|rs| - 1];
      FilterGroupKeepsOrder(front, normalized);
      var g :| PicksOut(g, FilterGroup(front, normalized), front);
      PicksOutSnoc(g, FilterGroup(front, normalized), rs);
    }
  }

  /** `getByGroup` lists the group's records in the order `getAll` does. */
  lemma {:induction false} ByGroupOrder(t: Table, group: string)
    requires TableValid(t)
    ensures SubsequenceOf(ByGroup(t, group), AllRecords(t))
  {
    if Lower(Trim(group)) == "" {
      assert PicksOut([], ByGroup(t, group), AllRecords(t));
    } else {
      FilterGroupKeepsOrder(AllRecords(t), Lower(Trim(group)));
    }
  }

  /** Filtering a concatenation filters each part. */
  lemma {:induction false} FilterGroupConcat(a: seq<Record>, b: seq<Record>, normalized: string)
    ensures FilterGroup(a + b, normalized) == FilterGroup(a, normalized) + FilterGroup(b, normalized)
    decreases |b|
  {
    if b == [] {
      assert a + b == a;
    } else {
      assert (a + b)[..|a + b| - 1] == a + b[..|b| - 1];
      FilterGroupConcat(a, b[..|b| - 1], normalized);
    }
  }

  /** The records in the group under one more key are those before it, then that key's. */
  lemma {:induction false} FilterUnderStep(t: Table, i: nat, normalized: string)
    requires TableValid(t) && i < |t.keys|
    ensures FilterGroup(RecordsUnder(t, t.keys[..i + 1]), normalized)
      == FilterGroup(RecordsUnder(t, t.keys[..i]), normalized) + FilterGroup(InnerRecords(t.entries[t.keys[i]]), normalized)
  {
    assert t.keys[..i + 1][..i] == t.keys[..i];
    FilterGroupConcat(RecordsUnder(t, t.keys[..i]), InnerRecords(t.entries[t.keys[i]]), normalized);
  }

  /** `getByGroup(group)`: nothing for a blank group, else the records whose group matches. */
  function ByGroup(t: Table, group: string): seq<Record>
    requires TableValid(t)
  {
    var normalized := Lower(Trim(group));
    if normalized == "" then [] else FilterGroup(AllRecords(t), normalized)
  }

  lemma {:induction false} ByGroupSpec(t: Table, group: string)
    requires TableValid(t)
    ensures Trim(group) == "" ==> ByGroup(t, group) == []
    ensures forall r :: r in ByGroup(t, group) <==>
      && Trim(group) != ""
      && InGroup(r, Lower(Trim(group)))
      && exists k, p :: Lookup(t, k, p).Some? && Lookup(t, k, p).value.record == r
  {
    AllRecordsSpec(t);
    LowerEmpty(Trim(group));
  }

  /** Lowercasing keeps a string empty exactly when it was. */
  lemma LowerEmpty(s: string)
    ensures Lower(s) == "" <==> s == ""
  {
  }

  /** The key -> records table of the keys in `ks` with more than one source path. */
  function DuplicatesUnder(t: Table, ks: seq<string>): OMap<string, seq<Record>>
    requires TableValid(t) && forall k :: k in ks ==> k in t.entries
    decreases |ks|
  {
    if ks == [] then Empty()
    else
      var before := DuplicatesUnder(t, ks[..|ks| - 1]);
      var perKey := t.entries[ks[|ks| - 1]];
      if perKey.Size() > 1 then before.Put(ks[|ks| - 1], InnerRecords(perKey)) else before
  }

  /** `getDuplicates()`. */
  function Duplicates(t: Table): OMap<string, seq<Record>>
    requires TableValid(t)
  {
    DuplicatesUnder(t, t.keys)
  }

  lemma {:induction false} DuplicatesUnderSpec(t: Table, ks: seq<string>)
    requires TableValid(t) && forall k :: k in ks ==> k in t.entries
    ensures DuplicatesUnder(t, ks).Valid()
    ensures forall k :: k in DuplicatesUnder(t, ks).entries <==> k in ks && t.entries[k].Size() > 1
    ensures forall k :: k in DuplicatesUnder(t, ks).entries ==> DuplicatesUnder(t, ks).entries[k] == InnerRecords(t.entries[k])
    decreases |ks|
  {
    if ks != [] {
      var front := ks[..|ks| - 1];
      assert ks == front + [ks[|ks| - 1]];
      DuplicatesUnderSpec(t, front);
    }
  }

  /** `getDuplicates()` maps exactly the keys with more than one source path to their records. */
  lemma {:induction false} DuplicatesSpec(t: Table)
    requires TableValid(t)
    ensures Duplicates(t).Valid()
    ensures forall k :: k in Duplicates(t).entries <==> k in t.entries && t.entries[k].Size() > 1
    ensures forall k :: k in Duplicates(t).entries ==> Duplicates(t).entries[k] == InnerRecords(t.entries[k])
  {
    DuplicatesUnderSpec(t, t.keys);
  }

  /** Removing one of a key's two source paths leaves that key without duplicates. */
  lemma {:induction false} RemoveOneOfTwo(t: Table, k: string, p: string)
    requires TableValid(t) && Lookup(t, k, p).Some? && t.entries[k].Size() == 2
    ensures TableValid(RemoveTable(t, k, p).0)
    ensures k !in Duplicates(RemoveTable(t, k, p).0).entries
  {
    RemovePresent(t, k, p);
    DuplicatesSpec(RemoveTable(t, k, p).0);
  }

  // ---------------------------------------------------------------------
  // The loops of the getters and of pruning
  // ---------------------------------------------------------------------

  /** The inner loop of `getAll()`: each record of `perKey` copied onto `results`. */
  method PushInner(results: seq<Record>, perKey: OMap<string, Entry>) returns (r: seq<Record>)
    requires perKey.Valid()
    ensures r == results + InnerRecords(perKey)
  {
    r := results;
    var j := 0;
    while j < |perKey.keys|
      invariant 0 <= j <= |perKey.keys|
      invariant r == results + InnerRecords(perKey)[..j]
    {
      assert InnerRecords(perKey)[..j + 1] == InnerRecords(perKey)[..j] + [InnerRecords(perKey)[j]];
      r := r + [CloneRecord(perKey.entries[perKey.keys[j]])];
      j := j + 1;
    }
    assert InnerRecords(perKey)[..j] == InnerRecords(perKey);
  }

  /** The inner loop of `getByGroup()`: the records of `perKey` in the group copied onto `results`. */
  method PushInGroup(results: seq<Record>, perKey: OMap<string, Entry>, normalized: string) returns (r: seq<Record>)
    requires perKey.Valid()
    ensures r == results + FilterGroup(InnerRecords(perKey), normalized)
  {
    r := results;
    var j := 0;
    while j < |perKey.keys|
      invariant 0 <= j <= |perKey.keys|
      invariant r == results + FilterGroup(InnerRecords(perKey)[..j], normalized)
    {
      var entry := perKey.entries[perKey.keys[j]];
      assert InnerRecords(perKey)[..j + 1] == InnerRecords(perKey)[..j] + [InnerRecords(perKey)[j]];
      if Lower(entry.record.group.GetOr("")) == normalized {
        r := r + [CloneRecord(entry)];
      }
      j := j + 1;
    }
    assert InnerRecords(perKey)[..j] == InnerRecords(perKey);
  }

  /** What the loop of `pruneSourceRecords` may rely on when it reaches key `i`. */
  lemma {:induction false} PruneVisit(t: Table, i: nat, path: string, target: string, keep: set<string>)
    requires TableValid(t) && i < |t.keys|
    ensures TableValid(PruneKeys(t, t.keys[..i], path, target, keep).0)
    ensures t.keys[i] in PruneKeys(t, t.keys[..i], path, target, keep).0.entries
    ensures PruneKeys(t, t.keys[..i], path, target, keep).0.entries[t.keys[i]] == t.entries[t.keys[i]]
    ensures PruneKeys(t, t.keys[..i + 1], path, target, keep) ==
      var before := PruneKeys(t, t.keys[..i], path, target, keep);
      var step := PruneStep(before.0, t.keys[i], path, target, keep);
      (step.0, if step.1.Some? then before.1 + [step.1.value] else before.1)
  {
    var ks := t.keys[..i];
    assert t.keys[..i + 1][..i] == ks;
    assert Distinct(ks) by {
      forall a, b | 0 <= a < b < |ks| ensures ks[a] != ks[b] {
        assert ks[a] == t.keys[a] && ks[b] == t.keys[b];
      }
    }
    assert t.keys[i] !in ks by {
      forall a | 0 <= a < i ensures ks[a] != t.keys[i] {
        assert ks[a] == t.keys[a];
      }
    }
    PruneKeysSpec(t, ks, path, target, keep);
  }

  /** The body of the loop of `pruneSourceRecords`, for the key `habitKey`. */
  method PruneOne(table: Table, habitKey: string, sourcePath: string, targetGroup: string, keep: set<string>)
    returns (t: Table, pruned: Option<Record>)
    requires habitKey in table.entries
    ensures (t, pruned) == PruneStep(table, habitKey, sourcePath, targetGroup, keep)
  {
    t, pruned := table, None;
    var perKey := table.entries[habitKey];
    var existing := if sourcePath in perKey.entries then Some(perKey.entries[sourcePath]) else None;
    if existing.None? {
      return;
    }
    var entryGroup := Lower(Trim(existing.value.record.group.GetOr("")));
    if targetGroup != "" && entryGroup != targetGroup {
      return;
    }
    if habitKey in keep {
      return;
    }
    pruned := Some(CloneRecord(existing.value));
    perKey := perKey.Remove(sourcePath);
    if perKey.Size() == 0 {
      t := table.Remove(habitKey);
    } else {
      t := table.Put(habitKey, perKey);
    }
  }

  /** One key of the loop of `getDuplicates()`. */
  lemma {:induction false} DuplicatesStep(t: Table, i: nat)
    requires TableValid(t) && i < |t.keys|
    ensures DuplicatesUnder(t, t.keys[..i + 1]) ==
      if t.entries[t.keys[i]].Size() > 1
      then DuplicatesUnder(t, t.keys[..i]).Put(t.keys[i], InnerRecords(t.entries[t.keys[i]]))
      else DuplicatesUnder(t, t.keys[..i])
  {
    assert t.keys[..i + 1][..i] == t.keys[..i];
  }

  // ---------------------------------------------------------------------
  // The class
  // ---------------------------------------------------------------------

  /** Creating a missing inner table and then replacing it is storing the final one. */
  lemma {:induction false} PutInPlace<V>(t: OMap<string, V>, k: string, created: V, inner: V)
    ensures (if k in t.entries then t else t.Put(k, created)).Put(k, inner) == t.Put(k, inner)
  {
    if k !in t.entries {
      PutTwice(t, k, created, inner);
    }
  }

  /** Setting a key twice keeps the last value, at the place the first set gave it. */
  lemma PutTwice<V>(t: OMap<string, V>, k: string, a: V, b: V)
    ensures t.Put(k, a).Put(k, b) == t.Put(k, b)
  {
  }

  /** `HabitRegistry`: the table in its field `records`. */
  class HabitRegistry {
    var records: Table

    ghost predicate Valid()
      reads this
    {
      TableValid(records)
    }

    constructor()
      ensures Valid() && records == Empty()
    {
      records := Empty();
    }

    /** `upsert(input)`, with `now` standing for `Date.now()`. */
    method Upsert(input: Input, now: int) returns (changed: bool, record: Record)
      requires Valid()
      modifies this
      ensures Valid()
      ensures (records, changed, record) == UpsertTable(old(records), input, now)
    {
      var start := records;
      var k := input.habitKey;
      var entry := MakeEntry(input, now);
      var table := start;
      var perKey: OMap<string, Entry>;
      if k in table.entries {
        perKey := table.entries[k];
      } else {
        perKey := Empty();
        table := table.Put(k, perKey);
      }
      var existing := if input.sourcePath in perKey.entries then Some(perKey.entries[input.sourcePath]) else None;
      // The source updates the inner map in place, so the outer map sees the new entry.
      var inner := perKey.Put(input.sourcePath, entry);
      PutInPlace(start, k, perKey, inner);
      table := table.Put(k, inner);
      changed := existing.None? || existing.value.fingerprint != entry.fingerprint;
      record := CloneRecord(entry);
      UpsertValid(start, input, now);
      var expected := UpsertTable(start, input, now);
      assert table == expected.0;
      assert changed == expected.1;
      assert record == expected.2;
      records := table;
    }

    /** `remove(habitKey, sourcePath)`; `None` stands for `null`. */
    method Remove(habitKey: string, sourcePath: string) returns (removed: Option<Record>)
      requires Valid()
      modifies this
      ensures Valid()
      ensures (records, removed) == RemoveTable(old(records), habitKey, sourcePath)
    {
      RemoveValid(records, habitKey, sourcePath);
      if habitKey !in records.entries {
        return None;
      }
      var perKey := records.entries[habitKey];
      if sourcePath !in perKey.entries {
        return None;
      }
      var existing := perKey.entries[sourcePath];
      perKey := perKey.Remove(sourcePath);
      if perKey.Size() == 0 {
        records := records.Remove(habitKey);
      } else {
        records := records.Put(habitKey, perKey);
      }
      removed := Some(CloneRecord(existing));
    }

    /** `clear()`. */
    method Clear()
      modifies this
      ensures Valid() && records == Empty()
    {
      records := Empty();
    }

    /** `pruneSourceRecords(sourcePath, group, keep)`; `keep` is the set of kept habit keys. */
    method PruneSourceRecords(sourcePath: string, group: Option<string>, keep: set<string>) returns (removed: seq<Record>)
      requires Valid()
      modifies this
      ensures Valid()
      ensures (records, removed) == PruneTable(old(records), sourcePath, group, keep)
    {
      var targetGroup := match group case Some(g) => Lower(Trim(g)) case None => "";
      assert targetGroup == GroupKey(group);
      var start := records;
      var table := records;
      removed := [];
      var i := 0;
      while i < |start.keys|
        invariant 0 <= i <= |start.keys|
        invariant (table, removed) == PruneKeys(start, start.keys[..i], sourcePath, targetGroup, keep)
      {
        PruneVisit(start, i, sourcePath, targetGroup, keep);
        var pruned;
        table, pruned := PruneOne(table, start.keys[i], sourcePath, targetGroup, keep);
        if pruned.Some? {
          removed := removed + [pruned.value];
        }
        i := i + 1;
      }
      assert start.keys[..i] == start.keys;
      PruneTableLookup(start, sourcePath, group, keep);
      records := table;
    }

    /** `getAll()`. */
    method GetAll() returns (results: seq<Record>)
      requires Valid()
      ensures results == AllRecords(records)
    {
      var table := records;
      results := [];
      var i := 0;
      while i < |table.keys|
        invariant 0 <= i <= |table.keys|
        invariant results == RecordsUnder(table, table.keys[..i])
      {
        assert table.keys[..i + 1][..i] == table.keys[..i];
        results := PushInner(results, table.entries[table.keys[i]]);
        i := i + 1;
      }
      assert table.keys[..i] == table.keys;
    }

    /** `getByGroup(group)`. */
    method GetByGroup(group: string) returns (results: seq<Record>)
      requires Valid()
      ensures results == ByGroup(records, group)
    {
      var table := records;
      var normalized := Lower(Trim(group));
      if normalized == "" {
        return [];
      }
      results := [];
      var i := 0;
      while i < |table.keys|
        invariant 0 <= i <= |table.keys|
        invariant results == FilterGroup(RecordsUnder(table, table.keys[..i]), normalized)
      {
        FilterUnderStep(table, i, normalized);
        results := PushInGroup(results, table.entries[table.keys[i]], normalized);
        i := i + 1;
      }
      assert table.keys[..i] == table.keys;
    }

    /** `getDuplicates()`. */
    method GetDuplicates() returns (duplicates: OMap<string, seq<Record>>)
      requires Valid()
      ensures duplicates == Duplicates(records)
    {
      var table := records;
      duplicates := Empty();
      var i := 0;
      while i < |table.keys|
        invariant 0 <= i <= |table.keys|
        invariant duplicates == DuplicatesUnder(table, table.keys[..i])
      {
        var perKey := table.entries[table.keys[i]];
        DuplicatesStep(table, i);
        if perKey.Size() > 1 {
          var copies := PushInner([], perKey);
          assert copies == InnerRecords(perKey) by {
            assert [] + InnerRecords(perKey) == InnerRecords(perKey);
          }
          duplicates := duplicates.Put(table.keys[i], copies);
        }
        i := i + 1;
      }
      assert table.keys[..i] == table.keys;
    }

    /** `size()`. */
    method Size() returns (count: nat)
      requires Valid()
      ensures count == TotalSize(records)
    {
      var table := records;
      count := 0;
      var i := 0;
      while i < |table.keys|
        invariant 0 <= i <= |table.keys|
        invariant count == SizesUnder(table, table.keys[..i])
      {
        SizesSnoc(table, table.keys[..i], table.keys[i]);
        assert table.keys[..i + 1] == table.keys[..i] + [table.keys[i]];
        count := count + table.entries[table.keys[i]].Size();
        i := i + 1;
      }
      assert table.keys[..i] == table.keys;
    }
  }
}
