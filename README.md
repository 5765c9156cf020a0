# sqlmesh snapshots, modelled in Dafny

This project models the snapshot core of sqlmesh (`sqlmesh/core/snapshot/definition.py`)
and proves what it promises. A *snapshot* is one version of one model. It records:

- the model's *fingerprint* (hashes of its data, its metadata and its parents);
- the *change category* the user gave the change, and the *version* that category selects;
- the physical table names derived from the version;
- the lists of half-open `[start, end)` epoch intervals already loaded into the main table and into the development table.

The modules follow the structure of the source file:

| module | models |
|---|---|
| `Wrappers`, `Errors`, `Sorting`, `Sequences` | `Option` and `Result`; the raised errors as values; Python's `sorted` on tuples and strings; small sequence facts |
| `Categories` | `SnapshotChangeCategory` and its values |
| `Fingerprints` | `SnapshotFingerprint`, `fingerprint_from_model` with its caller-owned cache (a class), `_parents_from_model` |
| `Intervals` | the free functions `merge_intervals` and `remove_interval` (loops, as methods) and the interval algebra behind them |
| `Naming` | `QualifiedViewName`, the free function `table_name`, `is_temporary_table` and `_table_name` |
| `Versions` | `SnapshotId`, `SnapshotDataVersion`, `SnapshotTableInfo`, `previous_version`, `all_versions` |
| `Schedules` | the cron schedule as an abstract floor/next pair, `inclusive_exclusive`, and the phases of `missing_intervals` (building `dates`, then scanning them) |
| `IntervalLists` | what `add_interval`, `remove_interval` and the `merge_intervals` method do to the two interval lists, as functions of the lists |
| `Snapshots` | the `Snapshot` class, whose methods update its fields in place; `to_table_mapping`; `has_paused_forward_only` |

Each stateful `Snapshot` method is proved equal to a function of the old state in `IntervalLists` or `Schedules`. The invariants are proved about those functions:

- hydrated lists stay normalised (sorted, non-empty, neither overlapping nor touching);
- coverage is exactly the old coverage plus or minus the interval;
- the development list is touched only when the rules say so;
- an inherited history ends at the cutover.

Exceptions the source raises are `Failure` values. The interval loops (`merge_intervals`, `remove_interval`, the `dates` loop and the slot scan of `missing_intervals`, `to_table_mapping`, `has_paused_forward_only`) are methods with loops. Each is proved equal to a recursive specification function.

Inputs from outside the file are parameters:

- The crc32 hash is a function parameter (`Hasher`) whose only known property is that it returns a non-empty string. Two lemmas go further and assume it is injective, as a named hypothesis.
- The cron schedule is a `Schedule(floor, gap)`: `next(t) = t + 1 + gap(t)`, so each tick is strictly after the previous one.
- The timestamp arithmetic of `to_timestamp` is taken to be the identity on epoch values. A `TimeLike` carries its epoch value and whether it is a date.
- `parse_model_name` from `sqlmesh.utils` is not part of this model: a model's schema (`ModelInfo.schema`) and the catalog, schema and table parts of a `QualifiedViewName` are given, not parsed from the name.
- The acyclic dependency graph is a `rank` witness (`Ranked`), which also demands that `models` hold each model under its own name.
- A model's `depends_on` is a sequence. The source iterates whatever collection it holds; that order decides which failing parent raises first and what is cached before the error. The fingerprint itself does not depend on it (`FingerprintIgnoresDependencyOrder`).
- The constants come from `sqlmesh.core.constants`, which is not part of this model: `SQLMESH = "sqlmesh"`, `DEFAULT_SCHEMA = "default"`, `PROD = "prod"` and `DATA_VERSION_LIMIT = 10`.

## Model

| member | source | states |
|---|---|---|
| Categories.Value | sqlmesh/core/snapshot/definition.py:57-61 | every category's value lies between 1 and 5, the range the `IntEnum` assigns |
| Categories.FromValue | sqlmesh/core/snapshot/definition.py:57-61 | a category is found for exactly the values 1 to 5, and it is the one with that value |
| Categories.FromValueOfValue | sqlmesh/core/snapshot/definition.py:57-61 | every category is recovered from its value |
| Categories.ValueInjective | sqlmesh/core/snapshot/definition.py:57-61 | distinct categories have distinct values |
| Fingerprints.VersionIgnoresMetadata | sqlmesh/core/snapshot/definition.py:84-101 | fingerprints that agree on the data hash and the parent data hash have the same version, whatever their metadata |
| Fingerprints.IdentifierDeterminesFingerprint | sqlmesh/core/snapshot/definition.py:93-101 | with a collision-free hash, equal identifiers mean equal fingerprints, and so equal versions |
| Fingerprints.DataChangeChangesVersion | sqlmesh/core/snapshot/definition.py:90-91 | with a collision-free hash, a different data hash gives a different version |
| Fingerprints.ParentHashesIgnoreOrder | sqlmesh/core/snapshot/definition.py:915-919 | both parent hashes depend only on the multiset of parents, not on their order, because the parts are sorted before hashing |
| Fingerprints.FingerprintIgnoresDependencyOrder | sqlmesh/core/snapshot/definition.py:903-925 | permuting a model's `depends_on` leaves its fingerprint unchanged |
| Fingerprints.NoParentsHash | sqlmesh/core/snapshot/definition.py:903-919 | a model with no dependency among `models` gets the hash of the empty list as both parent hashes |
| Fingerprints.ParentsFromModelExactly | sqlmesh/core/snapshot/definition.py:1047-1058 | `_parents_from_model` returns exactly the tables reached from the model's dependencies through a chain of embedded models |
| Fingerprints.ParentsWithoutEmbedding | sqlmesh/core/snapshot/definition.py:1047-1058 | when no dependency is embedded the parents are exactly the dependencies present in `models` |
| Fingerprints.ParentTablesSound | sqlmesh/core/snapshot/definition.py:1047-1058 | every returned parent is reached through embedded models |
| Fingerprints.ParentTablesComplete | sqlmesh/core/snapshot/definition.py:1047-1058 | every table reached through embedded models is returned |
| Fingerprints.FirstUnknownAudit | sqlmesh/core/snapshot/definition.py:1006-1030 | there is an unknown audit exactly when some audit name is neither built in nor supplied, and the first one reported is the least such name in sorted order |
| Fingerprints.FingerprintFromModel | sqlmesh/core/snapshot/definition.py:878-928 | the result and the cache it leaves are those of the memoised specification `Memoised`, starting from the cache the caller passed |
| Fingerprints.MemoisedCached | sqlmesh/core/snapshot/definition.py:903-928 | a model already in the cache gets its cached fingerprint back, and the cache is unchanged |
| Fingerprints.MemoisedCachesModel | sqlmesh/core/snapshot/definition.py:921-928 | after a successful call the cache holds the returned fingerprint under the model's name |
| Fingerprints.MemoisedGrows | sqlmesh/core/snapshot/definition.py:901-928 | the cache only grows: no entry is overwritten, and only the model and models ranked below it are added |
| Fingerprints.MemoisedSound | sqlmesh/core/snapshot/definition.py:878-928 | starting from a sound cache the result is the fingerprint an empty cache would give, so memoisation never changes the answer |
| Fingerprints.MemoisedClosed | sqlmesh/core/snapshot/definition.py:903-924 | a closed cache (every cached model has its dependencies cached) stays closed |
| Fingerprints.MemoisedCachesReachable | sqlmesh/core/snapshot/definition.py:903-924 | after a successful call every model reachable from the model's dependencies is cached |
| Fingerprints.MemoisedAudits | sqlmesh/core/snapshot/definition.py:1006-1030 | the only failure is an unknown audit, and when every audit reachable from the model is known the call succeeds |
| Intervals.SortIntervals | sqlmesh/core/snapshot/definition.py:1070 | `sorted(intervals)` returns a permutation of its input |
| Intervals.IntervalLeIsTotalOrder | sqlmesh/core/snapshot/definition.py:1070 | Python's tuple order on `(start, end)` is a total order |
| Sorting.SortSorted | sqlmesh/core/snapshot/definition.py:1070 | `sorted` under a total order returns an ordered list |
| Sorting.SortIgnoresOrder | sqlmesh/core/snapshot/definition.py:915-919 | `sorted` of two permutations of one list gives the same list, which makes the parent hashes order-independent |
| Sorting.SortOfSorted | sqlmesh/core/snapshot/definition.py:1070 | sorting an ordered list changes nothing |
| Sorting.StringLeIsTotalOrder | sqlmesh/core/snapshot/definition.py:915-919 | Python's string comparison is a total order |
| Intervals.MergeIntervals | sqlmesh/core/snapshot/definition.py:1061-1082 | an empty list fails, as the source's `intervals[0]` does; otherwise the loop's result is the specification `Merge` of the input |
| Intervals.MergeSeparated | sqlmesh/core/snapshot/definition.py:1061-1082 | merged intervals neither overlap nor touch, and each ends before any later one starts |
| Intervals.MergeWellFormed | sqlmesh/core/snapshot/definition.py:1061-1082 | merging keeps every interval well formed (start not after end) |
| Intervals.MergeNormalized | sqlmesh/core/snapshot/definition.py:1061-1082 | merging non-empty intervals gives a normalised list |
| Intervals.MergeCovers | sqlmesh/core/snapshot/definition.py:1061-1082 | the merge covers exactly the points its input covers |
| Intervals.MergeIdempotent | sqlmesh/core/snapshot/definition.py:1061-1082 | merging a merged list changes nothing |
| Intervals.RemoveInterval | sqlmesh/core/snapshot/definition.py:1099-1127 | the loop's result is the specification `Removed`: the pieces of each stored interval, in order |
| Intervals.RemovedAppend | sqlmesh/core/snapshot/definition.py:1114-1125 | removal works interval by interval, so it distributes over concatenation |
| Intervals.RemovedCovers | sqlmesh/core/snapshot/definition.py:1099-1127 | removal keeps exactly the stored points outside `[remove_start, remove_end)` |
| Intervals.RemovedNormalized | sqlmesh/core/snapshot/definition.py:1099-1127 | removing a non-empty range from a normalised list leaves it normalised |
| Intervals.RemovedKeepsDisjoint | sqlmesh/core/snapshot/definition.py:1114-1125 | stored intervals that do not overlap the removed range are kept unchanged |
| Intervals.RemovedDropsContained | sqlmesh/core/snapshot/definition.py:1114-1125 | stored intervals wholly inside the removed range are dropped |
| Intervals.RemoveSplitsContaining | sqlmesh/core/snapshot/definition.py:1115-1121 | removing `[120, 150)` from `[(100, 200)]` gives `[(100, 120), (150, 200)]` |
| Intervals.AppendedNormalized | sqlmesh/core/snapshot/definition.py:500-511 | appending a non-empty interval, then merging once there are two, gives a normalised list |
| Intervals.AppendedCovers | sqlmesh/core/snapshot/definition.py:500-511 | after appending, the list covers its old points and exactly those of the new interval besides |
| Intervals.AppendedInserts | sqlmesh/core/snapshot/definition.py:500-511 | appending a separate interval to a normalised list inserts it at its ordered place |
| Intervals.RemovedInsertion | sqlmesh/core/snapshot/definition.py:1099-1127 | removing an interval from an ordered insertion of it takes exactly it out again |
| Intervals.AddRemoveRoundTrip | sqlmesh/core/snapshot/definition.py:487-525 | adding an interval separate from the stored ones and then removing it restores the stored list |
| Naming.OrElse | sqlmesh/core/snapshot/definition.py:158 | Python's `or` on an optional string: the value unless it is `None` or empty, else the default |
| Naming.Lower | sqlmesh/core/snapshot/definition.py:188 | `lower()` keeps the length and lower-cases each ASCII letter |
| Naming.SchemaForEnvironmentCases | sqlmesh/core/snapshot/definition.py:186-190 | `prod` in any letter case reads the base schema; any other environment reads the base schema, `__`, and the environment name |
| Naming.EnvironmentsIsolated | sqlmesh/core/snapshot/definition.py:186-190 | a non-production environment never shares its schema with production, and two different ones never share a schema |
| Naming.ForEnvironmentShape | sqlmesh/core/snapshot/definition.py:175-184 | the view name is `catalog.schema.table`, or `schema.table` without a catalog |
| Naming.ReplaceDots | sqlmesh/core/snapshot/definition.py:873-875 | `replace(".", "__")` leaves no dot and keeps a dot-free name as it is |
| Naming.TableNameSplits | sqlmesh/core/snapshot/definition.py:873-875 | with dot-free schema and version the table name holds one dot: it splits back into the physical schema and a dot-free table part |
| Naming.TablePartStartsWithName | sqlmesh/core/snapshot/definition.py:873-875 | the table part starts with the rewritten model name and `__` |
| Naming.TemporaryNameDistinct | sqlmesh/core/snapshot/definition.py:873-875 | a temporary table's name is the regular name plus `__temp`, so the two never clash |
| Naming.UsesTempDecisions | sqlmesh/core/snapshot/definition.py:262-273 | production never uses a temporary table; writing in development uses one exactly when `is_temporary_table` holds; reading does so only for a direct forward-only change, and every temporary table read is also written |
| Naming.ResolvedTableName | sqlmesh/core/snapshot/definition.py:254-281 | a regular table is named with the version; a temporary table with `temp_version`, or the fingerprint's version when it is unset or empty |
| Versions.DataVersion.PhysicalSchema | sqlmesh/core/snapshot/definition.py:154-158 | a stored non-empty physical schema is returned; a missing or empty one reads as `sqlmesh` |
| Versions.DataVersion.Id | sqlmesh/core/snapshot/definition.py:151-152 | the id carries the given name |
| Versions.PreviousVersion | sqlmesh/core/snapshot/definition.py:219-224 | there is a previous version exactly when the history is non-empty, and it is the last entry |
| Versions.AllVersions | sqlmesh/core/snapshot/definition.py:246-249 | the history followed by the current version, trimmed to the most recent `DATA_VERSION_LIMIT`: its length is the smaller of the two, it is a suffix, and it ends with the current version |
| Versions.AllVersionsSlides | sqlmesh/core/snapshot/definition.py:246-249 | on a full history one more version drops the oldest and keeps the rest in order |
| Versions.TableInfoDataVersion | sqlmesh/core/snapshot/definition.py:284-330 | a table info and its data version agree on the version, on novelty and on the id; an empty physical schema on the table info reads back as `sqlmesh` |
| Schedules.Schedule.InclusiveExclusive | sqlmesh/core/snapshot/definition.py:527-551 | the pair is the floor of `start` and the exclusive end; it fails exactly when the end is not after the start (strict) or is before it (not strict) |
| Schedules.InclusiveExclusiveModes | sqlmesh/core/snapshot/definition.py:527-551 | strict success implies non-strict success with the same pair; they differ only on an empty pair |
| Schedules.DateEndIsInclusive | sqlmesh/core/snapshot/definition.py:542-544 | a date end is inclusive: the exclusive end lies after it |
| Schedules.TicksBelow | sqlmesh/core/snapshot/definition.py:620-627 | the ticks after the start and below `end_ts` ascend strictly, and the tick after the last one is at or past `end_ts` |
| Schedules.LookbackTicks | sqlmesh/core/snapshot/definition.py:631-636 | at most `lookback` extra ticks, ascending and below `latest_ts` |
| Schedules.BuildDates | sqlmesh/core/snapshot/definition.py:615-636 | the two loops, with the cursor stepping back after overshooting, build exactly the specification `Dates` |
| Schedules.DatesShape | sqlmesh/core/snapshot/definition.py:615-640 | the dates ascend from `start_ts`; the slots are exactly the main ticks (none when `start_ts` equals `end_ts`) and lie in `[start_ts, end_ts)`; the lookback dates lie below `latest_ts` |
| Schedules.ScanMeansUnspanned | sqlmesh/core/snapshot/definition.py:657-664 | on intervals sorted by start, the `for ... else` scan reports a slot exactly when no stored interval spans it up to its comparison point |
| Schedules.CollectMissing | sqlmesh/core/snapshot/definition.py:638-666 | the slot loop returns the specification `MissingAmong`: no slot gives nothing, unhydrated lists fail, and otherwise the reported slots in order, compared at the intended point (see "## Left out") |
| Schedules.MissingSlotsAscending | sqlmesh/core/snapshot/definition.py:638-666 | the reported intervals have strictly ascending starts, are non-empty, and start within the slots |
| Schedules.MissingIffUnspanned | sqlmesh/core/snapshot/definition.py:638-664 | a slot is reported exactly when no stored interval spans it up to its comparison point |
| Schedules.MissingSlotsAll | sqlmesh/core/snapshot/definition.py:654-656 | with nothing to compare against, as for a restatement, every slot is reported, in order |
| Schedules.CompareTsAgree | sqlmesh/core/snapshot/definition.py:647 | the comparison point as written differs from the intended one only when the intended date is the epoch `0` |
| Schedules.MissingSlotsAgree | sqlmesh/core/snapshot/definition.py:638-664 | when no date is the epoch `0`, the scan with the comparison point as written reports exactly the same slots as the intended scan |
| Schedules.EpochSlotReportedMissing | sqlmesh/core/snapshot/definition.py:647 | with dates `[0, 10]`, no lookback and `[(0, 10)]` stored, the slot is covered, yet the scan as written reports it missing |
| IntervalLists.Init | sqlmesh/core/snapshot/definition.py:477-485 | both lists become hydrated; a hydrated list is kept as it is and an unhydrated one becomes empty |
| IntervalLists.AddToErrors | sqlmesh/core/snapshot/definition.py:487-502 | `add_interval` fails on an unhydrated target list, or exactly when the bounds normalise to an empty pair; a failure changes nothing |
| IntervalLists.AddToEffect | sqlmesh/core/snapshot/definition.py:487-511 | on success exactly one list changes (the development list exactly when `is_temporary_table` holds); it gains exactly the new interval's points and stays normalised |
| IntervalLists.RemoveFromEffect | sqlmesh/core/snapshot/definition.py:513-525 | a successful removal leaves each list with exactly its old points outside the removed range, normalised; a failure leaves the lists valid |
| IntervalLists.CutoverKeepsBefore | sqlmesh/core/snapshot/definition.py:562-568 | under a cutover an inherited interval is kept exactly when it starts before `effective_from`, and then only its part before it |
| IntervalLists.AddAllKeepsDev | sqlmesh/core/snapshot/definition.py:562-568 | inheriting main intervals never touches the development list |
| IntervalLists.AddAllValid | sqlmesh/core/snapshot/definition.py:562-572 | inheriting intervals keeps both lists valid |
| IntervalLists.AddAllBeforeCutover | sqlmesh/core/snapshot/definition.py:559-568 | under a cutover every point the main list gains lies before `effective_from` |
| IntervalLists.AddAllCovers | sqlmesh/core/snapshot/definition.py:562-572 | a successful inheriting loop changes only the list `add_interval` writes to, which then covers exactly its old points and those of every kept, cut and floored inherited interval |
| IntervalLists.InheritEffect | sqlmesh/core/snapshot/definition.py:553-572 | inheriting keeps both lists valid; from a different snapshot the development list is unchanged, under a cutover the main list gains only points before it, and on success the main list covers exactly its old points and the kept, cut and floored inherited ones; from the same snapshot the development intervals are added too, to the list `is_temporary_table(is_dev=True)` selects |
| Snapshots.Snapshot.EnsureCategorized | sqlmesh/core/snapshot/definition.py:861-865 | succeeds exactly when a category and a non-empty version are both set; otherwise reports not categorised, or else not versioned |
| Snapshots.Snapshot.CategorizeAs | sqlmesh/core/snapshot/definition.py:668-684 | forward-only and indirect non-breaking changes with a history reuse the last version and its physical schema; any other change takes the fingerprint's version; afterwards the snapshot is categorised, and versioned unless the reused version is empty |
| Snapshots.Snapshot.SetUnpausedTs | sqlmesh/core/snapshot/definition.py:686-692 | the snapshot is paused again exactly when no time is given; otherwise it holds the floor of the time given |
| Snapshots.Snapshot.InitIntervals | sqlmesh/core/snapshot/definition.py:477-485 | the new lists are `Init` of the old ones |
| Snapshots.Snapshot.AddInterval | sqlmesh/core/snapshot/definition.py:487-511 | the error and the new lists are `AddTo` of the old lists, whose effect `AddToEffect` states |
| Snapshots.Snapshot.RemoveInterval | sqlmesh/core/snapshot/definition.py:513-525 | the error and the new lists are `RemoveFrom` of the old lists, whose effect `RemoveFromEffect` states |
| Snapshots.Snapshot.AddInherited | sqlmesh/core/snapshot/definition.py:562-572 | one inheriting loop leaves the lists of `AddAll`, stopping at the first failing `add_interval` |
| Snapshots.Snapshot.MergeIntervals | sqlmesh/core/snapshot/definition.py:553-572 | the error and the new lists are `Inherit` of the old lists, with the cutover at the floor of `effective_from` (or none) |
| Snapshots.Snapshot.MissingIntervals | sqlmesh/core/snapshot/definition.py:574-666 | the result is the specification `MissingIntervalsOf`, whose consequences the lemmas below state |
| Snapshots.UncategorizedRaises | sqlmesh/core/snapshot/definition.py:694-831 | before categorisation the table names, data version, `is_new_version` and table info all raise not categorised |
| Snapshots.TableInfoAgrees | sqlmesh/core/snapshot/definition.py:790-831 | once versioned, the snapshot and its table info name the same tables and agree on the data version and its novelty; `all_versions` agree and end with the current data version |
| Snapshots.PhysicalSchemaCases | sqlmesh/core/snapshot/definition.py:781-788 | a stored physical schema wins, even an empty one; otherwise it is `sqlmesh__` and the model's schema, `default` when the name has none |
| Snapshots.MappingTempDecisions | sqlmesh/core/snapshot/definition.py:705-719 | children map to the regular table except for a paused forward-only snapshot in development, which maps to its temporary table |
| Snapshots.MissingSkipped | sqlmesh/core/snapshot/definition.py:597-599 | symbolic snapshots, and seeds that already hold intervals, miss nothing |
| Snapshots.MissingIntervalsOrdered | sqlmesh/core/snapshot/definition.py:574-666 | the missing intervals have strictly ascending starts, are non-empty, and start within the normalised `[start_ts, end_ts)` |
| Snapshots.MissingIntervalsExactly | sqlmesh/core/snapshot/definition.py:603-666 | on a normalised list a slot is reported exactly when the snapshot is restated or no stored interval spans it up to its intended comparison point; a restated snapshot reports every slot; nothing but slots is reported |
| Snapshots.MissingIntervalsAsWritten | sqlmesh/core/snapshot/definition.py:603-666 | for a normalised start after the epoch the result is exactly the scan with `seq_get(dates, i + lookback) or dates[-1]` as written |
| Snapshots.ToTableMapping | sqlmesh/core/snapshot/definition.py:1130-1135 | the loop returns the specification `TableMapping` |
| Snapshots.TableMappingFails | sqlmesh/core/snapshot/definition.py:1130-1135 | the mapping fails exactly when some versioned, non-symbolic snapshot is uncategorised, and then as not categorised |
| Snapshots.TableMappingKeys | sqlmesh/core/snapshot/definition.py:1130-1135 | the keys are exactly the names of the versioned, non-symbolic snapshots |
| Snapshots.TableMappingLastWins | sqlmesh/core/snapshot/definition.py:1130-1135 | a name maps to the mapping table of the last such snapshot carrying it |
| Snapshots.IndexById | sqlmesh/core/snapshot/definition.py:1142-1143 | indexing a list by id holds every snapshot's id, each under its own id |
| Snapshots.IndexByIdLastWins | sqlmesh/core/snapshot/definition.py:1142-1143 | every id present holds the snapshot at the last position carrying that id (`LastWithId`), so a later snapshot with a repeated id replaces an earlier one, as the dict comprehension keeps the last value written |
| Snapshots.HasPausedForwardOnly | sqlmesh/core/snapshot/definition.py:1138-1148 | the loop returns the specification `PausedForwardOnlyAmong` |
| Snapshots.FirstDecisive | sqlmesh/core/snapshot/definition.py:1144-1147 | every target before the decisive one is known and not both paused and forward-only; the decisive one is unknown, or paused and forward-only |
| Snapshots.PausedForwardOnlyDecided | sqlmesh/core/snapshot/definition.py:1138-1148 | the first decisive target settles the answer: true if paused and forward-only, an unknown-snapshot error naming it if unknown, and false if there is none |

## Left out

- The crc32 of `_hash` is a parameter: only its determinism is used, plus, in two lemmas, injectivity as an explicit hypothesis.
- The bodies of `_model_data_hash` and `_model_metadata_hash` (query rendering, macros, comments) are fields of the model value. Their unknown-audit error is modelled.
- `sqlmesh/core/lineage.py` and `Snapshot.from_model` are not part of this model. Neither are pydantic validation or serialisation, `__eq__`/`__hash__`, or `format_intervals`.
- `data_hash_matches`, `version_get_or_generate`, `is_valid_start`, `snapshot_intervals` and `is_materialized_view` are not modelled. They are one-line accessors or depend on date handling outside this file.
- Dates and clocks: `now()`, `to_end_date`, `make_inclusive_end` and `latest` are not computed. `missing_intervals` takes `latest_ts` and the snapshot's `latest` as parameters, so the hydration assertion inside `latest` is not modelled.
- `to_timestamp` is the identity on epoch values; time zones and date parsing are not modelled.
- Snapshots.Snapshot.EffectiveFromTs: a set `effective_from` or `unpaused_dt` is treated as truthy even when it is the integer `0`, whereas Python would treat `0` as unset.
- Snapshots.Snapshot.SetUnpausedTs: same restriction as above; an integer `0` is not read as "no time given".
- The cron schedule is abstract (`floor`, `gap`). Two things are assumed rather than modelled: `croniter.get_prev` after an overshooting `get_next` returns to the previous tick, and `cron_next` is the same step as the cursor's.
- Seeds: `is_seed_hydrated` is not modelled.
- Schedules.CollectMissing: compares each slot at the intended point (`dates[i + lookback]`, or the last date past the end), not at `seq_get(dates, i + lookback) or dates[-1]` as written. The two differ only when `dates[i + lookback]` is the epoch `0` (`CompareTsAgree`); the as-written scan is `MissingSlotsAsWritten`, and `MissingSlotsAgree` proves them equal when no date is `0`.
- Snapshots.Snapshot.MissingIntervals: returns the intended scan, as above. For a start at or before the epoch it can omit a stored slot that line 647 as written reports; `MissingIntervalsAsWritten` proves it equal to the source as written for a normalised start after the epoch.
- MissingIntervalsExactly: its "spanned" uses the intended comparison point, so for a normalised start at or before the epoch it does not describe line 647 as written (see "## Findings").
- Snapshots.Snapshot.MergeIntervals: the argument is a `SnapshotIntervals` value. Passing a whole `Snapshot`, whose unhydrated lists would raise, is not modelled.
- Interval lists are values held in the snapshot's fields, so the aliasing of a list shared with another object through `append` is not modelled.
- Snapshots.HasPausedForwardOnly: targets are `SnapshotId` values. `SnapshotIdLike` objects enter through their `snapshot_id`.
- Fingerprints.FingerprintFromModel: a missing cache (`None`) is a fresh, empty `FingerprintCache`.
- Fingerprints.FingerprintFromModel: the model graph must be acyclic (a `rank` witness). The source recurses without end on a cycle.
- Fingerprints.FingerprintFromModel: `known` stands for the built-in audits together with the supplied audit names.
- Naming.Lower: `str.lower()` is modelled on ASCII letters only.
- Concurrency, logging and the state-sync callers are outside the file.

## Findings

| source | as written | input that shows it | evidently intended | confidence | as-written member | corrected member |
|---|---|---|---|---|---|---|
| sqlmesh/core/snapshot/definition.py:647 | `compare_ts = seq_get(dates, i + lookback) or dates[-1]` also discards a comparison date of `0`, the epoch, which is a real timestamp | dates `[0, 10]`, lookback `0`, stored `[(0, 10)]`: the slot `[0, 10)` is stored, yet it is compared against `10` and reported missing | fall back to the last date only when `i + lookback` is past the end | not executed | Schedules.EpochSlotReportedMissing | Schedules.MissingIffUnspanned |
