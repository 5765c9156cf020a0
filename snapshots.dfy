/** The `Snapshot` class: its interval state, categorisation and naming,
    `missing_intervals`, and the free functions `to_table_mapping` and
    `has_paused_forward_only`. */
module Snapshots {
  import opened Wrappers
  import opened Errors
  import opened Categories
  import opened Intervals
  import opened Fingerprints
  import opened Naming
  import opened Versions
  import opened Schedules
  import opened IntervalLists

  /** What a snapshot uses of its model: the schedule, the lookback, the
      kind flags, and the schema part of the model's name
      (`parse_model_name`). */
  datatype ModelInfo = ModelInfo(
    schedule: Schedule,
    lookback: nat,
    isSymbolic: bool,
    isSeed: bool,
    dependsOnPast: bool,
    schema: Option<string>)

  class Snapshot {
    const name: string
    const fingerprint: Fingerprint
    const hasher: Hasher
    const model: ModelInfo
    const parents: seq<SnapshotId>
    const previousVersions: seq<DataVersion>
    const tempVersion: Option<string>
    const effectiveFrom: Option<TimeLike>
    var physicalSchemaOverride: Option<string>
    var version: Option<string>
    var changeCategory: Option<ChangeCategory>
    var unpausedTs: Option<int>
    var intervals: Option<seq<Interval>>
    var devIntervals: Option<seq<Interval>>

    constructor (name: string, fingerprint: Fingerprint, hasher: Hasher, model: ModelInfo,
                 parents: seq<SnapshotId>, previousVersions: seq<DataVersion>,
                 tempVersion: Option<string>, effectiveFrom: Option<TimeLike>,
                 physicalSchemaOverride: Option<string>, version: Option<string>,
                 changeCategory: Option<ChangeCategory>, unpausedTs: Option<int>,
                 intervals: Option<seq<Interval>>, devIntervals: Option<seq<Interval>>)
      ensures this.name == name && this.fingerprint == fingerprint && this.hasher == hasher
      ensures this.model == model && this.parents == parents && this.previousVersions == previousVersions
      ensures this.tempVersion == tempVersion && this.effectiveFrom == effectiveFrom
      ensures this.physicalSchemaOverride == physicalSchemaOverride && this.version == version
      ensures this.changeCategory == changeCategory && this.unpausedTs == unpausedTs
      ensures this.intervals == intervals && this.devIntervals == devIntervals
    {
      this.name := name;
      this.fingerprint := fingerprint;
      this.hasher := hasher;
      this.model := model;
      this.parents := parents;
      this.previousVersions := previousVersions;
      this.tempVersion := tempVersion;
      this.effectiveFrom := effectiveFrom;
      this.physicalSchemaOverride := physicalSchemaOverride;
      this.version := version;
      this.changeCategory := changeCategory;
      this.unpausedTs := unpausedTs;
      this.intervals := intervals;
      this.devIntervals := devIntervals;
    }

    // -------------------------------------------------------------------
    // Identity and state flags

    function Identifier(): string {
      fingerprint.ToIdentifier(hasher)
    }

    function Id(): SnapshotId {
      SnapshotId(name, Identifier())
    }

    predicate IsPaused()
      reads this
    {
      unpausedTs.None?
    }

    predicate IsForwardOnly()
      reads this
    {
      OptIsForwardOnly(changeCategory)
    }

    function IntervalState(): Lists
      reads this
    {
      Lists(intervals, devIntervals)
    }

    /** `normalized_effective_from_ts or 0`. */
    function EffectiveFromTs(): int {
      if effectiveFrom.Some? then model.schedule.floor(effectiveFrom.value.ts) else 0
    }

    /** `physical_schema`: the stored schema when there is one (even an
        empty one), otherwise `sqlmesh__` and the model's schema. */
    function PhysicalSchema(): string
      reads this
    {
      if physicalSchemaOverride.Some? then physicalSchemaOverride.value
      else SQLMESH + "__" + model.schema.GetOr(DEFAULT_SCHEMA)
    }

    function PreviousVersion(): Option<DataVersion> {
      Versions.PreviousVersion(previousVersions)
    }

    // -------------------------------------------------------------------
    // Categorisation and the names that depend on it

    /** `_ensure_categorized`: the version, once a category and a non-empty
        version are both set. */
    function EnsureCategorized(): (r: Result<string, SnapshotError>)
      reads this
      ensures r.Success? <==> changeCategory.Some? && version.Some? && version.value != ""
      ensures r.Success? ==> r.value == version.value
      ensures r.Failure? ==> r.error == (if changeCategory.None? then NotCategorized else NotVersioned)
    {
      if changeCategory.None? then Failure(NotCategorized)
      else if version.None? || version.value == "" then Failure(NotVersioned)
      else Success(version.value)
    }

    /** `table_name`. */
    function TableName(isDev: bool, forRead: bool): Result<string, SnapshotError>
      reads this
    {
      var v :- EnsureCategorized();
      Success(ResolvedTableName(PhysicalSchema(), name, changeCategory, tempVersion,
                                fingerprint.ToVersion(hasher), v, isDev, forRead))
    }

    /** `table_name_for_mapping`: the table a child reads; an unpaused
        forward-only snapshot is read from its regular table even in
        development. */
    function TableNameForMapping(isDev: bool): Result<string, SnapshotError>
      reads this
    {
      var v :- EnsureCategorized();
      var dev := if isDev && IsForwardOnly() then IsPaused() else isDev;
      Success(ResolvedTableName(PhysicalSchema(), name, changeCategory, tempVersion,
                                fingerprint.ToVersion(hasher), v, dev, true))
    }

    function DataVersion(): Result<DataVersion, SnapshotError>
      reads this
    {
      var v :- EnsureCategorized();
      Success(Versions.DataVersion(fingerprint, v, tempVersion, changeCategory, Some(PhysicalSchema())))
    }

    function IsNewVersion(): Result<bool, SnapshotError>
      reads this
    {
      var v :- EnsureCategorized();
      Success(fingerprint.ToVersion(hasher) == v)
    }

    function TableInfo(): Result<TableInfo, SnapshotError>
      reads this
    {
      var v :- EnsureCategorized();
      Success(Versions.TableInfo(name, fingerprint, v, tempVersion, PhysicalSchema(), parents,
                                 previousVersions, changeCategory))
    }

    function AllVersions(): Result<seq<DataVersion>, SnapshotError>
      reads this
    {
      var current :- DataVersion();
      Success(Versions.AllVersions(previousVersions, current))
    }

    /** `categorize_as`: a forward-only or indirect non-breaking change
        reuses the most recent previous version and its physical schema;
        any other change, or a snapshot without history, gets the
        fingerprint's own version. */
    method CategorizeAs(category: ChangeCategory)
      modifies this`version, this`physicalSchemaOverride, this`changeCategory
      ensures changeCategory == Some(category)
      ensures ReusesPreviousVersion(category) && previousVersions != [] ==>
        version == Some(previousVersions[|previousVersions| - 1].version) &&
        physicalSchemaOverride == Some(previousVersions[|previousVersions| - 1].PhysicalSchema())
      ensures !(ReusesPreviousVersion(category) && previousVersions != []) ==>
        version == Some(fingerprint.ToVersion(hasher)) && physicalSchemaOverride == old(physicalSchemaOverride)
      ensures !(ReusesPreviousVersion(category) && previousVersions != []) || previousVersions[|previousVersions| - 1].version != "" ==>
        EnsureCategorized().Success?
    {
      var isForwardOnly := category == ForwardOnly || category == IndirectNonBreaking;
      var previous := PreviousVersion();
      if isForwardOnly && previous.Some? {
        version := Some(previous.value.version);
        physicalSchemaOverride := Some(previous.value.PhysicalSchema());
      } else {
        version := Some(fingerprint.ToVersion(hasher));
      }
      changeCategory := Some(category);
    }

    /** `set_unpaused_ts`: the floor of the given time, or paused again. */
    method SetUnpausedTs(unpaused: Option<TimeLike>)
      modifies this`unpausedTs
      ensures unpausedTs == if unpaused.Some? then Some(model.schedule.floor(unpaused.value.ts)) else None
      ensures IsPaused() <==> unpaused.None?
    {
      if unpaused.Some? {
        unpausedTs := Some(model.schedule.floor(unpaused.value.ts));
      } else {
        unpausedTs := None;
      }
    }

    // -------------------------------------------------------------------
    // Interval state

    /** `init_intervals`. */
    method InitIntervals()
      modifies this`intervals, this`devIntervals
      ensures IntervalState() == Init(old(IntervalState()))
    {
      if intervals.None? {
        intervals := Some([]);
      }
      if devIntervals.None? {
        devIntervals := Some([]);
      }
    }

    /** `add_interval`: append the normalised interval to the list
        `is_temporary_table(is_dev)` selects, merging once it holds two. */
    method AddInterval(start: TimeLike, end: TimeLike, isDev: bool) returns (err: Option<SnapshotError>)
      modifies this`intervals, this`devIntervals
      ensures (err, IntervalState()) == AddTo(model.schedule, changeCategory, old(IntervalState()), start, end, isDev)
    {
      var isTemp := IsTemporaryTable(changeCategory, isDev);
      var target := if isTemp then devIntervals else intervals;
      if target.None? {
        return Some(IntervalsNotHydrated);
      }
      var iv := model.schedule.InclusiveExclusive(start, end, true);
      if iv.Failure? {
        return Some(iv.error);
      }
      var appended := target.value + [iv.value];
      var updated := appended;
      if |appended| >= 2 {
        var merged := Intervals.MergeIntervals(appended);
        updated := merged.value;
      }
      if isTemp {
        devIntervals := Some(updated);
      } else {
        intervals := Some(updated);
      }
      return None;
    }

    /** `remove_interval`. */
    method RemoveInterval(start: TimeLike, end: TimeLike) returns (err: Option<SnapshotError>)
      modifies this`intervals, this`devIntervals
      ensures (err, IntervalState()) == RemoveFrom(model.schedule, old(IntervalState()), start, end)
    {
      var iv := model.schedule.InclusiveExclusive(start, end, true);
      if iv.Failure? {
        return Some(iv.error);
      }
      if intervals.None? {
        return Some(IntervalsNotHydrated);
      }
      var cut := Intervals.RemoveInterval(intervals.value, iv.value.start, iv.value.end);
      intervals := Some(cut);
      if devIntervals.None? {
        return Some(IntervalsNotHydrated);
      }
      var cutDev := Intervals.RemoveInterval(devIntervals.value, iv.value.start, iv.value.end);
      devIntervals := Some(cutDev);
      return None;
    }

    /** One `for start, end in ...` loop of `merge_intervals`: add each
        inherited interval after the cutover, stopping at the first error. */
    method AddInherited(ivs: seq<Interval>, isDev: bool, apply: bool, effectiveTs: int)
      returns (err: Option<SnapshotError>)
      modifies this`intervals, this`devIntervals
      ensures (err, IntervalState()) == AddAll(model.schedule, changeCategory, old(IntervalState()), ivs, isDev, apply, effectiveTs)
    {
      var k := 0;
      while k < |ivs|
        invariant 0 <= k <= |ivs|
        invariant AddAll(model.schedule, changeCategory, old(IntervalState()), ivs, isDev, apply, effectiveTs)
               == AddAll(model.schedule, changeCategory, IntervalState(), ivs[k..], isDev, apply, effectiveTs)
      {
        ghost var before := IntervalState();
        var start, end := ivs[k].start, ivs[k].end;
        if apply && start < effectiveTs {
          end := Min(end, effectiveTs);
        }
        assert ivs[k..][0] == ivs[k] && ivs[k..][1..] == ivs[k + 1..];
        if !apply || end <= effectiveTs {
          assert Cutover(ivs[k], apply, effectiveTs) == Some(Interval(start, end));
          err := AddInterval(TimeLike(start, false), TimeLike(end, false), isDev);
          if err.Some? {
            return;
          }
        } else {
          assert Cutover(ivs[k], apply, effectiveTs).None?;
        }
        k := k + 1;
      }
      assert ivs[k..] == [];
      return None;
    }

    /** `merge_intervals`: inherit another snapshot's intervals. */
    method MergeIntervals(other: SnapshotIntervals) returns (err: Option<SnapshotError>)
      modifies this`intervals, this`devIntervals
      ensures (err, IntervalState()) == Inherit(model.schedule, changeCategory, old(IntervalState()),
                                                Identifier(), EffectiveFromTs(), other)
    {
      var effectiveTs := EffectiveFromTs();
      var apply := effectiveTs > 0 && Identifier() != other.identifier;
      err := AddInherited(other.intervals, false, apply, effectiveTs);
      if err.Some? || Identifier() != other.identifier {
        return;
      }
      err := AddInherited(other.devIntervals, true, false, effectiveTs);
    }

    // -------------------------------------------------------------------
    // Missing intervals

    /** The list the coverage check reads: the development list only for
        a paused forward-only snapshot in development. */
    function CoverageIntervals(isDev: bool): Option<seq<Interval>>
      reads this
    {
      if isDev && IsPaused() && IsForwardOnly() then devIntervals else intervals
    }

    /** The end bound after the `depends_on_past` adjustment: the later of
        the latest loaded time and `end`, the former on a tie. */
    function MissingEnd(end: TimeLike, latestLoaded: Option<TimeLike>): TimeLike {
      if model.dependsOnPast && latestLoaded.Some? then
        (if latestLoaded.value.ts >= end.ts then latestLoaded.value else end)
      else end
    }

    /** What `missing_intervals` returns (or raises) for these arguments;
        `latestLoaded` is the snapshot's `latest` and `latestTs` the
        inclusive end of `latest or now()`, both as the caller computes them. */
    function MissingIntervalsOf(start: TimeLike, end: TimeLike, latestTs: int, isDev: bool,
                               restatements: set<string>, latestLoaded: Option<TimeLike>): Result<seq<Interval>, SnapshotError>
      reads this
    {
      if model.isSymbolic then Success([])
      else if model.isSeed && intervals.None? then Failure(IntervalsNotHydrated)
      else if model.isSeed && intervals.value != [] then Success([])
      else
        var bounds := model.schedule.InclusiveExclusive(start, MissingEnd(end, latestLoaded), false);
        if bounds.Failure? then Failure(bounds.error)
        else
          MissingAmong(model.schedule, Dates(model.schedule, bounds.value.start, bounds.value.end, latestTs, model.lookback),
                       bounds.value.end, model.lookback, CoverageIntervals(isDev),
                       model.dependsOnPast && name in restatements)
    }

    /** `missing_intervals`. */
    method MissingIntervals(start: TimeLike, end: TimeLike, latestTs: int, isDev: bool,
                            restatements: set<string>, latestLoaded: Option<TimeLike>)
      returns (r: Result<seq<Interval>, SnapshotError>)
      ensures r == MissingIntervalsOf(start, end, latestTs, isDev, restatements, latestLoaded)
    {
      if model.isSymbolic {
        return Success([]);
      }
      if model.isSeed {
        if intervals.None? {
          return Failure(IntervalsNotHydrated);
        }
        if intervals.value != [] {
          return Success([]);
        }
      }
      var adjustedEnd := MissingEnd(end, latestLoaded);
      var bounds := model.schedule.InclusiveExclusive(start, adjustedEnd, false);
      if bounds.Failure? {
        return Failure(bounds.error);
      }
      var startTs, endTs := bounds.value.start, bounds.value.end;
      var dates := BuildDates(model.schedule, startTs, endTs, latestTs, model.lookback);
      r := CollectMissing(model.schedule, dates, endTs, model.lookback, CoverageIntervals(isDev),
                          model.dependsOnPast && name in restatements);
    }
  }

  // ---------------------------------------------------------------------
  // Categorisation

  /** Before a snapshot is categorised every name and version query raises. */
  lemma UncategorizedRaises(s: Snapshot, isDev: bool, forRead: bool)
    requires s.changeCategory.None?
    ensures s.TableName(isDev, forRead) == Failure(NotCategorized)
    ensures s.TableNameForMapping(isDev) == Failure(NotCategorized)
    ensures s.DataVersion() == Failure(NotCategorized)
    ensures s.IsNewVersion() == Failure(NotCategorized)
    ensures s.TableInfo() == Failure(NotCategorized)
  {
  }

  /** Once categorised and versioned, the snapshot and its table info name
      the same tables, give the same data version, and agree on whether the
      version is new; the history ends with the current data version. */
  lemma TableInfoAgrees(s: Snapshot, isDev: bool, forRead: bool)
    requires s.EnsureCategorized().Success?
    ensures s.TableInfo().Success? && s.TableName(isDev, forRead).Success? && s.DataVersion().Success?
    ensures s.TableInfo().value.TableName(s.hasher, isDev, forRead) == s.TableName(isDev, forRead).value
    ensures s.TableInfo().value.CurrentDataVersion() == s.DataVersion().value
    ensures s.TableInfo().value.IsNewVersion(s.hasher) == s.IsNewVersion().value
    ensures s.AllVersions().Success? && s.AllVersions().value == s.TableInfo().value.AllDataVersions()
    ensures s.AllVersions().value[|s.AllVersions().value| - 1] == s.DataVersion().value
  {
  }

  /** The physical schema: a stored one wins; otherwise `sqlmesh__` and the
      model's schema, `default` when the name has none. */
  lemma PhysicalSchemaCases(s: Snapshot)
    ensures s.physicalSchemaOverride.Some? ==> s.PhysicalSchema() == s.physicalSchemaOverride.value
    ensures s.physicalSchemaOverride.None? && s.model.schema.Some? ==>
      s.PhysicalSchema() == "sqlmesh__" + s.model.schema.value
    ensures s.physicalSchemaOverride.None? && s.model.schema.None? ==> s.PhysicalSchema() == "sqlmesh__default"
  {
  }

  /** A child maps to the regular table of a snapshot that is not forward
      only, of one in production, and of an unpaused forward-only one; only
      a paused forward-only snapshot in development maps to its temporary
      table, named with its temporary version. */
  lemma MappingTempDecisions(s: Snapshot, isDev: bool)
    requires s.EnsureCategorized().Success?
    ensures var v := s.EnsureCategorized().value;
      s.TableNameForMapping(isDev).Success? &&
      (!(isDev && s.IsForwardOnly() && s.IsPaused()) ==>
        s.TableNameForMapping(isDev).value == Naming.TableName(s.PhysicalSchema(), s.name, v, false)) &&
      (isDev && s.IsForwardOnly() && s.IsPaused() ==>
        s.TableNameForMapping(isDev).value ==
          Naming.TableName(s.PhysicalSchema(), s.name, OrElse(s.tempVersion, s.fingerprint.ToVersion(s.hasher)), true))
  {
  }

  // ---------------------------------------------------------------------
  // Missing intervals

  /** Symbolic snapshots, and seeds that already hold intervals, miss nothing. */
  lemma MissingSkipped(s: Snapshot, start: TimeLike, end: TimeLike, latestTs: int, isDev: bool,
                       restatements: set<string>, latestLoaded: Option<TimeLike>)
    ensures s.model.isSymbolic ==> s.MissingIntervalsOf(start, end, latestTs, isDev, restatements, latestLoaded) == Success([])
    ensures !s.model.isSymbolic && s.model.isSeed && s.intervals.Some? && s.intervals.value != [] ==>
      s.MissingIntervalsOf(start, end, latestTs, isDev, restatements, latestLoaded) == Success([])
  {
  }

  /** The reported slots ascend strictly, are non-empty, and start
      within the normalised `[start_ts, end_ts)`. */
  lemma MissingIntervalsOrdered(s: Snapshot, start: TimeLike, end: TimeLike, latestTs: int, isDev: bool,
                                restatements: set<string>, latestLoaded: Option<TimeLike>)
    ensures var r := s.MissingIntervalsOf(start, end, latestTs, isDev, restatements, latestLoaded);
      var bounds := s.model.schedule.InclusiveExclusive(start, s.MissingEnd(end, latestLoaded), false);
      r.Success? && r.value != [] ==>
        bounds.Success? && StartsAscending(r.value) && Proper(r.value) &&
        StartsWithin(r.value, bounds.value.start, bounds.value.end - 1)
  {
    var r := s.MissingIntervalsOf(start, end, latestTs, isDev, restatements, latestLoaded);
    var schedule := s.model.schedule;
    var bounds := schedule.InclusiveExclusive(start, s.MissingEnd(end, latestLoaded), false);
    if r.Success? && r.value != [] && bounds.Success? && !s.model.isSymbolic {
      var startTs, endTs := bounds.value.start, bounds.value.end;
      var dates := Dates(schedule, startTs, endTs, latestTs, s.model.lookback);
      var n := SlotCount(dates, endTs);
      DatesShape(schedule, startTs, endTs, latestTs, s.model.lookback);
      assert n > 0;
      var stored := s.CoverageIntervals(isDev).value;
      var scanned := if s.model.dependsOnPast && s.name in restatements then [] else stored;
      assert r.value == MissingSlots(schedule, dates, s.model.lookback, scanned, n);
      MissingSlotsAscending(schedule, dates, s.model.lookback, scanned, n);
    }
  }

  /** Past the early returns, `missing_intervals` is the slot scan of the
      dates against the list it selects (none when restated). */
  lemma MissingIntervalsScan(s: Snapshot, start: TimeLike, end: TimeLike, latestTs: int, isDev: bool,
                             restatements: set<string>, latestLoaded: Option<TimeLike>)
    requires s.CoverageIntervals(isDev).Some?
    requires !s.model.isSymbolic && !(s.model.isSeed && s.intervals != Some([]))
    requires s.model.schedule.InclusiveExclusive(start, s.MissingEnd(end, latestLoaded), false).Success?
    ensures var bounds := s.model.schedule.InclusiveExclusive(start, s.MissingEnd(end, latestLoaded), false).value;
      var dates := Dates(s.model.schedule, bounds.start, bounds.end, latestTs, s.model.lookback);
      var scanned := if s.model.dependsOnPast && s.name in restatements then [] else s.CoverageIntervals(isDev).value;
      s.MissingIntervalsOf(start, end, latestTs, isDev, restatements, latestLoaded) ==
        Success(MissingSlots(s.model.schedule, dates, s.model.lookback, scanned, SlotCount(dates, bounds.end)))
  {
  }

  /** On a normalised interval list, a slot of `[start_ts, end_ts)` is
      reported exactly when the snapshot is restated or no stored interval
      spans it up to its comparison point; a restated snapshot reports
      every slot. */
  lemma MissingIntervalsExactly(s: Snapshot, start: TimeLike, end: TimeLike, latestTs: int, isDev: bool,
                                restatements: set<string>, latestLoaded: Option<TimeLike>, i: nat)
    requires s.CoverageIntervals(isDev).Some? && Normalized(s.CoverageIntervals(isDev).value)
    requires !s.model.isSymbolic && !(s.model.isSeed && s.intervals != Some([]))
    requires s.model.schedule.InclusiveExclusive(start, s.MissingEnd(end, latestLoaded), false).Success?
    ensures var bounds := s.model.schedule.InclusiveExclusive(start, s.MissingEnd(end, latestLoaded), false).value;
      var dates := Dates(s.model.schedule, bounds.start, bounds.end, latestTs, s.model.lookback);
      var n := SlotCount(dates, bounds.end);
      var r := s.MissingIntervalsOf(start, end, latestTs, isDev, restatements, latestLoaded);
      var restated := s.model.dependsOnPast && s.name in restatements;
      r.Success? &&
      (i < n ==> (SlotAt(s.model.schedule, dates, i) in r.value <==>
                  restated || !Spanned(s.CoverageIntervals(isDev).value, dates[i], CompareTs(dates, i, s.model.lookback)))) &&
      (restated ==> |r.value| == n && forall j :: 0 <= j < n ==> r.value[j] == SlotAt(s.model.schedule, dates, j)) &&
      (forall x :: x in r.value ==> exists j :: 0 <= j < n && x == SlotAt(s.model.schedule, dates, j))
  {
    var schedule := s.model.schedule;
    var bounds := schedule.InclusiveExclusive(start, s.MissingEnd(end, latestLoaded), false).value;
    var dates := Dates(schedule, bounds.start, bounds.end, latestTs, s.model.lookback);
    var n := SlotCount(dates, bounds.end);
    var restated := s.model.dependsOnPast && s.name in restatements;
    var stored := s.CoverageIntervals(isDev).value;
    var scanned := if restated then [] else stored;
    MissingIntervalsScan(s, start, end, latestTs, isDev, restatements, latestLoaded);
    DatesShape(schedule, bounds.start, bounds.end, latestTs, s.model.lookback);
    ProperIsWellFormed(stored);
    SeparatedSorted(stored);
    assert StartsSorted(scanned);
    if restated {
      MissingSlotsAll(schedule, dates, s.model.lookback, n);
    }
    MissingSlotsFrom(schedule, dates, s.model.lookback, scanned, n);
    if i < n {
      MissingIffUnspanned(schedule, dates, s.model.lookback, scanned, n, i);
    }
  }

  /** For a normalised start after the epoch no date is `0`, so the slots
      reported are exactly those the scan of `missing_intervals` reports as
      written, `or dates[-1]` included. */
  lemma MissingIntervalsAsWritten(s: Snapshot, start: TimeLike, end: TimeLike, latestTs: int, isDev: bool,
                                  restatements: set<string>, latestLoaded: Option<TimeLike>)
    requires s.CoverageIntervals(isDev).Some?
    requires !s.model.isSymbolic && !(s.model.isSeed && s.intervals != Some([]))
    requires s.model.schedule.InclusiveExclusive(start, s.MissingEnd(end, latestLoaded), false).Success?
    ensures var bounds := s.model.schedule.InclusiveExclusive(start, s.MissingEnd(end, latestLoaded), false).value;
      var dates := Dates(s.model.schedule, bounds.start, bounds.end, latestTs, s.model.lookback);
      var scanned := if s.model.dependsOnPast && s.name in restatements then [] else s.CoverageIntervals(isDev).value;
      bounds.start > 0 ==>
        s.MissingIntervalsOf(start, end, latestTs, isDev, restatements, latestLoaded) ==
          Success(MissingSlotsAsWritten(s.model.schedule, dates, s.model.lookback, scanned, SlotCount(dates, bounds.end)))
  {
    var schedule := s.model.schedule;
    var bounds := schedule.InclusiveExclusive(start, s.MissingEnd(end, latestLoaded), false).value;
    var dates := Dates(schedule, bounds.start, bounds.end, latestTs, s.model.lookback);
    var scanned := if s.model.dependsOnPast && s.name in restatements then [] else s.CoverageIntervals(isDev).value;
    MissingIntervalsScan(s, start, end, latestTs, isDev, restatements, latestLoaded);
    if bounds.start > 0 {
      DatesShape(schedule, bounds.start, bounds.end, latestTs, s.model.lookback);
      assert forall j :: 0 <= j < |dates| ==> dates[j] != 0 by {
        forall j | 0 < j < |dates| ensures dates[j] != 0 {
          assert dates[0] < dates[j];
        }
      }
      MissingSlotsAgree(schedule, dates, s.model.lookback, scanned, SlotCount(dates, bounds.end));
    }
  }

  // ---------------------------------------------------------------------
  // Table mapping

  /** `to_table_mapping` maps only versioned, non-symbolic snapshots. */
  predicate Mapped(s: Snapshot)
    reads s
  {
    s.version.Some? && s.version.value != "" && !s.model.isSymbolic
  }

  /** The mapping `to_table_mapping` builds: model name to the table its
      children read, a later snapshot with the same name overwriting an
      earlier one; the first unmapped snapshot's error is raised. */
  function TableMapping(snapshots: seq<Snapshot>, isDev: bool): Result<map<string, string>, SnapshotError>
    reads set i | 0 <= i < |snapshots| :: snapshots[i]
    decreases |snapshots|
  {
    if snapshots == [] then Success(map[])
    else
      var last := snapshots[|snapshots| - 1];
      var init := TableMapping(snapshots[..|snapshots| - 1], isDev);
      if init.Failure? || !Mapped(last) then init
      else
        var table := last.TableNameForMapping(isDev);
        if table.Failure? then Failure(table.error)
        else Success(init.value[last.name := table.value])
  }

  /** `to_table_mapping`. */
  method ToTableMapping(snapshots: seq<Snapshot>, isDev: bool) returns (r: Result<map<string, string>, SnapshotError>)
    ensures r == TableMapping(snapshots, isDev)
  {
    var mapping: map<string, string> := map[];
    var i := 0;
    while i < |snapshots|
      invariant 0 <= i <= |snapshots|
      invariant TableMapping(snapshots[..i], isDev) == Success(mapping)
    {
      var snapshot := snapshots[i];
      TableMappingStep(snapshots, isDev, i);
      if Mapped(snapshot) {
        var table := snapshot.TableNameForMapping(isDev);
        if table.Failure? {
          r := Failure(table.error);
          TableMappingStops(snapshots, isDev, i + 1);
          return;
        }
        mapping := mapping[snapshot.name := table.value];
      }
      i := i + 1;
    }
    assert snapshots[..i] == snapshots;
    return Success(mapping);
  }

  /** The mapping of a prefix one snapshot longer. */
  lemma TableMappingStep(snapshots: seq<Snapshot>, isDev: bool, i: nat)
    requires i < |snapshots|
    ensures var init := TableMapping(snapshots[..i], isDev);
      var s := snapshots[i];
      TableMapping(snapshots[..i + 1], isDev) ==
        if init.Failure? || !Mapped(s) then init
        else if s.TableNameForMapping(isDev).Failure? then Failure(s.TableNameForMapping(isDev).error)
        else Success(init.value[s.name := s.TableNameForMapping(isDev).value])
  {
    assert snapshots[..i + 1][..i] == snapshots[..i];
    assert snapshots[..i + 1][i] == snapshots[i];
  }

  /** Once a prefix fails, the whole mapping fails with the same error. */
  lemma {:induction false} TableMappingStops(snapshots: seq<Snapshot>, isDev: bool, k: nat)
    requires k <= |snapshots| && TableMapping(snapshots[..k], isDev).Failure?
    ensures TableMapping(snapshots, isDev) == TableMapping(snapshots[..k], isDev)
    decreases |snapshots| - k
  {
    if k < |snapshots| {
      assert snapshots[..k + 1][..k] == snapshots[..k];
      TableMappingStops(snapshots, isDev, k + 1);
    } else {
      assert snapshots[..k] == snapshots;
    }
  }

  /** The mapping fails, always as uncategorised, exactly when some mapped
      snapshot has no category. */
  lemma {:induction false} TableMappingFails(snapshots: seq<Snapshot>, isDev: bool)
    ensures TableMapping(snapshots, isDev).Failure? <==>
      exists i :: 0 <= i < |snapshots| && Mapped(snapshots[i]) && snapshots[i].changeCategory.None?
    ensures TableMapping(snapshots, isDev).Failure? ==> TableMapping(snapshots, isDev).error == NotCategorized
    decreases |snapshots|
  {
    if snapshots != [] {
      var init := snapshots[..|snapshots| - 1];
      TableMappingFails(init, isDev);
      assert forall i :: 0 <= i < |init| ==> init[i] == snapshots[i];
      if exists i :: 0 <= i < |snapshots| && Mapped(snapshots[i]) && snapshots[i].changeCategory.None? {
        var i :| 0 <= i < |snapshots| && Mapped(snapshots[i]) && snapshots[i].changeCategory.None?;
        if i < |init| {
          assert Mapped(init[i]) && init[i].changeCategory.None?;
        }
      }
    }
  }

  /** On success the keys are exactly the names of the mapped snapshots. */
  lemma {:induction false} TableMappingKeys(snapshots: seq<Snapshot>, isDev: bool)
    requires TableMapping(snapshots, isDev).Success?
    ensures forall i :: 0 <= i < |snapshots| && Mapped(snapshots[i]) ==> snapshots[i].name in TableMapping(snapshots, isDev).value
    ensures forall n :: n in TableMapping(snapshots, isDev).value ==>
      exists i :: 0 <= i < |snapshots| && Mapped(snapshots[i]) && snapshots[i].name == n
    decreases |snapshots|
  {
    if snapshots != [] {
      var init := snapshots[..|snapshots| - 1];
      var last := snapshots[|snapshots| - 1];
      var ri := TableMapping(init, isDev);
      assert ri.Success?;
      TableMappingKeys(init, isDev);
      var r := TableMapping(snapshots, isDev).value;
      assert r.Keys == ri.value.Keys + (if Mapped(last) then {last.name} else {});
      forall i | 0 <= i < |snapshots| && Mapped(snapshots[i])
        ensures snapshots[i].name in r
      {
        if i < |init| {
          assert init[i] == snapshots[i];
        }
      }
      forall n | n in r
        ensures exists i :: 0 <= i < |snapshots| && Mapped(snapshots[i]) && snapshots[i].name == n
      {
        if n in ri.value {
          var i :| 0 <= i < |init| && Mapped(init[i]) && init[i].name == n;
          assert init[i] == snapshots[i];
        } else {
          assert Mapped(snapshots[|snapshots| - 1]) && snapshots[|snapshots| - 1].name == n;
        }
      }
    }
  }

  /** A name maps to the table of the last mapped snapshot carrying it. */
  lemma {:induction false} TableMappingLastWins(snapshots: seq<Snapshot>, isDev: bool, i: nat)
    requires TableMapping(snapshots, isDev).Success?
    requires i < |snapshots| && Mapped(snapshots[i])
    requires forall j :: i < j < |snapshots| && Mapped(snapshots[j]) ==> snapshots[j].name != snapshots[i].name
    ensures snapshots[i].TableNameForMapping(isDev).Success?
    ensures snapshots[i].name in TableMapping(snapshots, isDev).value
    ensures TableMapping(snapshots, isDev).value[snapshots[i].name] == snapshots[i].TableNameForMapping(isDev).value
    decreases |snapshots|
  {
    var init := snapshots[..|snapshots| - 1];
    var last := snapshots[|snapshots| - 1];
    var ri := TableMapping(init, isDev);
    assert ri.Success?;
    if i < |init| {
      assert init[i] == snapshots[i];
      assert forall j :: i < j < |init| && Mapped(init[j]) ==> init[j].name != init[i].name by {
        forall j | i < j < |init| && Mapped(init[j]) ensures init[j].name != init[i].name {
          assert init[j] == snapshots[j];
        }
      }
      TableMappingLastWins(init, isDev, i);
      assert Mapped(last) ==> last.name != snapshots[i].name;
    }
  }

  // ---------------------------------------------------------------------
  // Paused forward-only targets

  /** The two ways `has_paused_forward_only` accepts its snapshots. */
  datatype SnapshotCollection = AsList(list: seq<Snapshot>) | AsTable(table: map<SnapshotId, Snapshot>)

  /** The list form indexed by id; a later snapshot with the same id wins. */
  function IndexById(snapshots: seq<Snapshot>): (r: map<SnapshotId, Snapshot>)
    ensures forall i :: 0 <= i < |snapshots| ==> snapshots[i].Id() in r
    ensures forall id :: id in r ==> r[id].Id() == id
    decreases |snapshots|
  {
    if snapshots == [] then map[]
    else
      var last := snapshots[|snapshots| - 1];
      var init := IndexById(snapshots[..|snapshots| - 1]);
      assert forall i :: 0 <= i < |snapshots| - 1 ==> snapshots[..|snapshots| - 1][i] == snapshots[i];
      init[last.Id() := last]
  }

  /** No snapshot after position `i` carries `id`. */
  predicate NoLaterId(snapshots: seq<Snapshot>, i: nat, id: SnapshotId) {
    forall j :: i < j < |snapshots| ==> snapshots[j].Id() != id
  }

  /** The position of the last snapshot carrying `id`, or `-1`. */
  function LastWithId(snapshots: seq<Snapshot>, id: SnapshotId): (k: int)
    ensures -1 <= k < |snapshots|
    decreases |snapshots|
  {
    if snapshots == [] then -1
    else if snapshots[|snapshots| - 1].Id() == id then |snapshots| - 1
    else LastWithId(snapshots[..|snapshots| - 1], id)
  }

  /** A repeated id holds the last snapshot carrying it, as the dict
      comprehension keeps the last value written under a key. */
  lemma {:induction false} IndexByIdLastWins(snapshots: seq<Snapshot>, id: SnapshotId)
    requires id in IndexById(snapshots)
    ensures var k := LastWithId(snapshots, id);
      0 <= k && snapshots[k] == IndexById(snapshots)[id] && NoLaterId(snapshots, k, id)
    decreases |snapshots|
  {
    var last := snapshots[|snapshots| - 1];
    var prefix := snapshots[..|snapshots| - 1];
    if id == last.Id() {
      assert NoLaterId(snapshots, |snapshots| - 1, id);
    } else {
      assert id in IndexById(prefix) && IndexById(snapshots)[id] == IndexById(prefix)[id];
      IndexByIdLastWins(prefix, id);
      var k := LastWithId(prefix, id);
      assert snapshots[k] == prefix[k];
      NoLaterIdExtend(snapshots, k, id);
    }
  }

  lemma NoLaterIdExtend(snapshots: seq<Snapshot>, i: nat, id: SnapshotId)
    requires snapshots != [] && snapshots[|snapshots| - 1].Id() != id
    requires NoLaterId(snapshots[..|snapshots| - 1], i, id)
    ensures NoLaterId(snapshots, i, id)
  {
    var prefix := snapshots[..|snapshots| - 1];
    forall j | i < j < |snapshots| ensures snapshots[j].Id() != id {
      if j < |prefix| {
        assert snapshots[j] == prefix[j];
      }
    }
  }

  function AsMap(snapshots: SnapshotCollection): map<SnapshotId, Snapshot> {
    match snapshots
    case AsList(list) => IndexById(list)
    case AsTable(table) => table
  }

  predicate PausedForwardOnly(s: Snapshot)
    reads s
  {
    s.IsPaused() && s.IsForwardOnly()
  }

  /** What `has_paused_forward_only` returns or raises: the targets are
      visited in order; an unknown one raises, a paused forward-only one
      answers true. */
  function PausedForwardOnlyAmong(targets: seq<SnapshotId>, table: map<SnapshotId, Snapshot>): Result<bool, SnapshotError>
    reads table.Values
  {
    if targets == [] then Success(false)
    else if targets[0] !in table then Failure(UnknownSnapshot(targets[0].name, targets[0].identifier))
    else if PausedForwardOnly(table[targets[0]]) then Success(true)
    else PausedForwardOnlyAmong(targets[1..], table)
  }

  /** `has_paused_forward_only`. */
  method HasPausedForwardOnly(targets: seq<SnapshotId>, snapshots: SnapshotCollection) returns (r: Result<bool, SnapshotError>)
    ensures r == PausedForwardOnlyAmong(targets, AsMap(snapshots))
  {
    var table := AsMap(snapshots);
    var k := 0;
    while k < |targets|
      invariant 0 <= k <= |targets|
      invariant PausedForwardOnlyAmong(targets, table) == PausedForwardOnlyAmong(targets[k..], table)
    {
      var target := targets[k];
      assert targets[k..][0] == target && targets[k..][1..] == targets[k + 1..];
      if target !in table {
        return Failure(UnknownSnapshot(target.name, target.identifier));
      }
      if PausedForwardOnly(table[target]) {
        return Success(true);
      }
      k := k + 1;
    }
    assert targets[k..] == [];
    return Success(false);
  }

  /** The position of the first target that decides the answer: the first
      that is unknown or paused and forward-only, or past the end when there
      is none. */
  function FirstDecisive(targets: seq<SnapshotId>, table: map<SnapshotId, Snapshot>): (k: nat)
    reads table.Values
    ensures k <= |targets|
    ensures forall j :: 0 <= j < k ==> targets[j] in table && !PausedForwardOnly(table[targets[j]])
    ensures k < |targets| ==> targets[k] !in table || PausedForwardOnly(table[targets[k]])
    decreases |targets|
  {
    if targets == [] then 0
    else if targets[0] !in table || PausedForwardOnly(table[targets[0]]) then 0
    else 1 + FirstDecisive(targets[1..], table)
  }

  /** The first decisive target settles the answer: true when it is paused
      and forward-only, an error naming it when it is unknown, and false
      when every target is known and none is paused and forward-only. */
  lemma {:induction false} PausedForwardOnlyDecided(targets: seq<SnapshotId>, table: map<SnapshotId, Snapshot>)
    ensures var k := FirstDecisive(targets, table);
      PausedForwardOnlyAmong(targets, table) ==
        if k == |targets| then Success(false)
        else if targets[k] !in table then Failure(UnknownSnapshot(targets[k].name, targets[k].identifier))
        else Success(true)
    decreases |targets|
  {
    if targets != [] && targets[0] in table && !PausedForwardOnly(table[targets[0]]) {
      PausedForwardOnlyDecided(targets[1..], table);
    }
  }
}
