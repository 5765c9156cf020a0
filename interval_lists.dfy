/** The two interval lists a snapshot stores (`intervals_` and
    `dev_intervals_`) and how `add_interval`, `remove_interval` and the
    `merge_intervals` method change them, as functions of the lists. */
module IntervalLists {
  import opened Wrappers
  import opened Errors
  import opened Categories
  import opened Intervals
  import opened Naming
  import opened Schedules

  /** A snapshot's interval fields; `None` means not hydrated yet. */
  datatype Lists = Lists(intervals: Option<seq<Interval>>, devIntervals: Option<seq<Interval>>)

  /** `SnapshotIntervals`: the intervals of another snapshot to inherit. */
  datatype SnapshotIntervals = SnapshotIntervals(
    name: string,
    identifier: string,
    version: string,
    intervals: seq<Interval>,
    devIntervals: seq<Interval>)

  /** Every hydrated list is normalised: sorted, separated, no empty interval. */
  ghost predicate Valid(l: Lists) {
    (l.intervals.Some? ==> Normalized(l.intervals.value)) &&
    (l.devIntervals.Some? ==> Normalized(l.devIntervals.value))
  }

  /** `init_intervals`: hydrate whichever list is not hydrated with `[]`. */
  function Init(l: Lists): (r: Lists)
    ensures r.intervals.Some? && r.devIntervals.Some?
    ensures l.intervals.Some? ==> r.intervals == l.intervals
    ensures l.devIntervals.Some? ==> r.devIntervals == l.devIntervals
    ensures l.intervals.None? ==> r.intervals == Some([])
    ensures l.devIntervals.None? ==> r.devIntervals == Some([])
    ensures Valid(l) ==> Valid(r)
  {
    Lists(Some(l.intervals.GetOr([])), Some(l.devIntervals.GetOr([])))
  }

  /** The list `add_interval` appends to. */
  function Target(l: Lists, category: Option<ChangeCategory>, isDev: bool): Option<seq<Interval>> {
    if IsTemporaryTable(category, isDev) then l.devIntervals else l.intervals
  }

  /** `add_interval`: the error raised, if any, and the new lists. The target
      list is read before the bounds are normalised, and nothing changes
      when either step fails. */
  function AddTo(s: Schedule, category: Option<ChangeCategory>, l: Lists,
                 start: TimeLike, end: TimeLike, isDev: bool): (Option<SnapshotError>, Lists)
  {
    var isTemp := IsTemporaryTable(category, isDev);
    var target := if isTemp then l.devIntervals else l.intervals;
    if target.None? then (Some(IntervalsNotHydrated), l)
    else
      var iv := s.InclusiveExclusive(start, end, true);
      if iv.Failure? then (Some(iv.error), l)
      else
        var updated := Appended(target.value, iv.value);
        (None, if isTemp then l.(devIntervals := Some(updated)) else l.(intervals := Some(updated)))
  }

  /** How `add_interval` fails: an unhydrated target list, or bounds that
      normalise to an empty pair; it then leaves both lists alone. */
  lemma AddToErrors(s: Schedule, category: Option<ChangeCategory>, l: Lists,
                    start: TimeLike, end: TimeLike, isDev: bool)
    ensures AddTo(s, category, l, start, end, isDev).0.Some? ==> AddTo(s, category, l, start, end, isDev).1 == l
    ensures Target(l, category, isDev).None? ==>
      AddTo(s, category, l, start, end, isDev).0 == Some(IntervalsNotHydrated)
    ensures Target(l, category, isDev).Some? ==>
      (AddTo(s, category, l, start, end, isDev).0.None? <== s.floor(start.ts) < s.ExclusiveEnd(end)) &&
      (AddTo(s, category, l, start, end, isDev).0.None? ==> s.floor(start.ts) < s.ExclusiveEnd(end))
  {
  }

  /** On success `add_interval` touches exactly one list: the development
      list exactly when `is_temporary_table(is_dev)` holds. That list then
      covers its old points and those of the new interval and no others,
      and stays normalised (it is merged once it holds two entries). */
  lemma AddToEffect(s: Schedule, category: Option<ChangeCategory>, l: Lists,
                    start: TimeLike, end: TimeLike, isDev: bool, p: int)
    requires Valid(l)
    ensures var r := AddTo(s, category, l, start, end, isDev);
      r.0.None? ==>
        Valid(r.1) &&
        (IsTemporaryTable(category, isDev) ==> r.1.intervals == l.intervals) &&
        (!IsTemporaryTable(category, isDev) ==> r.1.devIntervals == l.devIntervals) &&
        Target(r.1, category, isDev).Some? &&
        (Covers(Target(r.1, category, isDev).value, p) <==>
          Covers(Target(l, category, isDev).value, p) || s.floor(start.ts) <= p < s.ExclusiveEnd(end))
  {
    var r := AddTo(s, category, l, start, end, isDev);
    if r.0.None? {
      var target := Target(l, category, isDev).value;
      var iv := s.InclusiveExclusive(start, end, true).value;
      ProperIsWellFormed(target);
      AppendedNormalized(target, iv);
      AppendedCovers(target, iv, p);
    }
  }

  /** `remove_interval`: normalise the bounds, then cut them out of the
      main list and then out of the development list. An unhydrated
      development list fails after the main list has been cut. */
  function RemoveFrom(s: Schedule, l: Lists, start: TimeLike, end: TimeLike): (Option<SnapshotError>, Lists) {
    var iv := s.InclusiveExclusive(start, end, true);
    if iv.Failure? then (Some(iv.error), l)
    else if l.intervals.None? then (Some(IntervalsNotHydrated), l)
    else
      var cut := l.(intervals := Some(Removed(l.intervals.value, iv.value.start, iv.value.end)));
      if l.devIntervals.None? then (Some(IntervalsNotHydrated), cut)
      else (None, cut.(devIntervals := Some(Removed(l.devIntervals.value, iv.value.start, iv.value.end))))
  }

  /** After a successful removal both lists hold exactly their old points
      outside the removed range, and stay normalised. */
  lemma RemoveFromEffect(s: Schedule, l: Lists, start: TimeLike, end: TimeLike, p: int)
    requires Valid(l)
    ensures var r := RemoveFrom(s, l, start, end);
      r.0.None? ==>
        Valid(r.1) && r.1.intervals.Some? && r.1.devIntervals.Some? &&
        (Covers(r.1.intervals.value, p) <==>
          Covers(l.intervals.value, p) && !(s.floor(start.ts) <= p < s.ExclusiveEnd(end))) &&
        (Covers(r.1.devIntervals.value, p) <==>
          Covers(l.devIntervals.value, p) && !(s.floor(start.ts) <= p < s.ExclusiveEnd(end)))
    ensures RemoveFrom(s, l, start, end).0.Some? ==> Valid(RemoveFrom(s, l, start, end).1)
  {
    var iv := s.InclusiveExclusive(start, end, true);
    if iv.Success? && l.intervals.Some? {
      var rs, re := iv.value.start, iv.value.end;
      ProperIsWellFormed(l.intervals.value);
      RemovedNormalized(l.intervals.value, rs, re);
      RemovedCovers(l.intervals.value, rs, re, p);
      if l.devIntervals.Some? {
        ProperIsWellFormed(l.devIntervals.value);
        RemovedNormalized(l.devIntervals.value, rs, re);
        RemovedCovers(l.devIntervals.value, rs, re, p);
      }
    }
  }

  // ---------------------------------------------------------------------
  // Inheriting intervals (the `merge_intervals` method)

  /** One inherited interval under the `effective_from` cutover: truncated
      at the cutover when it starts before it, and dropped when it still
      ends after it. Without a cutover it passes unchanged. */
  function Cutover(iv: Interval, apply: bool, effectiveTs: int): Option<Interval> {
    var end := if apply && iv.start < effectiveTs then Min(iv.end, effectiveTs) else iv.end;
    if !apply || end <= effectiveTs then Some(Interval(iv.start, end)) else None
  }

  /** With a cutover, a (non-empty) interval is kept exactly when it starts
      before the cutover, and then only its part before the cutover. */
  lemma CutoverKeepsBefore(iv: Interval, apply: bool, effectiveTs: int)
    requires iv.start < iv.end
    ensures !apply ==> Cutover(iv, apply, effectiveTs) == Some(iv)
    ensures apply ==> (Cutover(iv, apply, effectiveTs).Some? <==> iv.start < effectiveTs)
    ensures apply && iv.start < effectiveTs ==>
      Cutover(iv, apply, effectiveTs) == Some(Interval(iv.start, Min(iv.end, effectiveTs)))
  {
  }

  /** The `add_interval` calls of one inheriting loop, in order, stopping
      at the first that fails. */
  function AddAll(s: Schedule, category: Option<ChangeCategory>, l: Lists, ivs: seq<Interval>,
                  isDev: bool, apply: bool, effectiveTs: int): (Option<SnapshotError>, Lists)
    decreases |ivs|
  {
    if ivs == [] then (None, l)
    else
      var kept := Cutover(ivs[0], apply, effectiveTs);
      if kept.None? then AddAll(s, category, l, ivs[1..], isDev, apply, effectiveTs)
      else
        var step := AddTo(s, category, l, TimeLike(kept.value.start, false), TimeLike(kept.value.end, false), isDev);
        if step.0.Some? then step
        else AddAll(s, category, step.1, ivs[1..], isDev, apply, effectiveTs)
  }

  /** The `merge_intervals` method: inherit `other`'s intervals, cut over at
      `effective_from` when the two snapshots differ, and its development
      intervals (as development intervals) only when they are the same. */
  function Inherit(s: Schedule, category: Option<ChangeCategory>, l: Lists,
                   identifier: string, effectiveTs: int, other: SnapshotIntervals): (Option<SnapshotError>, Lists)
  {
    var apply := effectiveTs > 0 && identifier != other.identifier;
    var first := AddAll(s, category, l, other.intervals, false, apply, effectiveTs);
    if first.0.Some? || identifier != other.identifier then first
    else AddAll(s, category, first.1, other.devIntervals, true, false, effectiveTs)
  }

  /** Adding outside development mode never touches the development list. */
  lemma {:induction false} AddAllKeepsDev(s: Schedule, category: Option<ChangeCategory>, l: Lists,
                                          ivs: seq<Interval>, apply: bool, effectiveTs: int)
    ensures AddAll(s, category, l, ivs, false, apply, effectiveTs).1.devIntervals == l.devIntervals
    decreases |ivs|
  {
    if ivs != [] {
      var kept := Cutover(ivs[0], apply, effectiveTs);
      if kept.None? {
        AddAllKeepsDev(s, category, l, ivs[1..], apply, effectiveTs);
      } else {
        var step := AddTo(s, category, l, TimeLike(kept.value.start, false), TimeLike(kept.value.end, false), false);
        if step.0.None? {
          AddAllKeepsDev(s, category, step.1, ivs[1..], apply, effectiveTs);
        }
      }
    }
  }

  /** Inheriting keeps both lists normalised. */
  lemma {:induction false} AddAllValid(s: Schedule, category: Option<ChangeCategory>, l: Lists,
                                       ivs: seq<Interval>, isDev: bool, apply: bool, effectiveTs: int)
    requires Valid(l)
    ensures Valid(AddAll(s, category, l, ivs, isDev, apply, effectiveTs).1)
    decreases |ivs|
  {
    if ivs != [] {
      var kept := Cutover(ivs[0], apply, effectiveTs);
      if kept.None? {
        AddAllValid(s, category, l, ivs[1..], isDev, apply, effectiveTs);
      } else {
        var start, end := TimeLike(kept.value.start, false), TimeLike(kept.value.end, false);
        var step := AddTo(s, category, l, start, end, isDev);
        AddToEffect(s, category, l, start, end, isDev, 0);
        if step.0.None? {
          AddAllValid(s, category, step.1, ivs[1..], isDev, apply, effectiveTs);
        }
      }
    }
  }

  /** `cron_floor` never moves a timestamp forward. */
  ghost predicate FloorsDown(s: Schedule) {
    forall t :: s.floor(t) <= t
  }

  /** Under a cutover, every point the main list gains lies before it: the
      inherited history ends where this snapshot's own history begins. */
  lemma {:induction false} AddAllBeforeCutover(s: Schedule, category: Option<ChangeCategory>, l: Lists,
                                               ivs: seq<Interval>, effectiveTs: int, p: int)
    requires Valid(l) && FloorsDown(s) && l.intervals.Some?
    ensures var r := AddAll(s, category, l, ivs, false, true, effectiveTs).1;
      r.intervals.Some? && (Covers(r.intervals.value, p) ==> Covers(l.intervals.value, p) || p < effectiveTs)
    decreases |ivs|
  {
    if ivs != [] {
      var kept := Cutover(ivs[0], true, effectiveTs);
      if kept.None? {
        AddAllBeforeCutover(s, category, l, ivs[1..], effectiveTs, p);
      } else {
        var start, end := TimeLike(kept.value.start, false), TimeLike(kept.value.end, false);
        var step := AddTo(s, category, l, start, end, false);
        AddToEffect(s, category, l, start, end, false, p);
        if step.0.None? {
          assert s.ExclusiveEnd(end) <= kept.value.end <= effectiveTs;
          AddToEffect(s, category, l, start, end, false, 0);
          AddAllBeforeCutover(s, category, step.1, ivs[1..], effectiveTs, p);
        }
      }
    }
  }

  /** One inherited interval, cut over and then floored to the schedule as
      `add_interval` floors it, contains `p`. */
  ghost predicate KeptCovers(s: Schedule, iv: Interval, apply: bool, effectiveTs: int, p: int) {
    var kept := Cutover(iv, apply, effectiveTs);
    kept.Some? && s.floor(kept.value.start) <= p < s.floor(kept.value.end)
  }

  /** Some interval of a non-empty list contributes `p` exactly when its
      first one does or one of the rest does. */
  lemma KeptCoversSplit(s: Schedule, ivs: seq<Interval>, apply: bool, effectiveTs: int, p: int)
    requires ivs != []
    ensures (exists k :: 0 <= k < |ivs| && KeptCovers(s, ivs[k], apply, effectiveTs, p)) <==>
      KeptCovers(s, ivs[0], apply, effectiveTs, p) ||
      exists k :: 0 <= k < |ivs[1..]| && KeptCovers(s, ivs[1..][k], apply, effectiveTs, p)
  {
    var rest := ivs[1..];
    if exists k :: 0 <= k < |ivs| && KeptCovers(s, ivs[k], apply, effectiveTs, p) {
      var k :| 0 <= k < |ivs| && KeptCovers(s, ivs[k], apply, effectiveTs, p);
      if k > 0 {
        assert rest[k - 1] == ivs[k];
      }
    }
    if exists k :: 0 <= k < |rest| && KeptCovers(s, rest[k], apply, effectiveTs, p) {
      var k :| 0 <= k < |rest| && KeptCovers(s, rest[k], apply, effectiveTs, p);
      assert ivs[k + 1] == rest[k];
    }
  }

  /** A successful inheriting loop changes only the list `add_interval`
      writes to, and that list then covers exactly its old points and the
      points of every kept, floored inherited interval. */
  lemma {:induction false} AddAllCovers(s: Schedule, category: Option<ChangeCategory>, l: Lists,
                                        ivs: seq<Interval>, isDev: bool, apply: bool, effectiveTs: int, p: int)
    requires Valid(l)
    ensures var r := AddAll(s, category, l, ivs, isDev, apply, effectiveTs);
      r.0.None? && Target(l, category, isDev).Some? ==>
        (IsTemporaryTable(category, isDev) ==> r.1.intervals == l.intervals) &&
        (!IsTemporaryTable(category, isDev) ==> r.1.devIntervals == l.devIntervals) &&
        Target(r.1, category, isDev).Some? &&
        (Covers(Target(r.1, category, isDev).value, p) <==>
          Covers(Target(l, category, isDev).value, p) ||
          exists k :: 0 <= k < |ivs| && KeptCovers(s, ivs[k], apply, effectiveTs, p))
    decreases |ivs|
  {
    if ivs != [] {
      var rest := ivs[1..];
      KeptCoversSplit(s, ivs, apply, effectiveTs, p);
      var kept := Cutover(ivs[0], apply, effectiveTs);
      if kept.None? {
        AddAllCovers(s, category, l, rest, isDev, apply, effectiveTs, p);
      } else {
        var start, end := TimeLike(kept.value.start, false), TimeLike(kept.value.end, false);
        var step := AddTo(s, category, l, start, end, isDev);
        AddToEffect(s, category, l, start, end, isDev, p);
        if step.0.None? {
          AddAllCovers(s, category, step.1, rest, isDev, apply, effectiveTs, p);
        }
      }
    }
  }

  /** The development list only changes when a snapshot inherits from a
      snapshot with the same identifier; under a cutover the main list only
      gains points before it. */
  lemma InheritEffect(s: Schedule, category: Option<ChangeCategory>, l: Lists,
                      identifier: string, effectiveTs: int, other: SnapshotIntervals, p: int)
    requires Valid(l)
    ensures Valid(Inherit(s, category, l, identifier, effectiveTs, other).1)
    ensures identifier != other.identifier ==>
      Inherit(s, category, l, identifier, effectiveTs, other).1.devIntervals == l.devIntervals
    ensures identifier != other.identifier && effectiveTs > 0 && FloorsDown(s) && l.intervals.Some? ==>
      var r := Inherit(s, category, l, identifier, effectiveTs, other).1;
      r.intervals.Some? && (Covers(r.intervals.value, p) ==> Covers(l.intervals.value, p) || p < effectiveTs)
    ensures var r := Inherit(s, category, l, identifier, effectiveTs, other);
      r.0.None? && l.intervals.Some? && identifier != other.identifier ==>
        r.1.intervals.Some? &&
        (Covers(r.1.intervals.value, p) <==>
          Covers(l.intervals.value, p) ||
          exists k :: 0 <= k < |other.intervals| && KeptCovers(s, other.intervals[k], effectiveTs > 0, effectiveTs, p))
    ensures var r := Inherit(s, category, l, identifier, effectiveTs, other);
      var toDev := IsTemporaryTable(category, true);
      var fromMain := exists k :: 0 <= k < |other.intervals| && KeptCovers(s, other.intervals[k], false, effectiveTs, p);
      var fromDev := exists k :: 0 <= k < |other.devIntervals| && KeptCovers(s, other.devIntervals[k], false, effectiveTs, p);
      r.0.None? && l.intervals.Some? && l.devIntervals.Some? && identifier == other.identifier ==>
        r.1.intervals.Some? && r.1.devIntervals.Some? &&
        (Covers(r.1.intervals.value, p) <==> Covers(l.intervals.value, p) || fromMain || (!toDev && fromDev)) &&
        (Covers(r.1.devIntervals.value, p) <==> Covers(l.devIntervals.value, p) || (toDev && fromDev))
  {
    var apply := effectiveTs > 0 && identifier != other.identifier;
    var first := AddAll(s, category, l, other.intervals, false, apply, effectiveTs);
    AddAllValid(s, category, l, other.intervals, false, apply, effectiveTs);
    AddAllKeepsDev(s, category, l, other.intervals, apply, effectiveTs);
    if l.intervals.Some? {
      AddAllCovers(s, category, l, other.intervals, false, apply, effectiveTs, p);
    }
    if first.0.None? && identifier == other.identifier {
      AddAllValid(s, category, first.1, other.devIntervals, true, false, effectiveTs);
      if l.intervals.Some? && l.devIntervals.Some? {
        AddAllCovers(s, category, first.1, other.devIntervals, true, false, effectiveTs, p);
      }
    }
    if apply && FloorsDown(s) && l.intervals.Some? {
      AddAllBeforeCutover(s, category, l, other.intervals, effectiveTs, p);
    }
  }
}
