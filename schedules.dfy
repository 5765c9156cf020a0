/** A model's cron schedule on epoch timestamps, the inclusive/exclusive
    normalisation of `Snapshot.inclusive_exclusive`, and the slot scan at the
    heart of `Snapshot.missing_intervals`. */
module Schedules {
  import opened Wrappers
  import opened Errors
  import opened Intervals

  /** A point in time as the snapshot methods receive it: its epoch
      timestamp (`to_timestamp`) and whether it is a calendar date
      (`is_date`), which makes an end bound inclusive. */
  datatype TimeLike = TimeLike(ts: int, isDate: bool)

  /** The cron schedule: `floor` is `cron_floor`; the tick after `t` lies
      `1 + gap(t)` later, so ticks strictly increase. */
  datatype Schedule = Schedule(floor: int -> int, gap: int -> nat)
  {
    /** `cron_next`, and one `get_next` of a croniter cursor at `t`. */
    function Next(t: int): (r: int)
      ensures r > t
    {
      t + 1 + gap(t)
    }

    /** The exclusive end of an interval whose end bound is `end`: the tick
        after a date (the date is inclusive), the floor of anything else. */
    function ExclusiveEnd(end: TimeLike): int {
      if end.isDate then Next(end.ts) else floor(end.ts)
    }

    /** `inclusive_exclusive`: the `[start, end)` pair for the given bounds.
        Strict mode refuses an empty pair, lax mode only a reversed one. */
    function InclusiveExclusive(start: TimeLike, end: TimeLike, strict: bool): (r: Result<Interval, SnapshotError>)
      ensures r.Success? <==> (if strict then floor(start.ts) < ExclusiveEnd(end) else floor(start.ts) <= ExclusiveEnd(end))
      ensures r.Success? ==> r.value == Interval(floor(start.ts), ExclusiveEnd(end))
      ensures r.Failure? ==> r.error == EndNotAfterStart(floor(start.ts), ExclusiveEnd(end))
    {
      var startTs := floor(start.ts);
      var endTs := ExclusiveEnd(end);
      if (strict && startTs >= endTs) || startTs > endTs then Failure(EndNotAfterStart(startTs, endTs))
      else Success(Interval(startTs, endTs))
    }
  }

  /** What normalisation promises its callers: a strict pair is never empty,
      so it can be stored; a lax pair is never reversed; and the strict mode
      accepts only what the lax mode accepts. */
  lemma InclusiveExclusiveModes(s: Schedule, start: TimeLike, end: TimeLike)
    ensures s.InclusiveExclusive(start, end, true).Success? ==>
      s.InclusiveExclusive(start, end, true).value.start < s.InclusiveExclusive(start, end, true).value.end &&
      s.InclusiveExclusive(start, end, false) == s.InclusiveExclusive(start, end, true)
    ensures s.InclusiveExclusive(start, end, false).Success? ==>
      s.InclusiveExclusive(start, end, false).value.start <= s.InclusiveExclusive(start, end, false).value.end
    ensures s.InclusiveExclusive(start, end, false).Success? && s.InclusiveExclusive(start, end, true).Failure? ==>
      s.floor(start.ts) == s.ExclusiveEnd(end)
  {
  }

  /** A date end bound covers that whole day: its exclusive end lies after it. */
  lemma DateEndIsInclusive(s: Schedule, end: TimeLike)
    requires end.isDate
    ensures s.ExclusiveEnd(end) > end.ts
  {
  }

  // ---------------------------------------------------------------------
  // The dates of `missing_intervals`

  ghost predicate Increasing(xs: seq<int>) {
    forall i, j :: 0 <= i < j < |xs| ==> xs[i] < xs[j]
  }

  /** The ticks after `t` that lie below `bound`, in order. */
  function TicksBelow(s: Schedule, t: int, bound: int): (r: seq<int>)
    ensures forall x :: x in r ==> t < x < bound
    ensures Increasing(r)
    ensures s.Next(if r == [] then t else r[|r| - 1]) >= bound
    decreases bound - t
  {
    var n := s.Next(t);
    if n < bound then
      var rest := TicksBelow(s, n, bound);
      IncreasingConcat([n], rest);
      [n] + rest
    else []
  }

  /** At most `count` further ticks after `t`, stopping at the first that
      reaches `bound`. */
  function LookbackTicks(s: Schedule, t: int, bound: int, count: nat): (r: seq<int>)
    ensures forall x :: x in r ==> s.Next(t) <= x < bound
    ensures Increasing(r)
    ensures |r| <= count
    decreases count
  {
    var n := s.Next(t);
    if count == 0 || n >= bound then []
    else
      var rest := LookbackTicks(s, n, bound, count - 1);
      IncreasingConcat([n], rest);
      [n] + rest
  }

  /** The slot starts: the start and every tick below `end_ts`. */
  function MainDates(s: Schedule, startTs: int, endTs: int): (r: seq<int>)
    ensures r != [] && r[0] == startTs
  {
    [startTs] + TicksBelow(s, startTs, endTs)
  }

  /** The `dates` list: the slot starts, then up to `lookback` ticks beyond
      them (but below `latest_ts`) that lookback comparisons may reach. The
      croniter cursor steps back after overshooting `end_ts`, so the extra
      ticks continue from the last slot start. */
  function Dates(s: Schedule, startTs: int, endTs: int, latestTs: int, lookback: nat): seq<int> {
    var main := MainDates(s, startTs, endTs);
    main + LookbackTicks(s, main[|main| - 1], latestTs, lookback)
  }

  lemma IncreasingConcat(a: seq<int>, b: seq<int>)
    requires Increasing(a) && Increasing(b)
    requires a != [] ==> forall x :: x in b ==> a[|a| - 1] < x
    ensures Increasing(a + b)
  {
    forall i, j | 0 <= i < j < |a + b|
      ensures (a + b)[i] < (a + b)[j]
    {
      if j >= |a| && i < |a| {
        assert (a + b)[j] == b[j - |a|] && b[j - |a|] in b;
        assert a[i] <= a[|a| - 1];
      } else if i >= |a| {
        assert (a + b)[i] == b[i - |a|] && (a + b)[j] == b[j - |a|];
      }
    }
  }

  /** The number of leading dates below `bound`: the slots the scan visits. */
  function SlotCount(dates: seq<int>, bound: int): (n: nat)
    ensures n <= |dates|
    ensures forall i :: 0 <= i < n ==> dates[i] < bound
    ensures n < |dates| ==> dates[n] >= bound
  {
    if dates == [] || dates[0] >= bound then 0 else 1 + SlotCount(dates[1..], bound)
  }

  /** The slot count is the one position where the dates reach `bound`. */
  lemma SlotCountExact(dates: seq<int>, bound: int, m: nat)
    requires m <= |dates|
    requires forall i :: 0 <= i < m ==> dates[i] < bound
    requires m < |dates| ==> dates[m] >= bound
    ensures SlotCount(dates, bound) == m
  {
    var n := SlotCount(dates, bound);
  }

  /** The dates increase; the slots are exactly the slot starts (all of
      them when `start_ts < end_ts`, none otherwise); every slot start lies
      in `[start_ts, end_ts)`; the extra lookback dates lie below `latest_ts`. */
  lemma DatesShape(s: Schedule, startTs: int, endTs: int, latestTs: int, lookback: nat)
    ensures var dates := Dates(s, startTs, endTs, latestTs, lookback);
      Increasing(dates) && dates[0] == startTs &&
      SlotCount(dates, endTs) == (if startTs < endTs then |MainDates(s, startTs, endTs)| else 0) &&
      (forall i :: 0 <= i < SlotCount(dates, endTs) ==> startTs <= dates[i] < endTs) &&
      (forall i :: |MainDates(s, startTs, endTs)| <= i < |dates| ==> dates[i] < latestTs)
  {
    var main := MainDates(s, startTs, endTs);
    var ticks := TicksBelow(s, startTs, endTs);
    var extra := LookbackTicks(s, main[|main| - 1], latestTs, lookback);
    var dates := main + extra;
    assert main[|main| - 1] == if ticks == [] then startTs else ticks[|ticks| - 1];
    IncreasingConcat([startTs], ticks);
    IncreasingConcat(main, extra);
    forall i | |main| <= i < |dates|
      ensures endTs <= dates[i] < latestTs
    {
      assert dates[i] == extra[i - |main|] && extra[i - |main|] in extra;
    }
    var n := SlotCount(dates, endTs);
    if startTs < endTs {
      forall i | 0 <= i < |main| ensures dates[i] < endTs {
        if i > 0 { assert dates[i] == ticks[i - 1] && ticks[i - 1] in ticks; }
      }
      SlotCountExact(dates, endTs, |main|);
    } else {
      SlotCountExact(dates, endTs, 0);
    }
    forall i | 0 <= i < n ensures startTs <= dates[i] {
      assert i > 0 ==> dates[0] < dates[i];
    }
  }

  /** `dates` as `missing_intervals` builds it, with a cursor that moves one
      tick per `get_next` and steps back once after overshooting `end_ts`. */
  method BuildDates(s: Schedule, startTs: int, endTs: int, latestTs: int, lookback: nat)
    returns (dates: seq<int>)
    ensures dates == Dates(s, startTs, endTs, latestTs, lookback)
  {
    var cursor := startTs;
    dates := [startTs];
    while true
      invariant dates != [] && cursor == dates[|dates| - 1]
      invariant dates + TicksBelow(s, cursor, endTs) == MainDates(s, startTs, endTs)
      decreases endTs - cursor
    {
      var previous := cursor;
      cursor := s.Next(cursor);
      var ts := cursor;
      if ts < endTs {
        assert TicksBelow(s, previous, endTs) == [ts] + TicksBelow(s, ts, endTs);
        assert dates + [ts] + TicksBelow(s, ts, endTs) == dates + ([ts] + TicksBelow(s, ts, endTs));
        dates := dates + [ts];
      } else {
        cursor := previous;
        assert TicksBelow(s, cursor, endTs) == [];
        assert dates + [] == dates;
        break;
      }
    }
    assert dates == MainDates(s, startTs, endTs);
    for k := 0 to lookback
      invariant dates != [] && cursor == dates[|dates| - 1]
      invariant dates + LookbackTicks(s, cursor, latestTs, lookback - k) == Dates(s, startTs, endTs, latestTs, lookback)
    {
      var previous := cursor;
      cursor := s.Next(cursor);
      var ts := cursor;
      if ts < latestTs {
        assert LookbackTicks(s, previous, latestTs, lookback - k) == [ts] + LookbackTicks(s, ts, latestTs, lookback - k - 1);
        assert dates + [ts] + LookbackTicks(s, ts, latestTs, lookback - k - 1) == dates + ([ts] + LookbackTicks(s, ts, latestTs, lookback - k - 1));
        dates := dates + [ts];
      } else {
        assert LookbackTicks(s, previous, latestTs, lookback - k) == [];
        assert dates + [] == dates;
        break;
      }
    }
    assert LookbackTicks(s, cursor, latestTs, 0) == [];
  }

  // ---------------------------------------------------------------------
  // The slot scan

  /** Stored intervals ordered by their starts, as merged lists are. */
  ghost predicate StartsSorted(ivs: seq<Interval>) {
    forall i, j :: 0 <= i < j < |ivs| ==> ivs[i].start <= ivs[j].start
  }

  /** The point of comparison for the slot at `i`: the date `lookback`
      slots later, or the last date when there is none. */
  function CompareTs(dates: seq<int>, i: nat, lookback: nat): int
    requires i < |dates|
  {
    if i + lookback < |dates| then dates[i + lookback] else dates[|dates| - 1]
  }

  /** The slot starting at `dates[i]`: it ends at the next date, or at the
      next tick for the last date. */
  function SlotAt(s: Schedule, dates: seq<int>, i: nat): Interval
    requires i < |dates|
  {
    Interval(dates[i], if i + 1 < |dates| then dates[i + 1] else s.Next(dates[i]))
  }

  /** The inner `for ... else` of `missing_intervals`: walk the stored
      intervals; the slot is missing when one starts after `compare`, or when
      none holds both `current` and `compare`. */
  function CoverageScan(ivs: seq<Interval>, current: int, compare: int): bool {
    if ivs == [] then true
    else if compare < ivs[0].start then true
    else if current >= ivs[0].start && compare < ivs[0].end then false
    else CoverageScan(ivs[1..], current, compare)
  }

  /** Some stored interval spans from at or before `current` to beyond `compare`. */
  ghost predicate Spanned(ivs: seq<Interval>, current: int, compare: int) {
    exists k :: 0 <= k < |ivs| && ivs[k].start <= current && compare < ivs[k].end
  }

  /** On intervals sorted by start, the scan reports a slot missing exactly
      when no stored interval spans it up to its comparison point. */
  lemma {:induction false} ScanMeansUnspanned(ivs: seq<Interval>, current: int, compare: int)
    requires StartsSorted(ivs) && current <= compare
    ensures CoverageScan(ivs, current, compare) <==> !Spanned(ivs, current, compare)
  {
    if ivs != [] {
      if compare < ivs[0].start {
        forall k | 0 <= k < |ivs| ensures !(ivs[k].start <= current && compare < ivs[k].end) {
          assert ivs[0].start <= ivs[k].start;
        }
      } else if !(current >= ivs[0].start && compare < ivs[0].end) {
        var rest := ivs[1..];
        assert StartsSorted(rest) by {
          forall i, j | 0 <= i < j < |rest| ensures rest[i].start <= rest[j].start {
            assert rest[i] == ivs[i + 1] && rest[j] == ivs[j + 1];
          }
        }
        ScanMeansUnspanned(rest, current, compare);
        if Spanned(ivs, current, compare) {
          var k :| 0 <= k < |ivs| && ivs[k].start <= current && compare < ivs[k].end;
          assert k > 0 && rest[k - 1] == ivs[k];
        }
        if Spanned(rest, current, compare) {
          var k :| 0 <= k < |rest| && rest[k].start <= current && compare < rest[k].end;
          assert ivs[k + 1] == rest[k];
        }
      }
    }
  }

  /** The slot at `i` is one the scan reports. */
  predicate Gap(dates: seq<int>, lookback: nat, ivs: seq<Interval>, i: nat)
    requires i < |dates|
  {
    CoverageScan(ivs, dates[i], CompareTs(dates, i, lookback))
  }

  /** The missing slots among the first `k`, in order. */
  function MissingSlots(s: Schedule, dates: seq<int>, lookback: nat, ivs: seq<Interval>, k: nat): seq<Interval>
    requires k <= |dates|
  {
    if k == 0 then []
    else MissingSlots(s, dates, lookback, ivs, k - 1) +
         (if Gap(dates, lookback, ivs, k - 1) then [SlotAt(s, dates, k - 1)] else [])
  }

  /** The slot phase: nothing to scan when no date lies below `end_ts`;
      otherwise the interval list must be hydrated; a restated snapshot
      scans against no intervals at all. */
  function MissingAmong(s: Schedule, dates: seq<int>, endTs: int, lookback: nat,
                        stored: Option<seq<Interval>>, restated: bool): Result<seq<Interval>, SnapshotError>
  {
    var n := SlotCount(dates, endTs);
    if n == 0 then Success([])
    else if stored.None? then Failure(IntervalsNotHydrated)
    else Success(MissingSlots(s, dates, lookback, if restated then [] else stored.value, n))
  }

  /** The slot loop of `missing_intervals`, with its inner `for ... else`. */
  method CollectMissing(s: Schedule, dates: seq<int>, endTs: int, lookback: nat,
                        stored: Option<seq<Interval>>, restated: bool)
    returns (r: Result<seq<Interval>, SnapshotError>)
    requires dates != []
    ensures r == MissingAmong(s, dates, endTs, lookback, stored, restated)
  {
    var n := SlotCount(dates, endTs);
    var missing := [];
    var i := 0;
    while i < |dates|
      invariant 0 <= i <= n
      invariant i > 0 ==> stored.Some?
      invariant stored.Some? ==> missing == MissingSlots(s, dates, lookback, if restated then [] else stored.value, i)
      invariant stored.None? ==> missing == []
    {
      if dates[i] >= endTs {
        break;
      }
      var current := dates[i];
      var next := if i + 1 < |dates| then dates[i + 1] else s.Next(current);
      var compare := CompareTs(dates, i, lookback);
      if stored.None? {
        return Failure(IntervalsNotHydrated);
      }
      var ivs := if restated then [] else stored.value;
      var j := 0;
      var broke := false;
      var gap := false;
      while j < |ivs| && !broke
        invariant 0 <= j <= |ivs|
        invariant !broke ==> CoverageScan(ivs[j..], current, compare) == CoverageScan(ivs, current, compare)
        invariant broke ==> gap == CoverageScan(ivs, current, compare)
        invariant !broke ==> !gap
        decreases |ivs| - j, !broke
      {
        var low, high := ivs[j].start, ivs[j].end;
        assert ivs[j..][0] == ivs[j] && ivs[j..][1..] == ivs[j + 1..];
        if compare < low {
          assert CoverageScan(ivs[j..], current, compare);
          gap := true;
          broke := true;
        } else if current >= low && compare < high {
          assert !CoverageScan(ivs[j..], current, compare);
          broke := true;
        } else {
          assert CoverageScan(ivs[j..], current, compare) == CoverageScan(ivs[j + 1..], current, compare);
          j := j + 1;
        }
      }
      if !broke {
        gap := true;
      }
      if gap {
        missing := missing + [Interval(current, next)];
      }
      i := i + 1;
    }
    if i < n {
      assert false;
    }
    return Success(missing);
  }

  // ---------------------------------------------------------------------
  // What the scan reports

  /** The comparison point never precedes the slot's own start. */
  lemma CompareNotBefore(dates: seq<int>, i: nat, lookback: nat)
    requires Increasing(dates) && i < |dates|
    ensures dates[i] <= CompareTs(dates, i, lookback)
  {
  }

  lemma {:induction false} MissingSlotsFrom(s: Schedule, dates: seq<int>, lookback: nat, ivs: seq<Interval>, k: nat)
    requires k <= |dates|
    ensures forall x :: x in MissingSlots(s, dates, lookback, ivs, k) ==>
      exists i :: 0 <= i < k && x == SlotAt(s, dates, i) && Gap(dates, lookback, ivs, i)
    ensures forall i :: 0 <= i < k && Gap(dates, lookback, ivs, i) ==> SlotAt(s, dates, i) in MissingSlots(s, dates, lookback, ivs, k)
  {
    if k > 0 {
      MissingSlotsFrom(s, dates, lookback, ivs, k - 1);
    }
  }

  ghost predicate StartsAscending(r: seq<Interval>) {
    forall a, b :: 0 <= a < b < |r| ==> r[a].start < r[b].start
  }

  ghost predicate StartsWithin(r: seq<Interval>, low: int, high: int) {
    forall a :: 0 <= a < |r| ==> low <= r[a].start <= high
  }

  /** The reported slots are proper intervals in strictly ascending order,
      each starting at one of the first `k` dates. */
  lemma {:induction false} MissingSlotsAscending(s: Schedule, dates: seq<int>, lookback: nat, ivs: seq<Interval>, k: nat)
    requires Increasing(dates) && 0 < k <= |dates|
    ensures StartsAscending(MissingSlots(s, dates, lookback, ivs, k))
    ensures Proper(MissingSlots(s, dates, lookback, ivs, k))
    ensures StartsWithin(MissingSlots(s, dates, lookback, ivs, k), dates[0], dates[k - 1])
  {
    var r := MissingSlots(s, dates, lookback, ivs, k);
    var last := SlotAt(s, dates, k - 1);
    assert last.start < last.end by {
      if k < |dates| { assert dates[k - 1] < dates[k]; }
    }
    if k == 1 {
      assert MissingSlots(s, dates, lookback, ivs, 0) == [];
    } else {
      var init := MissingSlots(s, dates, lookback, ivs, k - 1);
      MissingSlotsAscending(s, dates, lookback, ivs, k - 1);
      assert dates[k - 2] < dates[k - 1] && dates[0] < dates[k - 1];
      assert StartsWithin(init, dates[0], dates[k - 2]);
      if Gap(dates, lookback, ivs, k - 1) {
        assert r == init + [last];
        assert forall a :: 0 <= a < |init| ==> r[a] == init[a];
      } else {
        assert r == init;
      }
    }
  }

  /** A slot among the first `k` is reported exactly when no stored
      interval spans it up to its comparison point (the scan's promise on
      intervals sorted by start). */
  lemma MissingIffUnspanned(s: Schedule, dates: seq<int>, lookback: nat, ivs: seq<Interval>, k: nat, i: nat)
    requires Increasing(dates) && StartsSorted(ivs) && i < k <= |dates|
    ensures SlotAt(s, dates, i) in MissingSlots(s, dates, lookback, ivs, k) <==>
      !Spanned(ivs, dates[i], CompareTs(dates, i, lookback))
  {
    MissingSlotsFrom(s, dates, lookback, ivs, k);
    CompareNotBefore(dates, i, lookback);
    ScanMeansUnspanned(ivs, dates[i], CompareTs(dates, i, lookback));
    if SlotAt(s, dates, i) in MissingSlots(s, dates, lookback, ivs, k) {
      var j :| 0 <= j < k && SlotAt(s, dates, i) == SlotAt(s, dates, j) && Gap(dates, lookback, ivs, j);
      assert dates[i] == dates[j];
      assert i == j;
    }
  }

  /** With no intervals to compare against (a restatement), every slot is
      reported. */
  lemma {:induction false} MissingSlotsAll(s: Schedule, dates: seq<int>, lookback: nat, k: nat)
    requires k <= |dates|
    ensures |MissingSlots(s, dates, lookback, [], k)| == k
    ensures forall i :: 0 <= i < k ==> MissingSlots(s, dates, lookback, [], k)[i] == SlotAt(s, dates, i)
  {
    if k > 0 {
      MissingSlotsAll(s, dates, lookback, k - 1);
    }
  }

  // ---------------------------------------------------------------------
  // The comparison point as written

  /** `seq_get(dates, i + lookback) or dates[-1]` as the source writes it:
      `or` also discards a comparison date of `0` (the epoch), which is a
      real timestamp, and compares against the last date instead. */
  function CompareTsAsWritten(dates: seq<int>, i: nat, lookback: nat): int
    requires i < |dates|
  {
    if i + lookback < |dates| && dates[i + lookback] != 0 then dates[i + lookback] else dates[|dates| - 1]
  }

  /** The scan verdict for the slot at `i` with the comparison as written. */
  predicate GapAsWritten(dates: seq<int>, lookback: nat, ivs: seq<Interval>, i: nat)
    requires i < |dates|
  {
    CoverageScan(ivs, dates[i], CompareTsAsWritten(dates, i, lookback))
  }

  /** The two comparisons differ only when the date `lookback` slots on is
      the epoch itself. */
  lemma CompareTsAgree(dates: seq<int>, i: nat, lookback: nat)
    requires i < |dates|
    ensures CompareTsAsWritten(dates, i, lookback) != CompareTs(dates, i, lookback) ==>
      i + lookback < |dates| - 1 && dates[i + lookback] == 0
  {
  }

  /** The missing slots among the first `k` with the comparison as written. */
  function MissingSlotsAsWritten(s: Schedule, dates: seq<int>, lookback: nat, ivs: seq<Interval>, k: nat): seq<Interval>
    requires k <= |dates|
  {
    if k == 0 then []
    else MissingSlotsAsWritten(s, dates, lookback, ivs, k - 1) +
         (if GapAsWritten(dates, lookback, ivs, k - 1) then [SlotAt(s, dates, k - 1)] else [])
  }

  /** When no date is the epoch, the scan as written and the intended scan
      report the same slots. */
  lemma {:induction false} MissingSlotsAgree(s: Schedule, dates: seq<int>, lookback: nat, ivs: seq<Interval>, k: nat)
    requires k <= |dates|
    requires forall j :: 0 <= j < |dates| ==> dates[j] != 0
    ensures MissingSlotsAsWritten(s, dates, lookback, ivs, k) == MissingSlots(s, dates, lookback, ivs, k)
  {
    if k > 0 {
      MissingSlotsAgree(s, dates, lookback, ivs, k - 1);
      CompareTsAgree(dates, k - 1, lookback);
    }
  }

  /** A slot starting at the epoch that the stored interval `[0, 10)`
      covers entirely is still reported missing as written (its comparison
      jumps to the last date, 10), but not with the intended comparison. */
  lemma EpochSlotReportedMissing()
    ensures Spanned([Interval(0, 10)], 0, CompareTs([0, 10], 0, 0))
    ensures !Gap([0, 10], 0, [Interval(0, 10)], 0)
    ensures GapAsWritten([0, 10], 0, [Interval(0, 10)], 0)
  {
    assert [Interval(0, 10)][0] == Interval(0, 10);
  }
}
