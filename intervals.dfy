/** The algebra of half-open `[start, end)` timestamp intervals: the free
    functions `merge_intervals` and `remove_interval`. */
module Intervals {
  import opened Wrappers
  import opened Sorting
  import opened Errors

  datatype Interval = Interval(start: int, end: int)

  function Max(a: int, b: int): int { if a >= b then a else b }
  function Min(a: int, b: int): int { if a <= b then a else b }

  /** Python's ordering of `(start, end)` tuples. */
  predicate IntervalLe(x: Interval, y: Interval) {
    x.start < y.start || (x.start == y.start && x.end <= y.end)
  }

  lemma IntervalLeIsTotalOrder()
    ensures TotalOrder(IntervalLe)
  {
  }

  function SortIntervals(xs: seq<Interval>): (r: seq<Interval>)
    ensures multiset(r) == multiset(xs)
    ensures |r| == |xs|
  {
    Sort(IntervalLe, xs)
  }

  /** The point `p` lies in some interval of `xs`. */
  predicate Covers(xs: seq<Interval>, p: int) {
    exists k :: 0 <= k < |xs| && xs[k].start <= p < xs[k].end
  }

  /** No interval is reversed (`start <= end`). */
  predicate WellFormed(xs: seq<Interval>) {
    forall k :: 0 <= k < |xs| ==> xs[k].start <= xs[k].end
  }

  /** Every interval is non-empty (`start < end`), as `inclusive_exclusive` produces them. */
  predicate Proper(xs: seq<Interval>) {
    forall k :: 0 <= k < |xs| ==> xs[k].start < xs[k].end
  }

  /** Consecutive intervals neither overlap nor touch. */
  predicate Separated(xs: seq<Interval>) {
    forall k :: 0 <= k < |xs| - 1 ==> xs[k].end < xs[k + 1].start
  }

  /** The form a snapshot keeps its interval lists in. */
  predicate Normalized(xs: seq<Interval>) {
    Proper(xs) && Separated(xs)
  }

  lemma ProperIsWellFormed(xs: seq<Interval>)
    requires Proper(xs)
    ensures WellFormed(xs)
  {
  }

  /** In a well-formed separated list every interval ends before any later one starts. */
  lemma {:induction false} SeparatedOrdered(xs: seq<Interval>)
    requires WellFormed(xs) && Separated(xs)
    ensures forall i, j :: 0 <= i < j < |xs| ==> xs[i].end < xs[j].start
  {
    if |xs| > 1 {
      var init := xs[..|xs| - 1];
      assert WellFormed(init) && Separated(init);
      SeparatedOrdered(init);
      forall i, j | 0 <= i < j < |xs|
        ensures xs[i].end < xs[j].start
      {
        if j < |xs| - 1 {
          assert init[i] == xs[i] && init[j] == xs[j];
        } else if i < |xs| - 2 {
          assert init[i] == xs[i] && init[|xs| - 2] == xs[|xs| - 2];
        }
      }
    }
  }

  lemma SeparatedSorted(xs: seq<Interval>)
    requires WellFormed(xs) && Separated(xs)
    ensures SortedBy(IntervalLe, xs)
    ensures forall i, j :: 0 <= i < j < |xs| ==> xs[i].start < xs[j].start
  {
    SeparatedOrdered(xs);
  }

  lemma CoversSameElements(a: seq<Interval>, b: seq<Interval>, p: int)
    requires multiset(a) == multiset(b)
    ensures Covers(a, p) <==> Covers(b, p)
  {
    if Covers(a, p) {
      var k :| 0 <= k < |a| && a[k].start <= p < a[k].end;
      assert a[k] in multiset(b);
      var j :| 0 <= j < |b| && b[j] == a[k];
    }
    if Covers(b, p) {
      var k :| 0 <= k < |b| && b[k].start <= p < b[k].end;
      assert b[k] in multiset(a);
      var j :| 0 <= j < |a| && a[j] == b[k];
    }
  }

  lemma CoversAppend(a: seq<Interval>, b: seq<Interval>, p: int)
    ensures Covers(a + b, p) <==> Covers(a, p) || Covers(b, p)
  {
    if Covers(a + b, p) {
      var k :| 0 <= k < |a + b| && (a + b)[k].start <= p < (a + b)[k].end;
      if k >= |a| {
        assert b[k - |a|] == (a + b)[k];
      }
    }
    if Covers(b, p) {
      var k :| 0 <= k < |b| && b[k].start <= p < b[k].end;
      assert (a + b)[|a| + k] == b[k];
    }
    if Covers(a, p) {
      var k :| 0 <= k < |a| && a[k].start <= p < a[k].end;
      assert (a + b)[k] == a[k];
    }
  }

  // ---------------------------------------------------------------------
  // merge_intervals

  /** One step of the fold: widen the last merged interval or start a new one. */
  function Absorb(merged: seq<Interval>, iv: Interval): (r: seq<Interval>)
    requires merged != []
    ensures r != []
  {
    var current := merged[|merged| - 1];
    if iv.start <= current.end then
      merged[..|merged| - 1] + [Interval(current.start, Max(current.end, iv.end))]
    else
      merged + [iv]
  }

  /** The fold of `merge_intervals` over an already sorted list. */
  function Fold(s: seq<Interval>): (r: seq<Interval>)
    ensures s != [] ==> r != []
  {
    if |s| <= 1 then s else Absorb(Fold(s[..|s| - 1]), s[|s| - 1])
  }

  lemma FoldStep(s: seq<Interval>, i: nat)
    requires 1 <= i < |s|
    ensures Fold(s[..i + 1]) == Absorb(Fold(s[..i]), s[i])
  {
    assert s[..i + 1][..i] == s[..i];
  }

  /** `merge_intervals` on a non-empty list: sort, then fold. */
  function Merge(xs: seq<Interval>): seq<Interval> {
    Fold(SortIntervals(xs))
  }

  /** `merge_intervals` (definition.py): sorts the intervals and folds
      overlapping or touching neighbours together. An empty list makes the
      source index `intervals[0]` and fail. */
  method MergeIntervals(intervals: seq<Interval>) returns (r: Result<seq<Interval>, SnapshotError>)
    ensures intervals == [] ==> r == Failure(EmptyIntervalList)
    ensures intervals != [] ==> r == Success(Merge(intervals))
  {
    if |intervals| == 0 {
      return Failure(EmptyIntervalList);
    }
    var sorted := SortIntervals(intervals);
    var merged := [sorted[0]];
    var i := 1;
    assert sorted[..i] == merged;
    while i < |sorted|
      invariant 1 <= i <= |sorted|
      invariant merged == Fold(sorted[..i])
    {
      var interval := sorted[i];
      var current := merged[|merged| - 1];
      FoldStep(sorted, i);
      if interval.start <= current.end {
        merged := merged[..|merged| - 1] + [Interval(current.start, Max(current.end, interval.end))];
      } else {
        merged := merged + [interval];
      }
      i := i + 1;
    }
    assert sorted[..|sorted|] == sorted;
    return Success(merged);
  }

  lemma {:induction false} FoldSeparated(s: seq<Interval>)
    ensures Separated(Fold(s))
  {
    if |s| > 1 {
      FoldSeparated(s[..|s| - 1]);
    }
  }

  lemma {:induction false} FoldProper(s: seq<Interval>)
    requires Proper(s)
    ensures Proper(Fold(s))
  {
    if |s| > 1 {
      assert Proper(s[..|s| - 1]);
      FoldProper(s[..|s| - 1]);
    }
  }

  lemma {:induction false} FoldWellFormed(s: seq<Interval>)
    requires WellFormed(s)
    ensures WellFormed(Fold(s))
  {
    if |s| > 1 {
      assert WellFormed(s[..|s| - 1]);
      FoldWellFormed(s[..|s| - 1]);
    }
  }

  /** One fold step covers the old points and those of the absorbed interval. */
  lemma AbsorbCovers(m: seq<Interval>, iv: Interval, p: int)
    requires m != [] && WellFormed(m) && iv.start <= iv.end
    requires m[|m| - 1].start <= iv.start
    ensures Covers(Absorb(m, iv), p) <==> Covers(m, p) || iv.start <= p < iv.end
    ensures Absorb(m, iv)[|Absorb(m, iv)| - 1].start <= iv.start
  {
    var current := m[|m| - 1];
    if iv.start <= current.end {
      var widened := Interval(current.start, Max(current.end, iv.end));
      CoversAppend(m[..|m| - 1], [widened], p);
      CoversAppend(m[..|m| - 1], [current], p);
      assert m == m[..|m| - 1] + [current];
    } else {
      CoversAppend(m, [iv], p);
    }
  }

  /** The last interval of the fold starts no later than the input's last one. */
  lemma {:induction false} FoldLastStart(s: seq<Interval>)
    requires SortedBy(IntervalLe, s) && WellFormed(s) && s != []
    ensures Fold(s)[|Fold(s)| - 1].start <= s[|s| - 1].start
  {
    if |s| > 1 {
      var init := s[..|s| - 1];
      assert SortedBy(IntervalLe, init) && WellFormed(init);
      FoldLastStart(init);
      FoldWellFormed(init);
      assert IntervalLe(init[|init| - 1], s[|s| - 1]);
      AbsorbCovers(Fold(init), s[|s| - 1], 0);
    }
  }

  /** On a sorted well-formed list the fold covers exactly the input's points. */
  lemma {:induction false} FoldCovers(s: seq<Interval>, p: int)
    requires SortedBy(IntervalLe, s) && WellFormed(s)
    ensures Covers(Fold(s), p) <==> Covers(s, p)
  {
    if |s| > 1 {
      var init, last := s[..|s| - 1], s[|s| - 1];
      assert s == init + [last];
      assert SortedBy(IntervalLe, init) && WellFormed(init);
      FoldCovers(init, p);
      FoldWellFormed(init);
      FoldLastStart(init);
      assert IntervalLe(init[|init| - 1], last);
      CoversAppend(init, [last], p);
      AbsorbCovers(Fold(init), last, p);
    }
  }

  /** Folding a separated list changes nothing. */
  lemma {:induction false} FoldOfSeparated(s: seq<Interval>)
    requires Separated(s)
    ensures Fold(s) == s
  {
    if |s| > 1 {
      var init := s[..|s| - 1];
      assert Separated(init);
      FoldOfSeparated(init);
      assert s[|s| - 2].end < s[|s| - 1].start;
      assert init + [s[|s| - 1]] == s;
    }
  }

  /** The result of `merge_intervals` is sorted and no two intervals overlap or touch. */
  lemma MergeSeparated(xs: seq<Interval>)
    ensures Separated(Merge(xs))
    ensures WellFormed(xs) ==> forall i, j :: 0 <= i < j < |Merge(xs)| ==> Merge(xs)[i].end < Merge(xs)[j].start
  {
    FoldSeparated(SortIntervals(xs));
    if WellFormed(xs) {
      MergeWellFormed(xs);
      SeparatedOrdered(Merge(xs));
    }
  }

  lemma MergeWellFormed(xs: seq<Interval>)
    requires WellFormed(xs)
    ensures WellFormed(Merge(xs))
  {
    var s := SortIntervals(xs);
    forall k | 0 <= k < |s| ensures s[k].start <= s[k].end {
      assert s[k] in multiset(xs);
    }
    FoldWellFormed(s);
  }

  /** Merging non-empty intervals gives a normalised list. */
  lemma MergeNormalized(xs: seq<Interval>)
    requires Proper(xs)
    ensures Normalized(Merge(xs))
  {
    var s := SortIntervals(xs);
    forall k | 0 <= k < |s| ensures s[k].start < s[k].end {
      assert s[k] in multiset(xs);
    }
    FoldProper(s);
    FoldSeparated(s);
  }

  /** `merge_intervals` covers exactly the points its input covers. */
  lemma MergeCovers(xs: seq<Interval>, p: int)
    requires WellFormed(xs)
    ensures Covers(Merge(xs), p) <==> Covers(xs, p)
  {
    var s := SortIntervals(xs);
    IntervalLeIsTotalOrder();
    SortSorted(IntervalLe, xs);
    forall k | 0 <= k < |s| ensures s[k].start <= s[k].end {
      assert s[k] in multiset(xs);
    }
    FoldCovers(s, p);
    CoversSameElements(s, xs, p);
  }

  /** `merge_intervals` is idempotent. */
  lemma MergeIdempotent(xs: seq<Interval>)
    requires WellFormed(xs)
    ensures Merge(Merge(xs)) == Merge(xs)
  {
    var m := Merge(xs);
    MergeWellFormed(xs);
    MergeSeparated(xs);
    SeparatedSorted(m);
    SortOfSorted(IntervalLe, m);
    FoldOfSeparated(m);
  }

  // ---------------------------------------------------------------------
  // remove_interval

  /** What `remove_interval` keeps of one stored interval: split it, keep its
      head, keep its tail, or drop it. */
  function Pieces(iv: Interval, removeStart: int, removeEnd: int): seq<Interval> {
    if removeStart > iv.start && removeEnd < iv.end then
      [Interval(iv.start, removeStart), Interval(removeEnd, iv.end)]
    else if removeStart > iv.start then
      [Interval(iv.start, Min(removeStart, iv.end))]
    else if removeEnd < iv.end then
      [Interval(Max(removeEnd, iv.start), iv.end)]
    else
      []
  }

  /** The concatenated pieces of every stored interval, in order. */
  function Removed(xs: seq<Interval>, removeStart: int, removeEnd: int): seq<Interval> {
    if xs == [] then []
    else Removed(xs[..|xs| - 1], removeStart, removeEnd) + Pieces(xs[|xs| - 1], removeStart, removeEnd)
  }

  /** `remove_interval` (definition.py): removes `[removeStart, removeEnd)`
      from every stored interval, extending the result list in a loop. */
  method RemoveInterval(intervals: seq<Interval>, removeStart: int, removeEnd: int)
    returns (modified: seq<Interval>)
    ensures modified == Removed(intervals, removeStart, removeEnd)
  {
    modified := [];
    var i := 0;
    while i < |intervals|
      invariant 0 <= i <= |intervals|
      invariant modified == Removed(intervals[..i], removeStart, removeEnd)
    {
      var iv := intervals[i];
      if removeStart > iv.start && removeEnd < iv.end {
        modified := modified + [Interval(iv.start, removeStart), Interval(removeEnd, iv.end)];
      } else if removeStart > iv.start {
        modified := modified + [Interval(iv.start, Min(removeStart, iv.end))];
      } else if removeEnd < iv.end {
        modified := modified + [Interval(Max(removeEnd, iv.start), iv.end)];
      }
      assert intervals[..i + 1][..i] == intervals[..i];
      i := i + 1;
    }
    assert intervals[..|intervals|] == intervals;
  }

  lemma {:induction false} RemovedAppend(a: seq<Interval>, b: seq<Interval>, removeStart: int, removeEnd: int)
    ensures Removed(a + b, removeStart, removeEnd) == Removed(a, removeStart, removeEnd) + Removed(b, removeStart, removeEnd)
  {
    if b != [] {
      assert (a + b)[..|a + b| - 1] == a + b[..|b| - 1];
      RemovedAppend(a, b[..|b| - 1], removeStart, removeEnd);
    } else {
      assert a + b == a;
    }
  }

  lemma PiecesCovers(iv: Interval, removeStart: int, removeEnd: int, p: int)
    requires iv.start <= iv.end && removeStart <= removeEnd
    ensures Covers(Pieces(iv, removeStart, removeEnd), p)
        <==> iv.start <= p < iv.end && !(removeStart <= p < removeEnd)
  {
    var r := Pieces(iv, removeStart, removeEnd);
    if Covers(r, p) {
      var k :| 0 <= k < |r| && r[k].start <= p < r[k].end;
    }
    if iv.start <= p < iv.end && !(removeStart <= p < removeEnd) {
      if removeStart > iv.start && removeEnd < iv.end {
        if p < removeStart { assert r[0].start <= p < r[0].end; } else { assert r[1].start <= p < r[1].end; }
      } else {
        assert r[0].start <= p < r[0].end;
      }
    }
  }

  /** `remove_interval` keeps exactly the stored points outside the removed range. */
  lemma {:induction false} RemovedCovers(xs: seq<Interval>, removeStart: int, removeEnd: int, p: int)
    requires WellFormed(xs) && removeStart <= removeEnd
    ensures Covers(Removed(xs, removeStart, removeEnd), p)
        <==> Covers(xs, p) && !(removeStart <= p < removeEnd)
  {
    if xs != [] {
      var init, last := xs[..|xs| - 1], xs[|xs| - 1];
      assert xs == init + [last];
      assert WellFormed(init);
      RemovedCovers(init, removeStart, removeEnd, p);
      CoversAppend(init, [last], p);
      CoversAppend(Removed(init, removeStart, removeEnd), Pieces(last, removeStart, removeEnd), p);
      PiecesCovers(last, removeStart, removeEnd, p);
      assert Covers([last], p) <==> last.start <= p < last.end by {
        if Covers([last], p) { var k :| 0 <= k < 1 && [last][k].start <= p < [last][k].end; }
      }
    }
  }

  /** Every piece lies within the interval it was cut from and is non-empty. */
  lemma PiecesWithin(iv: Interval, removeStart: int, removeEnd: int)
    requires iv.start < iv.end && removeStart < removeEnd
    ensures Normalized(Pieces(iv, removeStart, removeEnd))
    ensures forall k :: 0 <= k < |Pieces(iv, removeStart, removeEnd)| ==>
      iv.start <= Pieces(iv, removeStart, removeEnd)[k].start && Pieces(iv, removeStart, removeEnd)[k].end <= iv.end
  {
  }

  /** Two normalised lists, the first ending before the second starts, concatenate to a normalised list. */
  lemma NormalizedConcat(a: seq<Interval>, b: seq<Interval>)
    requires Normalized(a) && Normalized(b)
    requires a != [] && b != [] ==> a[|a| - 1].end < b[0].start
    ensures Normalized(a + b)
  {
    ProperConcat(a, b);
    SeparatedConcat(a, b);
  }

  lemma ProperConcat(a: seq<Interval>, b: seq<Interval>)
    requires Proper(a) && Proper(b)
    ensures Proper(a + b)
  {
    forall k | 0 <= k < |a + b| ensures (a + b)[k].start < (a + b)[k].end {
      if k >= |a| { assert (a + b)[k] == b[k - |a|]; } else { assert (a + b)[k] == a[k]; }
    }
  }

  lemma SeparatedConcat(a: seq<Interval>, b: seq<Interval>)
    requires Separated(a) && Separated(b)
    requires a != [] && b != [] ==> a[|a| - 1].end < b[0].start
    ensures Separated(a + b)
  {
    var c := a + b;
    assert forall i :: 0 <= i < |a| ==> c[i] == a[i];
    assert forall i :: |a| <= i < |c| ==> c[i] == b[i - |a|];
    forall k | 0 <= k < |c| - 1 ensures c[k].end < c[k + 1].start {
      if k + 1 == |a| {
        assert c[k + 1] == b[0];
      }
    }
  }

  /** Removing a non-empty range from a normalised list leaves it normalised
      (and so sorted). */
  lemma {:induction false} RemovedNormalized(xs: seq<Interval>, removeStart: int, removeEnd: int)
    requires Normalized(xs) && removeStart < removeEnd
    ensures Normalized(Removed(xs, removeStart, removeEnd))
    ensures xs != [] && Removed(xs, removeStart, removeEnd) != [] ==>
      Removed(xs, removeStart, removeEnd)[|Removed(xs, removeStart, removeEnd)| - 1].end <= xs[|xs| - 1].end
  {
    if xs != [] {
      var init, last := xs[..|xs| - 1], xs[|xs| - 1];
      assert xs == init + [last];
      assert forall k :: 0 <= k < |init| ==> init[k] == xs[k];
      assert Normalized(init);
      RemovedNormalized(init, removeStart, removeEnd);
      RemovedSnoc(init, last, removeStart, removeEnd);
      var a, b := Removed(init, removeStart, removeEnd), Pieces(last, removeStart, removeEnd);
      PiecesWithin(last, removeStart, removeEnd);
      if a != [] && b != [] {
        assert init[|init| - 1].end < last.start;
        assert a[|a| - 1].end < b[0].start;
      }
      NormalizedConcat(a, b);
      if a + b != [] {
        if b == [] {
          assert (a + b)[|a + b| - 1] == a[|a| - 1];
          assert init[|init| - 1].end < last.start;
        } else {
          assert (a + b)[|a + b| - 1] == b[|b| - 1];
        }
      }
    }
  }

  lemma PiecesOfDisjoint(iv: Interval, removeStart: int, removeEnd: int)
    requires iv.start < iv.end && removeStart < removeEnd
    requires iv.end <= removeStart || removeEnd <= iv.start
    ensures Pieces(iv, removeStart, removeEnd) == [iv]
  {
  }

  lemma RemovedSnoc(init: seq<Interval>, last: Interval, removeStart: int, removeEnd: int)
    ensures Removed(init + [last], removeStart, removeEnd)
         == Removed(init, removeStart, removeEnd) + Pieces(last, removeStart, removeEnd)
  {
    assert (init + [last])[..|init|] == init;
  }

  /** Stored intervals that do not overlap the removed range are kept unchanged. */
  lemma {:induction false} RemovedKeepsDisjoint(xs: seq<Interval>, removeStart: int, removeEnd: int)
    requires Proper(xs) && removeStart < removeEnd
    requires forall k :: 0 <= k < |xs| ==> xs[k].end <= removeStart || removeEnd <= xs[k].start
    ensures Removed(xs, removeStart, removeEnd) == xs
  {
    if xs != [] {
      var init, last := xs[..|xs| - 1], xs[|xs| - 1];
      assert xs == init + [last];
      assert forall k :: 0 <= k < |init| ==> init[k] == xs[k];
      RemovedKeepsDisjoint(init, removeStart, removeEnd);
      PiecesOfDisjoint(last, removeStart, removeEnd);
      RemovedSnoc(init, last, removeStart, removeEnd);
    }
  }

  /** Stored intervals lying wholly inside the removed range are dropped. */
  lemma {:induction false} RemovedDropsContained(xs: seq<Interval>, removeStart: int, removeEnd: int)
    requires forall k :: 0 <= k < |xs| ==> removeStart <= xs[k].start && xs[k].end <= removeEnd
    ensures Removed(xs, removeStart, removeEnd) == []
  {
    if xs != [] {
      RemovedDropsContained(xs[..|xs| - 1], removeStart, removeEnd);
    }
  }

  /** The scenario of the design: `[(100, 200)]` minus `[120, 150)`. */
  lemma RemoveSplitsContaining()
    ensures Removed([Interval(100, 200)], 120, 150) == [Interval(100, 120), Interval(150, 200)]
  {
  }

  // ---------------------------------------------------------------------
  // Appending to a stored list (the core of `Snapshot.add_interval`)

  /** Append `iv`, then merge once the list holds two or more entries. */
  function Appended(xs: seq<Interval>, iv: Interval): seq<Interval> {
    if |xs + [iv]| < 2 then xs + [iv] else Merge(xs + [iv])
  }

  lemma ProperAppend(xs: seq<Interval>, iv: Interval)
    requires Proper(xs) && iv.start < iv.end
    ensures Proper(xs + [iv])
  {
  }

  /** Appending a non-empty interval to a list of non-empty intervals gives a normalised list. */
  lemma AppendedNormalized(xs: seq<Interval>, iv: Interval)
    requires Proper(xs) && iv.start < iv.end
    ensures Normalized(Appended(xs, iv))
  {
    ProperAppend(xs, iv);
    if |xs + [iv]| >= 2 {
      MergeNormalized(xs + [iv]);
    }
  }

  /** After appending, the list covers its old points and exactly those of `iv` besides. */
  lemma AppendedCovers(xs: seq<Interval>, iv: Interval, p: int)
    requires WellFormed(xs) && iv.start <= iv.end
    ensures Covers(Appended(xs, iv), p) <==> Covers(xs, p) || iv.start <= p < iv.end
  {
    CoversAppend(xs, [iv], p);
    assert Covers([iv], p) <==> iv.start <= p < iv.end by {
      if Covers([iv], p) { var k :| 0 <= k < 1 && [iv][k].start <= p < [iv][k].end; }
      assert [iv][0] == iv;
    }
    if |xs + [iv]| >= 2 {
      MergeCovers(xs + [iv], p);
    }
  }

  /** The number of stored intervals that end before `iv` starts. */
  function SplitPoint(xs: seq<Interval>, iv: Interval): (k: nat)
    ensures k <= |xs|
  {
    if xs == [] || xs[|xs| - 1].end < iv.start then |xs| else SplitPoint(xs[..|xs| - 1], iv)
  }

  lemma {:induction false} SplitPointSplits(xs: seq<Interval>, iv: Interval)
    requires Normalized(xs)
    requires forall k :: 0 <= k < |xs| ==> xs[k].end < iv.start || iv.end < xs[k].start
    ensures forall j :: 0 <= j < SplitPoint(xs, iv) ==> xs[j].end < iv.start
    ensures forall j :: SplitPoint(xs, iv) <= j < |xs| ==> iv.end < xs[j].start
  {
    if xs != [] {
      var init := xs[..|xs| - 1];
      if xs[|xs| - 1].end < iv.start {
        SeparatedOrdered(xs);
      } else {
        assert Normalized(init);
        SplitPointSplits(init, iv);
      }
    }
  }

  /** Placing `iv` at its split point keeps a normalised list normalised. */
  lemma InsertionNormalized(xs: seq<Interval>, iv: Interval)
    requires Normalized(xs) && iv.start < iv.end
    requires forall k :: 0 <= k < |xs| ==> xs[k].end < iv.start || iv.end < xs[k].start
    ensures Normalized(xs[..SplitPoint(xs, iv)] + [iv] + xs[SplitPoint(xs, iv)..])
  {
    var k := SplitPoint(xs, iv);
    SplitPointSplits(xs, iv);
    var ins := xs[..k] + [iv] + xs[k..];
    forall j | 0 <= j < |ins| - 1 ensures ins[j].end < ins[j + 1].start {
      if j + 1 < k {
        assert ins[j] == xs[j] && ins[j + 1] == xs[j + 1];
      } else if j + 1 == k {
        assert ins[j] == xs[j] && ins[j + 1] == iv;
      } else if j == k {
        assert ins[j] == iv && ins[j + 1] == xs[k];
      } else {
        assert ins[j] == xs[j - 1] && ins[j + 1] == xs[j];
      }
    }
    forall j | 0 <= j < |ins| ensures ins[j].start < ins[j].end {
      if j < k { assert ins[j] == xs[j]; } else if j > k { assert ins[j] == xs[j - 1]; }
    }
  }

  /** Appending a separate interval to a normalised list (and merging, once
      it holds two entries) inserts it in order. */
  lemma AppendedInserts(xs: seq<Interval>, iv: Interval)
    requires Normalized(xs) && iv.start < iv.end
    requires forall k :: 0 <= k < |xs| ==> xs[k].end < iv.start || iv.end < xs[k].start
    ensures Appended(xs, iv) == xs[..SplitPoint(xs, iv)] + [iv] + xs[SplitPoint(xs, iv)..]
  {
    if xs == [] {
      assert Appended(xs, iv) == [iv];
      return;
    }
    var k := SplitPoint(xs, iv);
    var ins := xs[..k] + [iv] + xs[k..];
    InsertionNormalized(xs, iv);
    InsertionPermutes(xs, iv, k);
    SeparatedSorted(ins);
    var sorted := SortIntervals(xs + [iv]);
    IntervalLeIsTotalOrder();
    SortSorted(IntervalLe, xs + [iv]);
    SortedUnique(IntervalLe, sorted, ins);
    FoldOfSeparated(ins);
    assert Appended(xs, iv) == Fold(sorted);
  }

  lemma InsertionPermutes(xs: seq<Interval>, iv: Interval, k: nat)
    requires k <= |xs|
    ensures multiset(xs[..k] + [iv] + xs[k..]) == multiset(xs + [iv])
  {
    assert xs == xs[..k] + xs[k..];
    assert multiset(xs + [iv]) == multiset(xs[..k]) + multiset(xs[k..]) + multiset([iv]);
  }

  /** Removing `iv` from an ordered insertion of it takes exactly it out again. */
  lemma RemovedInsertion(before: seq<Interval>, iv: Interval, after: seq<Interval>)
    requires Proper(before) && Proper(after) && iv.start < iv.end
    requires forall j :: 0 <= j < |before| ==> before[j].end <= iv.start
    requires forall j :: 0 <= j < |after| ==> iv.end <= after[j].start
    ensures Removed(before + [iv] + after, iv.start, iv.end) == before + after
  {
    var head := before + [iv];
    RemovedKeepsDisjoint(before, iv.start, iv.end);
    RemovedKeepsDisjoint(after, iv.start, iv.end);
    assert Removed(head, iv.start, iv.end) == before by {
      assert head[..|head| - 1] == before;
      assert Pieces(iv, iv.start, iv.end) == [];
    }
    RemovedAppend(head, after, iv.start, iv.end);
  }

  /** The stored intervals before and after the split point lie on either side of `iv`. */
  lemma SplitSides(xs: seq<Interval>, iv: Interval)
    requires Normalized(xs)
    requires forall k :: 0 <= k < |xs| ==> xs[k].end < iv.start || iv.end < xs[k].start
    ensures Proper(xs[..SplitPoint(xs, iv)]) && Proper(xs[SplitPoint(xs, iv)..])
    ensures forall j :: 0 <= j < |xs[..SplitPoint(xs, iv)]| ==> xs[..SplitPoint(xs, iv)][j].end <= iv.start
    ensures forall j :: 0 <= j < |xs[SplitPoint(xs, iv)..]| ==> iv.end <= xs[SplitPoint(xs, iv)..][j].start
  {
    var k := SplitPoint(xs, iv);
    SplitPointSplits(xs, iv);
    var before, after := xs[..k], xs[k..];
    assert forall j :: 0 <= j < |before| ==> before[j] == xs[j];
    assert forall j :: 0 <= j < |after| ==> after[j] == xs[k + j];
  }

  /** Adding an interval that neither overlaps nor touches the stored ones and
      then removing it again restores the stored list. */
  lemma AddRemoveRoundTrip(xs: seq<Interval>, iv: Interval)
    requires Normalized(xs) && iv.start < iv.end
    requires forall k :: 0 <= k < |xs| ==> xs[k].end < iv.start || iv.end < xs[k].start
    ensures Removed(Appended(xs, iv), iv.start, iv.end) == xs
  {
    var k := SplitPoint(xs, iv);
    var before, after := xs[..k], xs[k..];
    AppendedInserts(xs, iv);
    SplitSides(xs, iv);
    RemovedInsertion(before, iv, after);
    assert xs == before + after;
  }
}
