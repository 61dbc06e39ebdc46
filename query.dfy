/**
 * The two questions asked of a parsed table: `within_time_frames` (may an
 * alert be sent now?) and `next_valid_date_time` (when is the next moment one
 * may be sent?). The weekday is an index 0..6 with Sunday 0; the time of day
 * is a count of microseconds since midnight, the precision at which Python
 * compares `datetime.time` values. The table's bounds are whole minutes.
 */
module Query {
  import opened Grammar
  import opened Schedule

  const MicrosPerMinute := 60_000_000

  /** The instant at which a stored minute of the day begins. */
  function Instant(m: int): int {
    m * MicrosPerMinute
  }

  /** `start <= the_time <= end`: both bounds belong to the interval. */
  predicate Contains(iv: Interval, t: int) {
    Instant(iv.0) <= t <= Instant(iv.1)
  }

  /** Some interval of weekday `day` contains time `t`. */
  predicate InTimeFrames(frames: Table, day: int, t: int) {
    day in frames && exists i :: 0 <= i < |frames[day]| && Contains(frames[day][i], t)
  }

  // ---------------------------------------------------------------------
  // within_time_frames
  // ---------------------------------------------------------------------

  /**
   * `within_time_frames`: false for a day the table does not hold; otherwise
   * scan the day's intervals and answer true at the first that contains `t`.
   */
  method WithinTimeFrames(frames: Table, day: int, t: int) returns (r: bool)
    ensures r <==> InTimeFrames(frames, day, t)
    ensures day !in frames ==> !r
  {
    if day !in frames {
      return false;
    }
    var intervals := frames[day];
    for i := 0 to |intervals|
      invariant forall j :: 0 <= j < i ==> !Contains(intervals[j], t)
    {
      if Instant(intervals[i].0) <= t <= Instant(intervals[i].1) {
        return true;
      }
    }
    return false;
  }

  /** Segment `gs[k]`'s interval is among those of every day it covers. */
  lemma CoveringSegmentListed(gs: seq<Segment>, k: int, d: int)
    requires ValidSegments(gs) && 0 <= k < |gs| && Covers(gs[k], d)
    ensures IntervalOf(gs[k]) in DayIntervals(gs, d)
  {
    var g := gs[k];
    assert gs == gs[..k] + [g] + gs[k + 1..];
    DayIntervalsConcat(gs[..k] + [g], gs[k + 1..], d);
    DayIntervalsSnoc(gs[..k], g, d);
  }

  /**
   * On the table of a list of segments, a time of a weekday is within the time
   * frames exactly when some segment covers that day and its interval
   * contains the time.
   */
  lemma WithinScheduleOf(gs: seq<Segment>, day: int, t: int)
    requires ValidSegments(gs)
    ensures InTimeFrames(ScheduleOf(gs), day, t) <==>
      exists k :: 0 <= k < |gs| && Covers(gs[k], day) && Contains(IntervalOf(gs[k]), t)
  {
    var frames := ScheduleOf(gs);
    if InTimeFrames(frames, day, t) {
      var i :| 0 <= i < |frames[day]| && Contains(frames[day][i], t);
      DayIntervalsFromCovering(gs, day, i);
    }
    if k :| 0 <= k < |gs| && Covers(gs[k], day) && Contains(IntervalOf(gs[k]), t) {
      CoveringSegmentListed(gs, k, day);
      var i :| 0 <= i < |DayIntervals(gs, day)| && DayIntervals(gs, day)[i] == IntervalOf(gs[k]);
      assert frames[day][i] == IntervalOf(gs[k]);
    }
  }

  // ---------------------------------------------------------------------
  // next_valid_date_time
  // ---------------------------------------------------------------------

  /**
   * The answer of `next_valid_date_time`: the alert may next be sent `offset`
   * days from today at minute `start`; or no interval qualified, where the
   * program stops with a fatal error.
   */
  datatype Next = Found(offset: int, start: int) | Exhausted

  /**
   * The weekday `k` days after weekday `cur`: the sum, less seven when it
   * passes Saturday. For `k` in 0..7 it is the weekday `(cur + k) mod 7`.
   */
  function DayAt(cur: int, k: int): (d: int)
    ensures ValidDay(cur) && 0 <= k <= 7 ==> ValidDay(d) && d == (cur + k) % 7
  {
    if cur + k > 6 then cur + k - 7 else cur + k
  }

  /**
   * Interval `i` of the day `k` days ahead qualifies: the day is in the table,
   * the interval exists, and unless it is today, it has not already ended.
   */
  predicate Qualifies(frames: Table, cur: int, t: int, k: int, i: int) {
    var d := DayAt(cur, k);
    && d in frames
    && 0 <= i < |frames[d]|
    && !(k == 0 && Instant(frames[d][i].1) < t)
  }

  /**
   * Interval `i` of day offset `k` is the first to qualify, days in order of
   * offset and each day's intervals in stored order.
   */
  ghost predicate IsFirstQualifying(frames: Table, cur: int, t: int, k: int, i: int) {
    && 0 <= k <= 7
    && Qualifies(frames, cur, t, k, i)
    && (forall k', i' :: 0 <= k' < k ==> !Qualifies(frames, cur, t, k', i'))
    && (forall i' :: 0 <= i' < i ==> !Qualifies(frames, cur, t, k, i'))
  }

  /**
   * `next_valid_date_time`: look at today and the seven days after it in
   * turn; skip a day the table does not hold; today, skip an interval that
   * has ended; answer the start of the first interval left.
   */
  method NextValidDateTime(frames: Table, cur: int, t: int) returns (r: Next)
    ensures r.Found? <==> exists k, i :: 0 <= k <= 7 && Qualifies(frames, cur, t, k, i)
    ensures r.Found? ==> 0 <= r.offset <= 7 && DayAt(cur, r.offset) in frames
    ensures r.Found? ==> exists i ::
      IsFirstQualifying(frames, cur, t, r.offset, i) && r.start == frames[DayAt(cur, r.offset)][i].0
  {
    for k := 0 to 8
      invariant forall k', i :: 0 <= k' < k ==> !Qualifies(frames, cur, t, k', i)
    {
      var dayIndex := cur + k;
      if dayIndex > 6 {
        dayIndex := dayIndex - 7;
      }
      if dayIndex !in frames {
        continue;
      }
      var intervals := frames[dayIndex];
      for i := 0 to |intervals|
        invariant forall j :: 0 <= j < i ==> !Qualifies(frames, cur, t, k, j)
      {
        if k == 0 && Instant(intervals[i].1) < t {
          continue;
        }
        assert IsFirstQualifying(frames, cur, t, k, i);
        return Found(k, intervals[i].0);
      }
    }
    return Exhausted;
  }

  /**
   * The fatal exit is unreachable on any table a valid string parses to: the
   * first interval of a day other than today qualifies within six days, and
   * today's first interval qualifies again seven days ahead.
   */
  lemma NonEmptyScheduleFindsNext(frames: Table, cur: int, t: int)
    requires WellFormed(frames) && ValidDay(cur)
    requires exists d :: d in frames
    ensures exists k, i :: 0 <= k <= 7 && Qualifies(frames, cur, t, k, i)
  {
    var d :| d in frames;
    var k := DaysForward(cur, d);
    if k == 0 {
      assert Qualifies(frames, cur, t, 7, 0);
    } else {
      assert Qualifies(frames, cur, t, k, 0);
    }
  }

  /**
   * On the table of any valid time-frames string, `next_valid_date_time`
   * always finds a time: a valid string has at least one segment, whose first
   * day the table holds.
   */
  lemma ParsedScheduleFindsNext(raw: string, cur: int, t: int)
    requires ValidTimeFramesString(raw) && ValidDay(cur)
    ensures ValidSegments(SegmentsOf(raw).value)
    ensures exists k, i :: 0 <= k <= 7 && Qualifies(ScheduleOf(SegmentsOf(raw).value), cur, t, k, i)
  {
    var gs := SegmentsOf(raw).value;
    assert Spells(gs, raw);
    ScheduleOfWellFormed(gs);
    assert gs[0].first in ScheduleOf(gs);
    NonEmptyScheduleFindsNext(ScheduleOf(gs), cur, t);
  }

  /** Only one interval is the first to qualify. */
  lemma FirstQualifyingUnique(frames: Table, cur: int, t: int, k1: int, i1: int, k2: int, i2: int)
    requires IsFirstQualifying(frames, cur, t, k1, i1)
    requires IsFirstQualifying(frames, cur, t, k2, i2)
    ensures k1 == k2 && i1 == i2
  {
  }

  /**
   * The answer is a week ahead only when today is the one weekday in the
   * table and all of today's intervals have already ended; it then starts at
   * the beginning of today's first interval.
   */
  lemma OffsetSevenOnlyWhenTodayAlone(frames: Table, cur: int, t: int, i: int)
    requires WellFormed(frames) && ValidDay(cur)
    requires IsFirstQualifying(frames, cur, t, 7, i)
    ensures frames.Keys == {cur}
    ensures forall j :: 0 <= j < |frames[cur]| ==> Instant(frames[cur][j].1) < t
    ensures i == 0
  {
    forall d | d in frames
      ensures d == cur
    {
      var k := DaysForward(cur, d);
      if k != 0 {
        assert Qualifies(frames, cur, t, k, 0);
      }
    }
    forall j | 0 <= j < |frames[cur]|
      ensures Instant(frames[cur][j].1) < t
    {
      assert !Qualifies(frames, cur, t, 0, j);
    }
    assert Qualifies(frames, cur, t, 7, 0);
  }

  /**
   * When the current time is within the time frames, the next valid time is
   * today, at the start of the first of today's intervals that has not ended.
   */
  lemma WithinMeansToday(frames: Table, cur: int, t: int)
    requires ValidDay(cur) && InTimeFrames(frames, cur, t)
    ensures exists i :: IsFirstQualifying(frames, cur, t, 0, i)
  {
    var j :| 0 <= j < |frames[cur]| && Contains(frames[cur][j], t);
    assert Qualifies(frames, cur, t, 0, j);
    FirstOfDay(frames, cur, t, 0, j);
  }

  /** Helper: some qualifying interval of the first day offset ⇒ a first one on it. */
  lemma {:induction false} FirstOfDay(frames: Table, cur: int, t: int, k: int, j: int)
    requires k == 0 && Qualifies(frames, cur, t, k, j)
    ensures exists i :: IsFirstQualifying(frames, cur, t, k, i)
    decreases j
  {
    if forall i' :: 0 <= i' < j ==> !Qualifies(frames, cur, t, k, i') {
      assert IsFirstQualifying(frames, cur, t, k, j);
    } else {
      var i' :| 0 <= i' < j && Qualifies(frames, cur, t, k, i');
      FirstOfDay(frames, cur, t, k, i');
    }
  }

  // ---------------------------------------------------------------------
  // What the answer of next_valid_date_time means.
  // ---------------------------------------------------------------------

  /** Every interval of the table starts no later than it ends. */
  predicate Forward(frames: Table) {
    forall d, i :: d in frames && 0 <= i < |frames[d]| ==> frames[d][i].0 <= frames[d][i].1
  }

  /** Each day's intervals are stored in order of their start. */
  predicate SortedByStart(frames: Table) {
    forall d, i, j :: d in frames && 0 <= i < j < |frames[d]| ==> frames[d][i].0 <= frames[d][j].0
  }

  /**
   * The moment answered is a valid one, when its interval starts no later
   * than it ends: the start lies within that day's time frames.
   */
  lemma FirstQualifyingIsValid(frames: Table, cur: int, t: int, k: int, i: int)
    requires IsFirstQualifying(frames, cur, t, k, i)
    requires frames[DayAt(cur, k)][i].0 <= frames[DayAt(cur, k)][i].1
    ensures InTimeFrames(frames, DayAt(cur, k), Instant(frames[DayAt(cur, k)][i].0))
  {
    assert Contains(frames[DayAt(cur, k)][i], Instant(frames[DayAt(cur, k)][i].0));
  }

  /**
   * When each day's intervals are stored in order of start, no moment from
   * now up to the one answered is valid: not on an earlier day offset at or
   * after the current time, and not earlier on the answer's own day offset.
   */
  lemma NoEarlierValid(frames: Table, cur: int, t: int, k: int, i: int, k': int, u: int)
    requires SortedByStart(frames)
    requires IsFirstQualifying(frames, cur, t, k, i)
    requires 0 <= k' <= k && (k' == 0 ==> t <= u)
    requires k' < k || u < Instant(frames[DayAt(cur, k)][i].0)
    ensures !InTimeFrames(frames, DayAt(cur, k'), u)
  {
    var d := DayAt(cur, k');
    if d in frames {
      forall j | 0 <= j < |frames[d]|
        ensures !Contains(frames[d][j], u)
      {
        if k' == k && i <= j {
          assert frames[d][i].0 <= frames[d][j].0;
        } else {
          assert !Qualifies(frames, cur, t, k', j);
        }
      }
    }
  }

  /**
   * `next_valid_date_time` answers the closest valid moment, as promised,
   * on a table whose intervals run forward and are sorted by start within
   * each day, when the current time is outside the time frames: the answer
   * is valid, later than now, and no moment from now up to it is valid.
   */
  lemma NextIsClosest(frames: Table, cur: int, t: int, k: int, i: int)
    requires Forward(frames) && SortedByStart(frames) && ValidDay(cur)
    requires !InTimeFrames(frames, cur, t)
    requires IsFirstQualifying(frames, cur, t, k, i)
    ensures InTimeFrames(frames, DayAt(cur, k), Instant(frames[DayAt(cur, k)][i].0))
    ensures k == 0 ==> t < Instant(frames[DayAt(cur, k)][i].0)
    ensures forall k', u ::
      (0 <= k' <= k && (k' == 0 ==> t <= u) && (k' < k || u < Instant(frames[DayAt(cur, k)][i].0)))
      ==> !InTimeFrames(frames, DayAt(cur, k'), u)
  {
    var d := DayAt(cur, k);
    FirstQualifyingIsValid(frames, cur, t, k, i);
    if k == 0 {
      assert d == cur;
      assert !Contains(frames[d][i], t);
    }
    forall k', u | 0 <= k' <= k && (k' == 0 ==> t <= u) && (k' < k || u < Instant(frames[d][i].0))
      ensures !InTimeFrames(frames, DayAt(cur, k'), u)
    {
      NoEarlierValid(frames, cur, t, k, i, k', u);
    }
  }
}
