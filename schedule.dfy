/**
 * The schedule parser `parse_time_frames`: a valid time-frames string becomes
 * a table from weekday index (0 is Sunday) to the list of (start, end)
 * intervals of that day. Every segment appends its interval to each day of
 * its day range, walking forward from the first day and wrapping from
 * Saturday to Sunday; nothing is merged, sorted or de-duplicated.
 */
module Schedule {
  import opened Options
  import opened Text
  import opened Grammar

  /** A time frame of one day: (start, end) in minutes since midnight, both ends inclusive. */
  type Interval = (int, int)

  /** The parsed time frames: weekday index to that day's intervals, in segment order. */
  type Table = map<int, seq<Interval>>

  predicate ValidMinute(m: int) {
    0 <= m < 24 * 60
  }

  function Minutes(c: Clock): int {
    60 * c.hour + c.minute
  }

  function IntervalOf(g: Segment): Interval {
    (Minutes(g.from), Minutes(g.to))
  }

  /** `WEEK_DAYS.index(days_range[-1])`: the first day again when no range is written. */
  function LastDay(g: Segment): int {
    if g.last.Some? then g.last.value else g.first
  }

  /** How many days forward from weekday `from` weekday `to` comes, wrapping after Saturday. */
  function DaysForward(from: int, to: int): (n: int)
    requires ValidDay(from) && ValidDay(to)
    ensures 0 <= n < 7
    ensures to == if from + n < 7 then from + n else from + n - 7
  {
    if from <= to then to - from else to - from + 7
  }

  /** The weekday after `d`: `day_index + 1 if day_index < 6 else 0`. */
  function NextDay(d: int): (next: int)
    ensures ValidDay(d) ==> ValidDay(next) && next == (d + 1) % 7
  {
    if d < 6 then d + 1 else 0
  }

  /** Walking forward from weekday `startDay` to weekday `endDay` passes weekday `d`. */
  predicate InDayRange(startDay: int, endDay: int, d: int)
    requires ValidDay(startDay) && ValidDay(endDay) && ValidDay(d)
  {
    DaysForward(startDay, d) <= DaysForward(startDay, endDay)
  }

  /** The segment's day range passes `d`. */
  predicate Covers(g: Segment, d: int)
    requires ValidSegment(g)
  {
    ValidDay(d) && InDayRange(g.first, LastDay(g), d)
  }

  /** The intervals day `d` collects: one from each segment that covers it, in segment order. */
  function DayIntervals(gs: seq<Segment>, d: int): seq<Interval>
    requires ValidSegments(gs)
  {
    if gs == [] then []
    else
      var g := gs[|gs| - 1];
      DayIntervals(gs[..|gs| - 1], d) + if Covers(g, d) then [IntervalOf(g)] else []
  }

  /** The table of a segment list: every day that collects an interval, with its intervals. */
  function ScheduleOf(gs: seq<Segment>): Table
    requires ValidSegments(gs)
  {
    map d | 0 <= d < 7 && DayIntervals(gs, d) != [] :: DayIntervals(gs, d)
  }

  /** A day's intervals, empty for a day the table does not hold (the `defaultdict` view). */
  function Lookup(frames: Table, d: int): seq<Interval> {
    if d in frames then frames[d] else []
  }

  /** What every parsed table satisfies: weekday keys, no empty list, clock times in range. */
  predicate WellFormed(frames: Table) {
    forall d :: d in frames ==>
      && ValidDay(d)
      && frames[d] != []
      && forall i :: 0 <= i < |frames[d]| ==> ValidMinute(frames[d][i].0) && ValidMinute(frames[d][i].1)
  }

  // ---------------------------------------------------------------------
  // parse_time_frames
  // ---------------------------------------------------------------------

  /** `WEEK_DAYS.index(tok)` on a weekday token. */
  function WeekDayIndex(tok: string): (d: int)
    requires LookupDay(tok).Some?
    ensures ValidDay(d) && WeekDays[d] == tok
  {
    LookupDay(tok).value
  }

  /** `datetime.time.fromisoformat` on an `HH:MM` token, as minutes since midnight. */
  function FromIsoFormat(t: string): (m: int)
    requires ParseClock(t).Some?
    ensures ValidMinute(m) && m == Minutes(ParseClock(t).value)
  {
    60 * (10 * DigitValue(t[0]) + DigitValue(t[1])) + 10 * DigitValue(t[3]) + DigitValue(t[4])
  }

  /** The text of a segment's day part: `Day` or `Day-Day`. */
  lemma DaysPieces(g: Segment)
    requires ValidSegment(g)
    ensures '@' !in DaysText(g)
    ensures Split(DaysText(g), '-') == [WeekDays[g.first]] + if g.last.Some? then [WeekDays[g.last.value]] else []
  {
    assert '@' !in WeekDays[g.first] && '-' !in WeekDays[g.first];
    if g.last.Some? {
      assert '@' !in WeekDays[g.last.value] && '-' !in WeekDays[g.last.value];
      assert DaysText(g) == WeekDays[g.first] + ['-'] + WeekDays[g.last.value];
      SplitPair(WeekDays[g.first], WeekDays[g.last.value], '-');
    } else {
      assert DaysText(g) == WeekDays[g.first];
      SplitWhole(WeekDays[g.first], '-');
    }
  }

  /** The text of a segment's time part: `HH:MM-HH:MM`. */
  lemma TimesPieces(g: Segment)
    ensures '@' !in TimesText(g)
    ensures Split(TimesText(g), '-') == [ClockText(g.from), ClockText(g.to)]
  {
    assert '@' !in ClockText(g.from) && '-' !in ClockText(g.from);
    assert '@' !in ClockText(g.to) && '-' !in ClockText(g.to);
    SplitPair(ClockText(g.from), ClockText(g.to), '-');
  }

  /**
   * The pieces `parse_time_frames` splits a segment's text into: the days and
   * the times around `@`, then each of them around `-`.
   */
  lemma SegmentPieces(g: Segment)
    requires ValidSegment(g)
    ensures Split(SegmentText(g), '@') == [DaysText(g), TimesText(g)]
    ensures Split(DaysText(g), '-') == [WeekDays[g.first]] + if g.last.Some? then [WeekDays[g.last.value]] else []
    ensures Split(TimesText(g), '-') == [ClockText(g.from), ClockText(g.to)]
  {
    DaysPieces(g);
    TimesPieces(g);
    SplitPair(DaysText(g), TimesText(g), '@');
  }

  /** `fromisoformat` reads back the minutes of a clock time's text. */
  lemma FromIsoFormatClock(c: Clock)
    requires ValidClock(c)
    ensures ParseClock(ClockText(c)).Some? && FromIsoFormat(ClockText(c)) == Minutes(c)
  {
    ClockRoundTrip(c);
  }

  /**
   * What the statements of `parse_time_frames` read from the text of a
   * segment: the day part and the time part around `@`, the indices of the
   * first and last day and the minutes of the two times.
   */
  lemma DecodeSegmentText(segment: string, g: Segment)
    requires ValidSegment(g) && segment == SegmentText(g)
    ensures Split(segment, '@') == [DaysText(g), TimesText(g)]
    ensures var r := Split(DaysText(g), '-');
      |r| >= 1 && LookupDay(r[0]) == Some(g.first) && LookupDay(r[|r| - 1]) == Some(LastDay(g))
    ensures Split(TimesText(g), '-') == [ClockText(g.from), ClockText(g.to)]
    ensures ParseClock(ClockText(g.from)).Some? && FromIsoFormat(ClockText(g.from)) == Minutes(g.from)
    ensures ParseClock(ClockText(g.to)).Some? && FromIsoFormat(ClockText(g.to)) == Minutes(g.to)
  {
    SegmentPieces(g);
    LookupDayName(g.first);
    LookupDayName(LastDay(g));
    FromIsoFormatClock(g.from);
    FromIsoFormatClock(g.to);
  }

  /** Reading a weekday of `ScheduleOf` gives the intervals that day collects. */
  lemma ScheduleOfLookup(gs: seq<Segment>)
    requires ValidSegments(gs)
    ensures forall d :: d in ScheduleOf(gs) ==> ValidDay(d) && ScheduleOf(gs)[d] != []
    ensures forall d :: ValidDay(d) ==> Lookup(ScheduleOf(gs), d) == DayIntervals(gs, d)
  {
  }

  lemma PrefixGrows<T>(s: seq<T>, k: int)
    requires 0 <= k < |s|
    ensures s[..k + 1] == s[..k] + [s[k]]
  {
  }

  /** One more segment appends its interval to the days it covers, after what they hold. */
  lemma DayIntervalsSnoc(gs: seq<Segment>, g: Segment, d: int)
    requires ValidSegments(gs) && ValidSegment(g)
    ensures ValidSegments(gs + [g])
    ensures DayIntervals(gs + [g], d) == DayIntervals(gs, d) + if Covers(g, d) then [IntervalOf(g)] else []
  {
    assert (gs + [g])[..|gs|] == gs;
  }

  /**
   * A table that holds no empty list, only weekday keys, and on every weekday
   * the intervals of `ScheduleOf(gs)` with segment `g`'s interval appended when
   * `g` covers it, is `ScheduleOf(gs + [g])`.
   */
  lemma AppendSegment(before: Table, after: Table, gs: seq<Segment>, g: Segment)
    requires ValidSegments(gs) && ValidSegment(g)
    requires before == ScheduleOf(gs)
    requires forall d :: d in after ==> ValidDay(d) && after[d] != []
    requires forall d :: ValidDay(d) ==>
      Lookup(after, d) == Lookup(before, d) + if Covers(g, d) then [IntervalOf(g)] else []
    ensures ValidSegments(gs + [g]) && after == ScheduleOf(gs + [g])
  {
    ScheduleOfLookup(gs);
    var s := ScheduleOf(gs + [g]);
    forall d | ValidDay(d)
      ensures Lookup(after, d) == DayIntervals(gs + [g], d)
    {
      DayIntervalsSnoc(gs, g, d);
    }
    forall d | d in after
      ensures d in s && after[d] == s[d]
    {
      assert Lookup(after, d) == DayIntervals(gs + [g], d);
    }
    forall d | d in s
      ensures d in after
    {
      assert Lookup(after, d) == DayIntervals(gs + [g], d);
    }
  }

  /** The pieces between the `&`s of a valid string parse to its segments, in order. */
  lemma SegmentTextsOf(raw: string)
    requires ValidTimeFramesString(raw)
    ensures var gs := SegmentsOf(raw).value;
      && |Split(raw, '&')| == |gs|
      && ValidSegments(gs)
      && forall k :: 0 <= k < |gs| ==> ParseSegment(Split(raw, '&')[k]) == Some(gs[k])
  {
  }

  /**
   * The day walk of `parse_time_frames`: append `interval` to every day from
   * `startDay` forward to `endDay`, wrapping from Saturday (6) to Sunday (0).
   * The walk counts the days of the range, so a range over the whole week
   * (`Mon-Sun`, `Sun-Sat`) appends to each of the seven days once; the loop
   * condition as written never becomes false for such a range (see
   * `FullWeekRangeNeverStops`).
   */
  method AppendToDayRange(frames0: Table, startDay: int, endDay: int, interval: Interval) returns (frames: Table)
    requires ValidDay(startDay) && ValidDay(endDay)
    requires forall d :: d in frames0 ==> ValidDay(d) && frames0[d] != []
    ensures forall d :: d in frames ==> ValidDay(d) && frames[d] != []
    ensures forall d :: ValidDay(d) ==>
      Lookup(frames, d) == Lookup(frames0, d) + if InDayRange(startDay, endDay, d) then [interval] else []
  {
    frames := frames0;
    var dayIndex := startDay;
    var walked := 0;
    var span := DaysForward(startDay, endDay) + 1;
    while walked < span
      invariant 0 <= walked <= span
      invariant walked < 7 ==> ValidDay(dayIndex) && DaysForward(startDay, dayIndex) == walked
      invariant forall d :: d in frames ==> ValidDay(d) && frames[d] != []
      invariant forall d :: ValidDay(d) ==>
        Lookup(frames, d) == Lookup(frames0, d) + if DaysForward(startDay, d) < walked then [interval] else []
    {
      frames := frames[dayIndex := Lookup(frames, dayIndex) + [interval]];
      dayIndex := NextDay(dayIndex);
      walked := walked + 1;
    }
  }

  /**
   * The statements of `parse_time_frames` that read one segment: split it on
   * `@`, split both sides on `-`, look up the first and the last day and read
   * the two times. They recover the segment the text spells.
   */
  method DecodeSegment(segment: string) returns (startDay: int, endDay: int, startTime: int, endTime: int)
    requires ParseSegment(segment).Some?
    ensures var g := ParseSegment(segment).value;
      && startDay == g.first && endDay == LastDay(g)
      && (startTime, endTime) == IntervalOf(g)
  {
    ghost var g := ParseSegment(segment).value;
    DecodeSegmentText(segment, g);
    var halves := Split(segment, '@');
    var days, times := halves[0], halves[1];
    var daysRange := Split(days, '-');
    var timesRange := Split(times, '-');
    startDay, endDay := WeekDayIndex(daysRange[0]), WeekDayIndex(daysRange[|daysRange| - 1]);
    startTime, endTime := FromIsoFormat(timesRange[0]), FromIsoFormat(timesRange[|timesRange| - 1]);
  }

  /**
   * The `for` loop of `parse_time_frames` over the `&`-separated pieces: read
   * each segment and append its interval to every day of its range, starting
   * from an empty table. The result is the table of the segments the pieces
   * spell, in order.
   */
  method BuildTable(segments: seq<string>, ghost gs: seq<Segment>) returns (frames: Table)
    requires |segments| == |gs| && ValidSegments(gs)
    requires forall k :: 0 <= k < |gs| ==> ParseSegment(segments[k]) == Some(gs[k])
    ensures frames == ScheduleOf(gs)
  {
    frames := map[];
    var k := 0;
    while k < |segments|
      invariant 0 <= k <= |segments|
      invariant frames == ScheduleOf(gs[..k])
    {
      var startDay, endDay, startTime, endTime := DecodeSegment(segments[k]);
      ghost var before := frames;
      ScheduleOfLookup(gs[..k]);
      frames := AppendToDayRange(frames, startDay, endDay, (startTime, endTime));
      AppendSegment(before, frames, gs[..k], gs[k]);
      PrefixGrows(gs, k);
      k := k + 1;
    }
    assert gs[..k] == gs;
  }

  /**
   * `parse_time_frames`: split the string on `&`, then build the table from
   * the pieces. The result is the table of the segments the string spells.
   */
  method ParseTimeFrames(raw: string) returns (frames: Table)
    requires ValidTimeFramesString(raw)
    ensures frames == ScheduleOf(SegmentsOf(raw).value)
  {
    var segments := Split(raw, '&');
    SegmentTextsOf(raw);
    frames := BuildTable(segments, SegmentsOf(raw).value);
  }

  // ---------------------------------------------------------------------
  // The day walk as written, and what the tables hold
  // ---------------------------------------------------------------------

  /** The `while` condition of the day walk in `parse_time_frames`, as written. */
  predicate RangeGuard(startDay: int, endDay: int, dayIndex: int) {
    || (startDay <= endDay && startDay <= dayIndex <= endDay)
    || (startDay > endDay && (startDay <= dayIndex || dayIndex <= endDay))
  }

  /**
   * The days the loop as written appends to, starting from `dayIndex`, when it
   * stops within `fuel` iterations; `None` when it is still running after them.
   */
  function WalkAsWritten(startDay: int, endDay: int, dayIndex: int, fuel: nat): (r: Option<seq<int>>)
    ensures r.Some? ==> |r.value| <= fuel
    ensures r.Some? ==> forall k :: 0 <= k < |r.value| ==> RangeGuard(startDay, endDay, r.value[k])
    decreases fuel
  {
    if !RangeGuard(startDay, endDay, dayIndex) then Some([])
    else if fuel == 0 then None
    else
      match WalkAsWritten(startDay, endDay, NextDay(dayIndex), fuel - 1)
      case None => None
      case Some(rest) => Some([dayIndex] + rest)
  }

  /** `n` consecutive weekdays from `d`, wrapping from Saturday to Sunday. */
  function Walk(d: int, n: nat): seq<int>
    decreases n
  {
    if n == 0 then [] else [d] + Walk(NextDay(d), n - 1)
  }

  /** On weekdays the condition as written holds exactly on the days of the range. */
  lemma RangeGuardIsCoverage(startDay: int, endDay: int, d: int)
    requires ValidDay(startDay) && ValidDay(endDay) && ValidDay(d)
    ensures RangeGuard(startDay, endDay, d) <==> InDayRange(startDay, endDay, d)
  {
  }

  /** One step forward is one day further from the start, short of a full week. */
  lemma NextDayForward(startDay: int, d: int)
    requires ValidDay(startDay) && ValidDay(d) && DaysForward(startDay, d) < 6
    ensures ValidDay(NextDay(d)) && DaysForward(startDay, NextDay(d)) == DaysForward(startDay, d) + 1
  {
  }

  /**
   * A range over the whole week (`Sun-Sat`, `Mon-Sun`, ..., `Sat-Fri`): the
   * condition holds on every weekday, so the loop as written never stops,
   * however many iterations it is given.
   */
  lemma {:induction false} FullWeekRangeNeverStops(startDay: int, endDay: int, dayIndex: int, fuel: nat)
    requires ValidDay(startDay) && ValidDay(endDay) && ValidDay(dayIndex)
    requires DaysForward(startDay, endDay) == 6
    ensures WalkAsWritten(startDay, endDay, dayIndex, fuel).None?
    decreases fuel
  {
    RangeGuardIsCoverage(startDay, endDay, dayIndex);
    if fuel > 0 {
      FullWeekRangeNeverStops(startDay, endDay, NextDay(dayIndex), fuel - 1);
    }
  }

  /**
   * Helper for `WalkAsWrittenShortRange`: from the day `walked` days after the
   * start, the loop as written visits the rest of the range and stops.
   */
  lemma {:induction false} WalkAsWrittenFrom(startDay: int, endDay: int, d: int, fuel: nat)
    requires ValidDay(startDay) && ValidDay(endDay) && ValidDay(d)
    requires DaysForward(startDay, endDay) < 6
    requires DaysForward(startDay, d) <= DaysForward(startDay, endDay) + 1
    requires fuel >= DaysForward(startDay, endDay) + 1 - DaysForward(startDay, d)
    ensures WalkAsWritten(startDay, endDay, d, fuel) == Some(Walk(d, DaysForward(startDay, endDay) + 1 - DaysForward(startDay, d)))
    decreases fuel
  {
    RangeGuardIsCoverage(startDay, endDay, d);
    if DaysForward(startDay, d) <= DaysForward(startDay, endDay) {
      NextDayForward(startDay, d);
      WalkAsWrittenFrom(startDay, endDay, NextDay(d), fuel - 1);
    }
  }

  /**
   * Short of a whole week, the loop as written stops after visiting the days
   * of the range once each, from the first day forward: the same days
   * `AppendToDayRange` appends to.
   */
  lemma WalkAsWrittenShortRange(startDay: int, endDay: int)
    requires ValidDay(startDay) && ValidDay(endDay)
    requires DaysForward(startDay, endDay) < 6
    ensures WalkAsWritten(startDay, endDay, startDay, 7) == Some(Walk(startDay, DaysForward(startDay, endDay) + 1))
  {
    WalkAsWrittenFrom(startDay, endDay, startDay, 7);
  }

  /**
   * A walk of `n <= 7` days from a weekday stays on weekdays, visits each day
   * at most once, and visits exactly the days fewer than `n` steps ahead.
   */
  lemma {:induction false} WalkVisits(startDay: int, d: int, n: nat)
    requires ValidDay(startDay) && ValidDay(d)
    requires DaysForward(startDay, d) + n <= 7
    ensures |Walk(d, n)| == n
    ensures forall i :: 0 <= i < n ==> ValidDay(Walk(d, n)[i]) && DaysForward(startDay, Walk(d, n)[i]) == DaysForward(startDay, d) + i
    decreases n
  {
    if n > 0 {
      if n > 1 {
        NextDayForward(startDay, d);
        WalkVisits(startDay, NextDay(d), n - 1);
      }
    }
  }

  /** Walking a range visits each of its days exactly once and no other day. */
  lemma RangeWalkVisitsRangeOnce(startDay: int, endDay: int)
    requires ValidDay(startDay) && ValidDay(endDay)
    ensures var w := Walk(startDay, DaysForward(startDay, endDay) + 1);
      && (forall i :: 0 <= i < |w| ==> ValidDay(w[i]))
      && (forall i, j :: 0 <= i < j < |w| ==> w[i] != w[j])
      && (forall d :: ValidDay(d) ==> (d in w <==> InDayRange(startDay, endDay, d)))
  {
    var n := DaysForward(startDay, endDay) + 1;
    WalkVisits(startDay, startDay, n);
    var w := Walk(startDay, n);
    forall d | ValidDay(d) && InDayRange(startDay, endDay, d)
      ensures d in w
    {
      var i := DaysForward(startDay, d);
      assert DaysForward(startDay, w[i]) == i;
    }
  }

  /** A single-day segment, or a same-day range such as `Sun-Sun`, covers exactly its day. */
  lemma CoversSingleDay(g: Segment, d: int)
    requires ValidSegment(g) && LastDay(g) == g.first
    ensures Covers(g, d) <==> d == g.first
  {
  }

  /** A range with the first day before the last covers the days between them. */
  lemma CoversForwardRange(g: Segment, d: int)
    requires ValidSegment(g) && g.first <= LastDay(g)
    ensures Covers(g, d) <==> g.first <= d <= LastDay(g)
  {
  }

  /**
   * A range with the first day after the last wraps: it covers the first day
   * to Saturday and Sunday to the last day.
   */
  lemma CoversWrappedRange(g: Segment, d: int)
    requires ValidSegment(g) && g.first > LastDay(g)
    ensures Covers(g, d) <==> (g.first <= d <= 6 || 0 <= d <= LastDay(g))
  {
  }

  /** A range whose last day is the day before its first covers the whole week. */
  lemma FullWeekRangeCoversEveryDay(g: Segment, d: int)
    requires ValidSegment(g) && DaysForward(g.first, LastDay(g)) == 6
    ensures Covers(g, d) <==> ValidDay(d)
  {
  }

  /**
   * A day's intervals over two runs of segments are the first run's followed
   * by the second's: intervals accumulate in segment order.
   */
  lemma {:induction false} DayIntervalsConcat(gs: seq<Segment>, hs: seq<Segment>, d: int)
    requires ValidSegments(gs) && ValidSegments(hs)
    ensures ValidSegments(gs + hs)
    ensures DayIntervals(gs + hs, d) == DayIntervals(gs, d) + DayIntervals(hs, d)
    decreases |hs|
  {
    if hs == [] {
      assert gs + hs == gs;
    } else {
      var h := hs[|hs| - 1];
      var front := hs[..|hs| - 1];
      assert gs + hs == (gs + front) + [h];
      DayIntervalsConcat(gs, front, d);
      DayIntervalsSnoc(gs + front, h, d);
    }
  }

  /** Every interval a day collects comes from a segment covering that day. */
  lemma {:induction false} DayIntervalsFromCovering(gs: seq<Segment>, d: int, i: int)
    requires ValidSegments(gs) && 0 <= i < |DayIntervals(gs, d)|
    ensures exists k :: 0 <= k < |gs| && Covers(gs[k], d) && DayIntervals(gs, d)[i] == IntervalOf(gs[k])
    decreases |gs|
  {
    var front := gs[..|gs| - 1];
    var g := gs[|gs| - 1];
    if i < |DayIntervals(front, d)| {
      DayIntervalsFromCovering(front, d, i);
      var k :| 0 <= k < |front| && Covers(front[k], d) && DayIntervals(front, d)[i] == IntervalOf(front[k]);
      assert gs[k] == front[k];
    } else {
      assert Covers(g, d) && DayIntervals(gs, d)[i] == IntervalOf(g);
    }
  }

  /**
   * The table of valid segments is well formed: weekday keys only, no empty
   * list, every stored time a minute of the day in [0, 1439]; and it holds at
   * least the first day of every segment.
   */
  lemma ScheduleOfWellFormed(gs: seq<Segment>)
    requires ValidSegments(gs)
    ensures WellFormed(ScheduleOf(gs))
    ensures forall k :: 0 <= k < |gs| ==> gs[k].first in ScheduleOf(gs)
  {
    var frames: Table := ScheduleOf(gs);
    forall d: int, i: int | d in frames && 0 <= i < |frames[d]|
      ensures ValidMinute(frames[d][i].0) && ValidMinute(frames[d][i].1)
    {
      DayIntervalsFromCovering(gs, d, i);
    }
    forall k | 0 <= k < |gs|
      ensures gs[k].first in frames
    {
      var g := gs[k];
      assert gs == gs[..k] + [g] + gs[k + 1..];
      DayIntervalsConcat(gs[..k] + [g], gs[k + 1..], g.first);
      DayIntervalsSnoc(gs[..k], g, g.first);
    }
  }
}
