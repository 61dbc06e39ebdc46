/**
 * The concrete cases of the unit tests in test_alert_timeframe_checker.py,
 * stated about the model: which strings the validator accepts and rejects,
 * the tables the parser builds, and the answers of the two queries.
 */
module TestCases {
  import opened Options
  import opened Text
  import opened Grammar
  import opened Schedule
  import opened Query

  // ---------------------------------------------------------------------
  // The four time-frames strings of the tests and their segments.
  // ---------------------------------------------------------------------

  function Single(day: int, fromHour: int, fromMinute: int, toHour: int, toMinute: int): Segment {
    Segment(day, None, Clock(fromHour, fromMinute), Clock(toHour, toMinute))
  }

  function Range(first: int, last: int, fromHour: int, fromMinute: int, toHour: int, toMinute: int): Segment {
    Segment(first, Some(last), Clock(fromHour, fromMinute), Clock(toHour, toMinute))
  }

  /** `Sun@09:00-18:00` */
  function Frames0(): seq<Segment> {
    [Single(0, 9, 0, 18, 0)]
  }

  /** `Sun-Thu@09:00-18:00&Fri@10:00-15:00` */
  function Frames1(): seq<Segment> {
    [Range(0, 4, 9, 0, 18, 0), Single(5, 10, 0, 15, 0)]
  }

  /** `Fri-Sun@10:00-18:00` */
  function Frames2(): seq<Segment> {
    [Range(5, 0, 10, 0, 18, 0)]
  }

  /** `Sun-Mon@09:00-15:00&Mon@18:00-19:30&Tue-Thu@09:00-19:30` */
  function Frames3(): seq<Segment> {
    [Range(0, 1, 9, 0, 15, 0), Single(1, 18, 0, 19, 30), Range(2, 4, 9, 0, 19, 30)]
  }

  /** Test case 0: `Sun@09:00-18:00` is the text of one single-day segment. */
  lemma TestString0()
    ensures Spells(Frames0(), "Sun@09:00-18:00")
  {
    var gs := Frames0();
    assert ClockText(Clock(9, 0)) == "09:00" && ClockText(Clock(18, 0)) == "18:00";
    assert SegmentText(gs[0]) == "Sun@09:00-18:00";
    assert SegmentTexts(gs) == ["Sun@09:00-18:00"];
  }

  /** The text of two segments is theirs with one `&` between. */
  lemma SpecTextOfTwo(gs: seq<Segment>)
    requires |gs| == 2 && ValidSegments(gs)
    ensures SpecText(gs) == SegmentText(gs[0]) + "&" + SegmentText(gs[1])
  {
    var texts := SegmentTexts(gs);
    assert texts == [SegmentText(gs[0]), SegmentText(gs[1])];
    assert texts[1..] == [SegmentText(gs[1])];
    assert Join(texts[1..], '&') == SegmentText(gs[1]);
    assert "&" == ['&'];
  }

  /** The text of three segments is theirs with an `&` between neighbours. */
  lemma SpecTextOfThree(gs: seq<Segment>)
    requires |gs| == 3 && ValidSegments(gs)
    ensures SpecText(gs) == SegmentText(gs[0]) + "&" + SegmentText(gs[1]) + "&" + SegmentText(gs[2])
  {
    var texts := SegmentTexts(gs);
    assert texts[1..][1..] == [SegmentText(gs[2])];
    assert Join(texts[1..], '&') == SegmentText(gs[1]) + "&" + SegmentText(gs[2]);
  }

  lemma SegmentText1a()
    ensures SegmentText(Frames1()[0]) == "Sun-Thu@09:00-18:00"
  {
    assert ClockText(Clock(9, 0)) == "09:00" && ClockText(Clock(18, 0)) == "18:00";
  }

  lemma SegmentText1b()
    ensures SegmentText(Frames1()[1]) == "Fri@10:00-15:00"
  {
    assert ClockText(Clock(10, 0)) == "10:00" && ClockText(Clock(15, 0)) == "15:00";
  }

  /** Test case 1: a day range and a single day, `Sun-Thu@09:00-18:00&Fri@10:00-15:00`. */
  lemma TestString1()
    ensures Spells(Frames1(), "Sun-Thu@09:00-18:00" + "&" + "Fri@10:00-15:00")
  {
    SegmentText1a();
    SegmentText1b();
    SpecTextOfTwo(Frames1());
  }

  /** Test case 2: a range that wraps past Saturday. */
  lemma TestString2()
    ensures Spells(Frames2(), "Fri-Sun@10:00-18:00")
  {
    var gs := Frames2();
    assert ClockText(Clock(10, 0)) == "10:00" && ClockText(Clock(18, 0)) == "18:00";
    assert SegmentText(gs[0]) == "Fri-Sun@10:00-18:00";
    assert SegmentTexts(gs) == ["Fri-Sun@10:00-18:00"];
  }

  /** A reverse day range, `Wed-Sun@09:00-18:00`, is one segment from Wednesday to Sunday. */
  lemma ReverseRangeAccepted()
    ensures Spells([Range(3, 0, 9, 0, 18, 0)], "Wed-Sun@09:00-18:00")
  {
    var gs := [Range(3, 0, 9, 0, 18, 0)];
    assert ClockText(Clock(9, 0)) == "09:00" && ClockText(Clock(18, 0)) == "18:00";
    assert SegmentText(gs[0]) == "Wed-Sun@09:00-18:00";
    assert SegmentTexts(gs) == ["Wed-Sun@09:00-18:00"];
  }

  lemma SegmentText3a()
    ensures SegmentText(Frames3()[0]) == "Sun-Mon@09:00-15:00"
  {
    assert ClockText(Clock(9, 0)) == "09:00" && ClockText(Clock(15, 0)) == "15:00";
  }

  lemma SegmentText3b()
    ensures SegmentText(Frames3()[1]) == "Mon@18:00-19:30"
  {
    assert ClockText(Clock(18, 0)) == "18:00" && ClockText(Clock(19, 30)) == "19:30";
  }

  lemma SegmentText3c()
    ensures SegmentText(Frames3()[2]) == "Tue-Thu@09:00-19:30"
  {
    assert ClockText(Clock(9, 0)) == "09:00" && ClockText(Clock(19, 30)) == "19:30";
  }

  /**
   * Test case 3: three segments, two of them on Monday,
   * `Sun-Mon@09:00-15:00&Mon@18:00-19:30&Tue-Thu@09:00-19:30`.
   */
  lemma TestString3()
    ensures Spells(Frames3(), "Sun-Mon@09:00-15:00" + "&" + "Mon@18:00-19:30" + "&" + "Tue-Thu@09:00-19:30")
  {
    SegmentText3a();
    SegmentText3b();
    SegmentText3c();
    SpecTextOfThree(Frames3());
  }

  // ---------------------------------------------------------------------
  // Strings the validator rejects.
  // ---------------------------------------------------------------------

  /** A string without `&` that is not one segment is rejected. */
  lemma RejectsPiece(s: string)
    requires '&' !in s && ParseSegment(s).None?
    ensures !ValidTimeFramesString(s)
  {
    FindIs(s, '&', |s|);
    SplitWhole(s, '&');
  }

  /** The empty string is not a time-frames string. */
  lemma RejectsEmpty()
    ensures !ValidTimeFramesString("")
  {
    RejectsPiece("");
  }

  /** Day tokens are case sensitive: `sun` is not a weekday. */
  lemma RejectsLowerCaseDay()
    ensures !ValidTimeFramesString("sun@09:00-18:00")
  {
    var s := "sun@09:00-18:00";
    assert s[..3] == "sun";
    assert LookupDay(s[..3]).None?;
    RejectsPiece(s);
  }

  /** `Bla` is not a weekday name. */
  lemma RejectsUnknownDay()
    ensures !ValidTimeFramesString("Bla@09:00-18:00")
  {
    var s := "Bla@09:00-18:00";
    assert s[..3] == "Bla";
    assert LookupDay(s[..3]).None?;
    RejectsPiece(s);
  }

  /** `Mond` is one letter too long for a day token. */
  lemma RejectsFourLetterDay()
    ensures !ValidTimeFramesString("Mond@09:00-18:00")
  {
    RejectsPiece("Mond@09:00-18:00");
  }

  /** A day token must be exactly three letters: `Sunday` is not one. */
  lemma RejectsLongDayName()
    ensures !ValidTimeFramesString("Sun-Sunday@09:00-18:00")
  {
    RejectsPiece("Sun-Sunday@09:00-18:00");
  }

  /** A segment needs both times. */
  lemma RejectsSingleTime()
    ensures !ValidTimeFramesString("Sun@09:00")
  {
    RejectsPiece("Sun@09:00");
  }

  /** Hours are two digits: `9:00` is not a time. */
  lemma RejectsOneDigitHour()
    ensures !ValidTimeFramesString("Sun@9:00-18:00")
  {
    RejectsPiece("Sun@9:00-18:00");
  }

  /** Minutes are two digits: `09:0` is not a time. */
  lemma RejectsOneDigitMinute()
    ensures !ValidTimeFramesString("Sun@09:0-18:00")
  {
    RejectsPiece("Sun@09:0-18:00");
  }

  /** The hour stops at 23. */
  lemma RejectsHour24()
    ensures !ValidTimeFramesString("Sun@24:00-18:00")
  {
    var s := "Sun@24:00-18:00";
    assert s[4..9] == "24:00";
    assert ParseClock(s[4..9]).None?;
    RejectsPiece(s);
  }

  /** The minute stops at 59. */
  lemma RejectsMinute61()
    ensures !ValidTimeFramesString("Sun@10:61-18:00")
  {
    var s := "Sun@10:61-18:00";
    assert s[4..9] == "10:61";
    assert ParseClock(s[4..9]).None?;
    RejectsPiece(s);
  }

  /** The end time is checked as the start time is. */
  lemma RejectsEndHour24()
    ensures !ValidTimeFramesString("Sun@08:00-24:00")
  {
    var s := "Sun@08:00-24:00";
    assert s[10..] == "24:00";
    assert ParseClock(s[10..]).None?;
    RejectsPiece(s);
  }

  /** Two segments need an `&` between them. */
  lemma RejectsMissingSeparator()
    ensures !ValidTimeFramesString("Sun@09:00-18:00Mon@11:11-22:22")
  {
    RejectsPiece("Sun@09:00-18:00Mon@11:11-22:22");
  }

  // ---------------------------------------------------------------------
  // The tables the parser builds.
  // ---------------------------------------------------------------------

  /** A table with the days 0..6 that `ScheduleOf(gs)` gives is `ScheduleOf(gs)`. */
  lemma ScheduleOfIs(gs: seq<Segment>, expected: Table)
    requires ValidSegments(gs)
    requires forall d :: d in expected ==> ValidDay(d) && expected[d] != []
    requires forall d :: ValidDay(d) ==> Lookup(expected, d) == DayIntervals(gs, d)
    ensures ScheduleOf(gs) == expected
  {
    ScheduleOfLookup(gs);
    var s := ScheduleOf(gs);
    forall d | d in expected
      ensures d in s && s[d] == expected[d]
    {
      assert Lookup(expected, d) == DayIntervals(gs, d);
    }
    forall d | d in s
      ensures d in expected
    {
      assert Lookup(expected, d) == DayIntervals(gs, d);
    }
  }

  function Table0(): Table {
    map[0 := [(540, 1080)]]
  }

  function Table1(): Table {
    map[0 := [(540, 1080)], 1 := [(540, 1080)], 2 := [(540, 1080)], 3 := [(540, 1080)], 4 := [(540, 1080)],
        5 := [(600, 900)]]
  }

  function Table2(): Table {
    map[0 := [(600, 1080)], 5 := [(600, 1080)], 6 := [(600, 1080)]]
  }

  function Table3(): Table {
    map[0 := [(540, 900)], 1 := [(540, 900), (1080, 1170)], 2 := [(540, 1170)], 3 := [(540, 1170)],
        4 := [(540, 1170)]]
  }

  /** Test case 0: Sunday alone, 09:00-18:00. */
  lemma Schedule0()
    ensures ScheduleOf(Frames0()) == Table0()
  {
    var gs := Frames0();
    assert gs[..0] == [];
    ScheduleOfIs(gs, Table0());
  }

  /** Test case 1: Sunday to Thursday 09:00-18:00, Friday 10:00-15:00. */
  lemma Schedule1()
    ensures ScheduleOf(Frames1()) == Table1()
  {
    var gs := Frames1();
    forall d | ValidDay(d)
      ensures Lookup(Table1(), d) == DayIntervals(gs, d)
    {
      DayIntervalsSnoc([], gs[0], d);
      DayIntervalsSnoc([gs[0]], gs[1], d);
      assert [] + [gs[0]] == [gs[0]] && [gs[0]] + [gs[1]] == gs;
    }
    ScheduleOfIs(gs, Table1());
  }

  /** Test case 2: the range Friday to Sunday wraps to 5, 6 and 0. */
  lemma Schedule2()
    ensures ScheduleOf(Frames2()) == Table2()
  {
    var gs := Frames2();
    assert gs[..0] == [];
    ScheduleOfIs(gs, Table2());
  }

  /** Test case 3: Monday collects both of its intervals, in segment order. */
  lemma Schedule3()
    ensures ScheduleOf(Frames3()) == Table3()
  {
    var gs := Frames3();
    forall d | ValidDay(d)
      ensures Lookup(Table3(), d) == DayIntervals(gs, d)
    {
      DayIntervalsSnoc([], gs[0], d);
      DayIntervalsSnoc([gs[0]], gs[1], d);
      DayIntervalsSnoc([gs[0], gs[1]], gs[2], d);
      assert [] + [gs[0]] == [gs[0]] && [gs[0]] + [gs[1]] == [gs[0], gs[1]] && [gs[0], gs[1]] + [gs[2]] == gs;
    }
    ScheduleOfIs(gs, Table3());
  }

  /** `parse_time_frames` on test case 3 builds the expected table. */
  method ParseTestCase3() returns (frames: Table)
    ensures frames == Table3()
    ensures frames[1] == [(540, 900), (1080, 1170)]
  {
    var raw := "Sun-Mon@09:00-15:00" + "&" + "Mon@18:00-19:30" + "&" + "Tue-Thu@09:00-19:30";
    TestString3();
    SpellsIsUnique(Frames3(), raw);
    frames := ParseTimeFrames(raw);
    Schedule3();
  }

  /** `parse_time_frames` on test case 0 gives Sunday its one interval. */
  method ParseTestCase0() returns (frames: Table)
    ensures frames == Table0()
  {
    var raw := "Sun@09:00-18:00";
    TestString0();
    SpellsIsUnique(Frames0(), raw);
    frames := ParseTimeFrames(raw);
    Schedule0();
  }

  /** `parse_time_frames` on test case 1 spreads the range over Sunday to Thursday. */
  method ParseTestCase1() returns (frames: Table)
    ensures frames == Table1()
  {
    var raw := "Sun-Thu@09:00-18:00" + "&" + "Fri@10:00-15:00";
    TestString1();
    SpellsIsUnique(Frames1(), raw);
    frames := ParseTimeFrames(raw);
    Schedule1();
  }

  /** `parse_time_frames` on test case 2 wraps the range past Saturday. */
  method ParseTestCase2() returns (frames: Table)
    ensures frames == Table2()
  {
    var raw := "Fri-Sun@10:00-18:00";
    TestString2();
    SpellsIsUnique(Frames2(), raw);
    frames := ParseTimeFrames(raw);
    Schedule2();
  }

  // ---------------------------------------------------------------------
  // within_time_frames and next_valid_date_time on the tests' cases.
  // ---------------------------------------------------------------------

  /** The instant of `HH:MM`. */
  function At(hour: int, minute: int): int {
    Instant(60 * hour + minute)
  }

  /** The single Sunday interval of test case 0: before, inside, after it, and Monday. */
  method WithinTestCase0() returns (before: bool, inside: bool, after: bool, otherDay: bool)
    ensures !before && inside && !after && !otherDay
  {
    before := WithinTimeFrames(Table0(), 0, At(7, 7));
    inside := WithinTimeFrames(Table0(), 0, At(15, 0));
    assert Contains(Table0()[0][0], At(15, 0));
    after := WithinTimeFrames(Table0(), 0, At(23, 45));
    otherDay := WithinTimeFrames(Table0(), 1, At(15, 0));
  }

  /** Monday of test case 3, with two intervals: before, in the first, between, in the second, after. */
  method WithinTestCase3() returns (before: bool, first: bool, between: bool, second: bool, after: bool)
    ensures !before && first && !between && second && !after
  {
    var frames := Table3();
    before := WithinTimeFrames(frames, 1, At(7, 7));
    first := WithinTimeFrames(frames, 1, At(10, 0));
    assert Contains(frames[1][0], At(10, 0));
    between := WithinTimeFrames(frames, 1, At(17, 17));
    second := WithinTimeFrames(frames, 1, At(19, 0));
    assert Contains(frames[1][1], At(19, 0));
    after := WithinTimeFrames(frames, 1, At(23, 45));
  }

  /** Saturday 17:17 with Sunday 09:00-18:00 only: tomorrow at 09:00. */
  method NextIsTomorrowMorning() returns (r: Next)
    ensures r == Found(1, 540)
  {
    r := NextValidDateTime(Table0(), 6, At(17, 17));
    assert Qualifies(Table0(), 6, At(17, 17), 1, 0);
    assert IsFirstQualifying(Table0(), 6, At(17, 17), 1, 0);
    ghost var i :| IsFirstQualifying(Table0(), 6, At(17, 17), r.offset, i) && r.start == Table0()[DayAt(6, r.offset)][i].0;
    FirstQualifyingUnique(Table0(), 6, At(17, 17), r.offset, i, 1, 0);
  }

  /** Tuesday 07:07 in test case 1: later the same day, at 09:00. */
  method NextIsLaterToday() returns (r: Next)
    ensures r == Found(0, 540)
  {
    r := NextValidDateTime(Table1(), 2, At(7, 7));
    assert IsFirstQualifying(Table1(), 2, At(7, 7), 0, 0);
    ghost var i :| IsFirstQualifying(Table1(), 2, At(7, 7), r.offset, i) && r.start == Table1()[DayAt(2, r.offset)][i].0;
    FirstQualifyingUnique(Table1(), 2, At(7, 7), r.offset, i, 0, 0);
  }

  /** Sunday 23:45 with Sunday 09:00-18:00 only: the same weekday next week. */
  method NextIsSameWeekdayNextWeek() returns (r: Next)
    ensures r == Found(7, 540)
  {
    var frames, t := Table0(), At(23, 45);
    r := NextValidDateTime(frames, 0, t);
    assert !Qualifies(frames, 0, t, 0, 0);
    assert IsFirstQualifying(frames, 0, t, 7, 0);
    ghost var i :| IsFirstQualifying(frames, 0, t, r.offset, i) && r.start == frames[DayAt(0, r.offset)][i].0;
    FirstQualifyingUnique(frames, 0, t, r.offset, i, 7, 0);
  }

  /** Monday 17:17 in test case 3, between Monday's two intervals: today at 18:00. */
  method NextIsBetweenIntervals() returns (r: Next)
    ensures r == Found(0, 1080)
  {
    var frames, t := Table3(), At(17, 17);
    r := NextValidDateTime(frames, 1, t);
    assert !Qualifies(frames, 1, t, 0, 0);
    assert IsFirstQualifying(frames, 1, t, 0, 1);
    ghost var i :| IsFirstQualifying(frames, 1, t, r.offset, i) && r.start == frames[DayAt(1, r.offset)][i].0;
    FirstQualifyingUnique(frames, 1, t, r.offset, i, 0, 1);
  }

  /** Thursday 23:45 in test case 3: Friday and Saturday are free, so Sunday at 09:00. */
  method NextIsAfterFreeDays() returns (r: Next)
    ensures r == Found(3, 540)
  {
    var frames, t := Table3(), At(23, 45);
    r := NextValidDateTime(frames, 4, t);
    assert !Qualifies(frames, 4, t, 0, 0);
    assert IsFirstQualifying(frames, 4, t, 3, 0);
    ghost var i :| IsFirstQualifying(frames, 4, t, r.offset, i) && r.start == frames[DayAt(4, r.offset)][i].0;
    FirstQualifyingUnique(frames, 4, t, r.offset, i, 3, 0);
  }

  // ---------------------------------------------------------------------
  // Valid strings on which the next valid time is not the closest one.
  // ---------------------------------------------------------------------

  /** `Sun@18:00-09:00`: an interval that ends before it starts. */
  function ReversedFrames(): seq<Segment> {
    [Single(0, 18, 0, 9, 0)]
  }

  function ReversedTable(): Table {
    map[0 := [(1080, 540)]]
  }

  /** The validator accepts the reversed interval, and the parser keeps it as written. */
  lemma ReversedString()
    ensures Spells(ReversedFrames(), "Sun@18:00-09:00")
    ensures ScheduleOf(ReversedFrames()) == ReversedTable()
  {
    var gs := ReversedFrames();
    assert ClockText(Clock(18, 0)) == "18:00" && ClockText(Clock(9, 0)) == "09:00";
    assert SegmentText(gs[0]) == "Sun@18:00-09:00";
    assert SegmentTexts(gs) == ["Sun@18:00-09:00"];
    assert gs[..0] == [];
    ScheduleOfIs(gs, ReversedTable());
  }

  /**
   * On `Sun@18:00-09:00`, Sunday 08:00 is sent on to Sunday 18:00, and from
   * Sunday 18:00 on to the next Sunday 18:00, although no moment of any day
   * is within the time frames.
   */
  method NextOnReversedInterval() returns (early: Next, late: Next)
    ensures early == Found(0, 1080) && late == Found(7, 1080)
    ensures forall d, u :: !InTimeFrames(ReversedTable(), d, u)
  {
    var frames := ReversedTable();
    early := NextValidDateTime(frames, 0, At(8, 0));
    assert IsFirstQualifying(frames, 0, At(8, 0), 0, 0);
    ghost var i :| IsFirstQualifying(frames, 0, At(8, 0), early.offset, i) && early.start == frames[DayAt(0, early.offset)][i].0;
    FirstQualifyingUnique(frames, 0, At(8, 0), early.offset, i, 0, 0);
    late := NextValidDateTime(frames, 0, At(18, 0));
    assert !Qualifies(frames, 0, At(18, 0), 0, 0);
    assert IsFirstQualifying(frames, 0, At(18, 0), 7, 0);
    ghost var i' :| IsFirstQualifying(frames, 0, At(18, 0), late.offset, i') && late.start == frames[DayAt(0, late.offset)][i'].0;
    FirstQualifyingUnique(frames, 0, At(18, 0), late.offset, i', 7, 0);
  }

  /** `Mon@18:00-19:00&Mon@09:00-10:00`: Monday's intervals stored out of order. */
  function UnsortedFrames(): seq<Segment> {
    [Single(1, 18, 0, 19, 0), Single(1, 9, 0, 10, 0)]
  }

  function UnsortedTable(): Table {
    map[1 := [(1080, 1140), (540, 600)]]
  }

  lemma SegmentTextUnsortedA()
    ensures SegmentText(UnsortedFrames()[0]) == "Mon@18:00-19:00"
  {
    assert ClockText(Clock(18, 0)) == "18:00" && ClockText(Clock(19, 0)) == "19:00";
  }

  lemma SegmentTextUnsortedB()
    ensures SegmentText(UnsortedFrames()[1]) == "Mon@09:00-10:00"
  {
    assert ClockText(Clock(9, 0)) == "09:00" && ClockText(Clock(10, 0)) == "10:00";
  }

  /** The validator accepts the out-of-order string. */
  lemma UnsortedString()
    ensures Spells(UnsortedFrames(), "Mon@18:00-19:00" + "&" + "Mon@09:00-10:00")
  {
    SegmentTextUnsortedA();
    SegmentTextUnsortedB();
    SpecTextOfTwo(UnsortedFrames());
  }

  /** The parser keeps Monday's intervals in the order written. */
  lemma UnsortedSchedule()
    ensures ScheduleOf(UnsortedFrames()) == UnsortedTable()
  {
    var gs := UnsortedFrames();
    forall d | ValidDay(d)
      ensures Lookup(UnsortedTable(), d) == DayIntervals(gs, d)
    {
      DayIntervalsSnoc([], gs[0], d);
      DayIntervalsSnoc([gs[0]], gs[1], d);
      assert [] + [gs[0]] == [gs[0]] && [gs[0]] + [gs[1]] == gs;
    }
    ScheduleOfIs(gs, UnsortedTable());
  }

  /**
   * On `Mon@18:00-19:00&Mon@09:00-10:00`, Monday 07:00 is sent on to Monday
   * 18:00, although Monday 09:00 is earlier and within the time frames.
   */
  method NextSkipsEarlierInterval() returns (r: Next)
    ensures r == Found(0, 1080)
    ensures !InTimeFrames(UnsortedTable(), 1, At(7, 0)) && InTimeFrames(UnsortedTable(), 1, At(9, 0))
  {
    var frames, t := UnsortedTable(), At(7, 0);
    r := NextValidDateTime(frames, 1, t);
    assert IsFirstQualifying(frames, 1, t, 0, 0);
    ghost var i :| IsFirstQualifying(frames, 1, t, r.offset, i) && r.start == frames[DayAt(1, r.offset)][i].0;
    FirstQualifyingUnique(frames, 1, t, r.offset, i, 0, 0);
    assert Contains(frames[1][1], At(9, 0));
  }

  /**
   * Monday 10:00 with Monday 09:00-15:00: already within the time frames, so
   * the answer is 09:00 today, earlier than now.
   */
  method NextWhenAlreadyWithin() returns (r: Next)
    ensures r == Found(0, 540)
    ensures InTimeFrames(map[1 := [(540, 900)]], 1, At(10, 0)) && Instant(r.start) < At(10, 0)
  {
    var frames, t := map[1 := [(540, 900)]], At(10, 0);
    r := NextValidDateTime(frames, 1, t);
    assert IsFirstQualifying(frames, 1, t, 0, 0);
    ghost var i :| IsFirstQualifying(frames, 1, t, r.offset, i) && r.start == frames[DayAt(1, r.offset)][i].0;
    FirstQualifyingUnique(frames, 1, t, r.offset, i, 0, 0);
    assert Contains(frames[1][0], t);
  }
}
