# Alert time-frame checker, modelled in Dafny

The alert time-frame checker decides whether an alert may be sent now. The
user gives a time-frames string such as `Sun-Thu@09:00-18:00&Fri@10:00-15:00`:
segments joined by `&`. Each segment is a weekday or a weekday range (`Fri-Sun`
wraps past Saturday) and a daily time range. Weekdays are indices 0..6, with
Sunday as 0.

The program works in three steps:
1. It checks the string against a grammar (`valid_time_frames_string`).
2. It parses the string into a table from weekday to that day's intervals
   (`parse_time_frames`).
3. It answers whether the current weekday and time fall in an interval
   (`within_time_frames`). If they do not, it finds the next moment that does
   (`next_valid_date_time`).

The model has six modules:

- `Options` holds the optional value that parse results use.
- `Text` models Python's `str.split` for one separator and its inverse
  `str.join`. They are proved to be inverses.
- `Grammar` models the validator as a fixed-position recognizer, `SegmentsOf`.
  It is proved equal to a declarative grammar, `ValidSpec`: a string is valid
  exactly when it is the text of a non-empty list of segments. That text is
  also proved to read back as the same list.
- `Schedule` models the parser as imperative code:
  - `ParseTimeFrames` and `BuildTable` are the loop over segments.
  - `DecodeSegment` covers the splits, the weekday lookups and the time
    reading.
  - `AppendToDayRange` is the day walk that appends to a map.

  All of it is proved to build `ScheduleOf(gs)`. In that table, each day holds
  the interval of every segment whose range covers it, in segment order.
  Stored times are minutes since midnight.
- `Query` models the two lookups as loops with early exits. Each is proved
  equal to a declarative search: some interval contains the time, or the first
  qualifying interval in (day offset, stored order). On tables whose
  intervals run forward and are sorted by start, and when the current time is
  outside the time frames (the docstring's assumption at
  alert_timeframe_checker.py:202), that answer is proved to be the closest
  valid moment.
- `TestCases` restates the concrete cases of the unit tests about the model.

The current time is a count of microseconds since midnight. That is the
precision at which Python compares `datetime.time` values, so a time such as
18:00:30 lies after an interval that ends at 18:00.

## Model

| member | source | states |
|---|---|---|
| Grammar.LookupDay | alert_timeframe_checker.py:36 | `WEEK_DAYS.index`: a token is found exactly when it is one of the seven exact-case day names, and the index found names it |
| Grammar.LookupDayName | alert_timeframe_checker.py:36 | each day name is found at its own index |
| Grammar.ParseClock | alert_timeframe_checker.py:143 | an accepted `HH:MM` token has hour 0..23 and minute 0..59, and that clock time is written as the token |
| Grammar.ClockRoundTrip | alert_timeframe_checker.py:143 | the text of every valid clock time is accepted and read back as that time |
| Grammar.ParseSegment | alert_timeframe_checker.py:143-146 | an accepted `Day[-Day]@HH:MM-HH:MM` piece gives a valid segment that is written as that piece |
| Grammar.SegmentRoundTrip | alert_timeframe_checker.py:143-146 | the text of every valid segment is accepted and read back as that segment |
| Grammar.ParseSegments | alert_timeframe_checker.py:147 | the pieces are accepted exactly when each piece is a segment, and the result lists the pieces' segments in order |
| Grammar.ValidTimeFramesString | alert_timeframe_checker.py:134-150 | the validator as a recognizer: a string is accepted exactly when `SegmentsOf` reads it as a list of segments; ValidTimeFramesStringIsValidSpec gives its meaning |
| Grammar.SegmentsOf | alert_timeframe_checker.py:147-150 | when a string is accepted, it is the `&`-join of the texts of the segments read |
| Grammar.SegmentsOfSpecText | alert_timeframe_checker.py:147 | the text of any non-empty list of valid segments is accepted and reads back as that list |
| Grammar.ValidTimeFramesStringIsValidSpec | alert_timeframe_checker.py:134-150 | the validator accepts a string exactly when it is the text of a non-empty list of valid segments |
| Grammar.SpellsIsUnique | alert_timeframe_checker.py:147 | a string is the text of at most one segment list, the one the validator reads |
| Grammar.SegmentTextHasNoAmpersand | alert_timeframe_checker.py:146-147 | a segment's text never contains `&`, so splitting on `&` separates the segments |
| Grammar.ValidEndsInDigit | alert_timeframe_checker.py:147 | an accepted string is non-empty and ends in a digit |
| Grammar.TrailingNewlineSlipsThrough | alert_timeframe_checker.py:147-150 | the anchors as written also accept a valid string followed by one newline, which is not in the grammar |
| Grammar.ValidTimeFramesStringAsWritten | alert_timeframe_checker.py:147-150 | the pattern's anchors as Python reads them: the strings of the grammar, and each of them followed by one newline |
| Text.Split | alert_timeframe_checker.py:162-165 | `str.split` on one separator character: at least one piece, and no piece holds the separator |
| Text.Join | alert_timeframe_checker.py:162-165 | the inverse of `str.split`: the pieces with the separator between neighbours; the result starts with the first piece |
| Text.JoinSplit | alert_timeframe_checker.py:162-165 | joining the pieces of `str.split` with the separator gives back the string |
| Text.SplitJoin | alert_timeframe_checker.py:162-165 | splitting a join of separator-free pieces gives back the pieces |
| Schedule.NextDay | alert_timeframe_checker.py:176 | the step to the next weekday, wrapping from Saturday to Sunday: on a weekday `d` it is the weekday `(d + 1) mod 7` |
| Schedule.DaysForward | alert_timeframe_checker.py:176 | the number of steps from one weekday to another, in 0..6, with the step wrapping from 6 to 0 |
| Schedule.WeekDayIndex | alert_timeframe_checker.py:166 | `WEEK_DAYS.index` on a day name: a weekday in 0..6 whose name is the token |
| Schedule.FromIsoFormat | alert_timeframe_checker.py:167 | `datetime.time.fromisoformat` on an accepted `HH:MM` token: a minute of the day in [0, 1439], 60 times the hour plus the minute of the clock time the token writes |
| Schedule.DecodeSegment | alert_timeframe_checker.py:163-167 | reading a segment's text gives its first day, its last day (the first day again when no range is written) and its start and end minute |
| Schedule.DecodeSegmentText | alert_timeframe_checker.py:163-167 | on a segment's text, the splits give the day part and time part, then the day tokens and time tokens, and the lookups give the segment's days and minutes |
| Schedule.FromIsoFormatClock | alert_timeframe_checker.py:167 | `fromisoformat` reads the text of a clock time as its minute of the day |
| Schedule.AppendToDayRange | alert_timeframe_checker.py:172-176 | appends the interval once to every weekday the range passes from its first day forward to its last, and to no other day; other days' lists are unchanged |
| Schedule.BuildTable | alert_timeframe_checker.py:160-178 | the loop over the segments builds `ScheduleOf` of those segments |
| Schedule.ParseTimeFrames | alert_timeframe_checker.py:153-178 | a valid string parses to `ScheduleOf` of the segments it spells |
| Schedule.AppendSegment | alert_timeframe_checker.py:162-176 | appending one segment's interval to the days it covers turns the table of the earlier segments into the table of all of them |
| Schedule.ScheduleOfLookup | alert_timeframe_checker.py:178 | the table holds only weekdays with non-empty lists, and a weekday's list is the intervals it collects |
| Schedule.DayIntervalsSnoc | alert_timeframe_checker.py:175 | one more segment appends its interval after what each covered day already holds |
| Schedule.DayIntervalsConcat | alert_timeframe_checker.py:162-178 | a day's intervals over two runs of segments are the first run's, then the second's: nothing is merged, sorted or removed |
| Schedule.DayIntervalsFromCovering | alert_timeframe_checker.py:175 | every interval a day holds is the interval of a segment that covers that day |
| Schedule.ScheduleOfWellFormed | alert_timeframe_checker.py:166-178 | every key of a parsed table is in 0..6, no list is empty, every stored time is a minute in [0, 1439], and each segment's first day is a key |
| Schedule.RangeGuard | alert_timeframe_checker.py:173-174 | the `while` condition as written; RangeGuardIsCoverage states what it means on weekdays |
| Schedule.WalkAsWritten | alert_timeframe_checker.py:172-176 | the day loop as written, run for at most `fuel` iterations: when it stops in time, it has appended at most `fuel` days, each of which met the condition |
| Schedule.RangeGuardIsCoverage | alert_timeframe_checker.py:173-174 | on weekdays, the `while` condition as written holds exactly on the days of the range |
| Schedule.FullWeekRangeNeverStops | alert_timeframe_checker.py:172-176 | for a range over all seven days, the loop as written is still running after any number of iterations |
| Schedule.WalkAsWrittenShortRange | alert_timeframe_checker.py:172-176 | for every other range, the loop as written stops after visiting the range's days from the first forward |
| Schedule.RangeWalkVisitsRangeOnce | alert_timeframe_checker.py:172-176 | that walk stays in 0..6, visits no day twice, and visits exactly the days of the range, so `Fri-Sun` visits 5, 6 and 0 |
| Schedule.CoversSingleDay | alert_timeframe_checker.py:172-176 | a single day, or a same-day range such as `Sun-Sun`, covers exactly that day |
| Schedule.CoversForwardRange | alert_timeframe_checker.py:173 | a range whose first day is not after its last covers the days between them, inclusive |
| Schedule.CoversWrappedRange | alert_timeframe_checker.py:174 | a range whose first day is after its last covers the first day to Saturday and Sunday to the last day |
| Schedule.FullWeekRangeCoversEveryDay | alert_timeframe_checker.py:172-176 | a range ending the day before it starts covers every weekday |
| Query.WithinTimeFrames | alert_timeframe_checker.py:181-196 | true exactly when the day is in the table and one of its intervals contains the time, both bounds inclusive; false for a day not in the table |
| Query.WithinScheduleOf | alert_timeframe_checker.py:181-196 | on a parsed table, a time is within the time frames exactly when some segment covers the day and its interval contains the time |
| Query.CoveringSegmentListed | alert_timeframe_checker.py:175 | a segment's interval is among those of every day it covers |
| Query.DayAt | alert_timeframe_checker.py:212-214 | the weekday `k` days after today, wrapped once past Saturday: for a weekday and `k` in 0..7, it is the weekday `(cur + k) mod 7` |
| Query.NextValidDateTime | alert_timeframe_checker.py:199-232 | finds a time exactly when some interval qualifies within offsets 0..7; the answer is the first qualifying interval, by day offset and then stored order; on today, intervals already ended are skipped; the offset is in 0..7 and the start is that interval's start |
| Query.FirstQualifyingUnique | alert_timeframe_checker.py:211-227 | the first qualifying interval is unique, so the answer is determined |
| Query.NonEmptyScheduleFindsNext | alert_timeframe_checker.py:211-232 | on a well-formed table with some day in it, an interval qualifies, so the fatal exit cannot happen |
| Query.ParsedScheduleFindsNext | alert_timeframe_checker.py:211-232 | on the table of any valid string, an interval qualifies |
| Query.OffsetSevenOnlyWhenTodayAlone | alert_timeframe_checker.py:211-221 | the answer is seven days ahead only when today is the table's only day and all its intervals have ended; it is then today's first interval |
| Query.WithinMeansToday | alert_timeframe_checker.py:202 | when the current time is within the time frames, the first qualifying interval is today |
| Query.FirstQualifyingIsValid | alert_timeframe_checker.py:200 | the moment answered lies in the time frames when its interval starts no later than it ends |
| Query.NoEarlierValid | alert_timeframe_checker.py:200 | when each day's intervals are sorted by start, no moment from now up to the one answered lies in the time frames |
| Query.NextIsClosest | alert_timeframe_checker.py:200-202 | the docstring's "closest date-time valid for sending": on a table of forward intervals sorted by start within each day, with the current time outside the time frames, the answer is valid, later than now, and no moment from now up to it is valid |
| TestCases.TestString0 | test_alert_timeframe_checker.py:38-41 | `Sun@09:00-18:00` is the text of one Sunday segment |
| TestCases.TestString1 | test_alert_timeframe_checker.py:42-50 | `Sun-Thu@09:00-18:00&Fri@10:00-15:00` is the text of a range and a single day |
| TestCases.TestString2 | test_alert_timeframe_checker.py:51-56 | `Fri-Sun@10:00-18:00` is the text of one wrapping range |
| TestCases.ReverseRangeAccepted | test_alert_timeframe_checker.py:77 | `Wed-Sun@09:00-18:00` is the text of one range from Wednesday round to Sunday |
| TestCases.TestString3 | test_alert_timeframe_checker.py:57-64 | `Sun-Mon@09:00-15:00&Mon@18:00-19:30&Tue-Thu@09:00-19:30` is the text of three segments |
| TestCases.RejectsEmpty | alert_timeframe_checker.py:147 | the empty string is rejected |
| TestCases.RejectsUnknownDay | test_alert_timeframe_checker.py:86-87 | `Bla` is not a day token |
| TestCases.RejectsFourLetterDay | test_alert_timeframe_checker.py:86-87 | `Mond` is not a day token |
| TestCases.RejectsLowerCaseDay | test_alert_timeframe_checker.py:86-87 | `sun` is not a day token |
| TestCases.RejectsLongDayName | test_alert_timeframe_checker.py:86-88 | `Sunday` is not a day token in a range |
| TestCases.RejectsSingleTime | test_alert_timeframe_checker.py:89 | a segment with one time is rejected |
| TestCases.RejectsOneDigitMinute | test_alert_timeframe_checker.py:90-91 | `09:0` is rejected |
| TestCases.RejectsOneDigitHour | test_alert_timeframe_checker.py:90-91 | `9:00` is rejected |
| TestCases.RejectsHour24 | test_alert_timeframe_checker.py:90-91 | `24:00` is rejected as a start time |
| TestCases.RejectsMinute61 | test_alert_timeframe_checker.py:90-91 | `10:61` is rejected |
| TestCases.RejectsEndHour24 | test_alert_timeframe_checker.py:90-92 | `24:00` is rejected as an end time |
| TestCases.RejectsMissingSeparator | test_alert_timeframe_checker.py:93 | two segments without `&` are rejected |
| TestCases.Schedule0 | test_alert_timeframe_checker.py:38-41 | test case 0's segments give Sunday 09:00-18:00 only |
| TestCases.Schedule1 | test_alert_timeframe_checker.py:42-50 | test case 1's segments give Sunday to Thursday 09:00-18:00 and Friday 10:00-15:00 |
| TestCases.Schedule2 | test_alert_timeframe_checker.py:51-56 | test case 2's range gives days 5, 6 and 0 |
| TestCases.Schedule3 | test_alert_timeframe_checker.py:57-64 | test case 3 gives Monday both of its intervals, in segment order |
| TestCases.ParseTestCase0 | test_alert_timeframe_checker.py:95-102 | parsing test case 0's string builds its expected table, Sunday alone |
| TestCases.ParseTestCase1 | test_alert_timeframe_checker.py:95-102 | parsing test case 1's string builds its expected table, Sunday to Thursday and Friday |
| TestCases.ParseTestCase2 | test_alert_timeframe_checker.py:95-102 | parsing test case 2's string builds its expected table |
| TestCases.ParseTestCase3 | test_alert_timeframe_checker.py:95-102 | parsing test case 3's string builds its expected table, with Monday holding `[(09:00,15:00),(18:00,19:30)]` |
| TestCases.WithinTestCase0 | test_alert_timeframe_checker.py:112-115 | before, inside, after the Sunday interval, and on Monday: false, true, false, false |
| TestCases.WithinTestCase3 | test_alert_timeframe_checker.py:118-122 | Monday before, in the first, between, in the second and after the intervals: false, true, false, true, false |
| TestCases.NextIsTomorrowMorning | test_alert_timeframe_checker.py:135 | Saturday 17:17 with Sunday 09:00-18:00: one day ahead at 09:00 |
| TestCases.NextIsLaterToday | test_alert_timeframe_checker.py:136 | Tuesday 07:07 in test case 1: today at 09:00 |
| TestCases.NextIsSameWeekdayNextWeek | test_alert_timeframe_checker.py:137 | Sunday 23:45 with Sunday 09:00-18:00 only: seven days ahead at 09:00 |
| TestCases.NextIsBetweenIntervals | test_alert_timeframe_checker.py:138 | Monday 17:17 in test case 3: today at 18:00 |
| TestCases.NextIsAfterFreeDays | test_alert_timeframe_checker.py:139 | Thursday 23:45 in test case 3: three days ahead at 09:00 |
| TestCases.ReversedString | alert_timeframe_checker.py:143-178 | `Sun@18:00-09:00` is accepted and parses to Sunday holding the interval (18:00, 09:00) |
| TestCases.NextOnReversedInterval | alert_timeframe_checker.py:199-227 | on that table, Sunday 08:00 is sent on to Sunday 18:00 and Sunday 18:00 to the next Sunday 18:00, although no moment is within the time frames |
| TestCases.UnsortedString | alert_timeframe_checker.py:143-150 | `Mon@18:00-19:00&Mon@09:00-10:00` is accepted |
| TestCases.UnsortedSchedule | alert_timeframe_checker.py:162-178 | it parses to Monday holding (18:00, 19:00) before (09:00, 10:00), as written |
| TestCases.NextSkipsEarlierInterval | alert_timeframe_checker.py:199-227 | on that table, Monday 07:00 is sent on to Monday 18:00, although Monday 09:00 is earlier and within the time frames |
| TestCases.NextWhenAlreadyWithin | alert_timeframe_checker.py:199-227 | when the current time is within the time frames, against the docstring's assumption at line 202, the answer can lie before now: Monday 10:00 with Monday 09:00-15:00 gives 09:00 today |

## Left out

- `main`, `get_args`, argument parsing and process exit codes (alert_timeframe_checker.py:41-117) are command-line plumbing and are not modelled.
- `setup_logger` and every `_logger` call are not modelled. They write to a log and do not change any result.
- Reading the clock and normalising the ISO weekday are not modelled. The weekday and the time of day are inputs.
- Calendar arithmetic and the `isoformat` rendering (alert_timeframe_checker.py:223-227) are not modelled. Query.NextValidDateTime returns the day offset from today and the start minute; the date is today's date plus that offset.
- Query.NextValidDateTime: the fatal `sys.exit` at alert_timeframe_checker.py:229-232 is the `Exhausted` answer. The log message and the exit are left out.
- Grammar.ValidTimeFramesString returns a boolean where the source returns a `re.Match` object or `None`. The capture groups are not modelled.
- Grammar.ParseClock: Python's `\d` also matches non-ASCII decimal digits, for example Arabic-Indic digits, which `fromisoformat` would then reject. The model accepts ASCII digits only.
- Schedule.ParseTimeFrames requires a string that the anchored validator Grammar.ValidTimeFramesString accepts. `main` validates before it parses, so it never passes any other string. The model's `requires` excludes two kinds of string that the program can still meet:
  - A valid string followed by one newline. The program's own check is the weaker Grammar.ValidTimeFramesStringAsWritten (alert_timeframe_checker.py:147-150), which accepts it. The source then passes a last time token ending in `\n` to `datetime.time.fromisoformat` (alert_timeframe_checker.py:167), which raises `ValueError`.
  - Other invalid strings, which only direct callers can pass. On these the source either raises, from the tuple unpacking, `WEEK_DAYS.index` or `fromisoformat`, or returns a table. Because it reads the first and last piece of each `-` split, `Sun@09:00` gives `{0: [(09:00, 09:00)]}` and `Sun-Mon-Tue@09:00-18:00` gives days 0, 1 and 2.
  Neither the exceptions nor these tables are modelled.
- Schedule.ParseTimeFrames builds a Dafny map directly rather than a `defaultdict` converted by `dict(...)`. `Lookup` gives the empty list for a missing day, as the `defaultdict` does.
- Query.NextValidDateTime: the docstring's promise of the closest valid moment is proved only by Query.NextIsClosest, which requires intervals that start no later than they end, sorted by start within each day, and a current time outside the time frames (the docstring's assumption at alert_timeframe_checker.py:202). When the current time is inside them, the answer can be earlier than now: on `{1: [(09:00, 15:00)]}` at Monday 10:00 it is 09:00 today (TestCases.NextWhenAlreadyWithin). The validator accepts strings that meet neither of the first two conditions, and there the source answers a moment that is not the closest valid one. On `Sun@18:00-09:00` it answers a moment that is never valid, and from Sunday 18:00 on it answers a week ahead every time (TestCases.NextOnReversedInterval). On `Mon@18:00-19:00&Mon@09:00-10:00` at Monday 07:00 it answers 18:00, although 09:00 is valid (TestCases.NextSkipsEarlierInterval). The model keeps the source's behaviour and proves no closeness in these cases.
- Query.WithinTimeFrames and Query.NextValidDateTime accept any table. They do not assume the docstring's precondition that the current time is outside every interval.
- The end-to-end test (test_alert_timeframe_checker.py:148-173) depends on the real clock and on captured output, and is not modelled.

## Findings

| source | as written | input that shows it | evidently intended | confidence | as-written member | corrected member |
|---|---|---|---|---|---|---|
| alert_timeframe_checker.py:147-150 | The pattern is anchored with `^` and `$` and run with `re.search`. In Python, `$` also matches just before a final newline, so a valid string followed by `\n` is accepted. The parser then receives a last time token that ends in a newline, and `fromisoformat` raises `ValueError`. | `"Sun@09:00-18:00\n"` | Accept only strings that consist entirely of segments, as with `\Z` or `re.fullmatch` | not executed | Grammar.TrailingNewlineSlipsThrough | Grammar.ValidTimeFramesStringIsValidSpec |
| alert_timeframe_checker.py:172-176 | The `while` condition holds on every weekday when a range spans all seven days. The day index wraps from 6 to 0 and never leaves the range, so the loop never ends. | `"Mon-Sun@09:00-18:00"` or `"Sun-Sat@09:00-18:00"` | Append the interval once to each of the seven days | not executed | Schedule.FullWeekRangeNeverStops | Schedule.AppendToDayRange |

For the second finding, Schedule.WalkAsWrittenShortRange proves that the corrected walk and the loop as written visit the same days on every range shorter than a week.
