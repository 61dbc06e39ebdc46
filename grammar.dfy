/**
 * The time-frames grammar accepted by `valid_time_frames_string`: one or more
 * segments `Day[-Day]@HH:MM-HH:MM` joined by `&`, matched from the first
 * character to the last. Day is one of the exact-case tokens of `WEEK_DAYS`,
 * the hour is 00-23 and the minute 00-59; nothing else, not even a space,
 * may appear.
 */
module Grammar {
  import opened Options
  import opened Text

  /** `WEEK_DAYS`: the weekday tokens in index order, Sunday is 0 and Saturday 6. */
  const WeekDays: seq<string> := ["Sun", "Mon", "Tue", "Wed", "Thu", "Fri", "Sat"]

  /** A time of day as written in a time frame, `HH:MM`. */
  datatype Clock = Clock(hour: int, minute: int)

  /**
   * One segment: a day, or a day range when `last` is present (`Sun-Sun` is a
   * range, `Sun` is not), and the time range written after the `@`.
   */
  datatype Segment = Segment(first: int, last: Option<int>, from: Clock, to: Clock)

  predicate ValidDay(d: int) {
    0 <= d < 7
  }

  predicate ValidClock(c: Clock) {
    0 <= c.hour < 24 && 0 <= c.minute < 60
  }

  predicate ValidSegment(g: Segment) {
    && ValidDay(g.first)
    && (g.last.Some? ==> ValidDay(g.last.value))
    && ValidClock(g.from)
    && ValidClock(g.to)
  }

  predicate ValidSegments(gs: seq<Segment>) {
    forall k :: 0 <= k < |gs| ==> ValidSegment(gs[k])
  }

  // ---------------------------------------------------------------------
  // The declarative side: how a list of segments is written out.
  // ---------------------------------------------------------------------

  /** The ASCII digit for the last decimal digit of `n`. */
  function DigitChar(n: int): char {
    (48 + n % 10) as char
  }

  /** `HH:MM`, zero-padded. */
  function ClockText(c: Clock): string {
    [DigitChar(c.hour / 10), DigitChar(c.hour), ':', DigitChar(c.minute / 10), DigitChar(c.minute)]
  }

  function DaysText(g: Segment): string
    requires ValidSegment(g)
  {
    WeekDays[g.first] + if g.last.Some? then ['-'] + WeekDays[g.last.value] else []
  }

  function TimesText(g: Segment): string {
    ClockText(g.from) + ['-'] + ClockText(g.to)
  }

  function SegmentText(g: Segment): string
    requires ValidSegment(g)
  {
    DaysText(g) + ['@'] + TimesText(g)
  }

  function SegmentTexts(gs: seq<Segment>): seq<string>
    requires ValidSegments(gs)
  {
    seq(|gs|, k requires 0 <= k < |gs| && ValidSegment(gs[k]) => SegmentText(gs[k]))
  }

  /** The time-frames string of a non-empty list of segments. */
  function SpecText(gs: seq<Segment>): string
    requires |gs| >= 1 && ValidSegments(gs)
  {
    Join(SegmentTexts(gs), '&')
  }

  /** `s` is the text of the non-empty, well-formed segment list `gs`. */
  predicate Spells(gs: seq<Segment>, s: string) {
    |gs| >= 1 && ValidSegments(gs) && SpecText(gs) == s
  }

  /** The grammar itself: `s` is the text of some segment list. */
  ghost predicate ValidSpec(s: string) {
    exists gs :: Spells(gs, s)
  }

  // ---------------------------------------------------------------------
  // The recognizer.
  // ---------------------------------------------------------------------

  predicate IsDigit(c: char) {
    '0' <= c <= '9'
  }

  function DigitValue(c: char): int {
    c as int - 48
  }

  /** `WEEK_DAYS.index(tok)`, or None when `tok` is not a weekday token. */
  function LookupDay(tok: string): (d: Option<int>)
    ensures d.Some? ==> ValidDay(d.value) && WeekDays[d.value] == tok
    ensures d.None? ==> tok !in WeekDays
  {
    if tok == "Sun" then Some(0)
    else if tok == "Mon" then Some(1)
    else if tok == "Tue" then Some(2)
    else if tok == "Wed" then Some(3)
    else if tok == "Thu" then Some(4)
    else if tok == "Fri" then Some(5)
    else if tok == "Sat" then Some(6)
    else None
  }

  /** A time token: the hour matches `[01]\d|2[0-3]`, then `:`, then the minute `[0-5]\d`. */
  function ParseClock(s: string): (c: Option<Clock>)
    ensures c.Some? ==> ValidClock(c.value) && ClockText(c.value) == s
  {
    if && |s| == 5
       && IsDigit(s[0]) && IsDigit(s[1]) && s[2] == ':' && IsDigit(s[3]) && IsDigit(s[4])
       && (s[0] <= '1' || (s[0] == '2' && s[1] <= '3'))
       && s[3] <= '5'
    then
      var c := Clock(10 * DigitValue(s[0]) + DigitValue(s[1]), 10 * DigitValue(s[3]) + DigitValue(s[4]));
      ClockTextOfDigits(s);
      Some(c)
    else
      None
  }

  /** One segment `Day[-Day]@HH:MM-HH:MM`, the whole of `s`. */
  function ParseSegment(s: string): (g: Option<Segment>)
    ensures g.Some? ==> ValidSegment(g.value) && SegmentText(g.value) == s
  {
    if |s| == 15 && s[3] == '@' && s[9] == '-' then
      var first := LookupDay(s[..3]);
      var from := ParseClock(s[4..9]);
      var to := ParseClock(s[10..]);
      if first.Some? && from.Some? && to.Some? then
        var g := Segment(first.value, None, from.value, to.value);
        SingleDayText(s, g);
        Some(g)
      else
        None
    else if |s| == 19 && s[3] == '-' && s[7] == '@' && s[13] == '-' then
      var first := LookupDay(s[..3]);
      var last := LookupDay(s[4..7]);
      var from := ParseClock(s[8..13]);
      var to := ParseClock(s[14..]);
      if first.Some? && last.Some? && from.Some? && to.Some? then
        var g := Segment(first.value, Some(last.value), from.value, to.value);
        DayRangeText(s, g);
        Some(g)
      else
        None
    else
      None
  }

  /** The clock time read from five characters `HH:MM` is written back as them. */
  lemma ClockTextOfDigits(s: string)
    requires |s| == 5 && IsDigit(s[0]) && IsDigit(s[1]) && s[2] == ':' && IsDigit(s[3]) && IsDigit(s[4])
    ensures ClockText(Clock(10 * DigitValue(s[0]) + DigitValue(s[1]), 10 * DigitValue(s[3]) + DigitValue(s[4]))) == s
  {
    var h := 10 * DigitValue(s[0]) + DigitValue(s[1]);
    var m := 10 * DigitValue(s[3]) + DigitValue(s[4]);
    assert h / 10 == DigitValue(s[0]) && h % 10 == DigitValue(s[1]);
    assert m / 10 == DigitValue(s[3]) && m % 10 == DigitValue(s[4]);
    var t := ClockText(Clock(h, m));
    assert t[0] == s[0] && t[1] == s[1] && t[3] == s[3] && t[4] == s[4];
  }

  /** A single-day segment whose pieces match the fixed positions of `s` is written as `s`. */
  lemma SingleDayText(s: string, g: Segment)
    requires |s| == 15 && s[3] == '@' && s[9] == '-'
    requires ValidSegment(g) && g.last.None?
    requires WeekDays[g.first] == s[..3] && ClockText(g.from) == s[4..9] && ClockText(g.to) == s[10..]
    ensures SegmentText(g) == s
  {
    assert s == s[..3] + [s[3]] + s[4..9] + [s[9]] + s[10..];
  }

  /** A day-range segment whose pieces match the fixed positions of `s` is written as `s`. */
  lemma DayRangeText(s: string, g: Segment)
    requires |s| == 19 && s[3] == '-' && s[7] == '@' && s[13] == '-'
    requires ValidSegment(g) && g.last.Some?
    requires WeekDays[g.first] == s[..3] && WeekDays[g.last.value] == s[4..7]
    requires ClockText(g.from) == s[8..13] && ClockText(g.to) == s[14..]
    ensures SegmentText(g) == s
  {
    assert s == s[..3] + [s[3]] + s[4..7] + [s[7]] + s[8..13] + [s[13]] + s[14..];
  }

  /** Every piece parses as a segment; the segments in piece order. */
  function ParseSegments(parts: seq<string>): (r: Option<seq<Segment>>)
    ensures r.Some? <==> forall k :: 0 <= k < |parts| ==> ParseSegment(parts[k]).Some?
    ensures r.Some? ==> |r.value| == |parts|
    ensures r.Some? ==> forall k :: 0 <= k < |parts| ==> ParseSegment(parts[k]) == Some(r.value[k])
  {
    if parts == [] then Some([])
    else
      match (ParseSegment(parts[0]), ParseSegments(parts[1..]))
      case (Some(g), Some(gs)) => Some([g] + gs)
      case _ => None
  }

  /**
   * The segments of a time-frames string, or None when it is not valid. A
   * segment never contains `&`, so the pieces between `&`s are the segments.
   */
  function SegmentsOf(s: string): (r: Option<seq<Segment>>)
    ensures r.Some? ==> Spells(r.value, s)
  {
    var parts := Split(s, '&');
    var r := ParseSegments(parts);
    if r.Some? then
      assert SegmentTexts(r.value) == parts;
      JoinSplit(s, '&');
      r
    else
      r
  }

  /** `valid_time_frames_string`, with the pattern anchored at both ends of the string. */
  predicate ValidTimeFramesString(s: string) {
    SegmentsOf(s).Some?
  }

  // ---------------------------------------------------------------------
  // The recognizer against the grammar.
  // ---------------------------------------------------------------------

  lemma LookupDayName(d: int)
    requires ValidDay(d)
    ensures LookupDay(WeekDays[d]) == Some(d)
  {
  }

  lemma ClockRoundTrip(c: Clock)
    requires ValidClock(c)
    ensures ParseClock(ClockText(c)) == Some(c)
  {
    var s := ClockText(c);
    assert DigitValue(s[0]) == c.hour / 10 && DigitValue(s[1]) == c.hour % 10;
    assert DigitValue(s[3]) == c.minute / 10 && DigitValue(s[4]) == c.minute % 10;
  }

  /** Reading back the text of a segment gives the segment. */
  lemma SegmentRoundTrip(g: Segment)
    requires ValidSegment(g)
    ensures ParseSegment(SegmentText(g)) == Some(g)
  {
    var s := SegmentText(g);
    LookupDayName(g.first);
    ClockRoundTrip(g.from);
    ClockRoundTrip(g.to);
    if g.last.None? {
      assert s[..3] == WeekDays[g.first];
      assert s[4..9] == ClockText(g.from);
      assert s[10..] == ClockText(g.to);
    } else {
      LookupDayName(g.last.value);
      assert s[..3] == WeekDays[g.first];
      assert s[4..7] == WeekDays[g.last.value];
      assert s[8..13] == ClockText(g.from);
      assert s[14..] == ClockText(g.to);
    }
  }

  /** The characters a segment's text is made of: letters, digits, `-`, `:` and `@`. */
  lemma SegmentTextHasNoAmpersand(g: Segment)
    requires ValidSegment(g)
    ensures '&' !in SegmentText(g)
  {
    assert '&' !in WeekDays[g.first];
    assert g.last.Some? ==> '&' !in WeekDays[g.last.value];
    assert '&' !in ClockText(g.from) && '&' !in ClockText(g.to);
  }

  /** Reading back the text of a segment list gives the list. */
  lemma SegmentsOfSpecText(gs: seq<Segment>)
    requires |gs| >= 1 && ValidSegments(gs)
    ensures SegmentsOf(SpecText(gs)) == Some(gs)
  {
    var parts := SegmentTexts(gs);
    forall k | 0 <= k < |gs|
      ensures '&' !in parts[k] && ParseSegment(parts[k]) == Some(gs[k])
    {
      SegmentTextHasNoAmpersand(gs[k]);
      SegmentRoundTrip(gs[k]);
    }
    SplitJoin(parts, '&');
    var r := ParseSegments(parts);
    assert r.Some?;
    assert r.value == gs;
  }

  /** The recognizer accepts exactly the strings of the grammar. */
  lemma ValidTimeFramesStringIsValidSpec(s: string)
    ensures ValidTimeFramesString(s) <==> ValidSpec(s)
  {
    if ValidTimeFramesString(s) {
      assert Spells(SegmentsOf(s).value, s);
    }
    if ValidSpec(s) {
      var gs :| Spells(gs, s);
      SegmentsOfSpecText(gs);
    }
  }

  /** A valid string has exactly one segment list: the one the recognizer reads. */
  lemma SpellsIsUnique(gs: seq<Segment>, s: string)
    requires Spells(gs, s)
    ensures SegmentsOf(s) == Some(gs)
  {
    SegmentsOfSpecText(gs);
  }

  // ---------------------------------------------------------------------
  // The check as written: `$` also matches before a final newline.
  // ---------------------------------------------------------------------

  /**
   * `valid_time_frames_string` exactly as written: the pattern ends in `$`,
   * which in Python's `re` matches at the end of the string and also just
   * before a newline that ends it.
   */
  predicate ValidTimeFramesStringAsWritten(s: string) {
    || ValidTimeFramesString(s)
    || (|s| >= 1 && s[|s| - 1] == '\n' && ValidTimeFramesString(s[..|s| - 1]))
  }

  lemma {:induction false} JoinEndsLikeLastPart(parts: seq<string>, sep: char)
    requires |parts| >= 1 && |parts[|parts| - 1]| >= 1
    ensures |Join(parts, sep)| >= 1
    ensures Join(parts, sep)[|Join(parts, sep)| - 1] == parts[|parts| - 1][|parts[|parts| - 1]| - 1]
    decreases |parts|
  {
    if |parts| > 1 {
      JoinEndsLikeLastPart(parts[1..], sep);
    }
  }

  /** The text of a segment list ends in a digit, the last of its last minute. */
  lemma SpecTextEndsInDigit(gs: seq<Segment>)
    requires |gs| >= 1 && ValidSegments(gs)
    ensures |SpecText(gs)| >= 1 && IsDigit(SpecText(gs)[|SpecText(gs)| - 1])
  {
    var parts := SegmentTexts(gs);
    var last := parts[|gs| - 1];
    assert last == DaysText(gs[|gs| - 1]) + ['@'] + TimesText(gs[|gs| - 1]);
    assert last[|last| - 1] == DigitChar(gs[|gs| - 1].to.minute);
    JoinEndsLikeLastPart(parts, '&');
  }

  /** Every string the recognizer accepts ends in a digit. */
  lemma ValidEndsInDigit(s: string)
    ensures ValidTimeFramesString(s) ==> |s| >= 1 && IsDigit(s[|s| - 1])
  {
    if ValidTimeFramesString(s) {
      SpecTextEndsInDigit(SegmentsOf(s).value);
    }
  }

  /**
   * Any string of the grammar followed by a newline passes the check as
   * written although it is not in the grammar.
   */
  lemma TrailingNewlineSlipsThrough(s: string)
    requires ValidTimeFramesString(s)
    ensures ValidTimeFramesStringAsWritten(s + "\n")
    ensures !ValidSpec(s + "\n")
  {
    var t := s + "\n";
    assert t[..|t| - 1] == s;
    ValidEndsInDigit(t);
    ValidTimeFramesStringIsValidSpec(t);
  }
}
