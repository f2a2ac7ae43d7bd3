/**
 * The staleness check of `TestCalendarDate` in check_gtfs.py: one pass over
 * the `date` column of a GTFS calendar_dates.txt table, the feed's age in
 * whole days, and the out-of-date rule built on both.
 *
 * The clock is a parameter: `now` is the instant `datetime.now()` returns,
 * and today's date string is `now` formatted as `YYYYMMDD`.
 */
module CheckGtfs {
  import opened StringOrder
  import opened Dates

  /** The Python exceptions the check raises on degenerate input. */
  datatype Error = ZeroDivisionError | ValueError

  datatype Result<T> = Ok(value: T) | Err(error: Error)

  // ---------------------------------------------------------------------
  // get_date_range_of_calendar_dates

  /**
   * The four values the scan returns: the least and greatest date strings,
   * the row index of today's date and the index of the last row.
   */
  datatype DateRange = DateRange(startDate: string, endDate: string, todayPosition: int, totalPositions: int)

  /** `today_position` before any row has matched. */
  const NoMatch: int := -111

  /** The values the scan starts from: `'ZZZ'`, `''`, -111 and 0. */
  function InitialRange(): DateRange {
    DateRange("ZZZ", "", NoMatch, 0)
  }

  /** One iteration of the scan's loop, on row `i` whose date is `date`. */
  function ScanRow(acc: DateRange, i: int, date: string, today: string): DateRange {
    DateRange(
      if LexLess(date, acc.startDate) then date else acc.startDate,
      if LexLess(acc.endDate, date) then date else acc.endDate,
      if date == today then i else acc.todayPosition,
      i)
  }

  /** The scan's loop over all rows, in file order. */
  function ScanRows(dates: seq<string>, today: string): DateRange
    decreases |dates|
  {
    if |dates| == 0 then InitialRange()
    else ScanRow(ScanRows(dates[..|dates| - 1], today), |dates| - 1, dates[|dates| - 1], today)
  }

  /** The scan followed by the fix-up that gives an unmatched today the last index. */
  function DateRangeOf(dates: seq<string>, today: string): DateRange {
    var acc := ScanRows(dates, today);
    if acc.todayPosition < 0 then acc.(todayPosition := acc.totalPositions) else acc
  }

  /**
   * The scan as the source runs it: a loop over the rows that updates four
   * local variables, then the sentinel fix-up.
   */
  method GetDateRangeOfCalendarDates(dates: seq<string>, today: string)
    returns (startDate: string, endDate: string, todayPosition: int, totalPositions: int)
    ensures DateRange(startDate, endDate, todayPosition, totalPositions) == DateRangeOf(dates, today)
  {
    startDate, endDate := "ZZZ", "";
    todayPosition, totalPositions := NoMatch, 0;
    for i := 0 to |dates|
      invariant DateRange(startDate, endDate, todayPosition, totalPositions) == ScanRows(dates[..i], today)
    {
      assert dates[..i + 1][..i] == dates[..i];
      var date := dates[i];
      if LexLess(date, startDate) {
        startDate := date;
      }
      if LexLess(endDate, date) {
        endDate := date;
      }
      if date == today {
        todayPosition := i;
      }
      totalPositions := i;
    }
    assert dates[..|dates|] == dates;
    if todayPosition < 0 {
      todayPosition := totalPositions;
    }
  }

  lemma {:induction false} ScanRowsPositions(dates: seq<string>, today: string)
    ensures var acc := ScanRows(dates, today);
      && acc.totalPositions == (if |dates| == 0 then 0 else |dates| - 1)
      && (today in dates <==> acc.todayPosition != NoMatch)
      && (today in dates ==>
            && 0 <= acc.todayPosition < |dates|
            && dates[acc.todayPosition] == today
            && forall j :: acc.todayPosition < j < |dates| ==> dates[j] != today)
    decreases |dates|
  {
    if |dates| > 0 {
      var prefix := dates[..|dates| - 1];
      ScanRowsPositions(prefix, today);
      assert dates == prefix + [dates[|dates| - 1]];
    }
  }

  lemma {:induction false} ScanRowsExtremes(dates: seq<string>, today: string)
    ensures var acc := ScanRows(dates, today);
      && (acc.startDate == "ZZZ" || acc.startDate in dates)
      && !LexLess("ZZZ", acc.startDate)
      && (forall j :: 0 <= j < |dates| ==> !LexLess(dates[j], acc.startDate))
      && (acc.endDate == "" || acc.endDate in dates)
      && (forall j :: 0 <= j < |dates| ==> !LexLess(acc.endDate, dates[j]))
    decreases |dates|
  {
    if |dates| > 0 {
      var n := |dates| - 1;
      var prefix, date := dates[..n], dates[n];
      ScanRowsExtremes(prefix, today);
      var prev := ScanRows(prefix, today);
      assert dates == prefix + [date];
      LexLessIrreflexive(date);
      if LexLess(date, prev.startDate) {
        if LexLess("ZZZ", date) {
          LexLessTransitive("ZZZ", date, prev.startDate);
        }
        forall j | 0 <= j < n
          ensures !LexLess(dates[j], date)
        {
          if LexLess(dates[j], date) {
            LexLessTransitive(dates[j], date, prev.startDate);
          }
        }
      }
      if LexLess(prev.endDate, date) {
        forall j | 0 <= j < n
          ensures !LexLess(date, dates[j])
        {
          if LexLess(date, dates[j]) {
            LexLessTransitive(prev.endDate, date, dates[j]);
          }
        }
      }
    }
  }

  /** `total_positions` is the index of the last row, and 0 for an empty table. */
  lemma DateRangeTotal(dates: seq<string>, today: string)
    ensures DateRangeOf(dates, today).totalPositions == if |dates| == 0 then 0 else |dates| - 1
  {
    ScanRowsPositions(dates, today);
  }

  /**
   * `today_position` is the index of the LAST row whose date is today's;
   * when no row holds today's date it is `total_positions`.
   */
  lemma DateRangeTodayPosition(dates: seq<string>, today: string)
    ensures var r := DateRangeOf(dates, today);
      && (today in dates ==>
            && 0 <= r.todayPosition < |dates|
            && dates[r.todayPosition] == today
            && forall j :: r.todayPosition < j < |dates| ==> dates[j] != today)
      && (today !in dates ==> r.todayPosition == r.totalPositions)
  {
    ScanRowsPositions(dates, today);
  }

  /** Today's position never falls outside the rows: 0 <= position <= total. */
  lemma DateRangePositionBounds(dates: seq<string>, today: string)
    ensures var r := DateRangeOf(dates, today);
      0 <= r.todayPosition <= r.totalPositions
  {
    ScanRowsPositions(dates, today);
  }

  /** An empty table leaves every sentinel in place, with both counters 0. */
  lemma DateRangeEmpty(today: string)
    ensures DateRangeOf([], today) == DateRange("ZZZ", "", 0, 0)
  {}

  /**
   * Whatever the strings, the start date is the least of `'ZZZ'` and the
   * dates, and the end date the greatest of `''` and the dates.
   */
  lemma DateRangeExtremes(dates: seq<string>, today: string)
    ensures var r := DateRangeOf(dates, today);
      && (r.startDate == "ZZZ" || r.startDate in dates)
      && LexLessEq(r.startDate, "ZZZ")
      && (forall j :: 0 <= j < |dates| ==> LexLessEq(r.startDate, dates[j]))
      && (r.endDate == "" || r.endDate in dates)
      && (forall j :: 0 <= j < |dates| ==> LexLessEq(dates[j], r.endDate))
  {
    ScanRowsExtremes(dates, today);
    var r := DateRangeOf(dates, today);
    LexLessTrichotomy(r.startDate, "ZZZ");
    forall j | 0 <= j < |dates|
      ensures LexLessEq(r.startDate, dates[j]) && LexLessEq(dates[j], r.endDate)
    {
      LexLessTrichotomy(r.startDate, dates[j]);
      LexLessTrichotomy(r.endDate, dates[j]);
    }
  }

  /**
   * For any non-empty table the start date sorts at or below the end date,
   * whatever strings the rows hold.
   */
  lemma DateRangeStartBeforeEnd(dates: seq<string>, today: string)
    requires |dates| > 0
    ensures var r := DateRangeOf(dates, today);
      LexLessEq(r.startDate, r.endDate)
  {
    DateRangeExtremes(dates, today);
    var r := DateRangeOf(dates, today);
    LexLessEqTransitive(r.startDate, dates[0], r.endDate);
  }

  /** Every row of a feed holds a well-formed `YYYYMMDD` date. */
  predicate AllWellFormed(dates: seq<string>) {
    forall j :: 0 <= j < |dates| ==> WellFormed(dates[j])
  }

  /**
   * For a non-empty table of well-formed dates the start and end dates are
   * rows of the table, the least and greatest of them, so start <= end.
   */
  lemma DateRangeOfFeed(dates: seq<string>, today: string)
    requires |dates| > 0 && AllWellFormed(dates)
    ensures var r := DateRangeOf(dates, today);
      && r.startDate in dates && r.endDate in dates
      && (forall j :: 0 <= j < |dates| ==> LexLessEq(r.startDate, dates[j]) && LexLessEq(dates[j], r.endDate))
      && LexLessEq(r.startDate, r.endDate)
  {
    DateRangeExtremes(dates, today);
    var r := DateRangeOf(dates, today);
    WellFormedBetweenSentinels(dates[0]);
    if r.startDate == "ZZZ" {
      LexLessAsymmetric(dates[0], "ZZZ");
    }
    if r.endDate == "" {
      LexLessAsymmetric("", dates[0]);
    }
    LexLessEqTransitive(r.startDate, dates[0], r.endDate);
  }

  /**
   * Because the string order of well-formed dates is chronological, the
   * start date is the earliest date of the feed and the end date the latest.
   */
  lemma DateRangeChronological(dates: seq<string>, today: string)
    requires |dates| > 0 && AllWellFormed(dates)
    ensures var r := DateRangeOf(dates, today);
      && WellFormed(r.startDate) && WellFormed(r.endDate)
      && forall j :: 0 <= j < |dates| ==>
           DayNumber(Parse(r.startDate).value) <= DayNumber(Parse(dates[j]).value) <= DayNumber(Parse(r.endDate).value)
  {
    DateRangeOfFeed(dates, today);
    var r := DateRangeOf(dates, today);
    forall j | 0 <= j < |dates|
      ensures DayNumber(Parse(r.startDate).value) <= DayNumber(Parse(dates[j]).value) <= DayNumber(Parse(r.endDate).value)
    {
      LexOrderIsChronological(r.startDate, dates[j]);
      LexOrderIsChronological(dates[j], r.endDate);
    }
  }

  /** The source keeps the last of several rows dated today, not the first. */
  lemma LastMatchingRowExample()
    ensures DateRangeOf(["20240101", "20240101", "20240102"], "20240101")
         == DateRange("20240101", "20240102", 1, 2)
  {
    var dates, today := ["20240101", "20240101", "20240102"], "20240101";
    assert LexLess("20240101", "ZZZ") && LexLess("", "20240101");
    assert !LexLess("20240101", "20240101") by { LexLessIrreflexive("20240101"); }
    assert LexLess("20240101", "20240102");
    assert !LexLess("20240102", "20240101") by { LexLessAsymmetric("20240101", "20240102"); }
    assert dates[..2][..1] == dates[..1] == ["20240101"];
    assert ScanRows(dates[..1], today) == DateRange("20240101", "20240101", 0, 0);
    assert dates[..2] == ["20240101", "20240101"];
    assert ScanRows(dates[..2], today) == DateRange("20240101", "20240101", 1, 1);
    assert dates[..3] == dates;
  }

  // ---------------------------------------------------------------------
  // gtfs_calendar_age

  /** A `datetime`: a date and the microseconds elapsed since its midnight. */
  datatype Instant = Instant(date: Date, micros: int)

  const MicrosPerDay: int := 86_400_000_000

  predicate ValidInstant(t: Instant) {
    ValidDate(t.date) && 0 <= t.micros < MicrosPerDay
  }

  /** What `strptime` returns: the date at midnight. */
  function Midnight(d: Date): Instant {
    Instant(d, 0)
  }

  /** `a - b` on datetimes, as the timedelta's length in microseconds. */
  function Elapsed(a: Instant, b: Instant): (delta: int)
    requires ValidInstant(a) && ValidInstant(b)
    ensures delta > 0 <==> Later(a, b)
    ensures delta == 0 <==> a == b
  {
    DayNumberOrder(a.date, b.date);
    DayNumberOrder(b.date, a.date);
    (DayNumber(a.date) - DayNumber(b.date)) * MicrosPerDay + (a.micros - b.micros)
  }

  /** Chronological order of instants: a later date, or the same date later in the day. */
  predicate Later(a: Instant, b: Instant) {
    DateBefore(b.date, a.date) || (a.date == b.date && b.micros < a.micros)
  }

  /** `timedelta.days`: the number of whole days, rounded toward minus infinity. */
  function WholeDays(delta: int): (days: int)
    ensures days * MicrosPerDay <= delta < (days + 1) * MicrosPerDay
  {
    delta / MicrosPerDay
  }

  /** `datetime.now().strftime("%Y%m%d")`. */
  function TodayString(now: Instant): (s: string)
    requires ValidInstant(now)
    ensures WellFormed(s) && Parse(s) == Some(now.date)
  {
    ParseFormat(now.date);
    Format(now.date)
  }

  /** `sdiff.days` and `ediff.days`: days since the start, days left to the end. */
  datatype CalendarAge = CalendarAge(sdays: int, edays: int)

  /**
   * `strptime` fails with a ValueError unless both the start and the end
   * date strings of the scan are well-formed dates.
   */
  function GtfsCalendarAge(dates: seq<string>, now: Instant): (r: Result<CalendarAge>)
    requires ValidInstant(now)
    ensures var range := DateRangeOf(dates, TodayString(now));
      r.Ok? <==> Parse(range.startDate).Some? && Parse(range.endDate).Some?
    ensures r.Err? ==> r.error == ValueError
  {
    var range := DateRangeOf(dates, TodayString(now));
    match Parse(range.startDate)
    case None => Err(ValueError)
    case Some(startDate) =>
      match Parse(range.endDate)
      case None => Err(ValueError)
      case Some(endDate) =>
        Ok(CalendarAge(WholeDays(Elapsed(now, Midnight(startDate))),
                       WholeDays(Elapsed(Midnight(endDate), now))))
  }

  lemma WholeDaysOfMidnight(k: int, m: int)
    requires 0 <= m < MicrosPerDay
    ensures WholeDays(k * MicrosPerDay + m) == k
    ensures WholeDays(k * MicrosPerDay - m) == if m == 0 then k else k - 1
  {}

  /**
   * The age in plain day numbers: days since the start date counts from
   * today's date, while days to the end loses one as soon as `now` is past
   * midnight, since the negative fraction of a day rounds down.
   */
  lemma CalendarAgeDays(dates: seq<string>, now: Instant)
    requires ValidInstant(now)
    ensures var range := DateRangeOf(dates, TodayString(now));
      GtfsCalendarAge(dates, now).Ok? ==>
        && GtfsCalendarAge(dates, now).value.sdays
             == DayNumber(now.date) - DayNumber(Parse(range.startDate).value)
        && GtfsCalendarAge(dates, now).value.edays
             == DayNumber(Parse(range.endDate).value) - DayNumber(now.date)
                - (if now.micros == 0 then 0 else 1)
  {
    var range := DateRangeOf(dates, TodayString(now));
    if GtfsCalendarAge(dates, now).Ok? {
      var s, e := Parse(range.startDate).value, Parse(range.endDate).value;
      WholeDaysOfMidnight(DayNumber(now.date) - DayNumber(s), now.micros);
      WholeDaysOfMidnight(DayNumber(e) - DayNumber(now.date), now.micros);
    }
  }

  /**
   * For a non-empty feed of well-formed dates the age is defined, counts
   * from the feed's earliest date and up to its latest date.
   */
  lemma CalendarAgeOfFeed(dates: seq<string>, now: Instant)
    requires ValidInstant(now) && |dates| > 0 && AllWellFormed(dates)
    ensures GtfsCalendarAge(dates, now).Ok?
    ensures var age := GtfsCalendarAge(dates, now).value;
      var late := if now.micros == 0 then 0 else 1;
      && (forall j :: 0 <= j < |dates| ==>
            && age.sdays >= DayNumber(now.date) - DayNumber(Parse(dates[j]).value)
            && age.edays >= DayNumber(Parse(dates[j]).value) - DayNumber(now.date) - late)
      && (exists j :: 0 <= j < |dates| && age.sdays == DayNumber(now.date) - DayNumber(Parse(dates[j]).value))
      && (exists j :: 0 <= j < |dates| && age.edays == DayNumber(Parse(dates[j]).value) - DayNumber(now.date) - late)
  {
    var today := TodayString(now);
    DateRangeOfFeed(dates, today);
    DateRangeChronological(dates, today);
    CalendarAgeDays(dates, now);
    var range := DateRangeOf(dates, today);
    var i :| 0 <= i < |dates| && dates[i] == range.startDate;
    var k :| 0 <= k < |dates| && dates[k] == range.endDate;
  }

  /** An empty table leaves `'ZZZ'` as start date, which `strptime` rejects. */
  lemma CalendarAgeEmpty(now: Instant)
    requires ValidInstant(now)
    ensures GtfsCalendarAge([], now) == Err(ValueError)
  {
    DateRangeEmpty(TodayString(now));
  }

  // ---------------------------------------------------------------------
  // is_gtfs_out_of_date

  /**
   * `pos * 1.0001 / total > 0.40`, decided exactly in integers; it agrees
   * with the same test on exact rationals.
   */
  predicate RatioExceeds(pos: int, total: int)
    requires total > 0
    ensures RatioExceeds(pos, total) <==> (pos as real) * 1.0001 / (total as real) > 0.40
  {
    RatioScaled(pos, total);
    pos * 10001 > 4000 * total
  }

  lemma RatioScaled(pos: int, total: int)
    requires total > 0
    ensures (pos as real) * 1.0001 / (total as real) > 0.40 <==> pos * 10001 > 4000 * total
  {
    var p, t := pos as real, total as real;
    var ratio := p * 1.0001 / t;
    assert ratio * t == p * 1.0001;
    RealScaleOrder(ratio, 0.40, t);
    RealScaleOrder(p * 1.0001, 0.40 * t, 10000.0);
    assert (pos * 10001) as real == p * 1.0001 * 10000.0;
    assert (4000 * total) as real == 0.40 * t * 10000.0;
  }

  lemma RealScaleOrder(a: real, b: real, t: real)
    requires t > 0.0
    ensures a > b <==> a * t > b * t
  {
    assert a * t - b * t == (a - b) * t;
  }

  /** The out-of-date rule: any one of the three triggers fires. */
  predicate OutOfDateRule(pos: int, total: int, sdays: int, edays: int)
    requires total > 0
    ensures OutOfDateRule(pos, total, sdays, edays)
        <==> (pos as real) * 1.0001 / (total as real) > 0.40 || sdays > 30 || edays < 30
  {
    RatioExceeds(pos, total) || sdays > 30 || edays < 30
  }

  /**
   * The whole check: the ratio divides by `total_positions` first (a
   * ZeroDivisionError on a table of fewer than two rows), then the age
   * parses the start and end dates (a ValueError if they are not dates).
   */
  function IsGtfsOutOfDate(dates: seq<string>, now: Instant): (r: Result<bool>)
    requires ValidInstant(now)
    ensures r == Err(ZeroDivisionError) <==> |dates| <= 1
    ensures r == Err(ValueError) <==> |dates| >= 2 && GtfsCalendarAge(dates, now).Err?
  {
    var range := DateRangeOf(dates, TodayString(now));
    DateRangeTotal(dates, TodayString(now));
    if range.totalPositions == 0 then Err(ZeroDivisionError)
    else
      match GtfsCalendarAge(dates, now)
      case Err(e) => Err(e)
      case Ok(age) => Ok(OutOfDateRule(range.todayPosition, range.totalPositions, age.sdays, age.edays))
  }

  /**
   * With the total and both day counts fixed, a later position for today
   * can only turn a "current" verdict into "out of date", never back.
   */
  lemma OutOfDateMonotoneInPosition(pos1: int, pos2: int, total: int, sdays: int, edays: int)
    requires total > 0 && pos1 <= pos2
    ensures OutOfDateRule(pos1, total, sdays, edays) ==> OutOfDateRule(pos2, total, sdays, edays)
  {}

  /**
   * For a feed of at least two well-formed rows the check answers, and
   * answers "out of date" exactly when today's row lies more than 40% of the
   * way down the table (`RatioExceeds`, the 1.0001-inflated ratio), or the earliest date
   * is more than 30 days back, or fewer than 30 whole days remain to the
   * latest date.
   */
  lemma IsGtfsOutOfDateOfFeed(dates: seq<string>, now: Instant)
    requires ValidInstant(now) && |dates| >= 2 && AllWellFormed(dates)
    ensures var range := DateRangeOf(dates, TodayString(now));
      && WellFormed(range.startDate) && WellFormed(range.endDate)
      && IsGtfsOutOfDate(dates, now).Ok?
      && var total := |dates| - 1;
         var sdays := DayNumber(now.date) - DayNumber(Parse(range.startDate).value);
         var edays := DayNumber(Parse(range.endDate).value) - DayNumber(now.date)
                      - (if now.micros == 0 then 0 else 1);
         IsGtfsOutOfDate(dates, now).value <==>
           || RatioExceeds(range.todayPosition, total)
           || sdays > 30
           || edays < 30
  {
    var today := TodayString(now);
    var range := DateRangeOf(dates, today);
    DateRangeTotal(dates, today);
    assert WellFormed(range.startDate) && WellFormed(range.endDate) by {
      DateRangeChronological(dates, today);
    }
    CalendarAgeDays(dates, now);
    var age := GtfsCalendarAge(dates, now).value;
    assert IsGtfsOutOfDate(dates, now)
        == Ok(OutOfDateRule(range.todayPosition, |dates| - 1, age.sdays, age.edays));
  }

  /**
   * When no row holds today's date, today's position is the last index, the
   * ratio is 1.0001, and every feed of two or more well-formed rows is out of date.
   */
  lemma TodayAbsentIsOutOfDate(dates: seq<string>, now: Instant)
    requires ValidInstant(now) && |dates| >= 2 && AllWellFormed(dates)
    requires TodayString(now) !in dates
    ensures IsGtfsOutOfDate(dates, now) == Ok(true)
  {
    var today := TodayString(now);
    DateRangeTotal(dates, today);
    DateRangeTodayPosition(dates, today);
    CalendarAgeOfFeed(dates, now);
  }

  /** When the last row is dated today the ratio is 1.0001 too: out of date. */
  lemma TodayOnLastRowIsOutOfDate(dates: seq<string>, now: Instant)
    requires ValidInstant(now) && |dates| >= 2 && AllWellFormed(dates)
    requires dates[|dates| - 1] == TodayString(now)
    ensures IsGtfsOutOfDate(dates, now) == Ok(true)
  {
    var today := TodayString(now);
    DateRangeTotal(dates, today);
    DateRangeTodayPosition(dates, today);
    CalendarAgeOfFeed(dates, now);
  }
}
