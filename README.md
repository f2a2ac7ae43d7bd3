# Staleness check of a GTFS calendar-dates table

This project models the decision logic of `TestCalendarDate` in
`check_gtfs.py`. That logic decides whether a transit feed (GTFS) is out of
date from the `date` column of its `calendar_dates.txt` table. It has three
parts:

- **The date-range scan** (`get_date_range_of_calendar_dates`). One pass over
  the rows in file order. It keeps the least and the greatest `YYYYMMDD`
  string, the index of the row dated today and the index of the last row.
  Then it gives an unmatched today the last index.
- **The calendar age** (`gtfs_calendar_age`). The start and end strings are
  parsed as dates. It returns the whole days from the start date to now and
  from now to the end date, as `timedelta.days` counts them.
- **The out-of-date rule** (`is_gtfs_out_of_date`). It fires when
  `pos * 1.0001 / total > 0.40`, or when more than 30 days have passed since
  the start, or when fewer than 30 days remain to the end.

The files:

- `StringOrder.dfy` holds Python's lexicographic string comparison and its
  order laws.
- `Dates.dfy` holds proleptic Gregorian dates and their `YYYYMMDD` text form
  (`strftime`/`strptime` with `%Y%m%d`). It also holds the day numbers of
  `date.toordinal()`. A well-formed date string is eight digits that parse
  as a date. For such strings, string order is proved to be chronological
  order. The scan relies on that fact.
- `CheckGtfs.dfy` holds the scan, the age and the rule.

The scan is an imperative method with a loop,
`CheckGtfs.GetDateRangeOfCalendarDates`. It is proved equal to a fold
function, `DateRangeOf`, and the lemmas about the scan are stated about that
function. The age and the rule are functions, because the source computes
them as straight-line expressions.

The clock is a parameter. `now` is an `Instant`: a date plus the
microseconds since its midnight. Today's string is `now`'s date formatted as
`YYYYMMDD`. Python's exceptions are modelled as `Result` values:
`ZeroDivisionError` from the ratio and `ValueError` from `strptime`.

Some of the code's behaviour differs from what the check's purpose suggests. The model follows the code:

- When several rows carry today's date, the code keeps the **last** such row
  (check_gtfs.py:123-124), not the first one. See `LastMatchingRowExample`.
- An empty table is not a separate error. The scan returns the sentinels
  `'ZZZ'`, `''`, 0 and 0. `is_gtfs_out_of_date` then divides by
  `total == 0` and raises `ZeroDivisionError`, before any date is parsed.
  `gtfs_calendar_age` on its own raises `ValueError` on `'ZZZ'`. A one-row
  table raises `ZeroDivisionError` too.
- The days left to the end are not simply `end - today`. `now` has a time of
  day, and `timedelta.days` rounds down. So the count is one less as soon as
  `now` is past midnight.
- The verdict is a bare boolean. The code returns no evidence with it.

## Model

| member | source | states |
|---|---|---|
| `CheckGtfs.GetDateRangeOfCalendarDates` | check_gtfs.py:106-133 | The loop over the rows and the sentinel fix-up return exactly the start date, end date, today's position and total that `DateRangeOf` defines |
| `CheckGtfs.DateRangeTotal` | check_gtfs.py:113-125 | `total_positions` is the number of rows minus one, and 0 for an empty table |
| `CheckGtfs.DateRangeTodayPosition` | check_gtfs.py:112-129 | If today's string is among the rows, `today_position` is a row holding it and no later row holds it (the last match); otherwise it equals `total_positions` |
| `CheckGtfs.DateRangePositionBounds` | check_gtfs.py:112-129 | For every input, `0 <= today_position <= total_positions` |
| `CheckGtfs.DateRangeEmpty` | check_gtfs.py:109-113 | An empty table returns `'ZZZ'`, `''`, 0, 0 |
| `CheckGtfs.DateRangeExtremes` | check_gtfs.py:109-122 | For any strings, the start date is the lexicographic least of `'ZZZ'` and the dates, and the end date the greatest of `''` and the dates |
| `CheckGtfs.DateRangeStartBeforeEnd` | check_gtfs.py:117-122 | For every non-empty table, whatever its strings, start <= end as strings |
| `CheckGtfs.DateRangeOfFeed` | check_gtfs.py:117-122 | For a non-empty table of well-formed (zero-padded `YYYYMMDD`) dates, start and end are rows of the table, the least and the greatest of all rows |
| `CheckGtfs.DateRangeChronological` | check_gtfs.py:119-122 | For such a table, the start date is chronologically the earliest row and the end date the latest |
| `CheckGtfs.LastMatchingRowExample` | check_gtfs.py:123-124 | With two rows dated today at indices 0 and 1, today's position is 1 |
| `CheckGtfs.TodayString` | check_gtfs.py:111 | `strftime("%Y%m%d")` of now is a well-formed date string that parses back to today's date |
| `CheckGtfs.Elapsed` | check_gtfs.py:142-143 | `datetime - datetime` in microseconds: positive exactly when the first instant is later, zero exactly when the instants are equal |
| `CheckGtfs.WholeDays` | check_gtfs.py:142-146 | `timedelta.days` is the floor of the length in days: `days * 1 day <= delta < (days + 1) * 1 day` |
| `CheckGtfs.GtfsCalendarAge` | check_gtfs.py:136-146 | The age is defined exactly when the scan's start and end strings both parse as dates; otherwise it is a `ValueError` |
| `CheckGtfs.CalendarAgeDays` | check_gtfs.py:140-146 | `sdays` is today's day number minus the start's; `edays` is the end's minus today's, less one when `now` is past midnight |
| `CheckGtfs.CalendarAgeOfFeed` | check_gtfs.py:139-146 | For a non-empty table of well-formed dates, the age is defined; `sdays` is the largest "days since" over all rows, and `edays` the largest "days until" over all rows (less one past midnight) |
| `CheckGtfs.CalendarAgeEmpty` | check_gtfs.py:139-141 | On an empty table, `strptime('ZZZ')` fails: `ValueError` |
| `CheckGtfs.RatioExceeds` | check_gtfs.py:154-157 | The integer test `pos * 10001 > 4000 * total` holds exactly when `pos * 1.0001 / total > 0.40` over the rationals |
| `CheckGtfs.OutOfDateRule` | check_gtfs.py:154-157 | The rule holds exactly when `pos * 1.0001 / total > 0.40` over the rationals, or `sdays > 30`, or `edays < 30` |
| `CheckGtfs.IsGtfsOutOfDate` | check_gtfs.py:149-159 | The check raises `ZeroDivisionError` exactly when the table has fewer than two rows, and `ValueError` exactly when it has two or more rows and the calendar age fails |
| `CheckGtfs.IsGtfsOutOfDateOfFeed` | check_gtfs.py:149-159 | For two or more well-formed rows, the check answers; the answer is true exactly when the ratio exceeds 0.40, or more than 30 days have passed since the earliest date, or fewer than 30 whole days remain to the latest date |
| `CheckGtfs.OutOfDateMonotoneInPosition` | check_gtfs.py:154-157 | With the total and both day counts fixed, a true verdict stays true as today's position grows |
| `CheckGtfs.TodayAbsentIsOutOfDate` | check_gtfs.py:128-157 | When no row holds today's date, a table of two or more well-formed rows is always out of date (ratio 1.0001) |
| `CheckGtfs.TodayOnLastRowIsOutOfDate` | check_gtfs.py:123-157 | When the last row holds today's date, the table is out of date |
| `Dates.Parse` | check_gtfs.py:140-141 | A string that `strptime(s, '%Y%m%d')` accepts yields a valid calendar date |
| `Dates.SpacePaddedDay` | check_gtfs.py:140-141 | `strptime` also reads a space-padded day: `"202401 5"` is 2024-01-05, it is not well-formed, and it sorts below `"20240101"` |
| `Dates.SpacePaddedDaySortsFirst` | check_gtfs.py:119-122 | Any eight-character string with a space-padded day sorts below every eight-digit string with the same year and month |
| `Dates.Format` | check_gtfs.py:111 | `strftime("%Y%m%d")` writes eight digits; with `ParseFormat` and `FormatParse` it is the inverse of `Parse` on well-formed strings |
| `Dates.ParseFormat` | check_gtfs.py:111 | Parsing the `%Y%m%d` text of a valid date gives the date back |
| `Dates.FormatParse` | check_gtfs.py:140-141 | Formatting a parsed well-formed date string gives the string back |
| `Dates.DayNumber` | check_gtfs.py:142-143 | `toordinal`, which datetime subtraction uses: at least 1, and 1 exactly for 0001-01-01 |
| `Dates.DayNumberOrder` | check_gtfs.py:142-143 | Day numbers order dates chronologically and are equal only for equal dates |
| `Dates.DayNumberNextDay` | check_gtfs.py:142-146 | The day after a date has the next day number, so a difference of day numbers counts the days between two dates |
| `StringOrder.LexLessFirstDifference` | check_gtfs.py:119-122 | Python's `<` on strings: `a < b` exactly when, at the first index where they differ, `a` holds the smaller character, or `a` is a proper prefix of `b` |
| `Dates.LexOrderIsChronological` | check_gtfs.py:119-122 | For well-formed `YYYYMMDD` strings, `a < b` as strings exactly when `a` is the earlier date, and `a == b` exactly when the dates are equal |

## Left out

- `download_gtfs` (check_gtfs.py:32-57) is a network fetch. It is outside the decision logic.
- `unzip_file` and `unzip_calendar_dates` (check_gtfs.py:60-89) do zip-archive I/O. `unzip_file` always returns `False`.
- `cmp_calendar_dates` (check_gtfs.py:92-103) only wraps a byte-for-byte file comparison.
- `__init__`, `mk_tmp_dir`, `cd_tmp_dir`, `update_gtfs` and `main` are configuration and filesystem plumbing.
- Opening the file and `csv.DictReader` (check_gtfs.py:115-118) are not modelled. The input is the `date` column as a sequence of strings. A missing `date` column (a `KeyError`) is not modelled.
- `datetime.now()` is a parameter, and every call is taken to read the same instant. The source reads the clock several times and re-reads the file at each scan. A run that straddles midnight, or a file that changes between reads, is not modelled.
- Logging (check_gtfs.py:131-132, 144-145) is left out.
- `CheckGtfs.RatioExceeds`: it decides the ratio exactly over the rationals. Binary floating-point rounding of `pos * 1.0001 / total` is not modelled. Rounding could differ only when the exact ratio lies within a rounding error of 0.40.
- `Dates.Parse`: only eight-character strings are read as dates. They split 4/2/2, and the day is two digits or a space and a digit. `strptime` also accepts some shorter strings with a one-digit month or day, such as `"2024015"` or `"202415"`. The model treats those as `ValueError`. A space-padded row such as `"202401 5"` is modelled: it parses, and it sorts below every zero-padded date of its month, so it can become the scan's start date (`Dates.SpacePaddedDaySortsFirst`).
- `Dates.Format`: the year is zero-padded to four digits. Python 2's `strftime` refuses years before 1900, and that case is not modelled.
- Strings are compared by character code. That equals Python 2's byte-string comparison for the ASCII text of the table.
