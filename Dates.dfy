/**
 * Calendar dates in the proleptic Gregorian calendar, their `YYYYMMDD` text
 * form (what `strftime("%Y%m%d")` writes and `strptime(s, '%Y%m%d')` reads)
 * and their day numbers (Python's `date.toordinal()`: 0001-01-01 is day 1).
 */
module Dates {
  import opened StringOrder

  datatype Date = Date(year: int, month: int, day: int)

  // ---------------------------------------------------------------------
  // Decimal digits

  predicate IsDigit(c: char) {
    '0' <= c <= '9'
  }

  predicate AllDigits(s: string) {
    forall i :: 0 <= i < |s| ==> IsDigit(s[i])
  }

  function DigitChar(n: int): (c: char)
    requires 0 <= n < 10
    ensures IsDigit(c)
  {
    ('0' as int + n) as char
  }

  function DigitValue(c: char): (n: int)
    requires IsDigit(c)
    ensures 0 <= n < 10
  {
    c as int - '0' as int
  }

  function Pow10(w: nat): (p: nat)
    ensures p > 0
  {
    if w == 0 then 1 else 10 * Pow10(w - 1)
  }

  /** The number a string of decimal digits denotes, most significant first. */
  function DigitsValue(s: string): nat
    requires AllDigits(s)
  {
    if |s| == 0 then 0 else DigitValue(s[0]) * Pow10(|s| - 1) + DigitsValue(s[1..])
  }

  /** `n` written with exactly `w` digits, zero-padded on the left. */
  function Digits(n: nat, w: nat): (s: string)
    requires n < Pow10(w)
    ensures |s| == w && AllDigits(s)
  {
    if w == 0 then []
    else
      DivBelowTen(n, Pow10(w - 1));
      [DigitChar(n / Pow10(w - 1))] + Digits(n % Pow10(w - 1), w - 1)
  }

  lemma MulLeft(a: int, b: int, p: int)
    requires a <= b && p >= 0
    ensures a * p <= b * p
  {}

  lemma DivBelowTen(n: nat, p: nat)
    requires p > 0 && n < 10 * p
    ensures n / p < 10
  {}

  lemma DivMod(n: int, p: int)
    requires p > 0
    ensures n == (n / p) * p + n % p && 0 <= n % p < p
  {}

  /** Division by `p` undoes `q * p + r` when `r` is a remainder. */
  lemma DivModUnique(q: int, r: int, p: int)
    requires p > 0 && 0 <= r < p
    ensures (q * p + r) / p == q && (q * p + r) % p == r
  {
    var n := q * p + r;
    var q' := n / p;
    assert n == q' * p + n % p;
    assert (q - q') * p == n % p - r;
    if q > q' {
      MulLeft(1, q - q', p);
    } else if q < q' {
      MulLeft(1, q' - q, p);
    }
  }

  lemma {:induction false} DigitsValueBound(s: string)
    requires AllDigits(s)
    ensures DigitsValue(s) < Pow10(|s|)
    decreases |s|
  {
    if |s| > 0 {
      DigitsValueBound(s[1..]);
      MulLeft(DigitValue(s[0]), 9, Pow10(|s| - 1));
    }
  }

  lemma DigitsValueCons(c: char, t: string)
    requires IsDigit(c) && AllDigits(t)
    ensures AllDigits([c] + t)
    ensures DigitsValue([c] + t) == DigitValue(c) * Pow10(|t|) + DigitsValue(t)
  {
    assert ([c] + t)[1..] == t;
  }

  /** Reading back what `Digits` writes gives the number. */
  lemma {:induction false} DigitsValueOfDigits(n: nat, w: nat)
    requires n < Pow10(w)
    ensures DigitsValue(Digits(n, w)) == n
    decreases w
  {
    if w > 0 {
      var p := Pow10(w - 1);
      var q, r := n / p, n % p;
      DivMod(n, p);
      assert q < 10 by {
        DivBelowTen(n, p);
      }
      var c, t := DigitChar(q), Digits(r, w - 1);
      DigitsValueOfDigits(r, w - 1);
      assert Digits(n, w) == [c] + t;
      DigitsValueCons(c, t);
      assert DigitValue(c) == q && Pow10(|t|) == p && DigitsValue(t) == r;
    }
  }

  /** Writing back what `DigitsValue` reads gives the string. */
  lemma {:induction false} DigitsOfDigitsValue(s: string)
    requires AllDigits(s)
    ensures DigitsValue(s) < Pow10(|s|) && Digits(DigitsValue(s), |s|) == s
    decreases |s|
  {
    DigitsValueBound(s);
    if |s| > 0 {
      var p := Pow10(|s| - 1);
      DigitsValueBound(s[1..]);
      DigitsOfDigitsValue(s[1..]);
      DivModUnique(DigitValue(s[0]), DigitsValue(s[1..]), p);
      assert DigitChar(DigitValue(s[0])) == s[0];
      assert s == [s[0]] + s[1..];
    }
  }

  lemma HeadDigitDecides(a: string, b: string)
    requires AllDigits(a) && AllDigits(b) && |a| == |b| > 0
    requires DigitValue(a[0]) < DigitValue(b[0])
    ensures DigitsValue(a) < DigitsValue(b)
  {
    DigitsValueBound(a[1..]);
    HigherLeadWins(DigitValue(a[0]), DigitValue(b[0]), Pow10(|a| - 1), DigitsValue(a[1..]), DigitsValue(b[1..]));
  }

  lemma HigherLeadWins(da: int, db: int, p: int, ra: int, rb: int)
    requires 0 <= da < db && 0 <= ra < p && 0 <= rb
    ensures da * p + ra < db * p + rb
  {
    MulLeft(da + 1, db, p);
    assert (da + 1) * p == da * p + p;
  }

  /** For digit strings of one length, string order is numeric order. */
  lemma {:induction false} LexLessDigits(a: string, b: string)
    requires AllDigits(a) && AllDigits(b) && |a| == |b|
    ensures LexLess(a, b) <==> DigitsValue(a) < DigitsValue(b)
    ensures a == b <==> DigitsValue(a) == DigitsValue(b)
    decreases |a|
  {
    if |a| > 0 {
      var p := Pow10(|a| - 1);
      var da, db := DigitValue(a[0]), DigitValue(b[0]);
      DigitsValueBound(a[1..]);
      DigitsValueBound(b[1..]);
      LexLessDigits(a[1..], b[1..]);
      if da < db {
        HeadDigitDecides(a, b);
      } else if db < da {
        HeadDigitDecides(b, a);
      } else {
        assert a[0] == b[0];
        assert a == [a[0]] + a[1..] && b == [b[0]] + b[1..];
      }
    }
  }

  // ---------------------------------------------------------------------
  // The civil calendar

  predicate IsLeapYear(y: int) {
    y % 4 == 0 && (y % 100 != 0 || y % 400 == 0)
  }

  function DaysInYear(y: int): int {
    if IsLeapYear(y) then 366 else 365
  }

  function DaysInMonth(y: int, m: int): int
    requires 1 <= m <= 12
  {
    if m == 2 then (if IsLeapYear(y) then 29 else 28)
    else if m == 4 || m == 6 || m == 9 || m == 11 then 30
    else 31
  }

  /** What `datetime.date(year, month, day)` accepts. */
  predicate ValidDate(d: Date) {
    && 1 <= d.year <= 9999
    && 1 <= d.month <= 12
    && 1 <= d.day <= DaysInMonth(d.year, d.month)
  }

  /** Days in the years 1 .. y-1. */
  function DaysBeforeYear(y: int): int
    requires y >= 1
  {
    var n := y - 1;
    365 * n + n / 4 - n / 100 + n / 400
  }

  /** Days in the months 1 .. m-1 of year y. */
  function DaysBeforeMonth(y: int, m: int): int
    requires 1 <= m <= 12
  {
    var common :=
      if m == 1 then 0 else if m == 2 then 31 else if m == 3 then 59
      else if m == 4 then 90 else if m == 5 then 120 else if m == 6 then 151
      else if m == 7 then 181 else if m == 8 then 212 else if m == 9 then 243
      else if m == 10 then 273 else if m == 11 then 304 else 334;
    if m > 2 && IsLeapYear(y) then common + 1 else common
  }

  /** The proleptic Gregorian ordinal of a date: 0001-01-01 is day 1. */
  function DayNumber(d: Date): (n: int)
    requires ValidDate(d)
    ensures n >= 1
    ensures n == 1 <==> d == Date(1, 1, 1)
  {
    DaysBeforeYear(d.year) + DaysBeforeMonth(d.year, d.month) + d.day
  }

  /** Chronological order of dates, field by field. */
  predicate DateBefore(d1: Date, d2: Date) {
    || d1.year < d2.year
    || (d1.year == d2.year && d1.month < d2.month)
    || (d1.year == d2.year && d1.month == d2.month && d1.day < d2.day)
  }

  lemma DaysBeforeYearStep(y: int)
    requires y >= 1
    ensures DaysBeforeYear(y + 1) == DaysBeforeYear(y) + DaysInYear(y)
  {
    DivStep(y - 1, 4);
    DivStep(y - 1, 100);
    DivStep(y - 1, 400);
    MultiplesNest(y);
  }

  lemma MultiplesNest(y: int)
    ensures y % 400 == 0 ==> y % 100 == 0
    ensures y % 100 == 0 ==> y % 4 == 0
  {
    if y % 400 == 0 {
      DivMod(y, 400);
      DivModUnique(4 * (y / 400), 0, 100);
    }
    if y % 100 == 0 {
      DivMod(y, 100);
      DivModUnique(25 * (y / 100), 0, 4);
    }
  }

  /** Counting one more number adds a multiple of `k` exactly when it is one. */
  lemma DivStep(n: int, k: int)
    requires n >= 0 && k > 0
    ensures (n + 1) / k == n / k + (if (n + 1) % k == 0 then 1 else 0)
  {
    var q, r := n / k, n % k;
    DivMod(n, k);
    if r + 1 < k {
      DivModUnique(q, r + 1, k);
    } else {
      assert n + 1 == (q + 1) * k + 0;
      DivModUnique(q + 1, 0, k);
    }
  }

  lemma {:induction false} DaysBeforeYearGrows(y1: int, y2: int)
    requires 1 <= y1 < y2
    ensures DaysBeforeYear(y1) + DaysInYear(y1) <= DaysBeforeYear(y2)
    decreases y2 - y1
  {
    DaysBeforeYearStep(y1);
    if y1 + 1 < y2 {
      DaysBeforeYearGrows(y1 + 1, y2);
    }
  }

  lemma DaysBeforeMonthGrows(y: int, m1: int, m2: int)
    requires 1 <= m1 < m2 <= 12
    ensures DaysBeforeMonth(y, m1) + DaysInMonth(y, m1) <= DaysBeforeMonth(y, m2)
  {}

  lemma DaysBeforeMonthBound(y: int, m: int)
    requires 1 <= m <= 12
    ensures DaysBeforeMonth(y, m) + DaysInMonth(y, m) <= DaysInYear(y)
  {}

  lemma DayNumberIncreasing(d1: Date, d2: Date)
    requires ValidDate(d1) && ValidDate(d2) && DateBefore(d1, d2)
    ensures DayNumber(d1) < DayNumber(d2)
  {
    if d1.year < d2.year {
      DaysBeforeMonthBound(d1.year, d1.month);
      DaysBeforeYearGrows(d1.year, d2.year);
    } else if d1.month < d2.month {
      DaysBeforeMonthGrows(d1.year, d1.month, d2.month);
    }
  }

  /** Day numbers order dates chronologically and tell distinct dates apart. */
  lemma DayNumberOrder(d1: Date, d2: Date)
    requires ValidDate(d1) && ValidDate(d2)
    ensures DayNumber(d1) < DayNumber(d2) <==> DateBefore(d1, d2)
    ensures DayNumber(d1) == DayNumber(d2) <==> d1 == d2
  {
    if DateBefore(d1, d2) {
      DayNumberIncreasing(d1, d2);
    } else if DateBefore(d2, d1) {
      DayNumberIncreasing(d2, d1);
    }
  }

  /** The calendar day after `d`. */
  function NextDay(d: Date): Date
    requires ValidDate(d)
  {
    if d.day < DaysInMonth(d.year, d.month) then Date(d.year, d.month, d.day + 1)
    else if d.month < 12 then Date(d.year, d.month + 1, 1)
    else Date(d.year + 1, 1, 1)
  }

  /**
   * Consecutive dates have consecutive day numbers, so subtracting two day
   * numbers counts the days between the dates. Every valid date but the
   * last one, 9999-12-31, has a next day.
   */
  lemma DayNumberNextDay(d: Date)
    requires ValidDate(d) && d != Date(9999, 12, 31)
    ensures ValidDate(NextDay(d)) && DayNumber(NextDay(d)) == DayNumber(d) + 1
  {
    if d.day == DaysInMonth(d.year, d.month) && d.month == 12 {
      DaysBeforeYearStep(d.year);
    }
  }

  // ---------------------------------------------------------------------
  // The YYYYMMDD text form

  /**
   * What `strptime`'s `%d` pattern (`3[0-1]|[1-2]\d|0[1-9]|[1-9]| [1-9]`)
   * reads from the last two characters of an eight-character string: two
   * digits, or a space and a digit 1-9.
   */
  function DayField(t: string): (r: Option<int>)
    requires |t| == 2
    ensures r.Some? ==> 0 <= r.value < 100
  {
    if AllDigits(t) then
      DigitsValueBound(t);
      Some(DigitsValue(t))
    else if t[0] == ' ' && '1' <= t[1] <= '9' then Some(DigitValue(t[1]))
    else None
  }

  /**
   * `strptime(s, '%Y%m%d')` on a string. `%Y` reads exactly four digits and
   * `%m` one or two, `%d` at most two characters, and nothing may be left
   * over; so only eight-character strings split 4/2/2, with the day either
   * two digits or a space and a digit. The date must exist and its year be
   * at least 1. Everything else is a `ValueError` (None here). Strings
   * shorter than eight characters with a one-digit month or day, such as
   * "2024015", are also None here, although `strptime` reads them.
   */
  function Parse(s: string): (r: Option<Date>)
    ensures r.Some? ==> ValidDate(r.value)
  {
    if |s| == 8 && AllDigits(s[..6]) then
      match DayField(s[6..])
      case None => None
      case Some(day) =>
        var d := Date(DigitsValue(s[..4]), DigitsValue(s[4..6]), day);
        if ValidDate(d) then Some(d) else None
    else None
  }

  /**
   * A date string as the calendar-dates table holds it and `strftime`
   * writes it: eight digits that `strptime` reads as a date.
   */
  predicate WellFormed(s: string) {
    AllDigits(s) && Parse(s).Some?
  }

  /** `strptime` also takes a space-padded day, which sorts below every digit. */
  lemma SpacePaddedDay()
    ensures Parse("202401 5") == Some(Date(2024, 1, 5)) && !WellFormed("202401 5")
    ensures LexLess("202401 5", "20240101")
  {
    var s := "202401 5";
    assert s[..4] == "2024" && s[4..6] == "01" && s[6..] == " 5";
    assert !IsDigit(s[6]);
    assert DigitsValue("2024") == 2024;
    assert DigitsValue("01") == 1;
  }

  /**
   * A space-padded day sorts below every all-digit string that shares its
   * year and month, since a space is below every digit.
   */
  lemma SpacePaddedDaySortsFirst(s: string, t: string)
    requires |s| == 8 && |t| == 8 && s[..6] == t[..6] && s[6] == ' ' && AllDigits(t)
    ensures LexLess(s, t)
  {
    assert s == s[..6] + s[6..] && t == t[..6] + t[6..];
    LexLessConcat(s[..6], s[6..], t[..6], t[6..]);
    assert IsDigit(t[6]);
  }

  /** `strftime("%Y%m%d")` of a date: zero-padded year, month and day. */
  function Format(d: Date): (s: string)
    requires ValidDate(d)
    ensures |s| == 8 && AllDigits(s)
  {
    Digits(d.year, 4) + Digits(d.month, 2) + Digits(d.day, 2)
  }

  datatype Option<T> = None | Some(value: T)

  lemma ParseFormat(d: Date)
    requires ValidDate(d)
    ensures Parse(Format(d)) == Some(d)
  {
    var y, m, dd := Digits(d.year, 4), Digits(d.month, 2), Digits(d.day, 2);
    var s := Format(d);
    assert s[..4] == y && s[4..6] == m && s[6..] == dd;
    assert AllDigits(s[..6]) && AllDigits(s[6..]);
    DigitsValueOfDigits(d.year, 4);
    DigitsValueOfDigits(d.month, 2);
    DigitsValueOfDigits(d.day, 2);
  }

  lemma FormatParse(s: string)
    requires WellFormed(s)
    ensures Format(Parse(s).value) == s
  {
    assert s == s[..4] + s[4..6] + s[6..];
    assert AllDigits(s[..6]) && AllDigits(s[6..]);
    DigitsOfDigitsValue(s[..4]);
    DigitsOfDigitsValue(s[4..6]);
    DigitsOfDigitsValue(s[6..]);
  }

  /** A well-formed date string sorts below the scan's "ZZZ" sentinel and above "". */
  lemma WellFormedBetweenSentinels(s: string)
    requires WellFormed(s)
    ensures LexLess(s, "ZZZ") && LexLess("", s)
  {
    assert IsDigit(s[0]);
  }

  /**
   * For well-formed `YYYYMMDD` strings, string order is chronological
   * order, and equal strings are equal dates.
   */
  lemma LexOrderIsChronological(s1: string, s2: string)
    requires WellFormed(s1) && WellFormed(s2)
    ensures LexLess(s1, s2) <==> DayNumber(Parse(s1).value) < DayNumber(Parse(s2).value)
    ensures s1 == s2 <==> DayNumber(Parse(s1).value) == DayNumber(Parse(s2).value)
  {
    var d1, d2 := Parse(s1).value, Parse(s2).value;
    assert AllDigits(s1[6..]) && AllDigits(s2[6..]);
    assert s1 == s1[..4] + (s1[4..6] + s1[6..]);
    assert s2 == s2[..4] + (s2[4..6] + s2[6..]);
    LexLessConcat(s1[..4], s1[4..6] + s1[6..], s2[..4], s2[4..6] + s2[6..]);
    LexLessConcat(s1[4..6], s1[6..], s2[4..6], s2[6..]);
    LexLessDigits(s1[..4], s2[..4]);
    LexLessDigits(s1[4..6], s2[4..6]);
    LexLessDigits(s1[6..], s2[6..]);
    DayNumberOrder(d1, d2);
    FormatParse(s1);
    FormatParse(s2);
  }
}
