/** Calendar arithmetic behind src/lib/utils.ts.
    Dates are civil dates of the proleptic Gregorian calendar (the calendar
    JavaScript's Date uses), read in UTC.  Every date has a day number,
    counted from 1970-01-01 (day 0); the analytics work on day numbers, and
    the ISO 8601 strings the app passes around are decoded back to the same
    date, so comparing strings and comparing day numbers agree. */
module Calendar {

  /** A civil date: year (astronomical numbering, so 0 is 1 BC), month 1..12, day 1..31. */
  datatype Date = Date(year: int, month: int, day: int)

  /** An instant as `new Date()` yields it, split into its UTC date and the
      milliseconds elapsed since midnight of that date. */
  datatype Instant = Instant(date: Date, millis: int)

  const MillisPerDay: int := 86400000

  predicate IsLeapYear(y: int) {
    y % 4 == 0 && (y % 100 != 0 || y % 400 == 0)
  }

  function DaysInYear(y: int): int {
    if IsLeapYear(y) then 366 else 365
  }

  function DaysInMonth(y: int, m: int): int
    requires 1 <= m <= 12
  {
    if m == 2 then (if IsLeapYear(y) then 29 else 28)
    else if m == 4 || m == 6 || m == 9 || m == 11 then 30
    else 31
  }

  predicate ValidDate(d: Date) {
    1 <= d.month <= 12 && 1 <= d.day <= DaysInMonth(d.year, d.month)
  }

  predicate ValidInstant(t: Instant) {
    ValidDate(t.date) && 0 <= t.millis < MillisPerDay
  }

  /** Day number of January 1st of year y: 365 days a year plus the leap
      days of the years before it, shifted so that 1970-01-01 is day 0. */
  function YearStart(y: int): int {
    365 * y + (y + 3) / 4 - (y + 99) / 100 + (y + 399) / 400 - 719528
  }

  /** Days of year y that come before the first of month m. */
  function DaysBeforeMonth(y: int, m: int): int
    requires 1 <= m <= 12
  {
    var common :=
      if m == 1 then 0 else if m == 2 then 31 else if m == 3 then 59
      else if m == 4 then 90 else if m == 5 then 120 else if m == 6 then 151
      else if m == 7 then 181 else if m == 8 then 212 else if m == 9 then 243
      else if m == 10 then 273 else if m == 11 then 304 else 334;
    common + (if m > 2 && IsLeapYear(y) then 1 else 0)
  }

  /** Days elapsed from 1970-01-01 to d (negative before it). */
  function DayNumber(d: Date): int
    requires ValidDate(d)
  {
    YearStart(d.year) + DaysBeforeMonth(d.year, d.month) + d.day - 1
  }

  /** Day of the week as `Date.getDay()` reports it: 0 is Sunday, 6 is Saturday
      (1970-01-01 was a Thursday). */
  function Weekday(d: Date): (w: int)
    requires ValidDate(d)
    ensures 0 <= w < 7
  {
    WeekdayOfDay(DayNumber(d))
  }

  /** Weekday of day number n, Sunday being 0. */
  function WeekdayOfDay(n: int): int {
    (n + 4) % 7
  }

  /** The quotient of n by k is the q of any decomposition n == k * q + r
      with 0 <= r < k. */
  lemma QuotientOf(n: int, k: int, q: int, r: int)
    requires k > 0 && 0 <= r < k && n == k * q + r
    ensures n / k == q && n % k == r
  {
    var q', r' := n / k, n % k;
    assert k * (q - q') == r' - r;
    if q - q' >= 1 {
      assert false;
    } else if q - q' <= -1 {
      assert false;
    }
  }

  /** (y + k) / k exceeds (y + k - 1) / k by one exactly when k divides y: the
      step by which a year's count of multiples of k grows. */
  lemma QuotientStep(y: int, k: int)
    requires k > 0
    ensures (y + k) / k == (y + k - 1) / k + (if y % k == 0 then 1 else 0)
  {
    var q, r := y / k, y % k;
    assert y == k * q + r;
    QuotientOf(y + k, k, q + 1, r);
    if r == 0 {
      QuotientOf(y + k - 1, k, q, k - 1);
    } else {
      QuotientOf(y + k - 1, k, q + 1, r - 1);
    }
  }

  /** A multiple of 400 is a multiple of 100, and a multiple of 100 is a
      multiple of 4. */
  lemma MultiplesNest(y: int)
    ensures y % 400 == 0 ==> y % 100 == 0
    ensures y % 100 == 0 ==> y % 4 == 0
  {
    if y % 400 == 0 {
      QuotientOf(y, 400, y / 400, 0);
      QuotientOf(y, 100, 4 * (y / 400), 0);
    }
    if y % 100 == 0 {
      QuotientOf(y, 100, y / 100, 0);
      QuotientOf(y, 4, 25 * (y / 100), 0);
    }
  }

  lemma YearStartStep(y: int)
    ensures YearStart(y + 1) == YearStart(y) + DaysInYear(y)
  {
    var a := if y % 4 == 0 then 1 else 0;
    var b := if y % 100 == 0 then 1 else 0;
    var c := if y % 400 == 0 then 1 else 0;
    QuotientStep(y, 4);
    QuotientStep(y, 100);
    QuotientStep(y, 400);
    MultiplesNest(y);
    assert DaysInYear(y) == 365 + a - b + c;
    assert YearStart(y + 1) == YearStart(y) + 365 + a - b + c;
  }

  /** Later years start later. */
  lemma {:induction false} YearStartMonotone(y1: int, y2: int)
    requires y1 <= y2
    ensures YearStart(y1) + 365 * (y2 - y1) <= YearStart(y2)
    decreases y2 - y1
  {
    if y1 < y2 {
      YearStartMonotone(y1, y2 - 1);
      YearStartStep(y2 - 1);
    }
  }

  /** Every date of year y lies in [YearStart(y), YearStart(y + 1)). */
  lemma DayNumberWithinYear(d: Date)
    requires ValidDate(d)
    ensures YearStart(d.year) <= DayNumber(d) < YearStart(d.year + 1)
  {
    YearStartStep(d.year);
  }

  /** Two valid dates with the same day number are the same date. */
  lemma DayNumberInjective(a: Date, b: Date)
    requires ValidDate(a) && ValidDate(b)
    requires DayNumber(a) == DayNumber(b)
    ensures a == b
  {
    SameYear(a, b);
    if a.month < b.month {
      MonthsInOrder(a.year, a.month, b.month);
    } else if b.month < a.month {
      MonthsInOrder(a.year, b.month, a.month);
    }
  }

  /** Dates with the same day number lie in the same year. */
  lemma SameYear(a: Date, b: Date)
    requires ValidDate(a) && ValidDate(b)
    requires DayNumber(a) == DayNumber(b)
    ensures a.year == b.year
  {
    DayNumberWithinYear(a);
    DayNumberWithinYear(b);
    if a.year < b.year {
      YearStartMonotone(a.year + 1, b.year);
    } else if b.year < a.year {
      YearStartMonotone(b.year + 1, a.year);
    }
  }

  /** An earlier month ends no later than a later month begins. */
  lemma MonthsInOrder(y: int, m1: int, m2: int)
    requires 1 <= m1 < m2 <= 12
    ensures DaysBeforeMonth(y, m1) + DaysInMonth(y, m1) <= DaysBeforeMonth(y, m2)
  {
  }

  /** The day before d, stepping back across month and year ends. */
  function PrevDay(d: Date): (p: Date)
    requires ValidDate(d)
    ensures ValidDate(p) && DayNumber(p) == DayNumber(d) - 1
  {
    if d.day > 1 then Date(d.year, d.month, d.day - 1)
    else if d.month > 1 then Date(d.year, d.month - 1, DaysInMonth(d.year, d.month - 1))
    else
      YearStartStep(d.year - 1);
      Date(d.year - 1, 12, 31)
  }

  /** The day after d, stepping forward across month and year ends. */
  function NextDay(d: Date): (n: Date)
    requires ValidDate(d)
    ensures ValidDate(n) && DayNumber(n) == DayNumber(d) + 1
  {
    if d.day < DaysInMonth(d.year, d.month) then Date(d.year, d.month, d.day + 1)
    else if d.month < 12 then Date(d.year, d.month + 1, 1)
    else
      YearStartStep(d.year);
      Date(d.year + 1, 1, 1)
  }

  /** The weekday numbering matches the calendar: 1970-01-01 was a Thursday,
      2024-01-07 a Sunday, and each next day is the next weekday, Saturday
      wrapping round to Sunday. */
  lemma WeekdayAnchors(d: Date)
    requires ValidDate(d)
    ensures Weekday(Date(1970, 1, 1)) == 4
    ensures Weekday(Date(2024, 1, 7)) == 0
    ensures Weekday(NextDay(d)) == (Weekday(d) + 1) % 7
  {
    var n := DayNumber(d);
    QuotientOf(n + 4, 7, (n + 4) / 7, Weekday(d));
    if Weekday(d) < 6 {
      QuotientOf(n + 5, 7, (n + 4) / 7, Weekday(d) + 1);
    } else {
      QuotientOf(n + 5, 7, (n + 4) / 7 + 1, 0);
    }
  }

  /** The date n days after d (before it when n is negative). */
  function AddDays(d: Date, n: int): (r: Date)
    requires ValidDate(d)
    ensures ValidDate(r) && DayNumber(r) == DayNumber(d) + n
    decreases if n < 0 then -n else n
  {
    if n == 0 then d
    else if n > 0 then AddDays(NextDay(d), n - 1)
    else AddDays(PrevDay(d), n + 1)
  }

  /** `d.setDate(k)`: day k of d's month, where k < 1 or k beyond the month's
      length rolls over into the months (and years) before or after. */
  function SetDate(d: Date, k: int): (r: Date)
    requires ValidDate(d)
    ensures ValidDate(r) && DayNumber(r) == DayNumber(d) + (k - d.day)
  {
    AddDays(Date(d.year, d.month, 1), k - 1)
  }

  /** The Sunday that getWeekStart lands on (src/lib/utils.ts:22-28): moving
      d back by its weekday reaches the most recent Sunday not after d, which
      is d itself when d is a Sunday, and no Sunday lies after it and up to d. */
  lemma LatestSundayAtOrBefore(d: Date)
    requires ValidDate(d)
    ensures Weekday(AddDays(d, -Weekday(d))) == 0
    ensures Weekday(d) == 0 ==> AddDays(d, -Weekday(d)) == d
    ensures forall x :: ValidDate(x) && DayNumber(AddDays(d, -Weekday(d))) < DayNumber(x) <= DayNumber(d)
                        ==> Weekday(x) != 0
  {
    var w := AddDays(d, -Weekday(d));
    SundayBefore(DayNumber(d), DayNumber(w));
    if Weekday(d) == 0 {
      DayNumberInjective(w, d);
    }
  }

  /** The date getMonthStart lands on (src/lib/utils.ts:30-33): day 1 of d's
      month is a valid date d.day - 1 days before d, and no date of that
      month comes earlier. */
  lemma FirstOfMonth(d: Date)
    requires ValidDate(d)
    ensures ValidDate(Date(d.year, d.month, 1))
    ensures DayNumber(d) - DayNumber(Date(d.year, d.month, 1)) == d.day - 1
    ensures forall x :: ValidDate(x) && x.year == d.year && x.month == d.month
                        ==> DayNumber(Date(d.year, d.month, 1)) <= DayNumber(x)
  {
  }

  /** Day-number arithmetic behind LatestSundayAtOrBefore: stepping back
      from day n by n's weekday lands on a Sunday, and the days after that
      Sunday up to n are not Sundays. */
  lemma SundayBefore(n: int, w: int)
    requires w == n - WeekdayOfDay(n)
    ensures WeekdayOfDay(w) == 0
    ensures forall x :: w < x <= n ==> WeekdayOfDay(x) != 0
  {
    forall x | w < x <= n
      ensures WeekdayOfDay(x) != 0
    {
      assert WeekdayOfDay(x) == x - w;
    }
  }
}
