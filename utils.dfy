/** The date helpers of src/lib/utils.ts, with the wall clock injected as an
    Instant.  Each helper builds a JavaScript Date, moves it with setDate,
    prints it with toISOString and keeps the part before the 'T'. */
module DateUtils {
  import opened Wrappers
  import opened Calendar

  /** The `{ start, end }` pair returned by getDateRange. */
  datatype DateRange = DateRange(start: string, end: string)

  predicate IsDigit(c: char) {
    '0' <= c <= '9'
  }

  predicate AllDigits(s: string) {
    forall i :: 0 <= i < |s| ==> IsDigit(s[i])
  }

  function Pow10(w: nat): nat {
    if w == 0 then 1 else 10 * Pow10(w - 1)
  }

  function DigitChar(k: int): (c: char)
    requires 0 <= k < 10
    ensures IsDigit(c)
  {
    (48 + k) as char
  }

  /** The last w decimal digits of n, zero-padded on the left. */
  function Digits(n: nat, w: nat): (s: string)
    ensures |s| == w && AllDigits(s)
  {
    if w == 0 then "" else Digits(n / 10, w - 1) + [DigitChar(n % 10)]
  }

  /** The number a string of decimal digits spells. */
  function Value(s: string): nat
    requires AllDigits(s)
  {
    if s == [] then 0 else Value(s[..|s| - 1]) * 10 + (s[|s| - 1] as int - 48)
  }

  lemma {:induction false} ValueOfDigits(n: nat, w: nat)
    requires n < Pow10(w)
    ensures Value(Digits(n, w)) == n
  {
    if w > 0 {
      ValueOfDigits(n / 10, w - 1);
      var s := Digits(n, w);
      assert s[..|s| - 1] == Digits(n / 10, w - 1);
    }
  }

  lemma {:induction false} DigitsOfValue(s: string)
    requires AllDigits(s)
    ensures Digits(Value(s), |s|) == s
  {
    if s != [] {
      var p := s[..|s| - 1];
      DigitsOfValue(p);
      assert Value(s) / 10 == Value(p);
      assert s == p + [s[|s| - 1]];
    }
  }

  /** Year as toISOString writes it: four digits for years 0..9999, otherwise
      a sign and six digits. */
  function YearField(y: int): string {
    if 0 <= y <= 9999 then Digits(y, 4)
    else (if y < 0 then "-" else "+") + Digits(if y < 0 then -y else y, 6)
  }

  /** The `YYYY-MM-DD` date part of toISOString: for a four-digit year, ten
      characters, digits except for the dashes at positions 4 and 7. */
  function FormatIsoDate(d: Date): (s: string)
    requires ValidDate(d)
    ensures 0 <= d.year <= 9999 ==>
      |s| == 10 && s[4] == '-' && s[7] == '-'
      && forall i :: 0 <= i < 10 && i != 4 && i != 7 ==> IsDigit(s[i])
  {
    YearField(d.year) + "-" + Digits(d.month, 2) + "-" + Digits(d.day, 2)
  }

  /** Reads a `YYYY-MM-DD` string back as a date; anything else is None. */
  function ParseIsoDate(s: string): (r: Option<Date>)
    ensures r.Some? ==> ValidDate(r.value)
  {
    if |s| == 10 && s[4] == '-' && s[7] == '-'
       && AllDigits(s[..4]) && AllDigits(s[5..7]) && AllDigits(s[8..])
    then
      var d := Date(Value(s[..4]), Value(s[5..7]), Value(s[8..]));
      if ValidDate(d) then Some(d) else None
    else None
  }

  /** Printing then reading a date with a four-digit year gives it back,
      and the printed form has exactly ten characters. */
  lemma IsoDateRoundTrip(d: Date)
    requires ValidDate(d) && 0 <= d.year <= 9999
    ensures |FormatIsoDate(d)| == 10
    ensures ParseIsoDate(FormatIsoDate(d)) == Some(d)
  {
    var y, m, dd := Digits(d.year, 4), Digits(d.month, 2), Digits(d.day, 2);
    var s := FormatIsoDate(d);
    assert s == y + "-" + m + "-" + dd;
    assert s[..4] == y && s[5..7] == m && s[8..] == dd;
    assert s[4] == '-' && s[7] == '-';
    assert Pow10(2) == 100 && Pow10(4) == 10000;
    ValueOfDigits(d.year, 4);
    ValueOfDigits(d.month, 2);
    ValueOfDigits(d.day, 2);
  }

  /** A string that reads as a date is that date's printed form, so there is
      exactly one spelling per date. */
  lemma IsoDateCanonical(s: string, d: Date)
    requires ParseIsoDate(s) == Some(d)
    ensures 0 <= d.year <= 9999 && FormatIsoDate(d) == s
  {
    DigitsOfValue(s[..4]);
    DigitsOfValue(s[5..7]);
    DigitsOfValue(s[8..]);
    assert Value(s[..4]) < 10000 by { ValueBound(s[..4]); }
    assert s == s[..4] + "-" + s[5..7] + "-" + s[8..];
  }

  lemma {:induction false} ValueBound(s: string)
    requires AllDigits(s)
    ensures Value(s) < Pow10(|s|)
  {
    if s != [] {
      ValueBound(s[..|s| - 1]);
    }
  }

  /** Two dates print the same only if they are the same date: keying a map
      by the printed date is keying it by the date. */
  lemma IsoDateInjective(a: Date, b: Date)
    requires ValidDate(a) && ValidDate(b)
    requires 0 <= a.year <= 9999 && 0 <= b.year <= 9999
    requires FormatIsoDate(a) == FormatIsoDate(b)
    ensures a == b
  {
    IsoDateRoundTrip(a);
    IsoDateRoundTrip(b);
  }

  /** The `THH:MM:SS.sssZ` time part of toISOString. */
  function FormatTime(millis: int): string
    requires 0 <= millis < MillisPerDay
  {
    var secs := millis / 1000;
    "T" + Digits(secs / 3600, 2) + ":" + Digits(secs / 60 % 60, 2) + ":"
        + Digits(secs % 60, 2) + "." + Digits(millis % 1000, 3) + "Z"
  }

  /** `Date.prototype.toISOString` in UTC: for a four-digit year, the 24
      characters `YYYY-MM-DDTHH:MM:SS.sssZ`, the date part followed by 'T'. */
  function ToIsoString(t: Instant): (s: string)
    requires ValidInstant(t)
    ensures |s| == |FormatIsoDate(t.date)| + 14
    ensures s[..|FormatIsoDate(t.date)|] == FormatIsoDate(t.date) && s[|FormatIsoDate(t.date)|] == 'T'
    ensures 0 <= t.date.year <= 9999 ==> |s| == 24 && s[10] == 'T' && s[23] == 'Z'
  {
    FormatIsoDate(t.date) + FormatTime(t.millis)
  }

  /** `s.split(sep)[0]`: everything before the first sep, or all of s. */
  function FirstPiece(s: string, sep: char): (r: string)
    ensures sep !in r
    ensures r <= s
    ensures |r| < |s| ==> s[|r|] == sep
  {
    if s == [] || s[0] == sep then [] else [s[0]] + FirstPiece(s[1..], sep)
  }

  lemma {:induction false} FirstPieceOfJoin(a: string, b: string, sep: char)
    requires sep !in a && b != [] && b[0] == sep
    ensures FirstPiece(a + b, sep) == a
  {
    if a != [] {
      assert (a + b)[1..] == a[1..] + b;
      FirstPieceOfJoin(a[1..], b, sep);
    }
  }

  lemma DatePartHasNoT(d: Date)
    requires ValidDate(d)
    ensures 'T' !in FormatIsoDate(d)
  {
    var s := FormatIsoDate(d);
    forall i | 0 <= i < |s| ensures s[i] != 'T' {
      assert IsDigit(s[i]) || s[i] == '-' || s[i] == '+';
    }
  }

  /** The date part of an instant's ISO string. */
  function IsoDatePart(t: Instant): (s: string)
    requires ValidInstant(t)
    ensures s == FormatIsoDate(t.date)
  {
    DatePartHasNoT(t.date);
    FirstPieceOfJoin(FormatIsoDate(t.date), FormatTime(t.millis), 'T');
    FirstPiece(ToIsoString(t), 'T')
  }

  /** getTodayDate (src/lib/utils.ts:1-4): the UTC date of `now`, ten
      characters `YYYY-MM-DD` for a four-digit year, which reads back as
      that date. */
  function GetTodayDate(now: Instant): (s: string)
    requires ValidInstant(now)
    ensures s == FormatIsoDate(now.date)
    ensures 0 <= now.date.year <= 9999 ==> |s| == 10 && ParseIsoDate(s) == Some(now.date)
  {
    ShortYearRoundTrip(now.date);
    IsoDatePart(now)
  }

  lemma ShortYearRoundTrip(d: Date)
    requires ValidDate(d)
    ensures 0 <= d.year <= 9999 ==> |FormatIsoDate(d)| == 10 && ParseIsoDate(FormatIsoDate(d)) == Some(d)
  {
    if 0 <= d.year <= 9999 { IsoDateRoundTrip(d); }
  }

  /** getDateRange (src/lib/utils.ts:6-15): end is today, start is the same
      instant moved back `days - 1` days with setDate. */
  function GetDateRange(now: Instant, days: int): (r: DateRange)
    requires ValidInstant(now)
    ensures r.end == FormatIsoDate(now.date)
    ensures r.start == FormatIsoDate(AddDays(now.date, 1 - days))
  {
    var moved := Instant(SetDate(now.date, now.date.day - days + 1), now.millis);
    DayNumberInjective(moved.date, AddDays(now.date, 1 - days));
    DateRange(IsoDatePart(moved), IsoDatePart(now))
  }

  /** getWeekStart (src/lib/utils.ts:22-28): today moved back by its weekday. */
  function GetWeekStart(now: Instant): (s: string)
    requires ValidInstant(now)
    ensures s == FormatIsoDate(AddDays(now.date, -Weekday(now.date)))
  {
    var moved := Instant(SetDate(now.date, now.date.day - Weekday(now.date)), now.millis);
    DayNumberInjective(moved.date, AddDays(now.date, -Weekday(now.date)));
    IsoDatePart(moved)
  }

  /** getMonthStart (src/lib/utils.ts:30-33): midnight of day 1 of the current
      month and year. */
  function GetMonthStart(now: Instant): (s: string)
    requires ValidInstant(now)
    ensures s == FormatIsoDate(Date(now.date.year, now.date.month, 1))
  {
    IsoDatePart(Instant(Date(now.date.year, now.date.month, 1), 0))
  }
}
