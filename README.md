# Habit and prayer tracker: analytics core in Dafny

This project models the computing core of a habit and prayer tracker. Users
log each habit (the five daily prayers, Quran reading, general and custom
habits) once per day. The app then derives:

- the dashboard's roll-up for today;
- per-habit streaks and completion rates;
- a weekly or monthly report with a daily chart and rankings;
- a motivational message chosen by today's completion percentage.

Modules:

- `Wrappers` (`wrappers.dfy`): the `Option` datatype.
- `Lists` (`lists.dfy`): `Array.prototype.filter` and its laws.
- `Calendar` (`calendar.dfy`): proleptic Gregorian dates. It gives day
  numbers (1970-01-01 is day 0) and weekdays (Sunday is 0). It also models
  JavaScript's `setDate`, which rolls over into neighbouring months and years.
- `DateUtils` (`utils.dfy`): the date helpers of `src/lib/utils.ts`. It
  formats and parses `YYYY-MM-DD` and proves the round trip. It also models
  `toISOString().split('T')[0]`.
- `Sorting` (`sorting.dfy`): the stable `Array.prototype.sort` with a
  numeric comparator.
- `Analytics` (`analytics.dfy`): `src/lib/analytics.ts`.
  - `calculateStreak` and `calculateLongestStreak` are methods with their
    loops. Each is proved equal to a specification function (`Walk` and
    `LongestRun`).
  - `getWeeklyData` and `getMonthlyData` are likewise proved against
    `Series`.
  - `calculateHabitStats` is a function.
- `Insights` (`insights.dfy`): the report of `src/pages/Insights.tsx:48-70`.
- `Dashboard` (`dashboard.dfy`): `src/pages/Dashboard.tsx:44-50`.
- `Motivation` (`motivation.dfy`): `src/components/MotivationalMessage.tsx`.

Modelling choices:

- **Dates are day numbers.** Log dates in the analytics are integer day
  numbers, not `YYYY-MM-DD` strings. `DateUtils.IsoDateInjective` and
  `DateUtils.IsoDateRoundTrip` justify this: two valid dates share a string
  exactly when they are the same day, so a map keyed by date strings behaves
  as one keyed by days.
- **"Now" is a parameter.** The current time is passed in as a civil UTC
  date and a time of day (`Calendar.Instant`).
- **Today is a parameter.** The analytics take "today" as a day number.
- **The random number is a parameter.** The motivational message takes it
  as `pick`, with 0 <= pick < 1.

## Where the code and the consecutive-days reading differ

A streak is commonly read as the run of consecutive completed days ending
today, or yesterday when today has no log yet. `calculateStreak` counts
more than that (`src/lib/analytics.ts:31-37`).
After each counted log, the cursor moves to the day before that log. A log
one day before the cursor is accepted at every step, not only the first.
So a single missed day is skipped again and again.

Example: completed logs today and two days ago.

- The code gives a current streak of 2.
- The longest streak is 1.
- The consecutive-days reading gives 1.

The model follows the code. `Analytics.CurrentStreak` and
`Analytics.CalculateStreak` are the code as written, and the report uses
them. `Analytics.GapDayStillCounts` proves the example above.
`Analytics.ConsecutiveStreak` is the consecutive-days reading of a streak,
kept as a reference. Two lemmas relate it to the code:

- it counts only consecutive days, and with one log per habit and day it
  never exceeds the longest streak;
- it never exceeds the as-written streak.

## Model

| member | source | states |
|---|---|---|
| `Calendar.Weekday` | src/lib/utils.ts:24 | `getDay()` of a date is in 0..6 |
| `Calendar.WeekdayAnchors` | src/lib/utils.ts:24 | 1970-01-01 is a Thursday (4), 2024-01-07 a Sunday (0), and the next day is always the next weekday, Saturday wrapping to Sunday |
| `Calendar.AddDays` | src/lib/utils.ts:9 | moving a date by n days gives a valid date whose day number differs by exactly n |
| `Calendar.SetDate` | src/lib/utils.ts:25-26 | `setDate(k)` gives a valid date k - day days away, rolling over month and year ends |
| `Calendar.DayNumberInjective` | src/lib/utils.ts:1-4 | two valid dates with the same day number are the same date |
| `Calendar.LatestSundayAtOrBefore` | src/lib/utils.ts:22-28 | going back by the weekday lands on a Sunday; a Sunday maps to itself; no Sunday lies between that day and today |
| `Calendar.FirstOfMonth` | src/lib/utils.ts:30-33 | day 1 of the month is valid, lies day - 1 days back, and no date of the month is earlier |
| `DateUtils.IsoDateRoundTrip` | src/lib/utils.ts:3 | for years 0..9999 the date part of `toISOString` has 10 characters and parses back to the same date |
| `DateUtils.IsoDateCanonical` | src/lib/utils.ts:3 | a string that parses as a date is the formatted form of that date |
| `DateUtils.IsoDateInjective` | src/lib/analytics.ts:97-109 | distinct valid dates format to distinct strings, so keying `dateMap` by string equals keying by day |
| `DateUtils.FormatIsoDate` | src/lib/utils.ts:3 | the date part of `toISOString`: for years 0..9999 ten characters, dashes at positions 4 and 7 and digits elsewhere |
| `DateUtils.ToIsoString` | src/lib/utils.ts:3 | `toISOString` is the formatted date followed by 14 characters of time, the first of them 'T'; 24 characters ending in 'Z' for four-digit years |
| `DateUtils.FirstPiece` | src/lib/utils.ts:3 | `split(sep)[0]` holds no sep, is a prefix of the string, and is followed by sep when shorter than it |
| `DateUtils.FirstPieceOfJoin` | src/lib/utils.ts:3 | `split('T')[0]` of date + 'T' + time returns the date part when the date has no 'T' |
| `DateUtils.IsoDatePart` | src/lib/utils.ts:3 | `toISOString().split('T')[0]` of an instant is the formatted date |
| `DateUtils.GetTodayDate` | src/lib/utils.ts:1-4 | today's UTC date as `YYYY-MM-DD`, which parses back to that date |
| `DateUtils.GetDateRange` | src/lib/utils.ts:6-15 | end is today; start is today moved back days - 1 days |
| `DateUtils.GetWeekStart` | src/lib/utils.ts:22-28 | today moved back by its weekday (the latest Sunday, by `LatestSundayAtOrBefore`) |
| `DateUtils.GetMonthStart` | src/lib/utils.ts:30-33 | day 1 of the current month and year |
| `Sorting.SortBy` | src/lib/analytics.ts:17 | the sort returns a permutation of its input, ordered by key |
| `Sorting.SortStable` | src/pages/Insights.tsx:57-65 | elements with equal keys keep their input order |
| `Sorting.SortIgnoresOrder` | src/lib/analytics.ts:15-17 | with pairwise distinct keys, the sorted result does not depend on the input order |
| `Analytics.CurrentStreak` | src/lib/analytics.ts:14-44 | the current streak is at most the number of completed logs, and positive only when today or yesterday has a completed log |
| `Analytics.LongestStreak` | src/lib/analytics.ts:46-72 | the longest streak is at most the number of completed logs, and 0 exactly when there is none |
| `Analytics.CompletedDays` | src/lib/analytics.ts:15-16 | a date is in the result exactly when some completed log of the habit has that date; no more dates than logs |
| `Analytics.CompletedDaysCount` | src/lib/analytics.ts:16 | each date occurs in the result exactly as often as the habit has completed logs of that date |
| `Analytics.Walk` | src/lib/analytics.ts:25-41 | the streak loop counts at most the logs it is given |
| `Analytics.WalkBack` | src/lib/analytics.ts:21-43 | the `for ... break` loop returns `Walk` of the sorted dates from today |
| `Analytics.CalculateStreak` | src/lib/analytics.ts:14-44 | the method (filter, sort newest first, 0 if none, loop) returns `CurrentStreak` |
| `Analytics.WalkStopsAtFirstGap` | src/lib/analytics.ts:25-41 | every counted log is the cursor day or the day before it; the walk stops at the first log that is neither |
| `Analytics.NewestComesFirst` | src/lib/analytics.ts:15-17 | the first date after sorting newest first is a completed date and the latest one |
| `Analytics.CurrentStreakStale` | src/lib/analytics.ts:25-41 | the streak is 0 when all completed dates are before yesterday, or some completed date is after today |
| `Analytics.RunEndingAt` | src/lib/analytics.ts:56-69 | the run ending at entry i has length between 1 and i + 1 |
| `Analytics.MaxRunUpTo` | src/lib/analytics.ts:56-71 | the best run among the first n entries has length between 1 and n |
| `Analytics.CalculateLongestStreak` | src/lib/analytics.ts:46-72 | the method (filter, sort oldest first, 0 if none, then the scan) returns `LongestStreak` |
| `Analytics.ScanRuns` | src/lib/analytics.ts:53-71 | the `for` loop, which folds a run into maxStreak only when it breaks, plus the final max, returns the longest run `LongestRun` |
| `Analytics.RunEndingAtIsLongest` | src/lib/analytics.ts:63-68 | `currentStreak` after entry i is the length of the longest run of one-day steps ending there |
| `Analytics.MaxRunUpToIsLongest` | src/lib/analytics.ts:56-71 | the running maximum is attained by a run and bounds every run so far |
| `Analytics.LongestRunIsLongest` | src/lib/analytics.ts:51-71 | the longest streak is 0 exactly for no logs; otherwise some run has that length and none is longer |
| `Analytics.StrictlyIncreasing` | src/lib/analytics.ts:47-49 | with at most one log per day, the dates sorted oldest first strictly increase |
| `Analytics.DayBlocks` | src/lib/analytics.ts:56-71 | over strictly increasing dates, the longest run is the longest block of consecutive present days |
| `Analytics.LongestStreakIsLongestDayBlock` | src/lib/analytics.ts:46-72 | with one log per day, the longest streak is the length of the longest block of consecutive completed calendar days |
| `Analytics.CompletedDaysAppend` | src/lib/analytics.ts:16 | the completed-logs filter distributes over concatenation |
| `Analytics.CompletedDaysPermutation` | src/lib/analytics.ts:16 | reordering the logs reorders the completed dates, and the multiset is unchanged |
| `Analytics.StreaksIgnoreOrder` | src/lib/analytics.ts:15-17 | both streaks are the same for any order of the same logs |
| `Analytics.StreaksIgnoreOtherLogs` | src/lib/analytics.ts:16 | logs of other habits, and logs not completed, change neither streak |
| `Analytics.NoCompletedDays` | src/lib/analytics.ts:19 | with no completed log for the habit, its completed dates are empty |
| `Analytics.StreakBounds` | src/lib/analytics.ts:19-72 | both streaks are at most the number of completed logs and 0 without any; the longest is at least 1 otherwise and 1 for a single log |
| `Analytics.GapDayStillCounts` | src/lib/analytics.ts:31-37 | logs today and two days ago give current streak 2, longest streak 1 and consecutive-days streak 1 |
| `Analytics.ConsecutiveWalkSteps` | src/lib/analytics.ts:25-41 | the consecutive-days reading counts only days that follow one another, starting today or yesterday |
| `Analytics.ConsecutiveWithinLongest` | src/lib/analytics.ts:25-72 | with one log per day, the consecutive-days streak never exceeds the longest streak |
| `Analytics.ConsecutiveWithinWritten` | src/lib/analytics.ts:31-37 | the as-written walk accepts every step the consecutive-days reading accepts |
| `Analytics.CompletionRate` | src/lib/analytics.ts:87 | rate × totalDays = 100 × completed when totalDays > 0, else 0; never negative; at most 100 exactly when completed <= totalDays |
| `Analytics.CalculateHabitStats` | src/lib/analytics.ts:74-91 | the stats carry the habit's id and the period's days, count the habit's completed logs, bound both streaks by that count, and hold the rate of that count over the days |
| `Analytics.HabitStatsMeaning` | src/lib/analytics.ts:74-91 | the stats copy id and name, count the habit's completed logs, hold both streaks and the rate, and bound both streaks by the count |
| `Analytics.CompletedOn` | src/lib/analytics.ts:97-101 | `dateMap`'s count for a day is at most the number of logs |
| `Analytics.CompletedOnZero` | src/lib/analytics.ts:97-101 | a day's count is 0 exactly when no log of that day is completed |
| `Analytics.Series` | src/lib/analytics.ts:103-111 | n entries, oldest first, for the consecutive days ending at the end date, each with that day's count of completed logs |
| `Analytics.DailySeries` | src/lib/analytics.ts:93-137 | the map-building loop and the i = n - 1 .. 0 loop return `Series` |
| `Analytics.GetWeeklyData` | src/lib/analytics.ts:93-114 | the 7-day series ending at the given date |
| `Analytics.GetMonthlyData` | src/lib/analytics.ts:116-137 | the 30-day series ending at the given date |
| `Analytics.SeriesTotal` | src/lib/analytics.ts:97-111 | the counts add up to the completed logs dated inside the window |
| `Analytics.SeriesIgnoresOutside` | src/lib/analytics.ts:97-111 | adding logs dated outside the window, or not completed, leaves the series unchanged |
| `Insights.Stats` | src/pages/Insights.tsx:51 | one stats record per habit, in habit order, each for that habit |
| `Insights.OverallRate` | src/pages/Insights.tsx:53-55 | with habits and days, rate × habits × days = 100 × all completed logs; never negative; 0 without habits; at most 100 exactly when the completed logs do not outnumber habits × days |
| `Insights.TopHabits` | src/pages/Insights.tsx:57-60 | at most three stats, each from the list and with a positive rate |
| `Insights.NeedsImprovement` | src/pages/Insights.tsx:62-65 | at most three stats, each from the list and with a rate in [0, 100) |
| `Insights.BestStreak` | src/pages/Insights.tsx:67-70 | the largest current streak among the stats, or 0 when there are none |
| `Insights.LeadingKeeps` | src/pages/Insights.tsx:57-65 | filter, sort and `slice(0, k)` keep at most k elements of the input, all passing the filter |
| `Insights.LeadingOrder` | src/pages/Insights.tsx:57-65 | the result is ordered by key; a kept element is left out only behind k elements whose keys are no larger |
| `Insights.LeadingStable` | src/pages/Insights.tsx:57-65 | equal keys appear in input order |
| `Insights.TopHabitsMeaning` | src/pages/Insights.tsx:57-60 | at most 3 habits, all with rate > 0, highest rate first |
| `Insights.TopHabitsLeftOut` | src/pages/Insights.tsx:57-60 | a habit with rate > 0 is left out only when 3 habits with rates at least its own are listed |
| `Insights.TopHabitsStable` | src/pages/Insights.tsx:57-60 | habits with the same rate appear in habit-list order |
| `Insights.NeedsImprovementMeaning` | src/pages/Insights.tsx:62-65 | at most 3 habits with rate in [0, 100), lowest first; one is left out only behind 3 with rates no higher; a 100% habit never appears; ties keep list order |
| `Insights.RateOrderIsCountOrder` | src/pages/Insights.tsx:50-51 | over the same number of days, a higher rate means a higher completed count and vice versa |
| `Insights.TopHabitsByCount` | src/pages/Insights.tsx:50-60 | a positive-rate habit left out of topHabits has no more completed logs than any listed one |
| `Insights.CompletionsSplitByHabit` | src/pages/Insights.tsx:51-55 | under two extra hypotheses (distinct habit ids; every completed log belongs to a listed habit), the completed logs the overall rate counts are the sum of the habits' totals |
| `Insights.BuildReport` | src/pages/Insights.tsx:48-70 | one chart entry per day of the period and one stats record per habit; at most three top and three weak habits, all from the stats; the best streak bounds every current streak; the overall rate is not negative |
| `Insights.ReportMeaning` | src/pages/Insights.tsx:48-55 | the chart has 7 or 30 entries ending today on consecutive days; one stats record per habit over the period's days |
| `Motivation.PickIndex` | src/components/MotivationalMessage.tsx:41 | `floor(random × len)` is an index of a non-empty array |
| `Motivation.Messages` | src/components/MotivationalMessage.tsx:7-28 | every tier holds three messages |
| `Motivation.SelectTier` | src/components/MotivationalMessage.tsx:31-39 | the 100 tier exactly at 100, the 0 tier exactly below 50, and never a tier whose key exceeds a non-negative percentage |
| `Motivation.PaletteFor` | src/components/MotivationalMessage.tsx:49-75 | emerald exactly at 100, blue exactly at 80..99 (any p >= 80 other than 100), gray exactly below 80 |
| `Motivation.Render` | src/components/MotivationalMessage.tsx:30-79 | nothing is shown exactly when 0 < p < 50; otherwise a message of the selected tier in the palette for p |
| `Motivation.TierIsLargestKeyNotAbove` | src/components/MotivationalMessage.tsx:31-39 | for 0..100 the chosen tier has the largest key among 100, 80, 50 and 0 that is not above the percentage |
| `Motivation.TierMonotone` | src/components/MotivationalMessage.tsx:31-39 | a higher percentage never selects a lower tier |
| `Motivation.RenderMeaning` | src/components/MotivationalMessage.tsx:41-75 | nothing is shown exactly when 0 < p < 50; otherwise the message is from the chosen tier; the palette is emerald at 100, blue at >= 80 and gray below |
| `Motivation.ShownTierAndPalette` | src/components/MotivationalMessage.tsx:31-75 | in 0..100 the 0 tier is shown only at exactly 0; emerald goes with the 100 tier, blue with the 80 tier, gray with the others |
| `Lists.Filter` | src/pages/Dashboard.tsx:44-48 | `filter` keeps exactly the elements that satisfy the predicate, each no more often than in the input |
| `Lists.FilterAppend` | src/pages/Dashboard.tsx:44-46 | the filter distributes over concatenation, so it keeps the input order |
| `Lists.FilterMultiplicity` | src/pages/Dashboard.tsx:44-46 | a kept element occurs as often as in the input, any other not at all |
| `Lists.FilterKeepsAll` | src/pages/Dashboard.tsx:48 | the filter keeps everything exactly when every element satisfies the predicate |
| `Dashboard.Prayers` | src/pages/Dashboard.tsx:44 | exactly the habits of category prayer |
| `Dashboard.OtherHabits` | src/pages/Dashboard.tsx:46 | exactly the habits of neither category prayer nor quran |
| `Dashboard.QuranHabit` | src/pages/Dashboard.tsx:45 | absent exactly when there is no quran habit; otherwise the first quran habit in the list |
| `Dashboard.PrayersMeaning` | src/pages/Dashboard.tsx:44 | prayers are exactly the prayer habits, in list order (the filter distributes over concatenation) |
| `Dashboard.CategoryPartition` | src/pages/Dashboard.tsx:44-46 | prayers and other habits are disjoint; with the quran habits they make up the list, each habit as often as it occurs |
| `Dashboard.TotalCompleted` | src/pages/Dashboard.tsx:48 | at most the number of habits; 0 exactly when none is done today; the number of habits exactly when all are |
| `Dashboard.Round` | src/pages/Dashboard.tsx:50 | `Math.round` gives the integer within half of its argument, halves rounded up |
| `Dashboard.CompletionPercentage` | src/pages/Dashboard.tsx:49-50 | the percentage is a whole number in 0..100 |
| `Dashboard.CompletionPercentageMeaning` | src/pages/Dashboard.tsx:48-50 | the percentage is the rounded completed share (0 without habits); 100 when all are done and 0 when none is; the converse holds below 200 habits (100) and up to 200 habits (0) |
| `Dashboard.DashboardMessage` | src/pages/Dashboard.tsx:95-99 | with habits present, all done shows a 100-tier message in emerald; none done shows a 0-tier message in gray |

## Left out

- `src/lib/db.ts` is not part of this model. It holds the network storage
  calls (fetch, insert, upsert, delete).
  - One log per habit and day: `toggleHabitCompletion` and `updateHabitValue`
    update the habit's log of that day when there is one and insert a log
    only otherwise (`src/lib/db.ts:39-57`, `src/lib/db.ts:65-84`). The model
    makes this the explicit assumption `OncePerDay` where a lemma needs it.
  - `LogsOfListedHabits` (every completed log belongs to a listed habit) is
    an extra hypothesis, not a rule of the data. The habit list holds only
    active habits (`src/lib/db.ts:9`), while the logs of a date range
    include every habit's (`src/lib/db.ts:124-137`). The completed logs of
    an inactive habit count towards the overall rate but towards no habit's
    statistics, and then the hypothesis fails.
  - The Insights page fetches logs only from the week or month start
    (`fetchLogsInRange`). That fetch is not modelled: the report takes the
    logs as given.
- React state, effects, rendering and the JSX markup are left out. The one
  display rule kept is the Dashboard's `totalHabits > 0` guard around the
  message.
- Time zones and daylight saving are not modelled. The source mixes local
  `getDate`/`setDate`/`getDay`/`new Date(y, m, 1)` with UTC `toISOString`
  and ISO date parsing. The model reads all of these in UTC, where each date
  is a whole number of days.
- The conversion from an epoch time value to a civil date is not modelled.
  "Now" is given as an already-split UTC date and time of day. The range
  limit of JavaScript time values (±8.64e15 ms) is not modelled either.
- The ISO round trip is proved for years 0..9999, the four-digit form. The
  six-digit expanded-year form is written but not parsed back.
- Numbers are modelled as integers and exact reals, not floating point.
  - Rates and the overall rate are exact quotients.
  - `Math.round` is applied to an exact value.
  - With floating point, a share such as 0.995 could round differently.
- Date strings are modelled as day numbers throughout the analytics. The
  step from a string to a day is what the ISO round-trip lemmas justify.
- `Math.random` is modelled as the parameter `pick`.
- `formatDate` (`src/lib/utils.ts:17-20`) is not modelled: it depends on
  locale formatting.
- `src/components/*` other than `MotivationalMessage.tsx`, and
  `src/App.tsx`, are not modelled: they are presentation and input widgets.
- Insights.OverallRate: only the counts are split per habit. When
  the two hypotheses of `CompletionsSplitByHabit` hold (distinct habit ids,
  no completed logs of habits outside the list), the overall rate is the
  mean of the habits' rates. That follows from this function's contract,
  `CompletionsSplitByHabit` and `HabitStatsMeaning`, but is not proved as a
  single real-number equation. When an inactive habit has completed logs in
  the range, the overall rate is higher than that mean.
- Analytics.Series: the series counts completed logs of any habit per day.
  The source does the same: it does not count distinct habits, so a
  duplicate log counts twice.
- The rates use `totalDays` = 7 or 30 whatever the length of the range
  whose logs were fetched. The source does the same, and the model keeps
  it.
  - Early in a week or month, fewer days than `totalDays` have passed.
  - On day 31 of a month, the month's range holds 31 days against
    `totalDays` = 30. A habit done every one of those days then has a rate
    above 100 and drops out of `needsImprovement`. The model keeps this:
    `CompletionRate` exceeds 100 exactly when the completed logs outnumber
    `totalDays` (its fourth ensures).
