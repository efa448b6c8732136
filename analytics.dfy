/** The streak and statistics engine of src/lib/analytics.ts, over the
    records of src/lib/types.ts.  A date is its day number (see Calendar):
    `new Date(log_date)` is midnight UTC of that date, so
    `Math.floor((a - b) / 86400000)` between two such dates is the difference
    of their day numbers, and the `setDate(getDate() - 1)` steps are "minus
    one day". */
module Analytics {
  import opened Sorting
  import opened Lists

  /** A date as its day number, 1970-01-01 being day 0. */
  type Day = int

  datatype Category = Prayer | Quran | General | Custom

  /** The fields of a habits row that the core reads. */
  datatype Habit = Habit(id: string, name: string, category: Category)

  /** The fields of a habit_logs row that the core reads. */
  datatype HabitLog = HabitLog(habitId: string, logDate: Day, completed: bool)

  /** The summary record built by calculateHabitStats. */
  datatype HabitStats = HabitStats(
    habitId: string,
    habitName: string,
    currentStreak: nat,
    longestStreak: nat,
    completionRate: real,
    totalCompleted: nat,
    totalDays: int)

  /** One `{ date, count }` entry of the daily series. */
  datatype DayCount = DayCount(date: Day, count: nat)

  function Max(a: int, b: int): int {
    if a >= b then a else b
  }

  /** Sort keys for `new Date(b) - new Date(a)` (newest first) and
      `new Date(a) - new Date(b)` (oldest first). */
  function NewestFirst(d: Day): real {
    -(d as real)
  }

  function OldestFirst(d: Day): real {
    d as real
  }

  /** The dates of the completed logs of habit h, in input order: the
      `filter(log => log.habit_id === habitId && log.completed)` of
      analytics.ts:16 and :48. */
  function CompletedDays(logs: seq<HabitLog>, h: string): (ds: seq<Day>)
    ensures |ds| <= |logs|
    ensures forall d :: d in ds <==> exists l :: l in logs && l.habitId == h && l.completed && l.logDate == d
  {
    if logs == [] then []
    else
      assert forall l :: l in logs <==> l == logs[0] || l in logs[1..];
      (if logs[0].habitId == h && logs[0].completed then [logs[0].logDate] else [])
      + CompletedDays(logs[1..], h)
  }

  // ---------------------------------------------------------------- current streak

  /** The loop of calculateStreak (analytics.ts:25-41) over dates sorted newest
      first, with the cursor date it has reached.  Both counting branches leave
      the cursor on the day before the log just counted. */
  function Walk(ds: seq<Day>, cursor: Day): (n: nat)
    ensures n <= |ds|
    ensures n > 0 ==> ds[0] == cursor || ds[0] == cursor - 1
  {
    if ds == [] then 0
    else
      var diffDays := cursor - ds[0];
      if diffDays == 0 then 1 + Walk(ds[1..], cursor - 1)
      else if diffDays == 1 then 1 + Walk(ds[1..], ds[0] - 1)
      else 0
  }

  /** calculateStreak(logs, habitId) with "today" passed in. */
  function CurrentStreak(logs: seq<HabitLog>, h: string, today: Day): (n: nat)
    ensures n <= |CompletedDays(logs, h)|
    ensures n > 0 ==> today in CompletedDays(logs, h) || today - 1 in CompletedDays(logs, h)
  {
    var ds := SortBy(CompletedDays(logs, h), NewestFirst);
    assert ds != [] ==> ds[0] in multiset(CompletedDays(logs, h));
    Walk(ds, today)
  }

  /** calculateStreak (analytics.ts:14-44): filter, sort newest first, and
      walk back from today. */
  method CalculateStreak(logs: seq<HabitLog>, habitId: string, today: Day) returns (streak: nat)
    ensures streak == CurrentStreak(logs, habitId, today)
  {
    var habitLogs := SortBy(CompletedDays(logs, habitId), NewestFirst);
    if |habitLogs| == 0 {
      return 0;
    }
    streak := WalkBack(habitLogs, today);
  }

  /** The loop of calculateStreak (analytics.ts:21-43) as written, over the
      sorted completed dates. */
  method WalkBack(habitLogs: seq<Day>, today: Day) returns (streak: nat)
    ensures streak == Walk(habitLogs, today)
  {
    streak := 0;
    var currentDate := today;
    var i := 0;
    while i < |habitLogs|
      invariant 0 <= i <= |habitLogs|
      invariant streak + Walk(habitLogs[i..], currentDate) == Walk(habitLogs, today)
    {
      var logDate := habitLogs[i];
      var diffDays := currentDate - logDate;
      assert habitLogs[i..][0] == logDate && habitLogs[i..][1..] == habitLogs[i + 1..];
      if diffDays == 0 {
        streak := streak + 1;
        currentDate := currentDate - 1;
      } else if diffDays == 1 {
        streak := streak + 1;
        currentDate := logDate - 1;
      } else {
        break;
      }
      i := i + 1;
    }
  }

  // ---------------------------------------------------------------- longest streak

  /** Length of the run of one-day steps that ends at index i. */
  function RunEndingAt(ds: seq<Day>, i: int): (n: nat)
    requires 0 <= i < |ds|
    ensures 1 <= n <= i + 1
  {
    if i == 0 || ds[i] - ds[i - 1] != 1 then 1 else 1 + RunEndingAt(ds, i - 1)
  }

  /** The longest run ending before index n. */
  function MaxRunUpTo(ds: seq<Day>, n: int): (m: nat)
    requires 1 <= n <= |ds|
    ensures 1 <= m <= n
  {
    if n == 1 then RunEndingAt(ds, 0) else Max(MaxRunUpTo(ds, n - 1), RunEndingAt(ds, n - 1))
  }

  /** The longest run of one-day steps in ds, 0 when ds is empty. */
  function LongestRun(ds: seq<Day>): nat {
    if ds == [] then 0 else MaxRunUpTo(ds, |ds|)
  }

  /** calculateLongestStreak(logs, habitId). */
  function LongestStreak(logs: seq<HabitLog>, h: string): (n: nat)
    ensures n <= |CompletedDays(logs, h)|
    ensures n == 0 <==> CompletedDays(logs, h) == []
  {
    LongestRun(SortBy(CompletedDays(logs, h), OldestFirst))
  }

  /** calculateLongestStreak (analytics.ts:46-72): filter, sort oldest first,
      and scan for runs. */
  method CalculateLongestStreak(logs: seq<HabitLog>, habitId: string) returns (longest: nat)
    ensures longest == LongestStreak(logs, habitId)
  {
    var habitLogs := SortBy(CompletedDays(logs, habitId), OldestFirst);
    if |habitLogs| == 0 {
      return 0;
    }
    longest := ScanRuns(habitLogs);
  }

  /** The loop of calculateLongestStreak (analytics.ts:53-71) as written:
      maxStreak only absorbs a run when the run breaks, and the final run is
      taken into account after the loop. */
  method ScanRuns(habitLogs: seq<Day>) returns (longest: nat)
    requires |habitLogs| > 0
    ensures longest == LongestRun(habitLogs)
  {
    var maxStreak := 0;
    var currentStreak := 1;
    for i := 1 to |habitLogs|
      invariant currentStreak == RunEndingAt(habitLogs, i - 1)
      invariant Max(maxStreak, currentStreak) == MaxRunUpTo(habitLogs, i)
    {
      var diffDays := habitLogs[i] - habitLogs[i - 1];
      if diffDays == 1 {
        currentStreak := currentStreak + 1;
      } else {
        maxStreak := Max(maxStreak, currentStreak);
        currentStreak := 1;
      }
    }
    longest := Max(maxStreak, currentStreak);
  }

  // ---------------------------------------------------------------- habit stats

  /** The completion rate of calculateHabitStats (analytics.ts:87): the
      completed count as a percentage of totalDays, 0 when totalDays is not
      positive. */
  function CompletionRate(completed: nat, totalDays: int): (rate: real)
    ensures totalDays <= 0 ==> rate == 0.0
    ensures totalDays > 0 ==> rate * totalDays as real == 100.0 * completed as real
    ensures rate >= 0.0
    ensures totalDays > 0 ==> (rate <= 100.0 <==> completed <= totalDays)
  {
    if totalDays > 0 then
      var c, t := completed as real, totalDays as real;
      var r := (c / t) * 100.0;
      assert (c / t) * t == c;
      assert r * t == 100.0 * c;
      assert r <= 100.0 ==> r * t <= 100.0 * t;
      assert r > 100.0 ==> r * t > 100.0 * t;
      r
    else 0.0
  }

  /** Multiplying by a positive factor keeps an order between reals: the
      step from a rate times its days back to the rate itself. */
  lemma ScaleBy(a: real, b: real, t: real)
    requires t > 0.0 && a <= b
    ensures a * t <= b * t
    ensures a < b ==> a * t < b * t
  {
    assert b * t - a * t == (b - a) * t;
  }

  /** calculateHabitStats (analytics.ts:74-91). */
  function CalculateHabitStats(habit: Habit, logs: seq<HabitLog>, totalDays: int, today: Day): (r: HabitStats)
    ensures r.habitId == habit.id && r.totalDays == totalDays
    ensures r.currentStreak <= r.totalCompleted && r.longestStreak <= r.totalCompleted
    ensures r.totalCompleted == |CompletedDays(logs, habit.id)|
    ensures r.completionRate == CompletionRate(r.totalCompleted, totalDays)
  {
    var completed := |CompletedDays(logs, habit.id)|;
    HabitStats(
      habit.id,
      habit.name,
      CurrentStreak(logs, habit.id, today),
      LongestStreak(logs, habit.id),
      CompletionRate(completed, totalDays),
      completed,
      totalDays)
  }

  // ---------------------------------------------------------------- daily series

  /** Completed logs of any habit dated d: the value the `dateMap` of
      getWeeklyData/getMonthlyData holds for d. */
  function CompletedOn(logs: seq<HabitLog>, d: Day): (n: nat)
    ensures n <= |logs|
  {
    if logs == [] then 0
    else
      var last := logs[|logs| - 1];
      CompletedOn(logs[..|logs| - 1], d) + (if last.completed && last.logDate == d then 1 else 0)
  }

  /** `dateMap.get(d) || 0`. */
  function Lookup(m: map<Day, nat>, d: Day): nat {
    if d in m then m[d] else 0
  }

  /** The n-day series ending at endDate, oldest first. */
  function Series(logs: seq<HabitLog>, endDate: Day, n: nat): (r: seq<DayCount>)
    decreases n
    ensures |r| == n
    ensures forall k :: 0 <= k < n ==> r[k].date == endDate - (n - 1) + k
    ensures forall k :: 0 <= k < n ==> r[k].count == CompletedOn(logs, r[k].date)
  {
    if n == 0 then [] else Series(logs, endDate - 1, n - 1) + [DayCount(endDate, CompletedOn(logs, endDate))]
  }

  /** getWeeklyData (n = 7) and getMonthlyData (n = 30), analytics.ts:93-137:
      count completed logs per date into a map, then push one entry per day
      from endDate - (n - 1) up to endDate. */
  method DailySeries(logs: seq<HabitLog>, endDate: Day, n: nat) returns (data: seq<DayCount>)
    ensures data == Series(logs, endDate, n)
  {
    var dateMap: map<Day, nat> := map[];
    for j := 0 to |logs|
      invariant forall d :: Lookup(dateMap, d) == CompletedOn(logs[..j], d)
    {
      assert logs[..j + 1][..j] == logs[..j];
      var log := logs[j];
      if log.completed {
        dateMap := dateMap[log.logDate := Lookup(dateMap, log.logDate) + 1];
      }
    }
    assert logs[..|logs|] == logs;
    data := [];
    var i: int := n - 1;
    while i >= 0
      invariant -1 <= i <= n - 1
      invariant data == Series(logs, endDate - (i + 1), n - 1 - i)
    {
      var date := endDate - i;
      data := data + [DayCount(date, Lookup(dateMap, date))];
      i := i - 1;
    }
  }

  /** getWeeklyData(logs, endDate) (analytics.ts:93-114). */
  method GetWeeklyData(logs: seq<HabitLog>, endDate: Day) returns (data: seq<DayCount>)
    ensures data == Series(logs, endDate, 7)
  {
    data := DailySeries(logs, endDate, 7);
  }

  /** getMonthlyData(logs, endDate) (analytics.ts:116-137). */
  method GetMonthlyData(logs: seq<HabitLog>, endDate: Day) returns (data: seq<DayCount>)
    ensures data == Series(logs, endDate, 30)
  {
    data := DailySeries(logs, endDate, 30);
  }

  // ---------------------------------------------------------------- which logs count

  lemma {:induction false} CompletedDaysAppend(a: seq<HabitLog>, b: seq<HabitLog>, h: string)
    ensures CompletedDays(a + b, h) == CompletedDays(a, h) + CompletedDays(b, h)
  {
    if a == [] {
      assert a + b == b;
    } else {
      assert (a + b)[0] == a[0] && (a + b)[1..] == a[1..] + b;
      CompletedDaysAppend(a[1..], b, h);
    }
  }

  /** Whether a log is a completed log of habit h dated d. */
  function CompletedLogOn(h: string, d: Day): HabitLog -> bool {
    (l: HabitLog) => l.habitId == h && l.completed && l.logDate == d
  }

  /** Each date occurs among the completed dates exactly as often as the
      habit has completed logs of that date. */
  lemma {:induction false} CompletedDaysCount(logs: seq<HabitLog>, h: string, d: Day)
    ensures multiset(CompletedDays(logs, h))[d] == |Filter(logs, CompletedLogOn(h, d))|
  {
    if logs != [] {
      CompletedDaysCount(logs[1..], h, d);
      var head: seq<Day> := if logs[0].habitId == h && logs[0].completed then [logs[0].logDate] else [];
      assert CompletedDays(logs, h) == head + CompletedDays(logs[1..], h);
      assert multiset(CompletedDays(logs, h)) == multiset(head) + multiset(CompletedDays(logs[1..], h));
    }
  }

  /** Reordering the logs reorders the completed dates and nothing more. */
  lemma {:induction false} CompletedDaysPermutation(a: seq<HabitLog>, b: seq<HabitLog>, h: string)
    requires multiset(a) == multiset(b)
    ensures multiset(CompletedDays(a, h)) == multiset(CompletedDays(b, h))
    decreases |a|
  {
    if a == [] {
      assert |b| == |multiset(b)| == 0;
    } else {
      var x := a[0];
      assert x in multiset(b);
      var k :| 0 <= k < |b| && b[k] == x;
      var rest := b[..k] + b[k + 1..];
      assert b == b[..k] + ([x] + b[k + 1..]);
      assert multiset(rest) == multiset(b) - multiset{x};
      assert a == [x] + a[1..];
      assert multiset(a[1..]) == multiset(a) - multiset{x};
      CompletedDaysPermutation(a[1..], rest, h);
      CompletedDaysAppend(b[..k], [x] + b[k + 1..], h);
      CompletedDaysAppend([x], b[k + 1..], h);
      CompletedDaysAppend(b[..k], b[k + 1..], h);
      CompletedDaysAppend([x], a[1..], h);
    }
  }

  /** Both streaks depend on the logs only as a collection: any reordering of
      the input gives the same values (analytics.ts:15-17, 47-49). */
  lemma StreaksIgnoreOrder(a: seq<HabitLog>, b: seq<HabitLog>, h: string, today: Day)
    requires multiset(a) == multiset(b)
    ensures CurrentStreak(a, h, today) == CurrentStreak(b, h, today)
    ensures LongestStreak(a, h) == LongestStreak(b, h)
  {
    CompletedDaysPermutation(a, b, h);
    var da := CompletedDays(a, h);
    assert DistinctKeys(da, NewestFirst) && DistinctKeys(da, OldestFirst);
    SortIgnoresOrder(da, CompletedDays(b, h), NewestFirst);
    SortIgnoresOrder(da, CompletedDays(b, h), OldestFirst);
  }

  /** Logs of other habits and uncompleted logs do not change either streak
      (analytics.ts:16, 48); with StreaksIgnoreOrder this holds wherever in
      the input they sit. */
  lemma StreaksIgnoreOtherLogs(logs: seq<HabitLog>, other: seq<HabitLog>, h: string, today: Day)
    requires forall l :: l in other ==> l.habitId != h || !l.completed
    ensures CurrentStreak(logs + other, h, today) == CurrentStreak(logs, h, today)
    ensures LongestStreak(logs + other, h) == LongestStreak(logs, h)
  {
    CompletedDaysAppend(logs, other, h);
    NoCompletedDays(other, h);
    assert CompletedDays(logs, h) + [] == CompletedDays(logs, h);
  }

  lemma {:induction false} NoCompletedDays(logs: seq<HabitLog>, h: string)
    requires forall l :: l in logs ==> l.habitId != h || !l.completed
    ensures CompletedDays(logs, h) == []
  {
    if logs != [] {
      assert logs[0] in logs;
      NoCompletedDays(logs[1..], h);
    }
  }

  // ---------------------------------------------------------------- current streak properties

  /** Sorted newest first, the first date is a completed date and no
      completed date is later. */
  lemma NewestComesFirst(cd: seq<Day>)
    requires cd != []
    ensures SortBy(cd, NewestFirst)[0] in cd
    ensures forall d :: d in cd ==> d <= SortBy(cd, NewestFirst)[0]
  {
    var ds := SortBy(cd, NewestFirst);
    assert ds[0] in multiset(cd);
    forall d | d in cd ensures d <= ds[0] {
      assert d in multiset(ds);
      var k :| 0 <= k < |ds| && ds[k] == d;
      assert k == 0 || NewestFirst(ds[0]) <= NewestFirst(ds[k]);
    }
  }

  /** The current streak is 0 when the newest completed log is more than one
      day before today, or when some completed log is dated after today
      (analytics.ts:25-40: the first difference is then above 1 or negative). */
  lemma CurrentStreakStale(logs: seq<HabitLog>, h: string, today: Day)
    requires (forall d :: d in CompletedDays(logs, h) ==> d < today - 1)
          || (exists d :: d in CompletedDays(logs, h) && d > today)
    ensures CurrentStreak(logs, h, today) == 0
  {
    var cd := CompletedDays(logs, h);
    if cd != [] {
      var ds := SortBy(cd, NewestFirst);
      NewestComesFirst(cd);
      if exists d :: d in cd && d > today {
        var d :| d in cd && d > today;
        assert d <= ds[0];
      } else {
        assert ds[0] in cd;
        assert ds[0] < today - 1;
      }
      assert ds == [ds[0]] + ds[1..];
      assert today - ds[0] < 0 || today - ds[0] > 1;
      assert Walk(ds, today) == 0;
    }
  }

  /** Whether the walk counts the j-th date of ds: the cursor (today for the
      first date, the day before the previous date after that) is that date
      or the day after it. */
  predicate Counts(ds: seq<Day>, today: Day, j: int)
    requires 0 <= j < |ds|
  {
    var cursor := if j == 0 then today else ds[j - 1] - 1;
    cursor - ds[j] == 0 || cursor - ds[j] == 1
  }

  /** The streak is the number of leading dates the walk counts: the first is
      today or yesterday, each next one is one or two days before the one
      counted before it, so a single missed day does not end the streak; the
      first date that fails this ends it. */
  lemma {:induction false} WalkStopsAtFirstGap(ds: seq<Day>, today: Day)
    ensures forall j :: 0 <= j < Walk(ds, today) ==> Counts(ds, today, j)
    ensures Walk(ds, today) < |ds| ==> !Counts(ds, today, Walk(ds, today))
  {
    if ds != [] && Counts(ds, today, 0) {
      var tail := ds[1..];
      WalkStopsAtFirstGap(tail, ds[0] - 1);
      forall k | 1 <= k < |ds| ensures Counts(ds, today, k) == Counts(tail, ds[0] - 1, k - 1) {
        assert tail[k - 1] == ds[k];
        if k > 1 {
          assert tail[k - 2] == ds[k - 1];
        }
      }
    }
  }

  /** Bounds of both streaks: 0 without completed logs; otherwise the longest
      streak is at least 1 (exactly 1 for a single log) and neither exceeds the
      number of completed logs, since each step adds at most one
      (analytics.ts:19, 25-41, 51-71). */
  lemma StreakBounds(logs: seq<HabitLog>, h: string, today: Day)
    ensures CurrentStreak(logs, h, today) <= |CompletedDays(logs, h)|
    ensures LongestStreak(logs, h) <= |CompletedDays(logs, h)|
    ensures CompletedDays(logs, h) == [] ==> CurrentStreak(logs, h, today) == 0 && LongestStreak(logs, h) == 0
    ensures CompletedDays(logs, h) != [] ==> LongestStreak(logs, h) >= 1
    ensures |CompletedDays(logs, h)| == 1 ==> LongestStreak(logs, h) == 1
  {
  }

  // ---------------------------------------------------------------- longest streak properties

  /** ds[i..j] is a run: every date in it is one day after the one before.
      An equal date (difference 0) breaks a run like any other gap. */
  ghost predicate IsRun(ds: seq<Day>, i: int, j: int) {
    0 <= i < j <= |ds| && forall k :: i < k < j ==> ds[k] - ds[k - 1] == 1
  }

  lemma {:induction false} RunEndingAtIsLongest(ds: seq<Day>, e: int)
    requires 1 <= e <= |ds|
    ensures IsRun(ds, e - RunEndingAt(ds, e - 1), e)
    ensures forall a :: IsRun(ds, a, e) ==> e - a <= RunEndingAt(ds, e - 1)
  {
    var i := e - 1;
    if i > 0 && ds[i] - ds[i - 1] == 1 {
      RunEndingAtIsLongest(ds, i);
      forall a | IsRun(ds, a, e) ensures e - a <= RunEndingAt(ds, i) {
        if a < i {
          assert IsRun(ds, a, i);
        }
      }
    } else {
      forall a | IsRun(ds, a, e) ensures e - a <= 1 {
      }
    }
  }

  lemma {:induction false} MaxRunUpToIsLongest(ds: seq<Day>, n: int)
    requires 1 <= n <= |ds|
    ensures exists i, j :: IsRun(ds, i, j) && j <= n && j - i == MaxRunUpTo(ds, n)
    ensures forall i, j :: IsRun(ds, i, j) && j <= n ==> j - i <= MaxRunUpTo(ds, n)
  {
    RunEndingAtIsLongest(ds, n);
    var r := RunEndingAt(ds, n - 1);
    assert IsRun(ds, n - r, n);
    if n > 1 {
      MaxRunUpToIsLongest(ds, n - 1);
      forall i, j | IsRun(ds, i, j) && j <= n ensures j - i <= MaxRunUpTo(ds, n) {
        if j == n {
          assert n - i <= r;
        } else {
          assert j <= n - 1;
        }
      }
    } else {
      forall i, j | IsRun(ds, i, j) && j <= n ensures j - i <= MaxRunUpTo(ds, n) {
        assert j == 1;
      }
    }
  }

  /** LongestRun is the length of a longest run of one-day steps: some run
      has that length and none is longer (analytics.ts:53-71); it is 0
      exactly for no dates. */
  lemma LongestRunIsLongest(ds: seq<Day>)
    ensures ds == [] <==> LongestRun(ds) == 0
    ensures ds != [] ==> exists i, j :: IsRun(ds, i, j) && j - i == LongestRun(ds)
    ensures forall i, j :: IsRun(ds, i, j) ==> j - i <= LongestRun(ds)
  {
    if ds != [] {
      MaxRunUpToIsLongest(ds, |ds|);
    }
  }

  /** Every completed date of the habit occurs at most once: the one-log-per-
      habit-and-date rule of the store, which the core only assumes. */
  ghost predicate OncePerDay(cd: seq<Day>) {
    forall d :: multiset(cd)[d] <= 1
  }

  /** All days start, start + 1, ..., start + len - 1 are completed dates. */
  ghost predicate CompletedThrough(cd: seq<Day>, start: Day, len: int) {
    forall d :: start <= d < start + len ==> d in cd
  }

  lemma RepeatedValue(s: seq<Day>, i: int, j: int)
    requires 0 <= i < j < |s| && s[i] == s[j]
    ensures multiset(s)[s[i]] >= 2
  {
    assert s == s[..j] + s[j..];
    assert s[i] in s[..j] && s[j] in s[j..];
    assert multiset(s)[s[i]] == multiset(s[..j])[s[i]] + multiset(s[j..])[s[i]];
  }

  /** Sorted oldest first without repeats, the dates strictly increase. */
  lemma StrictlyIncreasing(cd: seq<Day>)
    requires OncePerDay(cd)
    ensures forall i, j :: 0 <= i < j < |SortBy(cd, OldestFirst)| ==> SortBy(cd, OldestFirst)[i] < SortBy(cd, OldestFirst)[j]
  {
    var ds := SortBy(cd, OldestFirst);
    forall i, j | 0 <= i < j < |ds| ensures ds[i] < ds[j] {
      assert OldestFirst(ds[i]) <= OldestFirst(ds[j]);
      if ds[i] == ds[j] {
        RepeatedValue(ds, i, j);
      }
    }
  }

  /** In strictly increasing dates, a run from index i covers the days
      ds[i], ds[i] + 1, ... one by one. */
  lemma {:induction false} RunCoversDays(ds: seq<Day>, i: int, j: int, m: int)
    requires IsRun(ds, i, j) && 0 <= m < j - i
    ensures ds[i + m] == ds[i] + m
  {
    if m > 0 {
      RunCoversDays(ds, i, j, m - 1);
    }
  }

  /** In strictly increasing dates, a block of len consecutive days that are
      all present starts a run of len entries. */
  lemma {:induction false} BlockIsRun(ds: seq<Day>, i: int, len: int)
    requires forall a, b :: 0 <= a < b < |ds| ==> ds[a] < ds[b]
    requires 0 <= i < |ds| && len >= 1
    requires forall d :: ds[i] <= d < ds[i] + len ==> d in ds
    ensures i + len <= |ds| && IsRun(ds, i, i + len)
  {
    if len > 1 {
      BlockIsRun(ds, i, len - 1);
      RunCoversDays(ds, i, i + len - 1, len - 2);
      var target := ds[i] + len - 1;
      assert target in ds;
      var p :| 0 <= p < |ds| && ds[p] == target;
      assert p > i + len - 2;
      assert ds[i + len - 1] <= target;
    }
  }

  /** Over strictly increasing dates holding the same days as cd, the
      longest run is the longest block of consecutive days present in cd. */
  lemma DayBlocks(cd: seq<Day>, ds: seq<Day>)
    requires multiset(ds) == multiset(cd)
    requires forall a, b :: 0 <= a < b < |ds| ==> ds[a] < ds[b]
    ensures LongestRun(ds) > 0 ==> exists start :: CompletedThrough(cd, start, LongestRun(ds))
    ensures forall start, len :: CompletedThrough(cd, start, len) ==> len <= LongestRun(ds)
  {
    var best := LongestRun(ds);
    LongestRunIsLongest(ds);
    if best > 0 {
      var i, j :| IsRun(ds, i, j) && j - i == best;
      forall d | ds[i] <= d < ds[i] + best ensures d in cd {
        RunCoversDays(ds, i, j, d - ds[i]);
        assert ds[i + (d - ds[i])] in multiset(cd);
      }
      assert CompletedThrough(cd, ds[i], best);
    }
    forall start, len | CompletedThrough(cd, start, len) ensures len <= best {
      if len >= 1 {
        assert start in cd;
        assert start in multiset(ds);
        var i :| 0 <= i < |ds| && ds[i] == start;
        forall d | ds[i] <= d < ds[i] + len ensures d in ds {
          assert d in cd && d in multiset(ds);
        }
        BlockIsRun(ds, i, len);
      }
    }
  }

  /** With at most one completed log per day, the longest streak is the
      length of the longest block of consecutive calendar days that all have
      a completed log (analytics.ts:56-71). */
  lemma LongestStreakIsLongestDayBlock(logs: seq<HabitLog>, h: string)
    requires OncePerDay(CompletedDays(logs, h))
    ensures LongestStreak(logs, h) > 0 ==>
              exists start :: CompletedThrough(CompletedDays(logs, h), start, LongestStreak(logs, h))
    ensures forall start, len :: CompletedThrough(CompletedDays(logs, h), start, len) ==> len <= LongestStreak(logs, h)
  {
    var cd := CompletedDays(logs, h);
    StrictlyIncreasing(cd);
    DayBlocks(cd, SortBy(cd, OldestFirst));
  }

  // ---------------------------------------------------------------- the consecutive-days reading of a streak

  /** The walk under the consecutive-days reading: only the first log may be yesterday's
      (today not logged yet); after that each log must be the cursor day. */
  function ConsecutiveWalk(ds: seq<Day>, cursor: Day, first: bool): (n: nat)
    ensures n <= |ds|
  {
    if ds == [] then 0
    else
      var diffDays := cursor - ds[0];
      if diffDays == 0 then 1 + ConsecutiveWalk(ds[1..], cursor - 1, false)
      else if diffDays == 1 && first then 1 + ConsecutiveWalk(ds[1..], ds[0] - 1, false)
      else 0
  }

  /** The consecutive-days reading of a streak: consecutive completed
      days ending today, or yesterday when today has no log yet. */
  function ConsecutiveStreak(logs: seq<HabitLog>, h: string, today: Day): nat {
    ConsecutiveWalk(SortBy(CompletedDays(logs, h), NewestFirst), today, true)
  }

  /** The consecutive-days walk counts the newest dates only while they are
      consecutive days, starting today or (first step only) yesterday. */
  lemma {:induction false} ConsecutiveWalkSteps(ds: seq<Day>, cursor: Day, first: bool)
    ensures ConsecutiveWalk(ds, cursor, first) > 0 ==> ds[0] == cursor || (first && ds[0] == cursor - 1)
    ensures forall j :: 0 <= j < ConsecutiveWalk(ds, cursor, first) ==> ds[j] == ds[0] - j
  {
    if ds != [] && ConsecutiveWalk(ds, cursor, first) > 0 {
      var tail := ds[1..];
      ConsecutiveWalkSteps(tail, ds[0] - 1, false);
      forall j | 1 <= j < ConsecutiveWalk(ds, cursor, first) ensures ds[j] == ds[0] - j {
        assert ds[j] == tail[j - 1];
        if j > 1 {
          assert tail[j - 1] == tail[0] - (j - 1);
        }
      }
    }
  }

  /** With at most one completed log per day, the consecutive-days streak
      never exceeds the longest streak (the property a contiguous run of
      days ending today must have). */
  lemma ConsecutiveWithinLongest(logs: seq<HabitLog>, h: string, today: Day)
    requires OncePerDay(CompletedDays(logs, h))
    ensures ConsecutiveStreak(logs, h, today) <= LongestStreak(logs, h)
  {
    var cd := CompletedDays(logs, h);
    var ds := SortBy(cd, NewestFirst);
    var n := ConsecutiveWalk(ds, today, true);
    ConsecutiveWalkSteps(ds, today, true);
    if n > 0 {
      DescendingBlock(cd, ds, n);
      LongestStreakIsLongestDayBlock(logs, h);
    }
  }

  /** Entries that step down one day at a time from the newest date form a
      block of consecutive completed days. */
  lemma DescendingBlock(cd: seq<Day>, ds: seq<Day>, n: int)
    requires multiset(ds) == multiset(cd)
    requires 0 < n <= |ds|
    requires forall j :: 0 <= j < n ==> ds[j] == ds[0] - j
    ensures CompletedThrough(cd, ds[0] - n + 1, n)
  {
    forall d | ds[0] - n + 1 <= d < ds[0] + 1 ensures d in cd {
      var j := ds[0] - d;
      assert ds[j] == d;
      assert ds[j] in multiset(cd);
    }
  }

  /** The walk as written counts at least as much as the consecutive-days
      walk: it accepts every step the latter accepts. */
  lemma {:induction false} ConsecutiveWithinWritten(ds: seq<Day>, cursor: Day, first: bool)
    ensures ConsecutiveWalk(ds, cursor, first) <= Walk(ds, cursor)
  {
    if ds != [] {
      var diffDays := cursor - ds[0];
      if diffDays == 0 {
        ConsecutiveWithinWritten(ds[1..], cursor - 1, false);
      } else if diffDays == 1 {
        ConsecutiveWithinWritten(ds[1..], ds[0] - 1, false);
      }
    }
  }

  /** The code as written: with completed logs today and two days ago (none
      yesterday) the current streak is 2, while the longest streak is 1 and
      the consecutive-days streak is 1. */
  lemma GapDayStillCounts(h: string, today: Day)
    ensures var logs := [HabitLog(h, today - 2, true), HabitLog(h, today, true)];
            CurrentStreak(logs, h, today) == 2
            && LongestStreak(logs, h) == 1
            && ConsecutiveStreak(logs, h, today) == 1
  {
    var logs := [HabitLog(h, today - 2, true), HabitLog(h, today, true)];
    assert logs[1..][1..] == [];
    assert CompletedDays(logs, h) == [today - 2, today];
    var cd := [today - 2, today];
    assert cd[1..] == [today];
    assert SortBy([today], NewestFirst) == [today];
    assert SortBy(cd, NewestFirst) == Insert(today - 2, [today], NewestFirst) == [today, today - 2];
    assert SortBy(cd, OldestFirst) == Insert(today - 2, [today], OldestFirst) == [today - 2, today];
    var desc := [today, today - 2];
    assert desc[1..] == [today - 2] && desc[1..][1..] == [];
    assert Walk(desc, today) == 2;
    assert ConsecutiveWalk(desc, today, true) == 1;
    assert RunEndingAt([today - 2, today], 1) == 1;
  }

  // ---------------------------------------------------------------- habit stats properties

  /** calculateHabitStats (analytics.ts:79-90): identity fields are copied,
      totalCompleted counts the habit's completed logs, the rate is that
      count as a percentage of totalDays (0 when totalDays is not positive),
      and both streaks are bounded by the count. */
  lemma HabitStatsMeaning(habit: Habit, logs: seq<HabitLog>, totalDays: int, today: Day)
    ensures var s := CalculateHabitStats(habit, logs, totalDays, today);
      && s.habitId == habit.id && s.habitName == habit.name && s.totalDays == totalDays
      && s.totalCompleted == |CompletedDays(logs, habit.id)|
      && s.currentStreak == CurrentStreak(logs, habit.id, today)
      && s.longestStreak == LongestStreak(logs, habit.id)
      && s.completionRate == CompletionRate(s.totalCompleted, totalDays)
      && s.currentStreak <= s.totalCompleted && s.longestStreak <= s.totalCompleted
  {
    StreakBounds(logs, habit.id, today);
  }

  // ---------------------------------------------------------------- daily series properties

  /** Completed logs of any habit dated lo..hi. */
  function CompletedBetween(logs: seq<HabitLog>, lo: Day, hi: Day): nat {
    if logs == [] then 0
    else
      var last := logs[|logs| - 1];
      CompletedBetween(logs[..|logs| - 1], lo, hi) + (if last.completed && lo <= last.logDate <= hi then 1 else 0)
  }

  /** Sum of the counts of a series. */
  function TotalCount(r: seq<DayCount>): nat {
    if r == [] then 0 else TotalCount(r[..|r| - 1]) + r[|r| - 1].count
  }

  lemma {:induction false} BetweenSplit(logs: seq<HabitLog>, lo: Day, hi: Day)
    requires lo <= hi
    ensures CompletedBetween(logs, lo, hi) == CompletedBetween(logs, lo, hi - 1) + CompletedOn(logs, hi)
  {
    if logs != [] {
      BetweenSplit(logs[..|logs| - 1], lo, hi);
    }
  }

  lemma {:induction false} BetweenEmpty(logs: seq<HabitLog>, lo: Day)
    ensures CompletedBetween(logs, lo, lo - 1) == 0
  {
    if logs != [] {
      BetweenEmpty(logs[..|logs| - 1], lo);
    }
  }

  /** The series loses nothing and counts nothing twice: its counts add up
      to the completed logs dated inside the window. */
  lemma {:induction false} SeriesTotal(logs: seq<HabitLog>, endDate: Day, n: nat)
    ensures TotalCount(Series(logs, endDate, n)) == CompletedBetween(logs, endDate - n + 1, endDate)
    decreases n
  {
    if n == 0 {
      BetweenEmpty(logs, endDate + 1);
    } else {
      SeriesTotal(logs, endDate - 1, n - 1);
      var r := Series(logs, endDate, n);
      assert r[..|r| - 1] == Series(logs, endDate - 1, n - 1);
      BetweenSplit(logs, endDate - n + 1, endDate);
    }
  }

  lemma {:induction false} CompletedOnAppend(a: seq<HabitLog>, b: seq<HabitLog>, d: Day)
    ensures CompletedOn(a + b, d) == CompletedOn(a, d) + CompletedOn(b, d)
    decreases |b|
  {
    if b == [] {
      assert a + b == a;
    } else {
      assert (a + b)[..|a + b| - 1] == a + b[..|b| - 1];
      CompletedOnAppend(a, b[..|b| - 1], d);
    }
  }

  /** A day's count is 0 exactly when no completed log is dated that day. */
  lemma {:induction false} CompletedOnZero(logs: seq<HabitLog>, d: Day)
    ensures CompletedOn(logs, d) == 0 <==> forall l :: l in logs ==> !l.completed || l.logDate != d
  {
    if logs != [] {
      var init, last := logs[..|logs| - 1], logs[|logs| - 1];
      assert logs == init + [last];
      assert forall l :: l in logs <==> l in init || l == last;
      CompletedOnZero(init, d);
    }
  }

  /** Logs dated outside the window, or not completed, leave the series
      unchanged (analytics.ts:97-111: only window dates are looked up). */
  lemma SeriesIgnoresOutside(logs: seq<HabitLog>, other: seq<HabitLog>, endDate: Day, n: nat)
    requires forall l :: l in other ==> !l.completed || l.logDate <= endDate - n || l.logDate > endDate
    ensures Series(logs + other, endDate, n) == Series(logs, endDate, n)
  {
    var a, b := Series(logs + other, endDate, n), Series(logs, endDate, n);
    forall k | 0 <= k < n ensures a[k] == b[k] {
      var d := endDate - (n - 1) + k;
      CompletedOnAppend(logs, other, d);
      CompletedOnZero(other, d);
    }
  }
}
