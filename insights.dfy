/** The Insights page's report (src/pages/Insights.tsx:48-70): the daily
    chart, per-habit statistics, the overall completion rate, the three best
    and three weakest habits, and the best current streak, for a week or a
    month ending today. */
module Insights {
  import opened Sorting
  import opened Analytics
  import opened Lists

  datatype Period = Week | Month

  /** `totalDays`: 7 for a week, 30 for a month (Insights.tsx:50). */
  function TotalDays(p: Period): nat {
    match p
    case Week => 7
    case Month => 30
  }

  datatype Report = Report(
    chartData: seq<DayCount>,
    stats: seq<HabitStats>,
    overallCompletionRate: real,
    topHabits: seq<HabitStats>,
    needsImprovement: seq<HabitStats>,
    bestStreak: nat)

  // ---------------------------------------------------------------- building blocks

  /** `habits.map(habit => calculateHabitStats(habit, logs, totalDays))`. */
  function Stats(habits: seq<Habit>, logs: seq<HabitLog>, totalDays: int, today: Day): (r: seq<HabitStats>)
    ensures |r| == |habits|
    ensures forall i :: 0 <= i < |habits| ==> r[i].habitId == habits[i].id
  {
    if habits == [] then []
    else [CalculateHabitStats(habits[0], logs, totalDays, today)] + Stats(habits[1..], logs, totalDays, today)
  }

  predicate IsCompleted(l: HabitLog) {
    l.completed
  }

  /** `logs.filter(log => log.completed).length`. */
  function CountCompleted(logs: seq<HabitLog>): nat {
    |Filter(logs, IsCompleted)|
  }

  /** `overallCompletionRate` (Insights.tsx:53-55): all completed logs as a
      percentage of habits times days, 0 when there are no habits.  Every
      completed log in the range counts, including logs of habits that are
      not in the list, so the rate exceeds 100 exactly when there are more
      completed logs than habit-days. */
  function OverallRate(habits: seq<Habit>, logs: seq<HabitLog>, totalDays: int): (r: real)
    ensures r >= 0.0
    ensures |habits| * totalDays <= 0 ==> r == 0.0
    ensures |habits| * totalDays > 0 ==> (r <= 100.0 <==> CountCompleted(logs) <= |habits| * totalDays)
    ensures habits != [] && totalDays > 0 ==>
      r * (|habits| as real * totalDays as real) == 100.0 * CountCompleted(logs) as real
  {
    if habits != [] && totalDays > 0 then
      RateOverProduct(CountCompleted(logs), |habits|, totalDays);
      CompletionRate(CountCompleted(logs), |habits| * totalDays)
    else
      CompletionRate(CountCompleted(logs), |habits| * totalDays)
  }

  /** `.filter(keep).sort(by key).slice(0, k)`. */
  function Leading(s: seq<HabitStats>, keep: HabitStats -> bool, key: HabitStats -> real, k: nat): seq<HabitStats> {
    var sorted := SortBy(Filter(s, keep), key);
    if |sorted| <= k then sorted else sorted[..k]
  }

  function RateDesc(s: HabitStats): real {
    -s.completionRate
  }

  function RateAsc(s: HabitStats): real {
    s.completionRate
  }

  predicate PositiveRate(s: HabitStats) {
    s.completionRate > 0.0
  }

  predicate BelowFull(s: HabitStats) {
    s.completionRate < 100.0 && s.completionRate >= 0.0
  }

  /** `topHabits` (Insights.tsx:57-60): at most three habits, each with a
      positive rate. */
  function TopHabits(stats: seq<HabitStats>): (r: seq<HabitStats>)
    ensures |r| <= 3
    ensures forall x :: x in r ==> x in stats && x.completionRate > 0.0
  {
    LeadingKeeps(stats, PositiveRate, RateDesc, 3);
    var r := Leading(stats, PositiveRate, RateDesc, 3);
    assert forall x :: x in r ==> x in multiset(r);
    r
  }

  /** `needsImprovement` (Insights.tsx:62-65): at most three habits, each
      with a rate in [0, 100). */
  function NeedsImprovement(stats: seq<HabitStats>): (r: seq<HabitStats>)
    ensures |r| <= 3
    ensures forall x :: x in r ==> x in stats && 0.0 <= x.completionRate < 100.0
  {
    LeadingKeeps(stats, BelowFull, RateAsc, 3);
    var r := Leading(stats, BelowFull, RateAsc, 3);
    assert forall x :: x in r ==> x in multiset(r);
    r
  }

  /** `bestStreak` (Insights.tsx:67-70): the left fold that keeps the larger
      current streak, starting from 0; it is the largest current streak, or
      0 for no habits. */
  function BestStreak(stats: seq<HabitStats>): (b: nat)
    ensures forall x :: x in stats ==> x.currentStreak <= b
    ensures b == 0 || exists x :: x in stats && x.currentStreak == b
  {
    if stats == [] then 0
    else
      var init := stats[..|stats| - 1];
      var last := stats[|stats| - 1];
      assert stats == init + [last];
      var m := BestStreak(init);
      if last.currentStreak > m then last.currentStreak else m
  }

  /** The report Insights.tsx:48-70 computes for the period ending today. */
  function BuildReport(habits: seq<Habit>, logs: seq<HabitLog>, period: Period, today: Day): (r: Report)
    ensures |r.chartData| == TotalDays(period) && |r.stats| == |habits|
    ensures |r.topHabits| <= 3 && |r.needsImprovement| <= 3
    ensures forall x :: x in r.topHabits || x in r.needsImprovement ==> x in r.stats
    ensures forall x :: x in r.stats ==> x.currentStreak <= r.bestStreak
    ensures r.overallCompletionRate >= 0.0
  {
    var totalDays := TotalDays(period);
    var stats := Stats(habits, logs, totalDays, today);
    Report(
      Series(logs, today, totalDays),
      stats,
      OverallRate(habits, logs, totalDays),
      TopHabits(stats),
      NeedsImprovement(stats),
      BestStreak(stats))
  }

  // ---------------------------------------------------------------- ranking lemmas

  lemma {:induction false} KeyClassOfPrefix(s: seq<HabitStats>, key: HabitStats -> real, v: real, m: nat)
    requires m <= |s|
    ensures KeyClass(s[..m], key, v) <= KeyClass(s, key, v)
  {
    if m > 0 {
      assert s[..m][1..] == s[1..][..m - 1];
      KeyClassOfPrefix(s[1..], key, v, m - 1);
    }
  }

  lemma {:induction false} KeyClassOfFilter(s: seq<HabitStats>, keep: HabitStats -> bool, key: HabitStats -> real, v: real)
    requires forall x :: x in s && key(x) == v ==> keep(x)
    ensures KeyClass(Filter(s, keep), key, v) == KeyClass(s, key, v)
  {
    if s != [] {
      assert forall x :: x in s[1..] ==> x in s;
      KeyClassOfFilter(s[1..], keep, key, v);
      assert s == [s[0]] + s[1..];
      KeyClassCons(s[0], s[1..], key, v);
      if keep(s[0]) {
        assert Filter(s, keep) == [s[0]] + Filter(s[1..], keep);
        KeyClassCons(s[0], Filter(s[1..], keep), key, v);
      } else {
        assert Filter(s, keep) == Filter(s[1..], keep);
      }
    }
  }

  lemma TakeKeepsOrder(sorted: seq<HabitStats>, key: HabitStats -> real, m: nat)
    requires m <= |sorted| && SortedBy(sorted, key)
    ensures multiset(sorted[..m]) <= multiset(sorted)
    ensures SortedBy(sorted[..m], key)
    ensures forall x :: x in sorted && x !in sorted[..m] ==> forall y :: y in sorted[..m] ==> key(y) <= key(x)
  {
    assert sorted == sorted[..m] + sorted[m..];
    forall x, y | x in sorted && x !in sorted[..m] && y in sorted[..m] ensures key(y) <= key(x) {
      var p :| 0 <= p < |sorted| && sorted[p] == x;
      var q :| 0 <= q < m && sorted[..m][q] == y;
    }
  }

  /** `.filter(keep).sort(by key).slice(0, k)` holds at most k elements of
      s, all kept. */
  lemma LeadingKeeps(s: seq<HabitStats>, keep: HabitStats -> bool, key: HabitStats -> real, k: nat)
    ensures var r := Leading(s, keep, key, k);
      && |r| == (if |Filter(s, keep)| <= k then |Filter(s, keep)| else k)
      && multiset(r) <= multiset(s)
      && (forall x :: x in r ==> keep(x))
  {
    var f := Filter(s, keep);
    var sorted := SortBy(f, key);
    var m := if |sorted| <= k then |sorted| else k;
    TakeKeepsOrder(sorted, key, m);
    forall x | x in sorted[..m] ensures keep(x) {
      assert x in multiset(sorted);
      assert x in f;
    }
  }

  /** It is ordered by key, and a kept element is left out only when k
      elements precede it, each with a key no larger. */
  lemma LeadingOrder(s: seq<HabitStats>, keep: HabitStats -> bool, key: HabitStats -> real, k: nat)
    ensures var r := Leading(s, keep, key, k);
      && SortedBy(r, key)
      && (forall x :: x in s && keep(x) && x !in r ==> |r| == k && forall y :: y in r ==> key(y) <= key(x))
  {
    var f := Filter(s, keep);
    var sorted := SortBy(f, key);
    var m := if |sorted| <= k then |sorted| else k;
    var r := sorted[..m];
    assert Leading(s, keep, key, k) == r;
    TakeKeepsOrder(sorted, key, m);
    forall x | x in s && keep(x) && x !in r ensures m == k && forall y :: y in r ==> key(y) <= key(x) {
      assert x in f;
      assert x in multiset(sorted);
      assert x in sorted;
    }
  }

  /** Elements with equal keys keep their order in s (a stable sort), for
      every key value that the filter keeps whole. */
  lemma LeadingStable(s: seq<HabitStats>, keep: HabitStats -> bool, key: HabitStats -> real, k: nat, v: real)
    requires forall x :: x in s && key(x) == v ==> keep(x)
    ensures KeyClass(Leading(s, keep, key, k), key, v) <= KeyClass(s, key, v)
  {
    var f := Filter(s, keep);
    var sorted := SortBy(f, key);
    var m := if |sorted| <= k then |sorted| else k;
    KeyClassOfPrefix(sorted, key, v, m);
    SortStable(f, key, v);
    KeyClassOfFilter(s, keep, key, v);
  }

  /** The habits of s with the given rate, in their order in s. */
  function WithRate(s: seq<HabitStats>, rate: real): seq<HabitStats> {
    KeyClass(s, RateAsc, rate)
  }

  lemma {:induction false} DescClass(s: seq<HabitStats>, rate: real)
    ensures KeyClass(s, RateDesc, -rate) == WithRate(s, rate)
  {
    if s != [] {
      DescClass(s[1..], rate);
    }
  }

  /** topHabits: at most three of the habits, all with a positive rate,
      best first. */
  lemma TopHabitsMeaning(stats: seq<HabitStats>)
    ensures var top := TopHabits(stats);
      && |top| <= 3
      && multiset(top) <= multiset(stats)
      && (forall x :: x in top ==> x.completionRate > 0.0)
      && (forall i, j :: 0 <= i < j < |top| ==> top[i].completionRate >= top[j].completionRate)
  {
    var top := TopHabits(stats);
    LeadingKeeps(stats, PositiveRate, RateDesc, 3);
    LeadingOrder(stats, PositiveRate, RateDesc, 3);
    forall i, j | 0 <= i < j < |top| ensures top[i].completionRate >= top[j].completionRate {
      assert RateDesc(top[i]) <= RateDesc(top[j]);
    }
  }

  /** A positive-rate habit is left out of topHabits only behind three
      habits whose rates are at least its own. */
  lemma TopHabitsLeftOut(stats: seq<HabitStats>)
    ensures var top := TopHabits(stats);
      forall x :: x in stats && x.completionRate > 0.0 && x !in top ==>
        |top| == 3 && forall y :: y in top ==> y.completionRate >= x.completionRate
  {
    var top := TopHabits(stats);
    LeadingOrder(stats, PositiveRate, RateDesc, 3);
    forall x | x in stats && x.completionRate > 0.0 && x !in top
      ensures |top| == 3 && forall y :: y in top ==> y.completionRate >= x.completionRate
    {
      assert PositiveRate(x);
      assert forall y :: y in top ==> RateDesc(y) <= RateDesc(x);
    }
  }

  /** Habits with equal rates appear in topHabits in their list order. */
  lemma TopHabitsStable(stats: seq<HabitStats>)
    ensures forall rate :: rate > 0.0 ==> WithRate(TopHabits(stats), rate) <= WithRate(stats, rate)
  {
    var top := TopHabits(stats);
    forall rate | rate > 0.0 ensures WithRate(top, rate) <= WithRate(stats, rate) {
      LeadingStable(stats, PositiveRate, RateDesc, 3, -rate);
      DescClass(top, rate);
      DescClass(stats, rate);
    }
  }

  /** needsImprovement: at most three habits whose rate is in [0, 100),
      weakest first; such a habit is left out only behind three habits whose
      rates are at most its own; a habit at 100% never appears; habits with
      equal rates keep their list order. */
  lemma NeedsImprovementMeaning(stats: seq<HabitStats>)
    ensures var low := NeedsImprovement(stats);
      && |low| <= 3
      && multiset(low) <= multiset(stats)
      && (forall x :: x in low ==> 0.0 <= x.completionRate < 100.0)
      && (forall i, j :: 0 <= i < j < |low| ==> low[i].completionRate <= low[j].completionRate)
      && (forall x :: x in stats && 0.0 <= x.completionRate < 100.0 && x !in low ==>
            |low| == 3 && forall y :: y in low ==> y.completionRate <= x.completionRate)
      && (forall rate :: 0.0 <= rate < 100.0 ==> WithRate(low, rate) <= WithRate(stats, rate))
  {
    var low := NeedsImprovement(stats);
    LeadingKeeps(stats, BelowFull, RateAsc, 3);
    LeadingOrder(stats, BelowFull, RateAsc, 3);
    forall i, j | 0 <= i < j < |low| ensures low[i].completionRate <= low[j].completionRate {
      assert RateAsc(low[i]) <= RateAsc(low[j]);
    }
    forall x | x in stats && 0.0 <= x.completionRate < 100.0 && x !in low
      ensures |low| == 3 && forall y :: y in low ==> y.completionRate <= x.completionRate
    {
      assert BelowFull(x);
      assert forall y :: y in low ==> RateAsc(y) <= RateAsc(x);
    }
    forall rate | 0.0 <= rate < 100.0 ensures WithRate(low, rate) <= WithRate(stats, rate) {
      LeadingStable(stats, BelowFull, RateAsc, 3, rate);
    }
  }

  /** Over a common positive number of days, ranking by rate is ranking by
      completed count. */
  lemma RateOrderIsCountOrder(a: nat, b: nat, totalDays: int)
    requires totalDays > 0
    ensures CompletionRate(a, totalDays) <= CompletionRate(b, totalDays) <==> a <= b
  {
    var ra, rb := CompletionRate(a, totalDays), CompletionRate(b, totalDays);
    assert ra * totalDays as real == 100.0 * a as real;
    assert rb * totalDays as real == 100.0 * b as real;
    OrderFromScaled(ra, rb, a, b, totalDays as real);
  }

  lemma OrderFromScaled(ra: real, rb: real, a: nat, b: nat, t: real)
    requires t > 0.0 && ra * t == 100.0 * a as real && rb * t == 100.0 * b as real
    ensures ra <= rb <==> a <= b
  {
    if ra <= rb {
      ScaleBy(ra, rb, t);
    } else {
      ScaleBy(rb, ra, t);
    }
  }

  // ---------------------------------------------------------------- overall rate

  /** Completed logs of the listed habits, habit by habit. */
  function SumCompleted(logs: seq<HabitLog>, habits: seq<Habit>): nat {
    if habits == [] then 0
    else |CompletedDays(logs, habits[0].id)| + SumCompleted(logs, habits[1..])
  }

  /** Number of listed habits with the given id. */
  function IdCount(habits: seq<Habit>, id: string): nat {
    if habits == [] then 0
    else (if habits[0].id == id then 1 else 0) + IdCount(habits[1..], id)
  }

  ghost predicate DistinctIds(habits: seq<Habit>) {
    forall i, j :: 0 <= i < j < |habits| ==> habits[i].id != habits[j].id
  }

  lemma {:induction false} IdCountOfListed(habits: seq<Habit>, id: string)
    requires DistinctIds(habits)
    ensures IdCount(habits, id) == (if exists i :: 0 <= i < |habits| && habits[i].id == id then 1 else 0)
  {
    if habits != [] {
      var t := habits[1..];
      assert DistinctIds(t) by {
        forall i, j | 0 <= i < j < |t| ensures t[i].id != t[j].id {
          assert t[i] == habits[i + 1] && t[j] == habits[j + 1];
        }
      }
      IdCountOfListed(t, id);
      if exists i :: 0 <= i < |t| && t[i].id == id {
        var i :| 0 <= i < |t| && t[i].id == id;
        assert habits[i + 1].id == id;
      }
      if exists i :: 0 <= i < |habits| && habits[i].id == id {
        var i :| 0 <= i < |habits| && habits[i].id == id;
        if i > 0 {
          assert t[i - 1].id == id;
        }
      }
    }
  }

  lemma {:induction false} SumCompletedStep(logs: seq<HabitLog>, habits: seq<Habit>)
    requires logs != []
    ensures SumCompleted(logs, habits) ==
            SumCompleted(logs[1..], habits) + (if logs[0].completed then IdCount(habits, logs[0].habitId) else 0)
  {
    if habits != [] {
      SumCompletedStep(logs, habits[1..]);
    }
  }

  /** Every completed log belongs to one of the listed habits.  This is a
      hypothesis, not a guarantee of the data: the habit list holds only
      active habits, while the logs of a date range include every habit's. */
  ghost predicate LogsOfListedHabits(logs: seq<HabitLog>, habits: seq<Habit>) {
    forall l :: l in logs && l.completed ==> exists i :: 0 <= i < |habits| && habits[i].id == l.habitId
  }

  lemma {:induction false} CountIsSumOverHabits(logs: seq<HabitLog>, habits: seq<Habit>)
    requires DistinctIds(habits) && LogsOfListedHabits(logs, habits)
    ensures CountCompleted(logs) == SumCompleted(logs, habits)
  {
    if logs == [] {
      NoneCompleted(habits);
    } else {
      assert forall l :: l in logs[1..] ==> l in logs;
      CountIsSumOverHabits(logs[1..], habits);
      SumCompletedStep(logs, habits);
      IdCountOfListed(habits, logs[0].habitId);
      if logs[0].completed {
        assert logs[0] in logs;
      }
    }
  }

  lemma {:induction false} NoneCompleted(habits: seq<Habit>)
    ensures SumCompleted([], habits) == 0
  {
    if habits != [] {
      NoneCompleted(habits[1..]);
    }
  }

  function SumTotals(stats: seq<HabitStats>): nat {
    if stats == [] then 0 else stats[0].totalCompleted + SumTotals(stats[1..])
  }

  lemma {:induction false} StatsTotals(habits: seq<Habit>, logs: seq<HabitLog>, totalDays: int, today: Day)
    ensures SumTotals(Stats(habits, logs, totalDays, today)) == SumCompleted(logs, habits)
  {
    if habits != [] {
      StatsTotals(habits[1..], logs, totalDays, today);
      var ss := Stats(habits, logs, totalDays, today);
      assert ss[1..] == Stats(habits[1..], logs, totalDays, today);
    }
  }

  /** The rate of k over n * t, scaled back by n and t, is 100 k. */
  lemma RateOverProduct(k: nat, n: int, t: int)
    requires n > 0 && t > 0
    ensures CompletionRate(k, n * t) * (n as real * t as real) == 100.0 * k as real
  {
    assert n * t >= t;
    assert (n * t) as real == n as real * t as real;
  }

  /** Under two extra hypotheses, the completions the overall rate counts
      are exactly the habits' own completed counts added up: the habit ids
      are distinct, and every completed log belongs to a listed habit.  The
      second fails when an inactive habit (left out of the list) has
      completed logs in the range: those logs count towards the overall rate
      but towards no habit's statistics.  When both hold, OverallRate
      and HabitStatsMeaning make the overall rate the mean of the habits'
      rates. */
  lemma CompletionsSplitByHabit(habits: seq<Habit>, logs: seq<HabitLog>, totalDays: int, today: Day)
    requires DistinctIds(habits) && LogsOfListedHabits(logs, habits)
    ensures CountCompleted(logs) == SumTotals(Stats(habits, logs, totalDays, today))
  {
    CountIsSumOverHabits(logs, habits);
    StatsTotals(habits, logs, totalDays, today);
  }

  // ---------------------------------------------------------------- the whole report

  /** The report for a period: a chart of one entry per day of the period
      ending today, and one statistics record per habit in list order over
      the period's days. */
  lemma ReportMeaning(habits: seq<Habit>, logs: seq<HabitLog>, period: Period, today: Day)
    ensures var r := BuildReport(habits, logs, period, today);
      && |r.chartData| == TotalDays(period)
      && r.chartData[|r.chartData| - 1].date == today
      && (forall k :: 0 <= k < |r.chartData| ==> r.chartData[k].date == today - |r.chartData| + 1 + k)
      && |r.stats| == |habits|
      && (forall i :: 0 <= i < |habits| ==>
            r.stats[i].habitId == habits[i].id && r.stats[i].totalDays == TotalDays(period)
            && r.stats[i].completionRate == CompletionRate(r.stats[i].totalCompleted, TotalDays(period)))
  {
    var r := BuildReport(habits, logs, period, today);
    var t := TotalDays(period);
    forall i | 0 <= i < |habits|
      ensures r.stats[i].totalDays == t && r.stats[i].completionRate == CompletionRate(r.stats[i].totalCompleted, t)
    {
      StatsAt(habits, logs, t, today, i);
      HabitStatsMeaning(habits[i], logs, t, today);
    }
  }

  /** Since all habits are measured over the same days, topHabits is also
      ranked by completed count: a positive-rate habit left out has no more
      completed logs than any habit in the list. */
  lemma TopHabitsByCount(habits: seq<Habit>, logs: seq<HabitLog>, totalDays: int, today: Day)
    requires totalDays > 0
    ensures var stats := Stats(habits, logs, totalDays, today);
      forall x, y :: x in stats && x.completionRate > 0.0 && x !in TopHabits(stats) && y in TopHabits(stats) ==>
        y.totalCompleted >= x.totalCompleted
  {
    var stats := Stats(habits, logs, totalDays, today);
    var top := TopHabits(stats);
    TopHabitsMeaning(stats);
    TopHabitsLeftOut(stats);
    forall x, y | x in stats && x.completionRate > 0.0 && x !in top && y in top
      ensures y.totalCompleted >= x.totalCompleted
    {
      assert y in multiset(stats);
      RateFromStats(habits, logs, totalDays, today, x);
      RateFromStats(habits, logs, totalDays, today, y);
      RateOrderIsCountOrder(x.totalCompleted, y.totalCompleted, totalDays);
    }
  }

  lemma {:induction false} StatsAt(habits: seq<Habit>, logs: seq<HabitLog>, totalDays: int, today: Day, i: int)
    requires 0 <= i < |habits|
    ensures Stats(habits, logs, totalDays, today)[i] == CalculateHabitStats(habits[i], logs, totalDays, today)
  {
    var rest := Stats(habits[1..], logs, totalDays, today);
    assert Stats(habits, logs, totalDays, today) == [CalculateHabitStats(habits[0], logs, totalDays, today)] + rest;
    if i > 0 {
      StatsAt(habits[1..], logs, totalDays, today, i - 1);
      assert habits[1..][i - 1] == habits[i];
    }
  }

  lemma RateFromStats(habits: seq<Habit>, logs: seq<HabitLog>, totalDays: int, today: Day, x: HabitStats)
    requires x in Stats(habits, logs, totalDays, today)
    ensures x.completionRate == CompletionRate(x.totalCompleted, totalDays)
  {
    var stats := Stats(habits, logs, totalDays, today);
    var i :| 0 <= i < |stats| && stats[i] == x;
    StatsAt(habits, logs, totalDays, today, i);
    HabitStatsMeaning(habits[i], logs, totalDays, today);
  }
}
