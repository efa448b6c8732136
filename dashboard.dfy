/** Today's roll-up on the dashboard (src/pages/Dashboard.tsx:44-50): the
    habits split by category, the count of habits completed today and the
    rounded completion percentage that feeds the motivational message. */
module Dashboard {
  import opened Wrappers
  import opened Lists
  import opened Analytics
  import Motivation

  /** A habit with today's log, if there is one (`HabitWithLog`,
      src/lib/types.ts:77-79). */
  datatype HabitWithLog = HabitWithLog(habit: Habit, log: Option<HabitLog>)

  predicate IsPrayer(h: HabitWithLog) {
    h.habit.category == Prayer
  }

  predicate IsQuran(h: HabitWithLog) {
    h.habit.category == Quran
  }

  predicate IsOther(h: HabitWithLog) {
    h.habit.category != Prayer && h.habit.category != Quran
  }

  /** `h.log?.completed`: today's log exists and is completed. */
  predicate DoneToday(h: HabitWithLog) {
    h.log.Some? && h.log.value.completed
  }

  /** `prayers` (Dashboard.tsx:44): the prayer habits, in list order. */
  function Prayers(hs: seq<HabitWithLog>): (r: seq<HabitWithLog>)
    ensures forall x :: x in r <==> x in hs && x.habit.category == Prayer
  {
    Filter(hs, IsPrayer)
  }

  /** `otherHabits` (Dashboard.tsx:46): the habits that are neither prayer nor
      quran, in list order. */
  function OtherHabits(hs: seq<HabitWithLog>): (r: seq<HabitWithLog>)
    ensures forall x :: x in r <==> x in hs && x.habit.category != Prayer && x.habit.category != Quran
  {
    Filter(hs, IsOther)
  }

  /** `quranHabit` (Dashboard.tsx:45): the first habit of category quran. */
  function QuranHabit(hs: seq<HabitWithLog>): (r: Option<HabitWithLog>)
    ensures r.None? <==> forall x :: x in hs ==> !IsQuran(x)
    ensures r.Some? ==> exists i :: 0 <= i < |hs| && hs[i] == r.value && IsQuran(hs[i])
                                    && forall j :: 0 <= j < i ==> !IsQuran(hs[j])
  {
    if hs == [] then None
    else if IsQuran(hs[0]) then Some(hs[0])
    else
      var r := QuranHabit(hs[1..]);
      assert forall x :: x in hs ==> x == hs[0] || x in hs[1..];
      if r.Some? then
        var i :| 0 <= i < |hs[1..]| && hs[1..][i] == r.value && IsQuran(hs[1..][i])
                 && forall j :: 0 <= j < i ==> !IsQuran(hs[1..][j]);
        assert hs[i + 1] == r.value;
        assert forall j :: 1 <= j < i + 1 ==> hs[j] == hs[1..][j - 1];
        r
      else r
  }

  /** `totalCompleted` (Dashboard.tsx:48): how many habits are done today; 0
      exactly when none is, and the number of habits exactly when all are. */
  function TotalCompleted(hs: seq<HabitWithLog>): (n: nat)
    ensures n <= |hs|
    ensures n == 0 <==> forall x :: x in hs ==> !DoneToday(x)
    ensures n == |hs| <==> forall x :: x in hs ==> DoneToday(x)
  {
    var done := Filter(hs, DoneToday);
    assert done != [] ==> done[0] in done;
    FilterKeepsAll(hs, DoneToday);
    |done|
  }

  /** `Math.round` for the non-negative values it gets here: the nearest
      integer, halves rounded up. */
  function Round(x: real): (n: int)
    ensures n as real - 0.5 <= x < n as real + 0.5
  {
    (x + 0.5).Floor
  }

  /** `completionPercentage` (Dashboard.tsx:49-50): the completed share of
      the habits as a percentage (the same quotient as a habit's completion
      rate), rounded to a whole number. */
  function CompletionPercentage(hs: seq<HabitWithLog>): (p: int)
    ensures 0 <= p <= 100
  {
    if |hs| > 0 then
      ShareBounds(TotalCompleted(hs), |hs|);
      Round(CompletionRate(TotalCompleted(hs), |hs|))
    else 0
  }

  // ---------------------------------------------------------------- properties

  /** `prayers` holds exactly the prayer habits, and keeps their order: it
      distributes over concatenation, so a habit before another in the list
      stays before it. */
  lemma PrayersMeaning(a: seq<HabitWithLog>, b: seq<HabitWithLog>)
    ensures forall x :: x in Prayers(a) <==> x in a && x.habit.category == Prayer
    ensures Prayers(a + b) == Prayers(a) + Prayers(b)
  {
    FilterAppend(a, b, IsPrayer);
  }

  /** The split by category: `prayers` and `otherHabits` never share a habit,
      every habit is in one of them or is a quran habit, and together with
      the quran habits they hold each habit exactly as often as the list
      does. */
  lemma CategoryPartition(hs: seq<HabitWithLog>)
    ensures forall x :: !(x in Prayers(hs) && x in OtherHabits(hs))
    ensures forall x :: x in hs ==> x in Prayers(hs) || x in OtherHabits(hs) || x.habit.category == Quran
    ensures multiset(Prayers(hs)) + multiset(Filter(hs, IsQuran)) + multiset(OtherHabits(hs)) == multiset(hs)
    ensures |Prayers(hs)| + |Filter(hs, IsQuran)| + |OtherHabits(hs)| == |hs|
  {
    var whole := multiset(Prayers(hs)) + multiset(Filter(hs, IsQuran)) + multiset(OtherHabits(hs));
    forall x ensures whole[x] == multiset(hs)[x] {
      FilterMultiplicity(hs, IsPrayer, x);
      FilterMultiplicity(hs, IsQuran, x);
      FilterMultiplicity(hs, IsOther, x);
    }
    assert whole == multiset(hs);
    assert |multiset(hs)| == |hs|;
  }

  /** One missing habit out of fewer than 200 keeps the share under 99.5. */
  lemma OneMissing(c: real, t: real)
    requires t < 200.0 && c <= t - 1.0
    ensures 100.0 * c < 99.5 * t
  {
  }

  /** One done habit out of at most 200 lifts the share to 0.5 or more. */
  lemma OneDone(c: real, t: real)
    requires t <= 200.0 && c >= 1.0
    ensures 0.5 * t <= 100.0 * c
  {
  }

  /** With x * t == 100 * c, all done gives 100. */
  lemma ScaledFull(x: real, c: real, t: real)
    requires t > 0.0 && c == t && x * t == 100.0 * c
    ensures x == 100.0
  {
    if x < 100.0 {
      ScaleBy(x, 100.0, t);
    } else if x > 100.0 {
      ScaleBy(100.0, x, t);
    }
  }

  /** With x * t == 100 * c, none done gives 0. */
  lemma ScaledNone(x: real, c: real, t: real)
    requires t > 0.0 && c == 0.0 && x * t == 100.0 * c
    ensures x == 0.0
  {
    if x < 0.0 {
      ScaleBy(x, 0.0, t);
    } else if x > 0.0 {
      ScaleBy(0.0, x, t);
    }
  }

  /** With x * t == 100 * c, one missing out of fewer than 200 keeps x under 99.5. */
  lemma ScaledMissing(x: real, c: real, t: real)
    requires 0.0 < t < 200.0 && c <= t - 1.0 && x * t == 100.0 * c
    ensures x < 99.5
  {
    if x >= 99.5 {
      ScaleBy(99.5, x, t);
      OneMissing(c, t);
    }
  }

  /** With x * t == 100 * c, one done out of at most 200 lifts x to 0.5. */
  lemma ScaledDone(x: real, c: real, t: real)
    requires 0.0 < t <= 200.0 && c >= 1.0 && x * t == 100.0 * c
    ensures x >= 0.5
  {
    if x < 0.5 {
      ScaleBy(x, 0.5, t);
      OneDone(c, t);
    }
  }

  /** Bounds on the share of c done out of t: it lies in [0, 100], is 100 when
      all are done and 0 when none is; below 200 habits it is under 99.5
      when one is missing, and up to 200 habits it is at least 0.5 when one
      is done. */
  lemma ShareBounds(c: nat, t: nat)
    requires 0 < t && c <= t
    ensures 0.0 <= CompletionRate(c, t) <= 100.0
    ensures c == t ==> CompletionRate(c, t) == 100.0
    ensures c == 0 ==> CompletionRate(c, t) == 0.0
    ensures t < 200 && c < t ==> CompletionRate(c, t) < 99.5
    ensures t <= 200 && 0 < c ==> CompletionRate(c, t) >= 0.5
  {
    var x, cr, tr := CompletionRate(c, t), c as real, t as real;
    if c == t {
      ScaledFull(x, cr, tr);
    }
    if c == 0 {
      ScaledNone(x, cr, tr);
    }
    if t < 200 && c < t {
      ScaledMissing(x, cr, tr);
    }
    if t <= 200 && 0 < c {
      ScaledDone(x, cr, tr);
    }
  }

  /** The percentage is the completed share of the habits, rounded; it lies
      in [0, 100], is 100 when all habits are done and 0 when none is (or
      there are no habits). Below 200 habits it is 100 only when all are done,
      and up to 200 habits it is 0 only when none is. */
  lemma CompletionPercentageMeaning(hs: seq<HabitWithLog>)
    ensures |hs| > 0 ==>
      CompletionPercentage(hs) as real - 0.5 <= CompletionRate(TotalCompleted(hs), |hs|) < CompletionPercentage(hs) as real + 0.5
    ensures TotalCompleted(hs) == |hs| ==> |hs| == 0 || CompletionPercentage(hs) == 100
    ensures TotalCompleted(hs) == 0 ==> CompletionPercentage(hs) == 0
    ensures |hs| < 200 && CompletionPercentage(hs) == 100 ==> TotalCompleted(hs) == |hs|
    ensures |hs| <= 200 && CompletionPercentage(hs) == 0 ==> TotalCompleted(hs) == 0
  {
    if |hs| > 0 {
      ShareBounds(TotalCompleted(hs), |hs|);
    }
  }

  /** The dashboard shows the message only when there are habits
      (Dashboard.tsx:95-99); with every habit done it comes from the 100 tier
      in emerald, with none done from the 0 tier in gray. */
  lemma DashboardMessage(hs: seq<HabitWithLog>, pick: real)
    requires |hs| > 0 && 0.0 <= pick < 1.0
    ensures TotalCompleted(hs) == |hs| ==>
      var v := Motivation.Render(CompletionPercentage(hs), pick);
      v.Some? && v.value.message in Motivation.Messages(Motivation.Perfect) && v.value.palette == Motivation.Emerald
    ensures TotalCompleted(hs) == 0 ==>
      var v := Motivation.Render(CompletionPercentage(hs), pick);
      v.Some? && v.value.message in Motivation.Messages(Motivation.Start) && v.value.palette == Motivation.Gray
  {
    CompletionPercentageMeaning(hs);
    Motivation.RenderMeaning(CompletionPercentage(hs), pick);
  }
}
