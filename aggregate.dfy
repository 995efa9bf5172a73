/** The dashboard's aggregate views: the month calendar (`monthDays`), the
    overview panel and the all-done-today flag. */
module Aggregate {
  import opened Seqs
  import opened Domain
  import opened Calendar
  import opened Stats

  // -------------------------------------------------------- month calendar

  /** `isHabitActiveOn`: a habit counts on the days from its creation on. */
  predicate ActiveOn(habit: Habit, day: int) {
    habit.created <= day
  }

  /** One cell of the month calendar. */
  datatype DayCell = DayCell(dayOfMonth: int, day: int, completeAll: bool, completedCount: nat,
                             activeCount: nat, isFuture: bool, isToday: bool)

  /** The habits active on `day`, in list order. */
  function ActiveHabits(habits: seq<Habit>, day: int): seq<Habit> {
    Filter(habits, (h: Habit) => ActiveOn(h, day))
  }

  /** The cell for `day`: how many habits were active, how many of those have
      a completed log that day, and whether all of them (at least one) do. */
  function DayCellFor(habits: seq<Habit>, logs: seq<HabitLog>, day: int, dayOfMonth: int, today: int): (c: DayCell)
    ensures c.day == day && c.dayOfMonth == dayOfMonth
    ensures c.activeCount == |ActiveHabits(habits, day)|
    ensures c.activeCount == |ActiveIndices(habits, day)|
    ensures c.completedCount == |DoneIndices(habits, logs, day)|
    ensures c.completedCount <= c.activeCount
    ensures c.completeAll <==> c.activeCount > 0
                               && forall h :: h in habits && ActiveOn(h, day) ==> CompletedOn(logs, h.id, day)
    ensures c.isFuture <==> day > today
    ensures c.isToday <==> day == today
  {
    var active := ActiveHabits(habits, day);
    var done := Filter(active, (h: Habit) => CompletedOn(logs, h.id, day));
    ActiveAllDone(habits, logs, day);
    DayCounts(habits, logs, day);
    DayCell(dayOfMonth, day,
            |active| > 0 && forall i :: 0 <= i < |active| ==> CompletedOn(logs, active[i].id, day),
            |done|, |active|, day > today, day == today)
  }

  /** The positions of the habits active on `day`. */
  function ActiveIndices(habits: seq<Habit>, day: int): set<int> {
    set i | 0 <= i < |habits| && ActiveOn(habits[i], day)
  }

  /** The positions of the habits active on `day` with a completed log that day. */
  function DoneIndices(habits: seq<Habit>, logs: seq<HabitLog>, day: int): set<int> {
    set i | 0 <= i < |habits| && ActiveOn(habits[i], day) && CompletedOn(logs, habits[i].id, day)
  }

  /** The two counts of a cell, as numbers of habits: those active that day,
      and those active and completed that day. */
  lemma DayCounts(habits: seq<Habit>, logs: seq<HabitLog>, day: int)
    ensures |ActiveHabits(habits, day)| == |ActiveIndices(habits, day)|
    ensures |Filter(ActiveHabits(habits, day), (h: Habit) => CompletedOn(logs, h.id, day))|
            == |DoneIndices(habits, logs, day)|
  {
    var active := (h: Habit) => ActiveOn(h, day);
    var done := (h: Habit) => CompletedOn(logs, h.id, day);
    var both := (h: Habit) => ActiveOn(h, day) && CompletedOn(logs, h.id, day);
    assert ActiveHabits(habits, day) == Filter(habits, active);
    FilterCount(habits, active);
    assert Passing(habits, active, |habits|) == ActiveIndices(habits, day);
    FilterFilter(habits, active, done, both);
    FilterCount(habits, both);
    assert Passing(habits, both, |habits|) == DoneIndices(habits, logs, day);
  }

  /** Every habit in the active list is done exactly when every habit of the
      list active that day is. */
  lemma ActiveAllDone(habits: seq<Habit>, logs: seq<HabitLog>, day: int)
    ensures var active := ActiveHabits(habits, day);
            (forall i :: 0 <= i < |active| ==> CompletedOn(logs, active[i].id, day))
            <==> (forall h :: h in habits && ActiveOn(h, day) ==> CompletedOn(logs, h.id, day))
  {
    var active := ActiveHabits(habits, day);
    if forall i :: 0 <= i < |active| ==> CompletedOn(logs, active[i].id, day) {
      forall h | h in habits && ActiveOn(h, day) ensures CompletedOn(logs, h.id, day) {
        assert h in active;
        var i :| 0 <= i < |active| && active[i] == h;
      }
    }
    if forall h :: h in habits && ActiveOn(h, day) ==> CompletedOn(logs, h.id, day) {
      forall i | 0 <= i < |active| ensures CompletedOn(logs, active[i].id, day) {
        assert active[i] in active;
      }
    }
  }

  /** A day is all done exactly when every active habit is among the
      completed ones, that is when the two counts agree (and are positive). */
  lemma CompleteAllIsFullCount(habits: seq<Habit>, logs: seq<HabitLog>, day: int, dayOfMonth: int, today: int)
    ensures var c := DayCellFor(habits, logs, day, dayOfMonth, today);
            c.completeAll <==> c.activeCount > 0 && c.completedCount == c.activeCount
  {
    var active := ActiveHabits(habits, day);
    FilterLength(active, (h: Habit) => CompletedOn(logs, h.id, day));
  }

  /** `monthDays`: one cell per day of the month, the `i`-th for day `i + 1`. */
  function MonthDays(habits: seq<Habit>, logs: seq<HabitLog>, y: int, m: int, today: int): (cells: seq<DayCell>)
    requires 0 <= m < 12
    ensures |cells| == DaysInMonth(y, m)
    ensures forall i :: 0 <= i < |cells| ==> cells[i] == DayCellFor(habits, logs, DayNumber(y, m, i + 1), i + 1, today)
  {
    seq(DaysInMonth(y, m), i requires 0 <= i < DaysInMonth(y, m) => DayCellFor(habits, logs, DayNumber(y, m, i + 1), i + 1, today))
  }

  /** The cells cover the month day by day: the first is the first of the
      month, each is the day after the one before, and the last is the day
      before the next month starts. */
  lemma MonthDaysCoverMonth(habits: seq<Habit>, logs: seq<HabitLog>, y: int, m: int, today: int)
    requires 0 <= m < 12
    ensures var cells := MonthDays(habits, logs, y, m, today);
            cells[0].day == MonthStart(y, m)
            && (forall i :: 0 < i < |cells| ==> cells[i].day == cells[i - 1].day + 1)
            && cells[|cells| - 1].day == NextMonthStart(y, m) - 1
  {
    MonthEnd(y, m);
  }

  // -------------------------------------------------------------- overview

  /** `isCompleted(h.id)` for every habit, and at least one habit. */
  predicate AllCompletedToday(habits: seq<Habit>, logs: seq<HabitLog>, today: int) {
    |habits| > 0 && forall i :: 0 <= i < |habits| ==> LoggedOn(logs, habits[i].id, today)
  }

  /** The habits logged today (`isCompleted`). */
  function DoneToday(habits: seq<Habit>, logs: seq<HabitLog>, today: int): seq<Habit> {
    Filter(habits, (h: Habit) => LoggedOn(logs, h.id, today))
  }

  /** The positions of the habits logged today. */
  function TodayIndices(habits: seq<Habit>, logs: seq<HabitLog>, today: int): set<int> {
    set i | 0 <= i < |habits| && LoggedOn(logs, habits[i].id, today)
  }

  /** The habits done today, counted as positions in the habit list. */
  lemma TodayCount(habits: seq<Habit>, logs: seq<HabitLog>, today: int)
    ensures |DoneToday(habits, logs, today)| == |TodayIndices(habits, logs, today)|
  {
    var logged := (h: Habit) => LoggedOn(logs, h.id, today);
    assert DoneToday(habits, logs, today) == Filter(habits, logged);
    FilterCount(habits, logged);
    assert Passing(habits, logged, |habits|) == TodayIndices(habits, logs, today);
  }

  /** The streak the overview uses for a habit. */
  function HabitStreakOf(logs: seq<HabitLog>, habit: Habit, today: int): nat {
    Streak(StreakWindow(logs, habit.id, today))
  }

  /** `Math.max(...streaks)`, or 0 for no habits. */
  function LongestStreak(habits: seq<Habit>, logs: seq<HabitLog>, today: int): (r: nat)
    ensures forall i :: 0 <= i < |habits| ==> HabitStreakOf(logs, habits[i], today) <= r
    ensures |habits| == 0 ==> r == 0
    ensures |habits| > 0 ==> exists i :: 0 <= i < |habits| && HabitStreakOf(logs, habits[i], today) == r
  {
    if |habits| == 0 then 0
    else
      var rest := LongestStreak(habits[1..], logs, today);
      var s := HabitStreakOf(logs, habits[0], today);
      assert forall i :: 1 <= i < |habits| ==> habits[i] == habits[1..][i - 1];
      if s < rest then rest else s
  }

  /** The sum of the 7-day window completions. */
  function CompletionSum(habits: seq<Habit>, logs: seq<HabitLog>, today: int): (r: nat)
    ensures r <= 100 * |habits|
  {
    if |habits| == 0 then 0
    else Completion(logs, habits[0], 7, Window, today) + CompletionSum(habits[1..], logs, today)
  }

  datatype OverviewStats = OverviewStats(total: nat, completedToday: nat, completionToday: nat,
                                         longestStreak: nat, avgCompletion: nat)

  /** `overview`: habit count, habits logged today and their rounded
      percentage, the longest 7-day streak and the rounded mean of the 7-day
      completions. */
  function Overview(habits: seq<Habit>, logs: seq<HabitLog>, today: int): (o: OverviewStats)
    ensures o.total == |habits| && o.completedToday <= o.total
    ensures o.completedToday == |TodayIndices(habits, logs, today)|
    ensures o.completionToday == if |habits| == 0 then 0 else RoundRatio(100 * o.completedToday, |habits|)
    ensures o.longestStreak == LongestStreak(habits, logs, today)
    ensures o.avgCompletion == if |habits| == 0 then 0 else RoundRatio(CompletionSum(habits, logs, today), |habits|)
    ensures o.completionToday <= 100 && o.avgCompletion <= 100
    ensures o.longestStreak <= 7
  {
    var total := |habits|;
    var done := |DoneToday(habits, logs, today)|;
    TodayCount(habits, logs, today);
    var longest := LongestStreak(habits, logs, today);
    assert longest <= 7 by {
      if total > 0 {
        var i :| 0 <= i < total && HabitStreakOf(logs, habits[i], today) == longest;
        StreakIsLatestRun(StreakWindow(logs, habits[i].id, today));
      }
    }
    OverviewStats(total, done,
                  if total == 0 then 0 else RoundPercent(done, total),
                  longest,
                  if total == 0 then 0 else RoundAverage(CompletionSum(habits, logs, today), total))
  }

  /** `Math.round(part / total * 100)` for a part of at most the whole. */
  function RoundPercent(part: nat, total: nat): (r: nat)
    requires 0 < total && part <= total
    ensures r <= 100
    ensures part == total ==> r == 100
  {
    RoundPercentBounds(part, total);
    RoundRatio(100 * part, total)
  }

  /** `Math.round(sum / n)` for a mean of percentages. */
  function RoundAverage(sum: nat, n: nat): (r: nat)
    requires 0 < n && sum <= 100 * n
    ensures r <= 100
  {
    assert 2 * sum + n < (2 * n) * 101;
    DivBelow(2 * sum + n, 2 * n, 101);
    RoundRatio(sum, n)
  }

  /** All habits are done today exactly when there is a habit and the count
      of habits done today is the habit count; then the overview shows 100. */
  lemma AllCompletedTodayIsFullCount(habits: seq<Habit>, logs: seq<HabitLog>, today: int)
    ensures AllCompletedToday(habits, logs, today)
            <==> |habits| > 0 && Overview(habits, logs, today).completedToday == |habits|
    ensures AllCompletedToday(habits, logs, today) ==> Overview(habits, logs, today).completionToday == 100
  {
    FilterLength(habits, (h: Habit) => LoggedOn(logs, h.id, today));
  }
}
