/** The per-habit statistics of `getHabitStats`: the trailing 7-day streak
    and the completion percentage over a rolling window or the habit's
    lifetime, with the window clamping the habit list applies. */
module Stats {
  import opened Domain

  // ---------------------------------------------------------------- streak

  /** The seven days the streak walk visits, newest first: whether day
      `today - i` has a completed log of the habit. */
  function StreakWindow(logs: seq<HabitLog>, habitId: string, today: int): (w: seq<bool>)
    ensures |w| == 7
    ensures forall i :: 0 <= i < 7 ==> (w[i] <==> CompletedOn(logs, habitId, today - i))
  {
    seq(7, i requires 0 <= i < 7 => CompletedOn(logs, habitId, today - i))
  }

  /** The first completed day at or after position `i` of the window, or `|w|`. */
  function FirstCompleted(w: seq<bool>, i: nat): (r: nat)
    requires i <= |w|
    ensures i <= r <= |w|
    ensures forall k :: i <= k < r ==> !w[k]
    ensures r < |w| ==> w[r]
    decreases |w| - i
  {
    if i == |w| || w[i] then i else FirstCompleted(w, i + 1)
  }

  /** The length of the run of completed days starting at position `i`. */
  function RunFrom(w: seq<bool>, i: nat): (r: nat)
    requires i <= |w|
    ensures i + r <= |w|
    ensures forall k :: i <= k < i + r ==> w[k]
    ensures i + r == |w| || !w[i + r]
    decreases |w| - i
  {
    if i == |w| || !w[i] then 0 else 1 + RunFrom(w, i + 1)
  }

  /** The streak: the most recent run of completed days in the window, after
      skipping the missing days before it. */
  function Streak(w: seq<bool>): nat {
    RunFrom(w, FirstCompleted(w, 0))
  }

  /** `len` days from position `start` are the latest run of the window:
      every day before `start` (more recent) is missing, `start` is the first
      completed day (or the end of the window), the run is completed
      throughout, and the day after it is missing or outside the window. */
  predicate LatestRun(w: seq<bool>, start: int, len: int) {
    0 <= start && 0 <= len && start + len <= |w|
    && (forall k :: 0 <= k < start ==> !w[k])
    && (start < |w| ==> w[start])
    && (forall k :: start <= k < start + len ==> w[k])
    && (start + len == |w| || !w[start + len])
  }

  /** The streak is the latest run of the window, and that run is the only
      one: so the streak lies between 0 and 7, and it is 0 exactly when no day
      of the window is completed. */
  lemma StreakIsLatestRun(w: seq<bool>)
    ensures LatestRun(w, FirstCompleted(w, 0), Streak(w))
    ensures forall start, len :: LatestRun(w, start, len) ==> len == Streak(w)
    ensures Streak(w) == 0 <==> forall k :: 0 <= k < |w| ==> !w[k]
  {
    var first := FirstCompleted(w, 0);
    assert first < |w| ==> RunFrom(w, first) > 0;
    forall start, len | LatestRun(w, start, len) ensures len == Streak(w) {
      FirstCompletedAt(w, start);
      RunFromExact(w, start, start + len);
    }
  }

  /** The first completed day is the one before which all days are missing. */
  lemma FirstCompletedAt(w: seq<bool>, i: int)
    requires 0 <= i <= |w|
    requires forall k :: 0 <= k < i ==> !w[k]
    requires i < |w| ==> w[i]
    ensures FirstCompleted(w, 0) == i
  {
  }

  /** Completed logs only four and five days ago: the walk skips the four
      missing days and counts the run of two. */
  lemma StreakAfterGap()
    ensures Streak([false, false, false, false, true, true, false]) == 2
  {
    var w := [false, false, false, false, true, true, false];
    FirstCompletedAt(w, 4);
    RunFromExact(w, 4, 6);
  }

  /** A run that is all completed and ends at a missing day or at the end of
      the window is the `RunFrom` of its first day. */
  lemma {:induction false} RunFromExact(w: seq<bool>, i: nat, j: nat)
    requires i <= j <= |w|
    requires forall k :: i <= k < j ==> w[k]
    requires j == |w| || !w[j]
    ensures RunFrom(w, i) == j - i
    decreases j - i
  {
    if i < j {
      RunFromExact(w, i + 1, j);
    }
  }

  /** The streak loop of `getHabitStats`: walk back from today over seven
      days, counting completed days; a missing today is skipped, missing days
      before the first completed one are skipped, and once the count is
      positive the first missing day ends the walk. */
  method HabitStreak(logs: seq<HabitLog>, habitId: string, today: int) returns (streak: nat)
    ensures streak == Streak(StreakWindow(logs, habitId, today))
    ensures streak <= 7
  {
    ghost var w := StreakWindow(logs, habitId, today);
    streak := 0;
    var i := 0;
    while i < 7
      invariant 0 <= i <= 7
      invariant streak == 0 ==> forall k :: 0 <= k < i ==> !w[k]
      invariant streak > 0 ==> FirstCompleted(w, 0) + streak == i
      invariant streak > 0 ==> forall k :: FirstCompleted(w, 0) <= k < i ==> w[k]
    {
      var date := today - i;
      assert w[i] == CompletedOn(logs, habitId, date);
      if CompletedOn(logs, habitId, date) {
        if streak == 0 {
          FirstCompletedAt(w, i);
        }
        streak := streak + 1;
      } else {
        if date == today {
          i := i + 1;
          continue;
        }
        if streak > 0 {
          RunFromExact(w, FirstCompleted(w, 0), i);
          return;
        }
      }
      i := i + 1;
    }
    if streak > 0 {
      RunFromExact(w, FirstCompleted(w, 0), 7);
    } else {
      FirstCompletedAt(w, 7);
    }
  }

  // ------------------------------------------------------------ completion

  datatype Mode = Window | Lifetime

  /** One log the completion count accepts: a completed log of the habit
      dated between `start` and `end`, both included. */
  predicate Counted(log: HabitLog, habitId: string, start: int, end: int) {
    log.habitId == habitId && start <= log.date <= end && log.completed
  }

  /** The completion `reduce`: the number of counted logs (log entries, not
      distinct days). */
  function CountCompleted(logs: seq<HabitLog>, habitId: string, start: int, end: int): (r: nat)
    ensures r <= |logs|
  {
    if |logs| == 0 then 0
    else (if Counted(logs[0], habitId, start, end) then 1 else 0) + CountCompleted(logs[1..], habitId, start, end)
  }

  /** The days on which the counted logs fall. */
  function CountedDays(logs: seq<HabitLog>, habitId: string, start: int, end: int): (r: set<int>)
    ensures forall d :: d in r <==> exists i :: 0 <= i < |logs| && Counted(logs[i], habitId, start, end) && logs[i].date == d
  {
    if |logs| == 0 then {}
    else
      var rest := CountedDays(logs[1..], habitId, start, end);
      assert forall i :: 1 <= i < |logs| ==> logs[i] == logs[1..][i - 1];
      (if Counted(logs[0], habitId, start, end) then {logs[0].date} else {}) + rest
  }

  /** The days from `start` to `end`. */
  function DayRange(start: int, end: int): (r: set<int>)
    ensures forall d :: d in r <==> start <= d <= end
    decreases end - start
  {
    if start > end then {} else DayRange(start, end - 1) + {end}
  }

  lemma {:induction false} DayRangeCard(start: int, end: int)
    requires start <= end + 1
    ensures |DayRange(start, end)| == end - start + 1
    decreases end - start
  {
    if start <= end {
      DayRangeCard(start, end - 1);
      assert end !in DayRange(start, end - 1);
    }
  }

  lemma OneLogPerDayTail(logs: seq<HabitLog>)
    requires |logs| > 0 && OneLogPerDay(logs)
    ensures OneLogPerDay(logs[1..])
  {
    forall i, j | 0 <= i < j < |logs[1..]|
      ensures logs[1..][i].habitId != logs[1..][j].habitId || logs[1..][i].date != logs[1..][j].date
    {
      assert logs[1..][i] == logs[i + 1] && logs[1..][j] == logs[j + 1];
    }
  }

  /** With one log per habit and day, the count is the number of distinct
      days counted. */
  lemma {:induction false} CountIsDays(logs: seq<HabitLog>, habitId: string, start: int, end: int)
    requires OneLogPerDay(logs)
    ensures CountCompleted(logs, habitId, start, end) == |CountedDays(logs, habitId, start, end)|
  {
    if |logs| > 0 {
      OneLogPerDayTail(logs);
      CountIsDays(logs[1..], habitId, start, end);
      var rest := CountedDays(logs[1..], habitId, start, end);
      if Counted(logs[0], habitId, start, end) && logs[0].date in rest {
        assert false;
      }
    }
  }

  /** With one log per habit and day, the count never exceeds the number of
      days in the range. */
  lemma CountAtMostDays(logs: seq<HabitLog>, habitId: string, start: int, end: int)
    requires OneLogPerDay(logs) && start <= end + 1
    ensures CountCompleted(logs, habitId, start, end) <= end - start + 1
  {
    CountIsDays(logs, habitId, start, end);
    DayRangeCard(start, end);
    CountedDaysInRange(logs, habitId, start, end);
    var days := CountedDays(logs, habitId, start, end);
    assert DayRange(start, end) == days + (DayRange(start, end) - days);
  }

  lemma CountedDaysInRange(logs: seq<HabitLog>, habitId: string, start: int, end: int)
    ensures CountedDays(logs, habitId, start, end) <= DayRange(start, end)
  {
    forall d | d in CountedDays(logs, habitId, start, end) ensures start <= d <= end {
      var i :| 0 <= i < |logs| && Counted(logs[i], habitId, start, end) && logs[i].date == d;
    }
  }

  /** With one log per habit and day, the count equals the number of days in
      the range exactly when every day of the range is completed. */
  lemma CountAllDays(logs: seq<HabitLog>, habitId: string, start: int, end: int)
    requires OneLogPerDay(logs) && start <= end + 1
    ensures CountCompleted(logs, habitId, start, end) == end - start + 1
            <==> forall d :: start <= d <= end ==> CompletedOn(logs, habitId, d)
  {
    CountIsDays(logs, habitId, start, end);
    DayRangeCard(start, end);
    CountedDaysInRange(logs, habitId, start, end);
    CountedDaysFull(logs, habitId, start, end);
    var days, range := CountedDays(logs, habitId, start, end), DayRange(start, end);
    assert range == days + (range - days);
  }

  /** Every day of the range is completed exactly when every day of the
      range is among the counted days. */
  lemma CountedDaysFull(logs: seq<HabitLog>, habitId: string, start: int, end: int)
    ensures (forall d :: start <= d <= end ==> CompletedOn(logs, habitId, d))
            <==> DayRange(start, end) <= CountedDays(logs, habitId, start, end)
  {
    var days := CountedDays(logs, habitId, start, end);
    if forall d :: start <= d <= end ==> CompletedOn(logs, habitId, d) {
      forall d | d in DayRange(start, end) ensures d in days {
        assert start <= d <= end;
        assert CompletedOn(logs, habitId, d);
        var i :| 0 <= i < |logs| && Completes(logs[i], habitId, d);
        assert Counted(logs[i], habitId, start, end);
      }
    }
    if DayRange(start, end) <= days {
      forall d | start <= d <= end ensures CompletedOn(logs, habitId, d) {
        assert d in days;
        var i :| 0 <= i < |logs| && Counted(logs[i], habitId, start, end) && logs[i].date == d;
        assert Completes(logs[i], habitId, d);
      }
    }
  }

  /** `Math.round(num / den)` for a non-negative quotient, halves rounding up. */
  function RoundRatio(num: nat, den: nat): nat
    requires den > 0
  {
    (2 * num + den) / (2 * den)
  }

  /** `RoundRatio` is the integer nearest the quotient, halves going up. */
  lemma RoundRatioNearest(num: nat, den: nat)
    requires den > 0
    ensures 2 * den * RoundRatio(num, den) <= 2 * num + den < 2 * den * (RoundRatio(num, den) + 1)
  {
    var q := RoundRatio(num, den);
    assert 2 * num + den == (2 * den) * q + (2 * num + den) % (2 * den);
  }

  /** A share of at most the whole rounds to at most 100 percent, and the
      whole rounds to exactly 100. */
  lemma RoundPercentBounds(count: nat, total: nat)
    requires total > 0
    ensures count <= total ==> RoundRatio(100 * count, total) <= 100
    ensures RoundRatio(100 * total, total) == 100
  {
    if count <= total {
      assert 2 * (100 * count) + total < (2 * total) * 101;
      DivBelow(2 * (100 * count) + total, 2 * total, 101);
    }
    DivUnique(2 * (100 * total) + total, 2 * total, 100, total);
  }

  lemma MulMono(a: int, b: int, c: int)
    requires a >= 0 && b <= c
    ensures a * b <= a * c
  {
  }

  /** Division has one quotient and remainder. */
  lemma DivUnique(x: int, d: int, q: int, r: int)
    requires d > 0 && 0 <= r < d && x == d * q + r
    ensures x / d == q
  {
    var q', r' := x / d, x % d;
    assert x == d * q' + r';
    if q' > q { MulMono(d, q + 1, q'); }
    if q' < q { MulMono(d, q' + 1, q); }
  }

  lemma DivBelow(x: int, d: int, k: int)
    requires d > 0 && x < d * k
    ensures x / d < k
  {
    var q' := x / d;
    assert x == d * q' + x % d;
    if q' >= k { MulMono(d, k, q'); }
  }

  /** The first day the completion counts: the creation day in lifetime mode,
      otherwise `windowDays` days back from today, today included (a window
      below one day counts as one). */
  function WindowStart(created: int, windowDays: int, mode: Mode, today: int): int {
    if mode == Lifetime then created else today - Max(windowDays, 1) + 1
  }

  /** The completion percentage of `getHabitStats`: completed logs from the
      window start to today over the days in the window (at least one),
      rounded and clamped to [0, 100]. */
  function Completion(logs: seq<HabitLog>, habit: Habit, windowDays: int, mode: Mode, today: int): (r: nat)
    ensures r <= 100
  {
    var start := WindowStart(habit.created, windowDays, mode, today);
    var totalDays := today - start + 1;
    var count := CountCompleted(logs, habit.id, start, today);
    Min(100, RoundRatio(100 * count, Max(totalDays, 1)))
  }

  /** In window mode the window spans exactly `max(windowDays, 1)` days. */
  lemma WindowSpan(created: int, windowDays: int, today: int)
    ensures today - WindowStart(created, windowDays, Window, today) + 1 == Max(windowDays, 1)
  {
  }

  /** With one log per habit and day the clamp to 100 never engages: the
      percentage is the rounded share of completed days in the window. */
  lemma CompletionUnclamped(logs: seq<HabitLog>, habit: Habit, windowDays: int, mode: Mode, today: int)
    requires OneLogPerDay(logs)
    ensures var start := WindowStart(habit.created, windowDays, mode, today);
            Completion(logs, habit, windowDays, mode, today)
              == RoundRatio(100 * CountCompleted(logs, habit.id, start, today), Max(today - start + 1, 1))
  {
    var start := WindowStart(habit.created, windowDays, mode, today);
    var count := CountCompleted(logs, habit.id, start, today);
    if start <= today + 1 {
      CountAtMostDays(logs, habit.id, start, today);
    } else {
      assert count == 0 by {
        CountIsDays(logs, habit.id, start, today);
        assert CountedDays(logs, habit.id, start, today) == {};
      }
    }
    RoundPercentBounds(count, Max(today - start + 1, 1));
  }

  /** With one log per habit and day, completing every day of the window
      gives 100 percent. */
  lemma CompletionPerfect(logs: seq<HabitLog>, habit: Habit, windowDays: int, mode: Mode, today: int)
    requires OneLogPerDay(logs)
    requires WindowStart(habit.created, windowDays, mode, today) <= today
    requires forall d :: WindowStart(habit.created, windowDays, mode, today) <= d <= today ==> CompletedOn(logs, habit.id, d)
    ensures Completion(logs, habit, windowDays, mode, today) == 100
  {
    var start := WindowStart(habit.created, windowDays, mode, today);
    CountAllDays(logs, habit.id, start, today);
    RoundPercentBounds(today - start + 1, today - start + 1);
  }

  // ------------------------------------------------------- window settings

  /** A habit's completion setting; habits without one use a 7-day window. */
  datatype CompletionSetting = CompletionSetting(mode: Mode, days: int)

  /** `getCompletionSetting(habitId)`. */
  function GetCompletionSetting(settings: map<string, CompletionSetting>, habitId: string): (r: CompletionSetting)
    ensures habitId in settings ==> r == settings[habitId]
    ensures habitId !in settings ==> r == CompletionSetting(Window, 7)
  {
    if habitId in settings then settings[habitId] else CompletionSetting(Window, 7)
  }

  /** `daysSinceCreation` of the habit list: the days from creation to today,
      both included, and at least one. */
  function DaysSinceCreation(created: int, today: int): (r: int)
    ensures r >= 1
    ensures created <= today ==> r == today - created + 1
  {
    Max(1, today - created + 1)
  }

  /** `clampedWindowDays`: the setting's days clamped to [1, daysSinceCreation]. */
  function ClampWindowDays(days: int, daysSinceCreation: int): (r: int)
    requires daysSinceCreation >= 1
    ensures 1 <= r <= daysSinceCreation
    ensures 1 <= days <= daysSinceCreation ==> r == days
  {
    Max(1, Min(days, daysSinceCreation))
  }

  /** `windowDaysForStats`: the clamped days in window mode, the habit's age
      in lifetime mode. */
  function StatsWindowDays(setting: CompletionSetting, daysSinceCreation: int): (r: int)
    requires daysSinceCreation >= 1
    ensures 1 <= r <= daysSinceCreation
  {
    if setting.mode == Window then ClampWindowDays(setting.days, daysSinceCreation) else daysSinceCreation
  }

  /** The window input's `onChange`: the typed number, or when that is zero
      (or not a number, read as zero) the current setting, or 1; clamped to
      [1, daysSinceCreation]. */
  function WindowInput(typed: int, current: int, daysSinceCreation: int): (r: int)
    requires daysSinceCreation >= 1
    ensures 1 <= r <= daysSinceCreation
    ensures typed != 0 && 1 <= typed <= daysSinceCreation ==> r == typed
  {
    Min(daysSinceCreation, Max(1, if typed != 0 then typed else if current != 0 then current else 1))
  }

  /** The completion the habit list shows. */
  function ShownCompletion(logs: seq<HabitLog>, habit: Habit, setting: CompletionSetting, today: int): nat {
    var dsc := DaysSinceCreation(habit.created, today);
    Completion(logs, habit, StatsWindowDays(setting, dsc), setting.mode, today)
  }

  /** For a habit created on or before today, a window at least as long as the
      habit's age shows the lifetime completion: the clamp makes the window
      start on the creation day. */
  lemma LongWindowIsLifetime(logs: seq<HabitLog>, habit: Habit, days: int, today: int)
    requires habit.created <= today
    requires days >= DaysSinceCreation(habit.created, today)
    ensures ShownCompletion(logs, habit, CompletionSetting(Window, days), today)
            == ShownCompletion(logs, habit, CompletionSetting(Lifetime, days), today)
  {
  }

  /** The window the habit list passes to the stats never starts before the
      habit was created (for a habit created on or before today). */
  lemma ShownWindowWithinLifetime(habit: Habit, setting: CompletionSetting, today: int)
    requires habit.created <= today
    ensures var dsc := DaysSinceCreation(habit.created, today);
            habit.created <= WindowStart(habit.created, StatsWindowDays(setting, dsc), setting.mode, today) <= today
  {
  }
}
