/** Marking habits done and undone: the log-list updates of `toggleHabit`,
    `toggleHabitOnDate`, `toggleAllToday` and `deleteHabit`. A new log's id
    is the caller's fresh id, standing in for the one the database assigns. */
module Toggles {
  import opened Seqs
  import opened Domain
  import opened Aggregate

  /** Every log id is below `bound`: ids from `bound` on are fresh. */
  predicate IdsBelow(logs: seq<HabitLog>, bound: int) {
    forall i :: 0 <= i < |logs| ==> logs[i].id < bound
  }

  /** What the toggles maintain about the log list. */
  predicate WellFormed(logs: seq<HabitLog>, bound: int) {
    UniqueLogIds(logs) && OneLogPerDay(logs) && IdsBelow(logs, bound)
  }

  /** `logs.find(...)`: the position of the first log of the habit on the
      day, -1 when there is none. */
  function FirstLogIndex(logs: seq<HabitLog>, habitId: string, day: int): (r: int)
    ensures r == -1 <==> !LoggedOn(logs, habitId, day)
    ensures r != -1 ==> 0 <= r < |logs| && logs[r].habitId == habitId && logs[r].date == day
  {
    if |logs| == 0 then -1
    else if logs[0].habitId == habitId && logs[0].date == day then 0
    else
      var k := FirstLogIndex(logs[1..], habitId, day);
      assert forall i :: 1 <= i < |logs| ==> logs[i] == logs[1..][i - 1];
      if k == -1 then -1 else k + 1
  }

  function OtherLog(id: nat): HabitLog -> bool {
    (l: HabitLog) => l.id != id
  }

  /** The log list without the log whose id is `id`. */
  function WithoutLog(logs: seq<HabitLog>, id: nat): (r: seq<HabitLog>)
    ensures forall l :: l in r <==> l in logs && l.id != id
  {
    Filter(logs, OtherLog(id))
  }

  /** The logs after toggling a habit on a day: the day's log is deleted by
      its id if there is one, otherwise a completed log is appended. */
  function Toggled(logs: seq<HabitLog>, habitId: string, day: int, freshId: nat): (r: seq<HabitLog>)
    ensures !LoggedOn(logs, habitId, day) ==> r == logs + [HabitLog(freshId, habitId, day, true)]
  {
    var i := FirstLogIndex(logs, habitId, day);
    if i == -1 then logs + [HabitLog(freshId, habitId, day, true)]
    else WithoutLog(logs, logs[i].id)
  }

  /** With one log per habit and day, toggling flips whether the habit is
      logged on that day. */
  lemma ToggleFlips(logs: seq<HabitLog>, habitId: string, day: int, freshId: nat)
    requires OneLogPerDay(logs)
    ensures LoggedOn(Toggled(logs, habitId, day, freshId), habitId, day) <==> !LoggedOn(logs, habitId, day)
  {
    var r := Toggled(logs, habitId, day, freshId);
    if LoggedOn(logs, habitId, day) {
      var i := FirstLogIndex(logs, habitId, day);
      if LoggedOn(r, habitId, day) {
        var k :| 0 <= k < |r| && r[k].habitId == habitId && r[k].date == day;
        assert r[k] in logs && r[k].id != logs[i].id;
        var j :| 0 <= j < |logs| && logs[j] == r[k];
      }
    } else {
      assert r[|logs|].habitId == habitId && r[|logs|].date == day;
    }
  }

  /** With distinct log ids, toggling one habit on one day changes nothing
      for any other habit or day. */
  lemma ToggleKeepsOthers(logs: seq<HabitLog>, habitId: string, day: int, freshId: nat, otherId: string, otherDay: int)
    requires UniqueLogIds(logs) && (otherId != habitId || otherDay != day)
    ensures var r := Toggled(logs, habitId, day, freshId);
            (LoggedOn(r, otherId, otherDay) <==> LoggedOn(logs, otherId, otherDay))
            && (CompletedOn(r, otherId, otherDay) <==> CompletedOn(logs, otherId, otherDay))
  {
    var r := Toggled(logs, habitId, day, freshId);
    var i := FirstLogIndex(logs, habitId, day);
    if i == -1 {
      forall k | 0 <= k < |logs| ensures r[k] == logs[k] { }
      assert r[|logs|].habitId == habitId && r[|logs|].date == day;
    } else {
      forall k | 0 <= k < |logs| && logs[k].habitId == otherId && logs[k].date == otherDay
        ensures logs[k] in r
      {
        assert k != i;
      }
      forall k | 0 <= k < |r| ensures r[k] in logs {
      }
    }
  }

  /** Toggling keeps one log per habit and day, distinct ids, and ids below
      the next fresh one. */
  lemma ToggleWellFormed(logs: seq<HabitLog>, habitId: string, day: int, freshId: nat)
    requires WellFormed(logs, freshId)
    ensures WellFormed(Toggled(logs, habitId, day, freshId), freshId + 1)
  {
    var i := FirstLogIndex(logs, habitId, day);
    if i != -1 {
      FilterPairwise(logs, OtherLog(logs[i].id), (a: HabitLog, b: HabitLog) => a.id != b.id);
      FilterPairwise(logs, OtherLog(logs[i].id), (a: HabitLog, b: HabitLog) => a.habitId != b.habitId || a.date != b.date);
      var r := WithoutLog(logs, logs[i].id);
      forall k | 0 <= k < |r| ensures r[k].id < freshId + 1 {
        assert r[k] in logs;
      }
    }
  }

  /** Toggling a habit that was not logged, and toggling it again, gives the
      log list back. */
  lemma ToggleTwice(logs: seq<HabitLog>, habitId: string, day: int, freshId: nat, nextId: nat)
    requires IdsBelow(logs, freshId) && !LoggedOn(logs, habitId, day)
    ensures Toggled(Toggled(logs, habitId, day, freshId), habitId, day, nextId) == logs
  {
    var added := HabitLog(freshId, habitId, day, true);
    var t := logs + [added];
    assert t[|logs|] == added;
    assert FirstLogIndex(t, habitId, day) == |logs|;
    FilterAppend(logs, [added], OtherLog(freshId));
    FilterKeepsAll(logs, OtherLog(freshId));
    assert [added][1..] == [];
  }

  /** `toggleHabitOnDate`: future days are left alone. */
  function ToggledOnDate(logs: seq<HabitLog>, habitId: string, day: int, today: int, freshId: nat): (r: seq<HabitLog>)
    ensures day > today ==> r == logs
    ensures day <= today ==> r == Toggled(logs, habitId, day, freshId)
  {
    if day > today then logs else Toggled(logs, habitId, day, freshId)
  }

  // ---------------------------------------------------------- all at once

  /** The habits not logged today. */
  function Outstanding(habits: seq<Habit>, logs: seq<HabitLog>, today: int): seq<Habit> {
    Filter(habits, (h: Habit) => !LoggedOn(logs, h.id, today))
  }

  /** One completed log for today per habit, with consecutive fresh ids. */
  function NewLogs(hs: seq<Habit>, today: int, firstId: nat): (r: seq<HabitLog>)
    ensures |r| == |hs|
    ensures forall i :: 0 <= i < |hs| ==> r[i] == HabitLog(firstId + i, hs[i].id, today, true)
  {
    seq(|hs|, i requires 0 <= i < |hs| => HabitLog(firstId + i, hs[i].id, today, true))
  }

  function NotOn(day: int): HabitLog -> bool {
    (l: HabitLog) => l.date != day
  }

  /** `toggleAllToday`: with every habit done, all of today's logs are
      deleted; otherwise a log is added for each habit not yet done. */
  function ToggledAll(habits: seq<Habit>, logs: seq<HabitLog>, today: int, firstId: nat): (r: seq<HabitLog>)
    ensures |habits| == 0 ==> r == logs
  {
    if |habits| == 0 then logs
    else if AllCompletedToday(habits, logs, today) then Filter(logs, NotOn(today))
    else logs + NewLogs(Outstanding(habits, logs, today), today, firstId)
  }

  /** With every habit done, toggling all leaves nothing logged today; with
      some habit not done, toggling all makes every habit done. */
  lemma ToggledAllEffect(habits: seq<Habit>, logs: seq<HabitLog>, today: int, firstId: nat)
    requires |habits| > 0
    ensures AllCompletedToday(habits, logs, today)
            ==> forall id :: !LoggedOn(ToggledAll(habits, logs, today, firstId), id, today)
    ensures !AllCompletedToday(habits, logs, today)
            ==> AllCompletedToday(habits, ToggledAll(habits, logs, today, firstId), today)
  {
    var r := ToggledAll(habits, logs, today, firstId);
    if !AllCompletedToday(habits, logs, today) {
      var out := Outstanding(habits, logs, today);
      var added := NewLogs(out, today, firstId);
      forall i | 0 <= i < |habits| ensures LoggedOn(r, habits[i].id, today) {
        if LoggedOn(logs, habits[i].id, today) {
          var k :| 0 <= k < |logs| && logs[k].habitId == habits[i].id && logs[k].date == today;
          assert r[k] == logs[k];
        } else {
          assert habits[i] in out;
          var k :| 0 <= k < |out| && out[k] == habits[i];
          assert r[|logs| + k] == added[k];
        }
      }
    } else {
      assert forall k :: 0 <= k < |r| ==> r[k] in r;
    }
  }

  /** Toggling all touches only today: the logs of other days are exactly
      the old ones, and when it completes the habits it only appends. */
  lemma ToggledAllFrame(habits: seq<Habit>, logs: seq<HabitLog>, today: int, firstId: nat)
    ensures forall l :: l in logs && l.date != today ==> l in ToggledAll(habits, logs, today, firstId)
    ensures forall l :: l in ToggledAll(habits, logs, today, firstId) && l.date != today ==> l in logs
    ensures !AllCompletedToday(habits, logs, today) ==> logs <= ToggledAll(habits, logs, today, firstId)
  {
    if |habits| > 0 && !AllCompletedToday(habits, logs, today) {
      var added := NewLogs(Outstanding(habits, logs, today), today, firstId);
      var r := logs + added;
      forall l | l in r && l.date != today ensures l in logs {
        assert l !in added;
      }
    }
  }

  /** Toggling all keeps the log list well formed, given distinct habit
      ids. */
  lemma ToggledAllWellFormed(habits: seq<Habit>, logs: seq<HabitLog>, today: int, firstId: nat)
    requires WellFormed(logs, firstId) && UniqueHabitIds(habits)
    ensures WellFormed(ToggledAll(habits, logs, today, firstId), firstId + |habits|)
  {
    if |habits| > 0 {
      if AllCompletedToday(habits, logs, today) {
        FilterPairwise(logs, NotOn(today), (a: HabitLog, b: HabitLog) => a.id != b.id);
        FilterPairwise(logs, NotOn(today), (a: HabitLog, b: HabitLog) => a.habitId != b.habitId || a.date != b.date);
        var r := Filter(logs, NotOn(today));
        forall k | 0 <= k < |r| ensures r[k].id < firstId + |habits| {
          assert r[k] in logs;
        }
      } else {
        var out := Outstanding(habits, logs, today);
        FilterPairwise(habits, (h: Habit) => !LoggedOn(logs, h.id, today), (a: Habit, b: Habit) => a.id != b.id);
        AppendNewLogsWellFormed(logs, out, today, firstId);
        assert |out| <= |habits|;
      }
    }
  }

  lemma AppendNewLogsWellFormed(logs: seq<HabitLog>, out: seq<Habit>, today: int, firstId: nat)
    requires WellFormed(logs, firstId) && UniqueHabitIds(out)
    requires forall h :: h in out ==> !LoggedOn(logs, h.id, today)
    ensures WellFormed(logs + NewLogs(out, today, firstId), firstId + |out|)
  {
    var added := NewLogs(out, today, firstId);
    var r := logs + added;
    forall i, j | 0 <= i < j < |r| ensures r[i].id != r[j].id && (r[i].habitId != r[j].habitId || r[i].date != r[j].date) {
      if j >= |logs| {
        assert r[j] == added[j - |logs|];
        if i < |logs| {
          assert out[j - |logs|] in out;
          assert r[i] == logs[i];
        } else {
          assert r[i] == added[i - |logs|];
        }
      }
    }
  }

  // -------------------------------------------------------------- deleting

  /** `deleteHabit` on the log list: every log of the habit goes. */
  function LogsWithoutHabit(logs: seq<HabitLog>, id: string): (r: seq<HabitLog>)
    ensures forall l :: l in r <==> l in logs && l.habitId != id
    ensures forall day :: !LoggedOn(r, id, day)
  {
    var r := Filter(logs, (l: HabitLog) => l.habitId != id);
    assert forall k :: 0 <= k < |r| ==> r[k] in r;
    r
  }

  /** `deleteHabit` on the habit list. */
  function HabitsWithout(habits: seq<Habit>, id: string): (r: seq<Habit>)
    ensures forall h :: h in r <==> h in habits && h.id != id
  {
    Filter(habits, (h: Habit) => h.id != id)
  }

  /** Deleting keeps the log list well formed and the habit ids distinct. */
  lemma DeleteWellFormed(habits: seq<Habit>, logs: seq<HabitLog>, id: string, bound: nat)
    requires WellFormed(logs, bound) && UniqueHabitIds(habits)
    ensures WellFormed(LogsWithoutHabit(logs, id), bound)
    ensures UniqueHabitIds(HabitsWithout(habits, id))
  {
    var p := (l: HabitLog) => l.habitId != id;
    FilterPairwise(logs, p, (a: HabitLog, b: HabitLog) => a.id != b.id);
    FilterPairwise(logs, p, (a: HabitLog, b: HabitLog) => a.habitId != b.habitId || a.date != b.date);
    FilterPairwise(habits, (h: Habit) => h.id != id, (a: Habit, b: Habit) => a.id != b.id);
    var r := LogsWithoutHabit(logs, id);
    forall k | 0 <= k < |r| ensures r[k].id < bound {
      assert r[k] in logs;
    }
  }
}
