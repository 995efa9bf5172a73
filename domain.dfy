/** The records the dashboard works on: a habit with its parsed tags, and a
    completion log entry. Dates are day numbers (days since 1970-01-01, UTC). */
module Domain {

  /** A habit as held in memory: `categories` is the parsed tag field,
      `created` the day of `created_at`, and a missing description is the
      empty string. */
  datatype Habit = Habit(id: string, name: string, description: string, categories: seq<string>, created: int)

  /** A row of the log table: habit `habitId` was marked on day `date`. */
  datatype HabitLog = HabitLog(id: nat, habitId: string, date: int, completed: bool)

  /** `habits.map((h) => h.id)`. */
  function HabitIds(habits: seq<Habit>): (r: seq<string>)
    ensures |r| == |habits| && forall i :: 0 <= i < |habits| ==> r[i] == habits[i].id
  {
    seq(|habits|, i requires 0 <= i < |habits| => habits[i].id)
  }

  /** A completed log of `habitId` on `day`: the test `getHabitStats` and the
      calendar apply to each log. */
  predicate Completes(log: HabitLog, habitId: string, day: int) {
    log.habitId == habitId && log.date == day && log.completed
  }

  /** `logs.some((l) => l.habit_id === habitId && l.date === day && l.completed)`. */
  predicate CompletedOn(logs: seq<HabitLog>, habitId: string, day: int) {
    exists i :: 0 <= i < |logs| && Completes(logs[i], habitId, day)
  }

  /** `isCompleted`: any log of the habit on that day, whatever its
      `completed` flag says. */
  predicate LoggedOn(logs: seq<HabitLog>, habitId: string, day: int) {
    exists i :: 0 <= i < |logs| && logs[i].habitId == habitId && logs[i].date == day
  }

  /** No two habits share an id. */
  predicate UniqueHabitIds(habits: seq<Habit>) {
    forall i, j :: 0 <= i < j < |habits| ==> habits[i].id != habits[j].id
  }

  /** No two logs share an id. */
  predicate UniqueLogIds(logs: seq<HabitLog>) {
    forall i, j :: 0 <= i < j < |logs| ==> logs[i].id != logs[j].id
  }

  /** No two logs record the same habit on the same day: what the toggles
      maintain, since they add a log only where none exists. */
  predicate OneLogPerDay(logs: seq<HabitLog>) {
    forall i, j :: 0 <= i < j < |logs| ==> logs[i].habitId != logs[j].habitId || logs[i].date != logs[j].date
  }

  function Max(a: int, b: int): int {
    if a < b then b else a
  }

  function Min(a: int, b: int): int {
    if a < b then a else b
  }
}
