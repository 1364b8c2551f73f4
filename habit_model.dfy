/** The records the pages work on (the `habits`, `habit_logs` and
    `categories` rows of src/types/database.ts) and the rules every page
    shares: when a log satisfies a habit, how many habits of a day are
    done, and what a row of the habit list asks the server to write. */
module HabitModel {
  import opened Wrappers
  import opened Seqs

  datatype GoalType = Boolean | Count

  datatype Frequency = Daily | Weekly

  datatype Category = Category(
    id: string, userId: string, name: string, color: string,
    icon: Option<string>, sortOrder: int, createdAt: string)

  datatype Habit = Habit(
    id: string, userId: string, categoryId: Option<string>, name: string,
    description: Option<string>, goalType: GoalType, goalValue: int,
    unit: Option<string>, frequency: Frequency, isArchived: bool,
    createdAt: string, updatedAt: string)

  datatype HabitLog = HabitLog(
    id: string, habitId: string, userId: string, date: string,
    completed: bool, value: Option<int>, note: Option<string>, createdAt: string)

  /** One day of the heat map and of the weekly chart. */
  datatype DayData = DayData(date: string, completed: int, total: int)

  /** `value || 0`: a missing value (and 0) read as 0. */
  function ValueOrZero(value: Option<int>): (n: int)
    ensures value.None? ==> n == 0
    ensures value.Some? ==> n == value.value
  {
    match value
    case None => 0
    case Some(v) => v
  }

  /** `log?.value || 0`: the recorded count of an optional log. */
  function LogValue(log: Option<HabitLog>): (n: int)
    ensures log.None? ==> n == 0
    ensures log.Some? ==> n == ValueOrZero(log.value.value)
  {
    match log
    case None => 0
    case Some(l) => ValueOrZero(l.value)
  }

  /** The satisfaction rule the pages share: no log means not done; a
      boolean habit is done when its log says so; a count habit when the
      recorded value (0 when missing) reaches the goal. */
  predicate Satisfied(h: Habit, log: Option<HabitLog>)
  {
    match log
    case None => false
    case Some(l) =>
      if h.goalType == Boolean then l.completed else ValueOrZero(l.value) >= h.goalValue
  }

  /** The rule read back on every case it distinguishes. */
  lemma SatisfiedCases(h: Habit, log: Option<HabitLog>)
    ensures log.None? ==> !Satisfied(h, log)
    ensures log.Some? && h.goalType == Boolean ==> (Satisfied(h, log) <==> log.value.completed)
    ensures log.Some? && h.goalType == Count ==>
      (Satisfied(h, log) <==> ValueOrZero(log.value.value) >= h.goalValue)
  {
  }

  /** `logs.find(log => log.habit_id === habitId)`. */
  function FindLog(logs: seq<HabitLog>, habitId: string): (r: Option<HabitLog>)
    ensures r.None? <==> forall i :: 0 <= i < |logs| ==> logs[i].habitId != habitId
    ensures r.Some? ==> r.value.habitId == habitId && r.value in logs
  {
    FindFirst(logs, (l: HabitLog) => l.habitId == habitId)
  }

  /** The first log of `habitId` is the one at the first index carrying it. */
  lemma FindLogFirst(logs: seq<HabitLog>, habitId: string, i: nat)
    requires i < |logs| && logs[i].habitId == habitId
    requires forall j :: 0 <= j < i ==> logs[j].habitId != habitId
    ensures FindLog(logs, habitId) == Some(logs[i])
  {
    var r := FindLog(logs, habitId);
    assert r.Some?;
    var p := (l: HabitLog) => l.habitId == habitId;
    var k :| 0 <= k < |logs| && logs[k] == r.value && p(logs[k]) && forall j :: 0 <= j < k ==> !p(logs[j]);
    assert k == i;
  }

  /** Whether a habit is done on the day the logs describe. */
  predicate DoneWith(logs: seq<HabitLog>, h: Habit)
  {
    Satisfied(h, FindLog(logs, h.id))
  }

  /** The habits done according to `logs`, in list order. */
  function DoneHabits(habits: seq<Habit>, logs: seq<HabitLog>): (r: seq<Habit>)
  {
    Filter(habits, (h: Habit) => DoneWith(logs, h))
  }

  /** `habits.filter(habit => { const log = find…; … }).length`: the count
      behind "n / m" in the day detail, the dashboard and each heat-map
      day. */
  function CompletedCount(habits: seq<Habit>, logs: seq<HabitLog>): (n: nat)
    ensures n <= |habits|
  {
    |DoneHabits(habits, logs)|
  }

  /** No habit done means a count of 0; every habit done means all of them. */
  lemma CompletedCountExtremes(habits: seq<Habit>, logs: seq<HabitLog>)
    ensures (forall i :: 0 <= i < |habits| ==> !DoneWith(logs, habits[i])) ==> CompletedCount(habits, logs) == 0
    ensures (forall i :: 0 <= i < |habits| ==> DoneWith(logs, habits[i])) ==> CompletedCount(habits, logs) == |habits|
  {
    var p := (h: Habit) => DoneWith(logs, h);
    if forall i :: 0 <= i < |habits| ==> !DoneWith(logs, habits[i]) {
      FilterNone(habits, p);
    }
    if forall i :: 0 <= i < |habits| ==> DoneWith(logs, habits[i]) {
      FilterAll(habits, p);
    }
  }

  /** The flag a row of the list shows: a boolean habit takes
      `log?.completed` (false without a log); a count habit compares
      `log?.value || 0` with the goal, even when there is no log. */
  predicate RowCompleted(h: Habit, log: Option<HabitLog>)
  {
    if h.goalType == Boolean then log.Some? && log.value.completed
    else LogValue(log) >= h.goalValue
  }

  /** The row flag and the counting rule disagree exactly for a count habit
      with no log whose goal is 0 or less: the row shows it done, the count
      does not. */
  lemma RowCompletedAgrees(h: Habit, log: Option<HabitLog>)
    ensures RowCompleted(h, log) != Satisfied(h, log) <==>
      h.goalType == Count && log.None? && h.goalValue <= 0
    ensures h.goalValue > 0 ==> (RowCompleted(h, log) <==> Satisfied(h, log))
  {
  }

  /** `!log?.completed`: the flag a toggle asks for; true without a log. */
  function ToggleTarget(log: Option<HabitLog>): (b: bool)
    ensures log.None? ==> b
    ensures log.Some? ==> b == !log.value.completed
  {
    !(log.Some? && log.value.completed)
  }

  /** Toggling a boolean habit's logged flag asks for the opposite of what
      its row shows. */
  lemma ToggleNegatesRow(h: Habit, log: Option<HabitLog>)
    requires h.goalType == Boolean
    ensures ToggleTarget(log) == !RowCompleted(h, log)
  {
  }

  /** `Math.max(0, currentValue + delta)`: the value a +/- button asks for. */
  function ValueTarget(log: Option<HabitLog>, delta: int): (v: int)
    ensures v >= 0
    ensures v >= LogValue(log) + delta
    ensures v == 0 || v == LogValue(log) + delta
  {
    if LogValue(log) + delta > 0 then LogValue(log) + delta else 0
  }

  /** The decrement button is disabled while the row is loading or the
      current value is 0 or less. */
  predicate DecrementDisabled(loading: bool, log: Option<HabitLog>)
  {
    loading || LogValue(log) <= 0
  }

  /** An enabled decrement lowers the value by exactly one, so the clamp
      at 0 is reached only from a value of 1. */
  lemma EnabledDecrementIsExact(loading: bool, log: Option<HabitLog>)
    requires !DecrementDisabled(loading, log)
    ensures ValueTarget(log, -1) == LogValue(log) - 1 >= 0
  {
  }

  /** What a row of the list can ask for. */
  datatype RowAction = Toggle | Increment | Decrement

  /** The request handed to `onToggleComplete` / `onUpdateValue`. */
  datatype Request = SetCompleted(habitId: string, completed: bool) | SetValue(habitId: string, value: int)

  /** The request a click on a row produces, if any: a boolean habit has
      only the toggle; a count habit has only the +/- buttons, with the
      decrement disabled at 0 or less and both disabled while loading;
      nothing happens when editing is not allowed. */
  function RowRequest(canEdit: bool, loading: bool, h: Habit, log: Option<HabitLog>, action: RowAction): (r: Option<Request>)
    ensures r.Some? ==> canEdit && !loading
    ensures r.Some? && r.value.SetCompleted? ==>
      h.goalType == Boolean && action == Toggle && r.value == SetCompleted(h.id, ToggleTarget(log))
    ensures r.Some? && r.value.SetValue? ==>
      h.goalType == Count && r.value.habitId == h.id && r.value.value >= 0
  {
    if !canEdit || loading then None
    else match action
      case Toggle =>
        if h.goalType == Boolean then Some(SetCompleted(h.id, ToggleTarget(log))) else None
      case Increment =>
        if h.goalType == Count then Some(SetValue(h.id, ValueTarget(log, 1))) else None
      case Decrement =>
        if h.goalType == Count && !DecrementDisabled(loading, log) then Some(SetValue(h.id, ValueTarget(log, -1))) else None
  }

  /** Every enabled button produces a request: the toggle of a boolean
      habit, the increment of a count habit, and the decrement of a count
      habit above 0. */
  lemma RowRequestEnabled(canEdit: bool, loading: bool, h: Habit, log: Option<HabitLog>, action: RowAction)
    ensures RowRequest(canEdit, loading, h, log, action).Some? <==>
      canEdit && !loading &&
      (match action
       case Toggle => h.goalType == Boolean
       case Increment => h.goalType == Count
       case Decrement => h.goalType == Count && LogValue(log) > 0)
  {
  }
}
