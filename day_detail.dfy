/** The day detail dialog of the calendar (src/components/calendar/day-detail.tsx):
    the "n / m" count of the selected day, each habit row's completed
    flag, and the request a click on a row hands to the page. Editing is
    allowed only on today's date. */
module DayDetail {
  import opened Wrappers
  import opened Seqs
  import opened HabitModel

  /** The dialog's copy of the satisfaction rule, on the day's logs. */
  predicate CopyDone(h: Habit, logs: seq<HabitLog>)
  {
    var log := FindLog(logs, h.id);
    if log.None? then false
    else if h.goalType == Boolean then log.value.completed
    else ValueOrZero(log.value.value) >= h.goalValue
  }

  /** `completedCount`. */
  function DialogCompletedCount(habits: seq<Habit>, logs: seq<HabitLog>): (n: nat)
    ensures n <= |habits|
  {
    |Filter(habits, (h: Habit) => CopyDone(h, logs))|
  }

  /** The copy counts what the shared rule counts. */
  lemma DialogCompletedCountAgrees(habits: seq<Habit>, logs: seq<HabitLog>)
    ensures DialogCompletedCount(habits, logs) == CompletedCount(habits, logs)
  {
    FilterCongruent(habits, (h: Habit) => CopyDone(h, logs), (h: Habit) => DoneWith(logs, h));
  }

  /** One habit row: its flag and whether its controls are live. */
  datatype RowView = RowView(habitId: string, isCompleted: bool, canEdit: bool)

  /** What the dialog shows. */
  datatype DayView = DayView(completedCount: nat, total: nat, rows: seq<RowView>)

  /** The dialog for `date`; nothing at all when `date` is null or empty. */
  function Render(date: Option<string>, habits: seq<Habit>, logs: seq<HabitLog>, isToday: bool): (v: Option<DayView>)
  {
    if date.None? || date.value == "" then None
    else
      var rows := Map(habits, (h: Habit) => RowView(h.id, RowCompleted(h, FindLog(logs, h.id)), isToday));
      Some(DayView(DialogCompletedCount(habits, logs), |habits|, rows))
  }

  /** The dialog renders exactly when a date is given; it shows the count
      of habits the shared rule finds done out of all habits, and one row
      per habit, in order, whose flag agrees with the shared rule except
      for a count habit without a log whose goal is 0 or less, and whose
      controls are live only on today's date. */
  lemma RenderMeaning(date: Option<string>, habits: seq<Habit>, logs: seq<HabitLog>, isToday: bool)
    ensures Render(date, habits, logs, isToday).None? <==> date.None? || date.value == ""
    ensures Render(date, habits, logs, isToday).Some? ==>
      var v := Render(date, habits, logs, isToday).value;
      && v.completedCount == CompletedCount(habits, logs) <= v.total == |habits|
      && |v.rows| == |habits|
      && forall i :: 0 <= i < |habits| ==>
           && v.rows[i].habitId == habits[i].id
           && v.rows[i].canEdit == isToday
           && (v.rows[i].isCompleted == DoneWith(logs, habits[i]) ||
               (habits[i].goalType == Count && FindLog(logs, habits[i].id).None? && habits[i].goalValue <= 0))
  {
    DialogCompletedCountAgrees(habits, logs);
    if Render(date, habits, logs, isToday).Some? {
      var v := Render(date, habits, logs, isToday).value;
      forall i | 0 <= i < |habits|
        ensures v.rows[i].isCompleted == DoneWith(logs, habits[i]) ||
                (habits[i].goalType == Count && FindLog(logs, habits[i].id).None? && habits[i].goalValue <= 0)
      {
        RowCompletedAgrees(habits[i], FindLog(logs, habits[i].id));
      }
    }
  }

  /** A click on row `i` (while `loadingHabitId` is the row being saved, if
      any): nothing when the dialog is closed; otherwise the row's request
      with editing allowed only on today's date. */
  function Click(date: Option<string>, habits: seq<Habit>, logs: seq<HabitLog>, isToday: bool,
                 loadingHabitId: Option<string>, i: nat, action: RowAction): (r: Option<Request>)
    requires i < |habits|
  {
    if date.None? || date.value == "" then None
    else
      var h := habits[i];
      RowRequest(isToday, loadingHabitId == Some(h.id), h, FindLog(logs, h.id), action)
  }

  /** Clicks change nothing on another day than today or on a row being
      saved. A toggle asks for the opposite of the flag its row shows (true
      when the habit has no log); a +/- asks for the row's value moved by
      one and clamped at 0, and the - is refused at 0 or below. */
  lemma ClickMeaning(date: Option<string>, habits: seq<Habit>, logs: seq<HabitLog>, isToday: bool,
                     loadingHabitId: Option<string>, i: nat, action: RowAction)
    requires i < |habits|
    ensures var r := Click(date, habits, logs, isToday, loadingHabitId, i, action);
      var h := habits[i];
      var log := FindLog(logs, h.id);
      && (r.Some? ==> isToday && loadingHabitId != Some(h.id) && date.Some? && date.value != "")
      && (r.Some? && r.value.SetCompleted? ==>
            r.value == SetCompleted(h.id, !RowCompleted(h, log)) && (log.None? ==> r.value.completed))
      && (r.Some? && r.value.SetValue? ==>
            r.value.habitId == h.id && r.value.value == ValueTarget(log, if action == Increment then 1 else -1)
            && r.value.value >= 0)
      && (action == Decrement && LogValue(log) <= 0 ==> r.None?)
  {
    var h := habits[i];
    var log := FindLog(logs, h.id);
    var r := Click(date, habits, logs, isToday, loadingHabitId, i, action);
    if r.Some? && r.value.SetCompleted? {
      ToggleNegatesRow(h, log);
    }
  }
}
