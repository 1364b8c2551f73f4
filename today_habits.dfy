/** Today's habit list on the dashboard
    (src/components/dashboard/today-habits.tsx): the "n / m" count, the
    progress bar, each row's flag and the request a click hands to the
    page. Every row can be edited here. */
module TodayHabits {
  import opened Wrappers
  import opened Seqs
  import opened HabitModel

  /** The list's copy of the satisfaction rule, on today's logs. */
  predicate CopyDone(h: Habit, logs: seq<HabitLog>)
  {
    var log := FindLog(logs, h.id);
    if log.None? then false
    else if h.goalType == Boolean then log.value.completed
    else ValueOrZero(log.value.value) >= h.goalValue
  }

  /** `completedCount`. */
  function ListCompletedCount(habits: seq<Habit>, logs: seq<HabitLog>): (n: nat)
    ensures n <= |habits|
  {
    |Filter(habits, (h: Habit) => CopyDone(h, logs))|
  }

  /** The copy counts what the shared rule counts. */
  lemma ListCompletedCountAgrees(habits: seq<Habit>, logs: seq<HabitLog>)
    ensures ListCompletedCount(habits, logs) == CompletedCount(habits, logs)
  {
    FilterCongruent(habits, (h: Habit) => CopyDone(h, logs), (h: Habit) => DoneWith(logs, h));
  }

  /** `progress`: the percentage of habits done, 0 without habits. */
  function Progress(habits: seq<Habit>, logs: seq<HabitLog>): real
  {
    if |habits| > 0 then Percent(ListCompletedCount(habits, logs), |habits|) else 0.0
  }

  /** `(c / n) * 100`. */
  function Percent(c: nat, n: nat): real
    requires n > 0
  {
    (c as real / n as real) * 100.0
  }

  /** The bar is 0 without habits, otherwise the share of habits done in
      percent; it stays within [0, 100] and is full exactly when every
      habit is done. */
  lemma ProgressMeaning(habits: seq<Habit>, logs: seq<HabitLog>)
    ensures |habits| == 0 ==> Progress(habits, logs) == 0.0
    ensures |habits| > 0 ==> Progress(habits, logs) == Percent(CompletedCount(habits, logs), |habits|)
    ensures 0.0 <= Progress(habits, logs) <= 100.0
    ensures |habits| > 0 ==> (Progress(habits, logs) == 100.0 <==> CompletedCount(habits, logs) == |habits|)
  {
    ListCompletedCountAgrees(habits, logs);
    if |habits| > 0 {
      var c := ListCompletedCount(habits, logs);
      Percentage(c, |habits|);
    }
  }

  /** `c` out of `n` in percent: `c * 100 / n`, within [0, 100], and 100
      exactly when `c` is all of `n`. */
  lemma Percentage(c: nat, n: nat)
    requires 0 < n && c <= n
    ensures Percent(c, n) * (n as real) == (c as real) * 100.0
    ensures 0.0 <= Percent(c, n) <= 100.0
    ensures Percent(c, n) == 100.0 <==> c == n
  {
    var q := c as real / n as real;
    assert q * (n as real) == c as real;
    assert 0.0 <= q <= 1.0;
    if q == 1.0 { assert c as real == n as real; }
  }

  /** A click on row `i` while `loadingHabitId` is the row being saved, if
      any: the row's request, always editable. */
  function Click(habits: seq<Habit>, logs: seq<HabitLog>, loadingHabitId: Option<string>, i: nat, action: RowAction): (r: Option<Request>)
    requires i < |habits|
  {
    var h := habits[i];
    RowRequest(true, loadingHabitId == Some(h.id), h, FindLog(logs, h.id), action)
  }

  /** A row not being saved always answers its enabled buttons. A toggle
      asks for the opposite of the flag the row shows (true without a log);
      a +/- asks for the value moved by one and clamped at 0, and the - is
      refused at 0 or below. */
  lemma ClickMeaning(habits: seq<Habit>, logs: seq<HabitLog>, loadingHabitId: Option<string>, i: nat, action: RowAction)
    requires i < |habits|
    ensures var r := Click(habits, logs, loadingHabitId, i, action);
      var h := habits[i];
      var log := FindLog(logs, h.id);
      && (r.Some? <==>
            (loadingHabitId != Some(h.id) &&
             match action
             case Toggle => h.goalType == Boolean
             case Increment => h.goalType == Count
             case Decrement => h.goalType == Count && LogValue(log) > 0))
      && (r.Some? && r.value.SetCompleted? ==>
            r.value == SetCompleted(h.id, !RowCompleted(h, log)) && (log.None? ==> r.value.completed))
      && (r.Some? && r.value.SetValue? ==>
            r.value.habitId == h.id && r.value.value == ValueTarget(log, if action == Increment then 1 else -1)
            && r.value.value >= 0)
  {
    var h := habits[i];
    var log := FindLog(logs, h.id);
    RowRequestEnabled(true, loadingHabitId == Some(h.id), h, log, action);
    var r := Click(habits, logs, loadingHabitId, i, action);
    if r.Some? && r.value.SetCompleted? {
      ToggleNegatesRow(h, log);
    }
  }
}
