/** The calendar page (src/app/calendar/page.tsx): the 91-day summary the
    heat map draws, the logs of a selected day, and the write a click in
    the day detail turns into (an update of the existing log of the habit
    on that day, or an insert). The habits and logs are the ones the page
    fetched; the date `today` stands for `new Date()`. */
module CalendarPage {
  import opened Wrappers
  import opened Seqs
  import opened Strings
  import opened Calendar
  import opened DateUtils
  import opened HabitModel

  /** The loop runs over offsets `0 ..= 90`. */
  const LastOffset: nat := 90

  // ---------------------------------------------------------------------
  // The day summary
  // ---------------------------------------------------------------------

  /** `logs.filter(log => log.date === date)`: the day's logs, in order;
      also `handleSelectDate`'s `dateLogs`. */
  function LogsOn(logs: seq<HabitLog>, date: string): (r: seq<HabitLog>)
    ensures forall l :: l in r <==> l in logs && l.date == date
    ensures forall l :: multiset(r)[l] == if l.date == date then multiset(logs)[l] else 0
    ensures IsSubsequence(r, logs)
  {
    Filter(logs, (l: HabitLog) => l.date == date)
  }

  /** The page's copy of the satisfaction rule: the habit's first log among
      the day's logs decides. */
  predicate DayHabitDone(h: Habit, dayLogs: seq<HabitLog>)
  {
    var log := FindLog(dayLogs, h.id);
    if log.None? then false
    else if h.goalType == Boolean then log.value.completed
    else ValueOrZero(log.value.value) >= h.goalValue
  }

  /** The copy agrees with the shared rule. */
  lemma DayHabitDoneAgrees(h: Habit, dayLogs: seq<HabitLog>)
    ensures DayHabitDone(h, dayLogs) == DoneWith(dayLogs, h)
  {
  }

  /** The entry the loop writes for offset `i`: the date `i` days before
      today, the number of habits done on it, and the number of habits. */
  function DayEntry(habits: seq<Habit>, logs: seq<HabitLog>, today: Date, i: nat): (e: DayData)
    requires Valid(today)
  {
    var dateStr := FormatDate(DaysBefore(today, i));
    var dayLogs := LogsOn(logs, dateStr);
    DayData(dateStr, |Filter(habits, (h: Habit) => DayHabitDone(h, dayLogs))|, |habits|)
  }

  /** `Map.prototype.set` on a map kept as its values in insertion order,
      keyed by their date: a key already present keeps its place and takes
      the new value; a new key goes last. */
  function MapSet(entries: seq<DayData>, e: DayData): (r: seq<DayData>)
    ensures (forall j :: 0 <= j < |entries| ==> entries[j].date != e.date) ==> r == entries + [e]
    ensures forall k :: (0 <= k < |entries| && entries[k].date == e.date &&
      (forall j :: 0 <= j < k ==> entries[j].date != e.date)) ==> r == entries[k := e]
  {
    if |entries| == 0 then [e]
    else if entries[0].date == e.date then [e] + entries[1..]
    else [entries[0]] + MapSet(entries[1..], e)
  }

  /** Two different offsets name two different dates. */
  lemma OffsetsDiffer(today: Date, j: nat, i: nat)
    requires Valid(today) && j < i
    ensures FormatDate(DaysBefore(today, j)) != FormatDate(DaysBefore(today, i))
  {
    if FormatDate(DaysBefore(today, j)) == FormatDate(DaysBefore(today, i)) {
      FormatDateInjective(DaysBefore(today, j), DaysBefore(today, i));
      DaysBeforeOrdinal(today, j);
      DaysBeforeOrdinal(today, i);
    }
  }

  /** One turn of the loop: the date of offset `i` is new to the map, so
      `set` appends its entry. */
  lemma DateMapStep(habits: seq<Habit>, logs: seq<HabitLog>, today: Date, dateMap: seq<DayData>, e: DayData, i: nat)
    requires Valid(today) && |dateMap| == i && e == DayEntry(habits, logs, today, i)
    requires forall j :: 0 <= j < i ==> dateMap[j] == DayEntry(habits, logs, today, j)
    ensures |MapSet(dateMap, e)| == i + 1
    ensures forall j :: 0 <= j < i + 1 ==> MapSet(dateMap, e)[j] == DayEntry(habits, logs, today, j)
  {
    forall j | 0 <= j < i ensures dateMap[j].date != e.date {
      OffsetsDiffer(today, j, i);
    }
    var r := MapSet(dateMap, e);
    assert r == dateMap + [e];
    forall j | 0 <= j < i + 1 ensures r[j] == DayEntry(habits, logs, today, j) {
      if j < i { assert r[j] == dateMap[j]; }
    }
  }

  /** The loop that fills `dateMap`, then `Array.from(dateMap.values())`. */
  method BuildCalendarData(habits: seq<Habit>, logs: seq<HabitLog>, today: Date) returns (calendarData: seq<DayData>)
    requires Valid(today)
    ensures |calendarData| == LastOffset + 1
    ensures forall i :: 0 <= i <= LastOffset ==> calendarData[i] == DayEntry(habits, logs, today, i)
  {
    var dateMap: seq<DayData> := [];
    var i := 0;
    while i <= LastOffset
      invariant 0 <= i <= LastOffset + 1 && |dateMap| == i
      invariant forall j :: 0 <= j < i ==> dateMap[j] == DayEntry(habits, logs, today, j)
    {
      var dateStr := FormatDate(DaysBefore(today, i));
      var dayLogs := LogsOn(logs, dateStr);
      var completed := |Filter(habits, (h: Habit) => DayHabitDone(h, dayLogs))|;
      var entry := DayData(dateStr, completed, |habits|);
      DateMapStep(habits, logs, today, dateMap, entry, i);
      dateMap := MapSet(dateMap, entry);
      i := i + 1;
    }
    calendarData := dateMap;
  }

  /** What each entry says: the date `i` days before today (today itself at
      offset 0), the number of fetched habits as the total, and as the
      completed count the habits whose first log that day satisfies the
      shared rule, so never more than the total. */
  lemma DayEntryMeaning(habits: seq<Habit>, logs: seq<HabitLog>, today: Date, i: nat)
    requires Valid(today)
    ensures var e := DayEntry(habits, logs, today, i);
      && e.date == FormatDate(DaysBefore(today, i))
      && (i == 0 ==> e.date == FormatDate(today))
      && e.total == |habits|
      && e.completed == CompletedCount(habits, LogsOn(logs, e.date))
      && 0 <= e.completed <= e.total
  {
    var dayLogs := LogsOn(logs, FormatDate(DaysBefore(today, i)));
    FilterCongruent(habits, (h: Habit) => DayHabitDone(h, dayLogs), (h: Habit) => DoneWith(dayLogs, h));
  }

  /** The summary's dates are pairwise different, so no `set` overwrote an
      earlier day. */
  lemma DayEntryDatesDistinct(habits: seq<Habit>, logs: seq<HabitLog>, today: Date, i: nat, j: nat)
    requires Valid(today) && i != j
    ensures DayEntry(habits, logs, today, i).date != DayEntry(habits, logs, today, j).date
  {
    if i < j { OffsetsDiffer(today, i, j); } else { OffsetsDiffer(today, j, i); }
  }

  /** From year 1001 on, the summary's dates are stored dates that run
      backwards from today, one day per entry, so a later entry sorts
      before an earlier one. */
  lemma DayEntryDatesDescending(habits: seq<Habit>, logs: seq<HabitLog>, today: Date, i: nat, j: nat)
    requires Valid(today) && 1001 <= today.year <= 9999 && i < j <= LastOffset
    ensures IsDateString(DayEntry(habits, logs, today, i).date)
    ensures Ordinal(DateOf(DayEntry(habits, logs, today, i).date)) == Ordinal(today) - i
    ensures LexLess(DayEntry(habits, logs, today, j).date, DayEntry(habits, logs, today, i).date)
  {
    var di, dj := DaysBefore(today, i), DaysBefore(today, j);
    DaysBeforeOrdinal(today, i);
    DaysBeforeOrdinal(today, j);
    WindowYears(today, i);
    WindowYears(today, j);
    FormatIsDateString(di);
    FormatChronological(dj, di);
  }

  /** Up to 90 days back from a date in the years 1001..9999 stays in the
      years 1000..9999. */
  lemma WindowYears(today: Date, k: nat)
    requires Valid(today) && 1001 <= today.year <= 9999 && k <= LastOffset
    ensures 1000 <= DaysBefore(today, k).year <= 9999
  {
    var d := DaysBefore(today, k);
    DaysBeforeOrdinal(today, k);
    var lo := Date(1000, 1, 1);
    OrdinalWithinYear(today);
    if today.year > 1001 {
      DaysBeforeYearMonotone(1001, today.year);
    }
    assert Ordinal(lo) + 365 == DaysBeforeYear(1001);
    YearBetween(lo, d, today);
  }

  // ---------------------------------------------------------------------
  // Writes from the day detail
  // ---------------------------------------------------------------------

  /** What a handler asks the database to do. */
  datatype LogWrite =
    | NoWrite
    | UpdateCompleted(logId: string, completed: bool)
    | UpdateValue(logId: string, value: int, completed: bool)
    | InsertCompleted(habitId: string, userId: string, date: string, completed: bool)
    | InsertValue(habitId: string, userId: string, date: string, value: int, completed: bool)

  /** `if (!user || !selectedDate) return`: no signed-in user, or no
      selected date (null or the empty string). */
  predicate NoTarget(userId: Option<string>, selectedDate: Option<string>)
  {
    userId.None? || selectedDate.None? || selectedDate.value == ""
  }

  /** `handleToggleComplete`: update the completed flag of the habit's
      first log among the selected day's logs, or insert a log for the
      habit on that day. */
  function ToggleWrite(userId: Option<string>, selectedDate: Option<string>, selectedDateLogs: seq<HabitLog>,
                       habitId: string, completed: bool): (w: LogWrite)
  {
    if NoTarget(userId, selectedDate) then NoWrite
    else match FindLog(selectedDateLogs, habitId)
      case Some(existing) => UpdateCompleted(existing.id, completed)
      case None => InsertCompleted(habitId, userId.value, selectedDate.value, completed)
  }

  /** `value >= (habit?.goal_value || 1)`: the completed flag stored with a
      new count; a missing habit or a goal of 0 falls back to 1. */
  function CompletedForValue(habit: Option<Habit>, value: int): (b: bool)
    ensures habit.None? ==> (b <==> value >= 1)
    ensures habit.Some? && habit.value.goalValue == 0 ==> (b <==> value >= 1)
    ensures habit.Some? && habit.value.goalValue != 0 ==> (b <==> value >= habit.value.goalValue)
  {
    var goal := match habit
      case None => 0
      case Some(h) => h.goalValue;
    value >= (if goal == 0 then 1 else goal)
  }

  /** For a count habit whose goal is not 0, the stored flag agrees with
      the satisfaction rule applied to the stored value. */
  lemma CompletedForValueAgrees(h: Habit, l: HabitLog, value: int)
    requires h.goalType == Count && h.goalValue != 0 && l.value == Some(value)
    ensures CompletedForValue(Some(h), value) == Satisfied(h, Some(l))
  {
  }

  /** `handleUpdateValue`: the value and the flag `CompletedForValue` gives
      for the habit found by id, written to the existing log or a new one. */
  function ValueWrite(userId: Option<string>, selectedDate: Option<string>, habits: seq<Habit>,
                      selectedDateLogs: seq<HabitLog>, habitId: string, value: int): (w: LogWrite)
  {
    if NoTarget(userId, selectedDate) then NoWrite
    else
      var habit := FindFirst(habits, (h: Habit) => h.id == habitId);
      var completed := CompletedForValue(habit, value);
      match FindLog(selectedDateLogs, habitId)
      case Some(existing) => UpdateValue(existing.id, value, completed)
      case None => InsertValue(habitId, userId.value, selectedDate.value, value, completed)
  }

  /** Both handlers write nothing without a user or a date; otherwise they
      update exactly when the selected day already has a log of the habit
      (the first one), and insert a log for the habit, the user and the
      selected date only when it has none. With the day's logs selected
      from `logs`, the log updated is a log of that habit on that day. */
  lemma WriteTargetsExistingLog(userId: Option<string>, selectedDate: Option<string>, logs: seq<HabitLog>,
                                habits: seq<Habit>, habitId: string, completed: bool, value: int)
    requires selectedDate.Some?
    ensures var dayLogs := LogsOn(logs, selectedDate.value);
      var t := ToggleWrite(userId, selectedDate, dayLogs, habitId, completed);
      var v := ValueWrite(userId, selectedDate, habits, dayLogs, habitId, value);
      && (NoTarget(userId, selectedDate) <==> t.NoWrite?)
      && (NoTarget(userId, selectedDate) <==> v.NoWrite?)
      && (!NoTarget(userId, selectedDate) ==>
            && (t.UpdateCompleted? <==> exists l :: l in logs && l.date == selectedDate.value && l.habitId == habitId)
            && (v.UpdateValue? <==> t.UpdateCompleted?)
            && (t.UpdateCompleted? ==>
                  (v.logId == t.logId && t.completed == completed
                   && exists l :: l in logs && l.date == selectedDate.value && l.habitId == habitId && l.id == t.logId))
            && (t.InsertCompleted? ==> t == InsertCompleted(habitId, userId.value, selectedDate.value, completed))
            && (v.InsertValue? ==>
                  (v.habitId == habitId && v.userId == userId.value
                   && v.date == selectedDate.value && v.value == value)))
  {
    var dayLogs := LogsOn(logs, selectedDate.value);
    var found := FindLog(dayLogs, habitId);
    if found.None? {
      forall l | l in logs && l.date == selectedDate.value
        ensures l.habitId != habitId
      {
        assert l in dayLogs;
      }
    }
  }
}
