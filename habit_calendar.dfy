/** The month heat map (src/components/calendar/habit-calendar.tsx): the
    colour of a day from its completion rate, the month grid of blank
    cells and day numbers, the shown month that the arrows and the today
    button move, the refusal to select a date after today, and the map from
    date to day summary. */
module HabitCalendar {
  import opened Wrappers
  import opened Strings
  import opened Calendar
  import opened DateUtils
  import opened HabitModel

  // ---------------------------------------------------------------------
  // Colours
  // ---------------------------------------------------------------------

  /** The classes from no progress to all habits done. */
  const Palette: seq<string> :=
    ["bg-muted", "bg-red-500/30", "bg-orange-500/40", "bg-yellow-500/50", "bg-green-500/60", "bg-green-500"]

  /** `getColorClass`: muted without data, with no habits or with nothing
      done; otherwise by the share of habits done, in quarter steps, solid
      green at 1 or more. */
  function ColorClass(dayData: Option<DayData>): (c: string)
    ensures c in Palette
  {
    if dayData.None? || dayData.value.total == 0 then "bg-muted"
    else
      var rate := dayData.value.completed as real / dayData.value.total as real;
      if rate == 0.0 then "bg-muted"
      else if rate < 0.25 then "bg-red-500/30"
      else if rate < 0.5 then "bg-orange-500/40"
      else if rate < 0.75 then "bg-yellow-500/50"
      else if rate < 1.0 then "bg-green-500/60"
      else "bg-green-500"
  }

  /** The position in `Palette` a share of habits done falls into. */
  function Bucket(rate: real): (b: nat)
    ensures b < |Palette|
  {
    if rate <= 0.0 then 0
    else if rate < 0.25 then 1
    else if rate < 0.5 then 2
    else if rate < 0.75 then 3
    else if rate < 1.0 then 4
    else 5
  }

  /** A higher share never gets a lower colour. */
  lemma BucketMonotone(r1: real, r2: real)
    requires 0.0 <= r1 <= r2
    ensures Bucket(r1) <= Bucket(r2)
  {
  }

  /** The colour of a day read back: muted without data, with no habits or
      with nothing done; otherwise, for a day with habits and a count that
      is not negative, the bucket of its share done, solid green exactly
      when every habit is done, and never darker for a day with more done
      out of the same habits. */
  lemma ColorClassMeaning(dayData: Option<DayData>, more: int)
    ensures dayData.None? ==> ColorClass(dayData) == "bg-muted"
    ensures dayData.Some? && (dayData.value.total == 0 || dayData.value.completed == 0) ==>
      ColorClass(dayData) == "bg-muted"
    ensures dayData.Some? && dayData.value.total > 0 && dayData.value.completed >= 0 ==>
      && ColorClass(dayData) == Palette[Bucket(dayData.value.completed as real / dayData.value.total as real)]
      && (ColorClass(dayData) == "bg-green-500" <==> dayData.value.completed >= dayData.value.total)
    ensures dayData.Some? && dayData.value.total > 0 && 0 <= dayData.value.completed <= more ==>
      Bucket(dayData.value.completed as real / dayData.value.total as real) <=
      Bucket(more as real / dayData.value.total as real)
  {
    if dayData.Some? && dayData.value.total > 0 {
      var c, t := dayData.value.completed as real, dayData.value.total as real;
      if c >= 0.0 {
        RatioAtLeastOne(c, t);
      }
      if 0 <= dayData.value.completed <= more {
        DivideMonotone(c, more as real, t);
        BucketMonotone(c / t, more as real / t);
      }
    }
  }

  lemma RatioAtLeastOne(c: real, t: real)
    requires t > 0.0
    ensures c / t >= 1.0 <==> c >= t
  {
    assert (c / t - 1.0) * t == c - t;
    if c / t >= 1.0 {
      assert (c / t - 1.0) * t >= 0.0;
    }
  }

  lemma DivideMonotone(a: real, b: real, t: real)
    requires 0.0 <= a <= b && t > 0.0
    ensures 0.0 <= a / t <= b / t
  {
    assert (b / t - a / t) * t == b - a;
  }

  // ---------------------------------------------------------------------
  // The month grid
  // ---------------------------------------------------------------------

  /** The `calendarDays` loops: `firstDayOfMonth` blanks, then the day
      numbers `1 ..= daysInMonth`. */
  method BuildCalendarDays(firstDayOfMonth: int, daysInMonth: int) returns (days: seq<Option<int>>)
    ensures var lead := if firstDayOfMonth > 0 then firstDayOfMonth else 0;
      && |days| == lead + (if daysInMonth > 0 then daysInMonth else 0)
      && (forall i :: 0 <= i < lead ==> days[i].None?)
      && (forall i :: lead <= i < |days| ==> days[i] == Some(i - lead + 1))
  {
    days := [];
    var i := 0;
    while i < firstDayOfMonth
      invariant 0 <= i && |days| == i
      invariant i <= if firstDayOfMonth > 0 then firstDayOfMonth else 0
      invariant forall j :: 0 <= j < i ==> days[j].None?
    {
      days := days + [None];
      i := i + 1;
    }
    var lead := |days|;
    assert lead == if firstDayOfMonth > 0 then firstDayOfMonth else 0;
    var d := 1;
    while d <= daysInMonth
      invariant 1 <= d && |days| == lead + d - 1
      invariant d <= (if daysInMonth > 0 then daysInMonth else 0) + 1
      invariant forall j :: 0 <= j < lead ==> days[j].None?
      invariant forall j :: lead <= j < |days| ==> days[j] == Some(j - lead + 1)
    {
      days := days + [Some(d)];
      d := d + 1;
    }
  }

  /** `new Date(year, month + 1, 0).getDate()` is the number of days of the
      month, and `new Date(year, month, day)` is that day of the month,
      for a month index `0..11` and a year outside `0..99`. */
  lemma MonthDates(year: int, month: int, day: int)
    requires 0 <= month <= 11 && !(0 <= year <= 99)
    requires 1 <= day <= DaysInMonth(year, month + 1)
    ensures LocalDate(year, month + 1, 0) == Date(year, month + 1, DaysInMonth(year, month + 1))
    ensures LocalDate(year, month, day) == Date(year, month + 1, day)
  {
    if month == 11 {
      assert LocalDate(year, month + 1, 0) == AddDays(Date(year + 1, 1, 1), -1);
      assert AddDays(Date(year + 1, 1, 1), -1) == PrevDay(Date(year + 1, 1, 1));
    } else {
      assert LocalDate(year, month + 1, 0) == AddDays(Date(year, month + 2, 1), -1);
      assert AddDays(Date(year, month + 2, 1), -1) == PrevDay(Date(year, month + 2, 1));
    }
    assert LocalDate(year, month, day) == AddDays(Date(year, month + 1, 1), day - 1);
    AddDaysWithinMonth(year, month + 1, 1, day - 1);
  }

  /** The grid of the shown month puts every day in the column of its
      weekday (Sunday first): the cell of day `day` sits at position
      `firstDayOfMonth + day - 1`, and that position's column is the day's
      `getDay()`. */
  lemma GridColumnIsWeekday(year: int, month: int, day: int)
    requires 0 <= month <= 11 && !(0 <= year <= 99)
    requires 1 <= day <= DaysInMonth(year, month + 1)
    ensures (Weekday(LocalDate(year, month, 1)) + day - 1) % 7 == Weekday(LocalDate(year, month, day))
  {
    MonthDates(year, month, day);
    MonthDates(year, month, 1);
    WeekdayInMonth(year, month + 1, day);
  }

  /** Within a month, the weekday advances by one per day from the first. */
  lemma WeekdayInMonth(year: int, m: int, day: int)
    requires 1 <= m <= 12 && 1 <= day <= DaysInMonth(year, m)
    ensures Weekday(Date(year, m, day)) == (Weekday(Date(year, m, 1)) + day - 1) % 7
  {
    AddDaysWithinMonth(year, m, 1, day - 1);
    WeekdayAddDays(Date(year, m, 1), day - 1);
  }

  // ---------------------------------------------------------------------
  // The shown month
  // ---------------------------------------------------------------------

  /** `currentDate`: the date whose month is shown. */
  class MonthView {
    var current: Date

    predicate Valid()
      reads this
    {
      Calendar.Valid(current)
    }

    /** `useState(new Date())`. */
    constructor(today: Date)
      requires Calendar.Valid(today)
      ensures Valid() && current == today
    {
      current := today;
    }

    /** `year`. */
    function Year(): int
      reads this
    {
      current.year
    }

    /** `month`: the month index, January = 0. */
    function MonthIndex(): int
      reads this
    {
      current.month - 1
    }

    /** `new Date(year, month - 1, 1)`. */
    method PrevMonth()
      requires Valid()
      modifies this
      ensures Valid()
      ensures current == LocalDate(old(Year()), old(MonthIndex()) - 1, 1)
      ensures !(0 <= old(current.year) <= 99) ==>
        current == (if old(current.month) == 1 then Date(old(current.year) - 1, 12, 1)
                    else Date(old(current.year), old(current.month) - 1, 1))
    {
      if !(0 <= current.year <= 99) { MonthStep(current, -1); }
      current := LocalDate(current.year, current.month - 2, 1);
    }

    /** `new Date(year, month + 1, 1)`. */
    method NextMonth()
      requires Valid()
      modifies this
      ensures Valid()
      ensures current == LocalDate(old(Year()), old(MonthIndex()) + 1, 1)
      ensures !(0 <= old(current.year) <= 99) ==>
        current == (if old(current.month) == 12 then Date(old(current.year) + 1, 1, 1)
                    else Date(old(current.year), old(current.month) + 1, 1))
    {
      if !(0 <= current.year <= 99) { MonthStep(current, 1); }
      current := LocalDate(current.year, current.month, 1);
    }

    /** `setCurrentDate(new Date())`. */
    method GoToToday(today: Date)
      requires Calendar.Valid(today)
      modifies this
      ensures Valid() && current == today
    {
      current := today;
    }
  }

  /** Day 1 of the month before or after `d`'s, across the year boundary,
      for a year outside `0..99`. */
  lemma MonthStep(d: Date, step: int)
    requires Valid(d) && (step == -1 || step == 1) && !(0 <= d.year <= 99)
    ensures LocalDate(d.year, d.month - 1 + step, 1) ==
      if d.month + step == 0 then Date(d.year - 1, 12, 1)
      else if d.month + step == 13 then Date(d.year + 1, 1, 1)
      else Date(d.year, d.month + step, 1)
  {
    var mi := d.month - 1 + step;
    if mi == -1 {
      assert mi / 12 == -1 && mi % 12 == 11;
    } else if mi == 12 {
      assert mi / 12 == 1 && mi % 12 == 0;
    } else {
      assert mi / 12 == 0 && mi % 12 == mi;
    }
  }

  // ---------------------------------------------------------------------
  // Selecting a day
  // ---------------------------------------------------------------------

  /** `new Date(dateStr) > new Date(today)`: both read as ISO dates; a
      string that does not read as one gives NaN, and NaN is never greater. */
  predicate IsFuture(dateStr: string, today: string)
  {
    ParseIsoDate(dateStr).Some? && ParseIsoDate(today).Some? &&
    Ordinal(ParseIsoDate(dateStr).value) > Ordinal(ParseIsoDate(today).value)
  }

  /** A click on a day cell: `onSelectDate(dateStr)` unless the day is in
      the future. */
  function SelectDay(dateStr: string, today: string): (r: Option<string>)
    ensures r.Some? ==> r.value == dateStr
  {
    if IsFuture(dateStr, today) then None else Some(dateStr)
  }

  /** For dates in the years 1000..9999, a day can be selected exactly when
      it is not after today: later dates are disabled and never reach
      `onSelectDate`. */
  lemma SelectDayMeaning(day: Date, today: Date)
    requires Valid(day) && Valid(today)
    requires 1000 <= day.year <= 9999 && 1000 <= today.year <= 9999
    ensures SelectDay(FormatDate(day), FormatDate(today)).Some? <==> Ordinal(day) <= Ordinal(today)
    ensures SelectDay(FormatDate(day), FormatDate(today)).Some? <==> !Before(today, day)
  {
    FormatIsDateString(day);
    FormatIsDateString(today);
    OrdinalOrderIff(today, day);
  }

  // ---------------------------------------------------------------------
  // The date map
  // ---------------------------------------------------------------------

  /** Position `i` holds the last summary of its date. */
  predicate LastOfDate(data: seq<DayData>, i: int, n: int)
    requires 0 <= i < n <= |data|
  {
    forall j :: i < j < n ==> data[j].date != data[i].date
  }

  /** `data.forEach(d => map.set(d.date, d))`. */
  method BuildDataMap(data: seq<DayData>) returns (dataMap: map<string, DayData>)
    ensures forall k :: k in dataMap <==> exists i :: 0 <= i < |data| && data[i].date == k
    ensures forall i :: 0 <= i < |data| && LastOfDate(data, i, |data|) ==> dataMap[data[i].date] == data[i]
  {
    dataMap := map[];
    var i := 0;
    while i < |data|
      invariant 0 <= i <= |data|
      invariant forall k :: k in dataMap <==> exists j :: 0 <= j < i && data[j].date == k
      invariant forall j :: 0 <= j < i && LastOfDate(data, j, i) ==> dataMap[data[j].date] == data[j]
    {
      dataMap := dataMap[data[i].date := data[i]];
      i := i + 1;
    }
  }

  /** `dataMap.get(dateStr)`. */
  function Lookup(dataMap: map<string, DayData>, dateStr: string): (r: Option<DayData>)
    ensures r.Some? <==> dateStr in dataMap
    ensures r.Some? ==> r.value == dataMap[dateStr]
  {
    if dateStr in dataMap then Some(dataMap[dateStr]) else None
  }

  /** When a date repeats, the summary that comes last is the one the map
      keeps, whatever came before it. */
  lemma LastSummaryWins(data: seq<DayData>, dataMap: map<string, DayData>, a: DayData, b: DayData)
    requires forall k :: k in dataMap <==> exists i :: 0 <= i < |data + [a, b]| && (data + [a, b])[i].date == k
    requires forall i :: 0 <= i < |data + [a, b]| && LastOfDate(data + [a, b], i, |data + [a, b]|) ==>
      dataMap[(data + [a, b])[i].date] == (data + [a, b])[i]
    requires a.date == b.date
    ensures Lookup(dataMap, a.date) == Some(b)
  {
    var s := data + [a, b];
    assert LastOfDate(s, |s| - 1, |s|);
  }
}
