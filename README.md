# HabitFlow progress aggregation, modelled in Dafny

HabitFlow is a habit tracker. A user keeps habits, which are either
yes/no ("boolean") or counted against a goal ("count"). Each day is
recorded as a log per habit. This project models the part of the
application that turns habits and logs into numbers:

- the date helpers of `src/lib/date-utils.ts`: `formatDate`, `parseDate`,
  the last-N-days window, the weekday label, the `M/D` short form, the
  current streak and the rounded weekly rate;
- the satisfaction rule ("is this habit done on this day?"), which four
  components copy. It is defined once (`HabitModel.Satisfied`), and each
  copy is proved to agree with it;
- the statistics page: completed dates, the achievement rate, the current
  streak, the longest-run loop, the totals, the mean rate and the best
  habit;
- the calendar page: the 91-day summary loop, the logs of the selected day
  and the update-or-insert decision of its two write handlers;
- the day detail dialog and the dashboard's today list: the "n / m" count,
  the progress bar, each row's flag and the request a button sends;
- the heat map: colour buckets, the month grid loops, the shown month, the
  refusal to select future days and the date-to-summary map;
- the weekly chart: seven bars and the count-weighted weekly rate;
- the habit list filter and the category lookup;
- the onboarding dialog, as a class whose methods step through five
  pages.

Every `new Date()` of the source is a `today` parameter. Dates are
proleptic Gregorian `(year, month, day)` triples (`Calendar`), with a
day number (`Ordinal`) and a weekday. JavaScript `Date` arithmetic
becomes `NextDay`, `PrevDay`, `DaysBefore`, `AddDays` and `LocalDate`.
`LocalDate` is `new Date(y, m, d)`, with its roll-over of out-of-range
months and days and its reading of years 0..99 as 1900..1999. Rates that
are JavaScript doubles are Dafny `real`s. `Math.round(c / t * 100)` is
the integer `(200c + t) / (2t)`.

Modules: `Wrappers` (Option, Result), `Seqs` (filter, find, map and sum
over sequences), `Strings` (decimal digits, `padStart`, `split`,
code-unit order), `Calendar`, `DateUtils`, `Sorting`
(`Array.prototype.sort` on strings), `HabitModel` (records and the shared
rule), then one module per page or component: `StatsPage`,
`CalendarPage`, `DayDetail`, `TodayHabits`, `HabitCalendar`,
`WeeklyChart`, `HabitsPage` and `WelcomeDialog`.

Where a source step changes things step by step, the model is a method
with a loop, proved against a specification function:

- `getPastDays` is `DateUtils.GetPastDays`;
- `calculateStreak` is `DateUtils.CalculateStreak`;
- the longest-run loop is `StatsPage.LongestStreakScan`;
- the per-habit `map` is `StatsPage.ComputeStats`;
- the 91-day loop is `CalendarPage.BuildCalendarData`;
- the grid loops are `HabitCalendar.BuildCalendarDays`;
- the `forEach`/`set` map is `HabitCalendar.BuildDataMap`.

The shown month (`HabitCalendar.MonthView`) and the onboarding dialog
(`WelcomeDialog.Dialog`) are classes whose methods update their fields.

## Model

| member | source | states |
|---|---|---|
| HabitModel.ValueOrZero | src/app/stats/page.tsx:97 | `value \|\| 0`: a missing value reads as 0, a present one as itself |
| HabitModel.LogValue | src/components/calendar/day-detail.tsx:68 | `log?.value \|\| 0`: 0 without a log, else the log's value or 0 |
| HabitModel.SatisfiedCases | src/app/stats/page.tsx:96-97 | the shared rule: no log is not done; boolean habits follow `completed`; count habits need value (0 if missing) at least the goal |
| HabitModel.FindLog | src/components/calendar/day-detail.tsx:43-45 | `logs.find(log => log.habit_id === habitId)`: none exactly when no log has that habit id; else a log of the list with that id |
| HabitModel.FindLogFirst | src/components/dashboard/today-habits.tsx:27-29 | the log found is the one at the first index carrying the habit id |
| HabitModel.CompletedCount | src/components/dashboard/today-habits.tsx:31-36 | the number of habits done is at most the number of habits |
| HabitModel.CompletedCountExtremes | src/components/calendar/day-detail.tsx:47-52 | no habit done gives 0; every habit done gives all of them |
| HabitModel.RowCompletedAgrees | src/components/calendar/day-detail.tsx:96-99 | a row's flag differs from the counting rule exactly for a count habit with no log and a goal of 0 or less; for positive goals they agree |
| HabitModel.ToggleTarget | src/components/dashboard/today-habits.tsx:43-44 | `!log?.completed`: true without a log, else the negated flag |
| HabitModel.ToggleNegatesRow | src/components/calendar/day-detail.tsx:57-58 | for a boolean habit the toggle asks for the negation of the row's shown flag |
| HabitModel.ValueTarget | src/components/dashboard/today-habits.tsx:53-55 | `Math.max(0, current + delta)`: never negative, at least current + delta, and equal to it or to 0 |
| HabitModel.EnabledDecrementIsExact | src/components/dashboard/today-habits.tsx:156-157 | when the decrement is not disabled, it asks for exactly the current value minus one, which is not negative |
| HabitModel.RowRequest | src/components/calendar/day-detail.tsx:114-184 | a request only when editing is allowed and the row is not loading; a toggle only for boolean habits, with the toggle target; +/- only for count habits, never negative |
| HabitModel.RowRequestEnabled | src/components/calendar/day-detail.tsx:116-117 | a click produces a request if and only if its button is enabled: toggle for boolean, increment for count, decrement for count above 0 |
| DateUtils.FormatDatePadding | src/lib/date-utils.ts:13-18 | the formatted date ends in `-MM-DD`: two digits each for month and day, read back as the month and the day, after the year as `String` prints it |
| DateUtils.FormatDateInjective | src/lib/date-utils.ts:13-18 | different dates format to different strings |
| DateUtils.LocalDate | src/lib/date-utils.ts:25 | `new Date(year, monthIndex, day)` always denotes a valid calendar date |
| DateUtils.LocalDateExact | src/lib/date-utils.ts:25 | for in-range fields and years outside 0..99 it is exactly that date |
| DateUtils.LocalDateShortYear | src/lib/date-utils.ts:25 | for a year 0..99 it is that day of year 1900 + year |
| DateUtils.ParseDate | src/lib/date-utils.ts:23-26 | `parseDate` gives a valid date whenever it succeeds |
| DateUtils.FormatDateFields | src/lib/date-utils.ts:24 | splitting a formatted date at `-` gives three digit strings that read as year, month and day |
| DateUtils.ParseFormatRoundTrip | src/lib/date-utils.ts:13-26 | `parseDate(formatDate(d))` is `d` for every year from 100 on |
| DateUtils.ParseReadsShortYearsAs1900s | src/lib/date-utils.ts:23-26 | for years 0..99 the round trip lands 1900 years later |
| DateUtils.ParseIsoDate | src/app/stats/page.tsx:115-116 | `new Date("YYYY-MM-DD")` gives a valid date only for a ten-character string |
| DateUtils.DateOf | src/lib/date-utils.ts:13-18 | a stored date string denotes a valid date in the years 1000..9999 |
| DateUtils.FormatIsDateString | src/lib/date-utils.ts:13-18 | years 1000..9999 format to stored date strings that denote the same date |
| DateUtils.DateStringFormat | src/lib/date-utils.ts:13-26 | every stored date string is the formatted form of its date (`formatDate(parseDate(s)) == s`) |
| DateUtils.ParseDateOfDateString | src/lib/date-utils.ts:13-26 | `parseDate` and the ISO parse agree on stored date strings, and formatting gives the string back |
| DateUtils.LexLessIsChronological | src/lib/date-utils.ts:71 | on stored date strings, code-unit order is chronological order, both ways |
| DateUtils.PastDates | src/lib/date-utils.ts:31-42 | the window holds `n` valid dates |
| DateUtils.FormatAll | src/lib/date-utils.ts:38 | formatting a list keeps its length |
| DateUtils.FormatAllAt | src/lib/date-utils.ts:38 | entry `j` of the formatted list is `formatDate` of date `j` |
| DateUtils.GetPastDays | src/lib/date-utils.ts:31-42 | the counting loop returns exactly the formatted window (empty for `days <= 0`) |
| DateUtils.PastDatesConsecutive | src/lib/date-utils.ts:35-39 | the window ends today; entry `j` is today moved by `j - (days - 1)` days; each entry is the day after the previous one |
| DateUtils.PastDatesOrdinal | src/lib/date-utils.ts:35-39 | entry `k` of `n` is `n - 1 - k` days before today |
| DateUtils.PastDaysAscending | src/lib/date-utils.ts:31-42 | with four-digit years, the returned strings strictly ascend, hence have no repeats |
| DateUtils.FormatChronological | src/lib/date-utils.ts:13-18 | for years 1000..9999 an earlier date formats to a smaller string |
| DateUtils.YearBetween | src/lib/date-utils.ts:36-37 | a date between two others in time has a year between theirs |
| DateUtils.GetDayOfWeek | src/lib/date-utils.ts:47-51 | succeeds exactly when `parseDate` does, and returns one of the seven labels |
| DateUtils.DayOfWeekAdvances | src/lib/date-utils.ts:47-51 | the label of a formatted date is that of its weekday (Sunday first), and the next day's label is the next one round the week |
| DateUtils.FormatDateShort | src/lib/date-utils.ts:56-59 | succeeds exactly when `parseDate` does; the result splits at `/` into month and day numerals without zero padding |
| DateUtils.FormatDateShortOfDateString | src/lib/date-utils.ts:56-59 | on a stored date string the short form is the month and day numbers with the padding dropped |
| DateUtils.RoundPercent | src/lib/date-utils.ts:104 | `Math.round(c / t * 100)` is the integer nearest to `100c/t`, halves up |
| DateUtils.RoundPercentBounds | src/lib/date-utils.ts:104 | a share between 0 and the whole rounds into 0..100 |
| DateUtils.RoundPercentMonotone | src/lib/date-utils.ts:104 | a larger count never rounds to a smaller percentage |
| DateUtils.CalculateWeeklyRate | src/lib/date-utils.ts:99-105 | 0 without habits; otherwise the rounded percentage; within 0..100 when the count is at most the total |
| DateUtils.LexMax | src/lib/date-utils.ts:71 | the first element after the descending sort is in the list and at least every element |
| DateUtils.BelowSomeIsNotMax | src/lib/date-utils.ts:71 | a string below some element of the list is not the first after the sort |
| DateUtils.StreakAnchor | src/lib/date-utils.ts:74-85 | the walk starts at today or at yesterday, or not at all |
| DateUtils.StreakAnchorMeaning | src/lib/date-utils.ts:79-85 | the start is today when the `today` string is the latest date; yesterday when yesterday's string is; nothing otherwise, an empty list included |
| DateUtils.CalculateStreak | src/lib/date-utils.ts:64-94 | the method (sort, anchor check, walk-back loop) returns `CurrentStreak` |
| DateUtils.RunBackMeaning | src/lib/date-utils.ts:88-91 | the walk's count `k`: the `k` days back from the start are all in the set and the next earlier one is not |
| DateUtils.RunBackUnique | src/lib/date-utils.ts:88-91 | that property determines the count |
| DateUtils.RunBackAtMostDates | src/lib/date-utils.ts:88-91 | the walk counts at most as many days as there are distinct dates |
| DateUtils.CurrentStreakMeaning | src/lib/date-utils.ts:64-94 | 0 exactly when the latest date is neither today nor yesterday; otherwise the `k` days from the start are present, the day before them is not, and `k` is at most the number of distinct dates |
| DateUtils.CurrentStreakIgnoresOrder | src/lib/date-utils.ts:71-86 | the streak depends only on the set of dates: not on order, not on repeats |
| DateUtils.CurrentStreakFutureDate | src/lib/date-utils.ts:80-82 | a stored date after today makes the streak 0 |
| Sorting.Insert | src/app/stats/page.tsx:111 | inserting into an ordered list keeps it ordered and adds exactly that element |
| Sorting.Sort | src/app/stats/page.tsx:111 | `[...dates].sort()` is ordered by code units and a rearrangement of the input |
| Sorting.SortedUnique | src/app/stats/page.tsx:111 | two ordered rearrangements of the same strings are equal, so the sorted result is determined |
| StatsPage.LogQualifiesAgrees | src/app/stats/page.tsx:95-98 | the page's copy of the rule equals the shared rule on a present log |
| StatsPage.CompletedDatesMeaning | src/app/stats/page.tsx:91-99 | a date is completed exactly when some log of the habit on it qualifies; one date per qualifying log, in log order |
| StatsPage.CompletedDaysCountsRepeats | src/app/stats/page.tsx:101 | two qualifying logs on one day give two completed days but one distinct date |
| StatsPage.AchievementRateMeaning | src/app/stats/page.tsx:102-103 | the rate times 30 is 100 times the count; within [0, 100] for at most 30 days; monotone in the count |
| StatsPage.RepeatIsNotAdjacent | src/app/stats/page.tsx:117-126 | a repeated date is 0 days from itself, so it ends the run like a gap |
| StatsPage.RunEndingAt | src/app/stats/page.tsx:121-122 | the run ending at position `i` has length between 1 and `i + 1` |
| StatsPage.RunEndingAtIsRun | src/app/stats/page.tsx:114-126 | the positions counted by the run ending at `i` are pairwise adjacent |
| StatsPage.RunEndingAtIsLongest | src/app/stats/page.tsx:114-126 | no run ending at `b - 1` is longer than the one counted there |
| StatsPage.MaxRunMeaning | src/app/stats/page.tsx:121-128 | the maximum bounds the run at every position and is attained at one |
| StatsPage.RunsAtMostMax | src/app/stats/page.tsx:109-129 | every run is at most the maximum |
| StatsPage.LongestRunMeaning | src/app/stats/page.tsx:109-129 | 0 for no dates; otherwise between 1 and the number of dates, the length of some run of day-after neighbours, and at least every such run |
| StatsPage.LongestStreakScan | src/app/stats/page.tsx:109-129 | the `for` loop with `tempStreak` and `longestStreak` returns the longest run of the sorted dates |
| StatsPage.ConsecutiveDays | src/app/stats/page.tsx:111-126 | in increasing day order, `k` consecutive day numbers present from position `p` sit at positions `p .. p+k-1` |
| StatsPage.RunOfConsecutiveDays | src/app/stats/page.tsx:114-126 | those positions form a run |
| StatsPage.StreakIsRun | src/app/stats/page.tsx:109-129 | so the longest run is at least `k` |
| StatsPage.SortedDaysIncrease | src/app/stats/page.tsx:111 | sorted distinct stored dates have strictly increasing day numbers |
| StatsPage.SortKeepsNoRepeats | src/app/stats/page.tsx:111 | sorting a list without repeats gives one without repeats |
| StatsPage.SortSameElements | src/app/stats/page.tsx:111 | sorting keeps exactly the same strings |
| StatsPage.LongestCoversCurrent | src/app/stats/page.tsx:106-129 | for distinct stored dates the longest streak is at least the current streak |
| StatsPage.ComputeHabitStats | src/app/stats/page.tsx:90-139 | one habit's statistics as the page computes them equal `HabitStatsOf` |
| StatsPage.HabitStatsMeaning | src/app/stats/page.tsx:90-139 | window 30; completed days = qualifying logs; rate in [0, 100] for at most 30 days; longest 0 exactly without completions and at most the completions; current streak = `calculateStreak(completedDates, today)` |
| StatsPage.ComputeStats | src/app/stats/page.tsx:90-139 | the per-habit `map` gives one statistics record per habit, in order |
| StatsPage.TotalCompletionsBounds | src/app/stats/page.tsx:144 | the sum of completed days is between 0 and 30 per habit when each habit has 0..30 |
| StatsPage.OverallRateMeaning | src/app/stats/page.tsx:145-148 | 0 without habits; otherwise the unweighted mean of the rates, within [0, 100] when every rate is |
| StatsPage.BestIndex | src/app/stats/page.tsx:149-152 | the `reduce` ends on a habit with the greatest rate, and every earlier habit has a strictly smaller rate |
| StatsPage.BestHabit | src/app/stats/page.tsx:158 | "-" when there are no habits |
| StatsPage.BestHabitIsFirstMaximum | src/app/stats/page.tsx:149-158 | the best habit is the first with the greatest rate; ties keep the earlier habit |
| StatsPage.Overall | src/app/stats/page.tsx:154-159 | `totalHabits` is the number of fetched habits |
| CalendarPage.LogsOn | src/app/calendar/page.tsx:126-130 | the day's logs are exactly the logs with that date, each as often as in the input, in input order |
| CalendarPage.DayHabitDoneAgrees | src/app/calendar/page.tsx:98-103 | the page's copy of the rule equals the shared rule on the day's logs |
| CalendarPage.MapSet | src/app/calendar/page.tsx:105-109 | `Map.set` appends a new key and replaces the value of an existing key in place |
| CalendarPage.OffsetsDiffer | src/app/calendar/page.tsx:93-95 | two different offsets give two different date strings |
| CalendarPage.DateMapStep | src/app/calendar/page.tsx:92-110 | each turn appends the entry of its offset, so entry `j` stays offset `j`'s |
| CalendarPage.BuildCalendarData | src/app/calendar/page.tsx:92-112 | the loop yields exactly 91 entries, entry `i` being the summary of the day `i` days before today |
| CalendarPage.DayEntryMeaning | src/app/calendar/page.tsx:93-109 | entry `i`'s date is `i` days back (today at 0); its total is the number of habits; its completed count is the number of habits done by the shared rule on that day's logs, at most the total |
| CalendarPage.DayEntryDatesDistinct | src/app/calendar/page.tsx:92-112 | the summary's dates are pairwise different |
| CalendarPage.DayEntryDatesDescending | src/app/calendar/page.tsx:92-112 | for years 1001..9999 entry `i` denotes today minus `i` days, and a later entry sorts before an earlier one |
| CalendarPage.WindowYears | src/app/calendar/page.tsx:57-58 | up to 90 days back from a year 1001..9999 stays within 1000..9999 |
| CalendarPage.CompletedForValue | src/app/calendar/page.tsx:174-175 | `value >= (habit?.goal_value \|\| 1)`: the goal, or 1 when the habit is missing or its goal is 0 |
| CalendarPage.CompletedForValueAgrees | src/app/calendar/page.tsx:175 | for a count habit with a nonzero goal the stored flag equals the shared rule on the stored value |
| CalendarPage.WriteTargetsExistingLog | src/app/calendar/page.tsx:133-197 | no write without a user or a date; otherwise both handlers update exactly when the day already has a log of the habit (the same log), and insert a log for the habit, the user and the date only when it has none |
| DayDetail.DialogCompletedCount | src/components/calendar/day-detail.tsx:47-52 | the count is at most the number of habits |
| DayDetail.DialogCompletedCountAgrees | src/components/calendar/day-detail.tsx:47-52 | the dialog's copy counts what the shared rule counts |
| DayDetail.RenderMeaning | src/components/calendar/day-detail.tsx:37-101 | nothing is rendered exactly when the date is null or empty; otherwise the count is the shared count out of all habits, one row per habit in order, each row's flag agrees with the rule (except a count habit with no log and goal of 0 or less), and rows are editable only on today |
| DayDetail.ClickMeaning | src/components/calendar/day-detail.tsx:54-180 | a click sends a request only on today and on a row not being saved; a toggle asks for the negation of the row's flag (true without a log); +/- asks for the value moved by one, clamped at 0; the - is refused at 0 or below |
| TodayHabits.ListCompletedCount | src/components/dashboard/today-habits.tsx:31-36 | the count is at most the number of habits |
| TodayHabits.ListCompletedCountAgrees | src/components/dashboard/today-habits.tsx:31-36 | the list's copy counts what the shared rule counts |
| TodayHabits.ProgressMeaning | src/components/dashboard/today-habits.tsx:38 | 0 without habits; otherwise the shared count in percent of the habits; within [0, 100]; 100 exactly when every habit is done |
| TodayHabits.Percentage | src/components/dashboard/today-habits.tsx:38 | `c / n * 100` times `n` is `100c`, lies in [0, 100] for `c <= n`, and is 100 exactly when `c == n` |
| TodayHabits.ClickMeaning | src/components/dashboard/today-habits.tsx:40-169 | a request exactly when the row is not being saved and its button is enabled; the toggle asks for the negation of the row's flag; +/- asks for the clamped value |
| HabitCalendar.ColorClass | src/components/calendar/habit-calendar.tsx:60-71 | the colour is one of the six classes |
| HabitCalendar.Bucket | src/components/calendar/habit-calendar.tsx:63-70 | the bucket index is one of the six positions |
| HabitCalendar.BucketMonotone | src/components/calendar/habit-calendar.tsx:63-70 | a higher share never gets a lower bucket |
| HabitCalendar.ColorClassMeaning | src/components/calendar/habit-calendar.tsx:60-71 | muted without data, without habits or with nothing done; otherwise the bucket of the share, solid green exactly when all are done, never darker for more done |
| HabitCalendar.BuildCalendarDays | src/components/calendar/habit-calendar.tsx:76-90 | the two loops give `firstDayOfMonth` blanks followed by `1 ..= daysInMonth` |
| HabitCalendar.MonthDates | src/components/calendar/habit-calendar.tsx:29-31 | `new Date(year, month + 1, 0)` is the month's last day and `new Date(year, month, day)` is that day of the month |
| HabitCalendar.GridColumnIsWeekday | src/components/calendar/habit-calendar.tsx:76-90 | the grid puts each day in the column of its weekday |
| HabitCalendar.MonthView.constructor | src/components/calendar/habit-calendar.tsx:23 | the shown month starts at today |
| HabitCalendar.MonthView.PrevMonth | src/components/calendar/habit-calendar.tsx:40-42 | moves to day 1 of the previous month, wrapping to December of the year before |
| HabitCalendar.MonthView.NextMonth | src/components/calendar/habit-calendar.tsx:44-46 | moves to day 1 of the next month, wrapping to January of the year after |
| HabitCalendar.MonthView.GoToToday | src/components/calendar/habit-calendar.tsx:48-50 | shows today again |
| HabitCalendar.MonthStep | src/components/calendar/habit-calendar.tsx:40-46 | day 1 of the neighbouring month, across the year boundary |
| HabitCalendar.SelectDay | src/components/calendar/habit-calendar.tsx:146-147 | a click selects its own date or nothing |
| HabitCalendar.SelectDayMeaning | src/components/calendar/habit-calendar.tsx:140-147 | for years 1000..9999, a day is selectable exactly when it is not after today |
| HabitCalendar.BuildDataMap | src/components/calendar/habit-calendar.tsx:53-57 | the keys are exactly the dates of the data; each date maps to its last summary |
| HabitCalendar.Lookup | src/components/calendar/habit-calendar.tsx:137 | `dataMap.get` finds a summary exactly for a key of the map |
| HabitCalendar.LastSummaryWins | src/components/calendar/habit-calendar.tsx:55 | when a date repeats, the later summary is the one kept |
| WeeklyChart.ChartDataDates | src/components/dashboard/weekly-chart.tsx:27-29 | seven bars, for the dates of `getPastDays(7)` in order, the last today's |
| WeeklyChart.EntryForMeaning | src/components/dashboard/weekly-chart.tsx:30-38 | a day without data is all zeros; otherwise the first summary of the date gives the counts, and the rate is the rounded percentage (0 without habits), within [0, 100] |
| WeeklyChart.WeeklyRateBounds | src/components/dashboard/weekly-chart.tsx:42-46 | 0 without habits; otherwise the rounded percentage of the summed counts, within [0, 100] when no day has more done than habits |
| WeeklyChart.WeeklyRateIsCountWeighted | src/components/dashboard/weekly-chart.tsx:42-46 | the weekly rate weighs days by their habits: days 1/1 and 0/3 give 25, not the mean 50 of 100 and 0 |
| HabitsPage.FilteredHabitsMeaning | src/app/habits/page.tsx:173-177 | an order-preserving subsequence; a habit is kept exactly when it is not an archived one while archived are hidden and its category is the chosen one unless "all"; the whole list with archived shown and "all" |
| HabitsPage.GetCategoryByIdMeaning | src/app/habits/page.tsx:179-182 | nothing for a null or empty id; otherwise the first category with that id, and nothing exactly when none has it |
| WelcomeDialog.Dialog.constructor | src/components/onboarding/welcome-dialog.tsx:53-61 | starts at step 0, open exactly when no "welcome shown" flag (or an empty one) is stored |
| WelcomeDialog.Dialog.HandleClose | src/components/onboarding/welcome-dialog.tsx:63-66 | stores the flag "true" and closes; the step stays |
| WelcomeDialog.Dialog.HandleNext | src/components/onboarding/welcome-dialog.tsx:68-74 | before the last step, the next step with the dialog unchanged; on the last step, close and store the flag with the step unchanged; the step stays in 0..4 |
| WelcomeDialog.Dialog.HandlePrev | src/components/onboarding/welcome-dialog.tsx:76-80 | the step before, nothing at step 0 |
| WelcomeDialog.Dialog.HandleSkip | src/components/onboarding/welcome-dialog.tsx:82-84 | closes and stores the flag from any step |
| WelcomeDialog.Dialog.OnOpenChange | src/components/onboarding/welcome-dialog.tsx:91 | the dialog's own close hides it without storing the flag |
| WelcomeDialog.WalkThrough | src/components/onboarding/welcome-dialog.tsx:56-74 | four "next" clicks reach the last step still open, a fifth closes and stores the flag, and a dialog mounted afterwards stays closed |
| Calendar.DaysInMonth | src/components/calendar/habit-calendar.tsx:29 | a month has 28 to 31 days |
| Calendar.NextDayOrdinal | src/lib/date-utils.ts:36-37 | the next day's day number is one more |
| Calendar.PrevDayOrdinal | src/lib/date-utils.ts:75-76 | the previous day's day number is one less |
| Calendar.PrevNextInverse | src/lib/date-utils.ts:74-91 | the previous and next day undo each other |
| Calendar.DaysBeforeOrdinal | src/lib/date-utils.ts:90 | counting `n` days back lowers the day number by `n` |
| Calendar.AddDaysOrdinal | src/lib/date-utils.ts:36-37 | `setDate(getDate() + k)` moves the day number by `k` |
| Calendar.OrdinalOrderIff | src/app/stats/page.tsx:117-119 | calendar order is day-number order, and equal dates have equal day numbers, both ways |
| Calendar.WeekdayAddDays | src/lib/date-utils.ts:50 | moving by `k` days moves the weekday by `k` modulo 7 |
| Calendar.WeekdayReference | src/lib/date-utils.ts:48-50 | 1970-01-01 is a Thursday and 2024-01-01 a Monday (Sunday = 0) |
| Strings.NatToStringOfDigits | src/lib/date-utils.ts:15-16 | `String(n)` of a numeral's value gives the numeral back |
| Strings.NatToStringInjective | src/lib/date-utils.ts:14-17 | different numbers print differently |
| Strings.TwoDigitsValue | src/lib/date-utils.ts:15-16 | `padStart(2, "0")` of a number below 100 is two digits reading back as that number |
| Strings.SplitPrefix | src/lib/date-utils.ts:24 | `split` at a separator absent from the first piece yields that piece, then the split of the rest |
| Strings.LexLessTransitive | src/lib/date-utils.ts:71 | code-unit order is transitive |
| Strings.LexLessTotal | src/lib/date-utils.ts:71 | any two different strings are ordered one way or the other |
| Strings.LexLessDigits | src/lib/date-utils.ts:71 | on equal-length digit strings, code-unit order is numeric order |
| Seqs.Filter | src/app/stats/page.tsx:91 | `filter` keeps exactly the elements satisfying the predicate, each as often as before, in order |

## Left out

- Supabase: every query, insert and update, authentication and error toasts. The habits and logs are parameters. The write handlers return the write they would send (`CalendarPage.LogWrite`). `fetchData` and its `is_archived`/date-range filters are not modelled.
- The clock: `new Date()` and `getToday()` are a `today` parameter. Time zones, daylight saving and the difference between local `new Date(y, m, d)` and UTC `new Date("YYYY-MM-DD")` are not modelled. Both are calendar dates here.
- Floating point: rates are exact `real`s. `Math.round` is exact rounding of a rational. `toFixed` and other display formatting are not modelled.
- DateUtils.ParseDate: a piece that is not a non-empty string of ASCII digits is an error. JavaScript would build an Invalid Date, or read it leniently with `Number` (spaces, signs, exponents).
- DateUtils.CalculateStreak: requires a `today` that parses. An unparsable `today` would make every comparison fail in JavaScript; that path is not modelled.
- `localeCompare` and the default `sort` are compared by code units. Locale-sensitive collation is not modelled. On the stored `YYYY-MM-DD` strings it changes nothing.
- `new Date(str)` for strings other than `YYYY-MM-DD` of an existing date (the engine's fallback parsing) is NaN here.
- StatsPage.LongestCoversCurrent: stated for distinct stored dates only. Repeated dates break the run in the source, so the bound does not hold for them.
- CalendarPage: after a toggle, `handleToggleComplete` refreshes the selected day's logs from the pre-fetch `logs` state (line 161). That React closure behaviour is not modelled.
- `loadingHabitId` is a parameter of the click functions. Its setting and clearing around the awaited calls is not modelled.
- Chart labels (`formatDateShort(date)(weekday)`), month names, `getRateColor`, the date display of the day detail, the welcome dialog's texts and icons, theme and `localStorage` other than the welcome flag, `router.push` and tooltips are presentation only.
- WelcomeDialog.Dialog: the stored flag is a field of the dialog, standing for `localStorage`.
- HabitCalendar.MonthView.PrevMonth / NextMonth: the concrete wrap-around is stated for years outside 0..99. For those years `new Date(y, m, 1)` reads the year as 1900 + y, which the `LocalDate` postcondition covers.
- `src/components/habits/habit-form.tsx`, the dashboard page, `streak-card.tsx`, `habit-card.tsx` and the other pages hold no logic beyond markup and form plumbing, and are not part of this model.
