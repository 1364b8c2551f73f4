/** The statistics page (src/app/stats/page.tsx): for every active habit,
    the completed dates of the last 30 days, the achievement rate, the
    current streak and the longest run of consecutive days; then the
    totals over all habits, the mean rate and the best habit. The habits
    and logs are the ones the page fetched; `today` is `getToday()`. */
module StatsPage {
  import opened Wrappers
  import opened Seqs
  import opened Strings
  import opened Calendar
  import opened DateUtils
  import opened Sorting
  import opened HabitModel

  /** `totalDays`: the window is always 30 days. */
  const TotalDays: int := 30

  // ---------------------------------------------------------------------
  // Completed dates and the achievement rate
  // ---------------------------------------------------------------------

  /** The page's own copy of the satisfaction rule, applied to a log already
      matched to the habit. */
  predicate LogQualifies(h: Habit, l: HabitLog)
  {
    if h.goalType == Boolean then l.completed else ValueOrZero(l.value) >= h.goalValue
  }

  /** The copy agrees with the shared rule on a present log. */
  lemma LogQualifiesAgrees(h: Habit, l: HabitLog)
    ensures LogQualifies(h, l) == Satisfied(h, Some(l))
  {
  }

  /** `habitLogs.filter(qualifies).map(log => log.date)`, where `habitLogs`
      are the logs whose `habit_id` is the habit's. */
  function CompletedDates(h: Habit, logs: seq<HabitLog>): (dates: seq<string>)
  {
    var habitLogs := Filter(logs, (l: HabitLog) => l.habitId == h.id);
    var done := Filter(habitLogs, (l: HabitLog) => LogQualifies(h, l));
    Map(done, (l: HabitLog) => l.date)
  }

  /** The logs that count toward the habit: its own, and satisfying the rule. */
  function QualifyingLogs(h: Habit, logs: seq<HabitLog>): (r: seq<HabitLog>)
  {
    Filter(logs, (l: HabitLog) => l.habitId == h.id && LogQualifies(h, l))
  }

  /** A date is a completed date exactly when some log of the habit on that
      date satisfies the rule; there is one completed date per qualifying
      log, in log order. */
  lemma CompletedDatesMeaning(h: Habit, logs: seq<HabitLog>)
    ensures forall d :: d in CompletedDates(h, logs) <==>
      exists l :: l in logs && l.habitId == h.id && LogQualifies(h, l) && l.date == d
    ensures CompletedDates(h, logs) == Map(QualifyingLogs(h, logs), (l: HabitLog) => l.date)
    ensures |CompletedDates(h, logs)| == |QualifyingLogs(h, logs)|
  {
    var both := (l: HabitLog) => l.habitId == h.id && LogQualifies(h, l);
    FilterFilter(logs, (l: HabitLog) => l.habitId == h.id, (l: HabitLog) => LogQualifies(h, l), both);
    MapMembers(Filter(logs, both), (l: HabitLog) => l.date);
  }

  /** `completedDays` counts qualifying logs, not distinct dates: two
      qualifying logs on one day count twice. */
  lemma CompletedDaysCountsRepeats(h: Habit, l1: HabitLog, l2: HabitLog)
    requires l1.habitId == h.id && l2.habitId == h.id && l1.date == l2.date
    requires LogQualifies(h, l1) && LogQualifies(h, l2)
    ensures |CompletedDates(h, [l1, l2])| == 2
    ensures |Distinct(CompletedDates(h, [l1, l2]))| == 1
  {
    var logs := [l1, l2];
    assert Filter(logs, (l: HabitLog) => l.habitId == h.id) == logs by {
      FilterAll(logs, (l: HabitLog) => l.habitId == h.id);
    }
    assert Filter(logs, (l: HabitLog) => LogQualifies(h, l)) == logs by {
      FilterAll(logs, (l: HabitLog) => LogQualifies(h, l));
    }
    var dates := CompletedDates(h, logs);
    assert dates == [l1.date, l1.date];
    assert Distinct(dates) == {l1.date};
  }

  /** `(completedDays / totalDays) * 100`, with the `totalDays > 0` guard. */
  function AchievementRate(completedDays: int): (r: real)
  {
    if TotalDays > 0 then (completedDays as real / TotalDays as real) * 100.0 else 0.0
  }

  /** The rate is completed days per 30, in percent: it lies in [0, 100]
      when at most 30 days are completed and grows with the count. */
  lemma AchievementRateMeaning(c: int, c2: int)
    ensures AchievementRate(c) * 30.0 == (c as real) * 100.0
    ensures 0 <= c <= TotalDays ==> 0.0 <= AchievementRate(c) <= 100.0
    ensures c <= c2 ==> AchievementRate(c) <= AchievementRate(c2)
  {
  }

  // ---------------------------------------------------------------------
  // The longest run
  // ---------------------------------------------------------------------

  /** `diffDays === 1` for `new Date(a)` and `new Date(b)`: both strings
      read as ISO dates (midnight UTC), and `b` is the day after `a`.
      A string that does not read as an ISO date gives NaN, which is not 1. */
  predicate Adjacent(a: string, b: string)
  {
    ParseIsoDate(a).Some? && ParseIsoDate(b).Some? &&
    Ordinal(ParseIsoDate(b).value) - Ordinal(ParseIsoDate(a).value) == 1
  }

  /** A repeated date (0 days apart) is not adjacent to itself, so it closes
      the run just as a gap does. */
  lemma RepeatIsNotAdjacent(d: string)
    ensures !Adjacent(d, d)
  {
  }

  // The run structure does not depend on what "the next day" means, so it
  // is stated for any relation `adj` between neighbours; the page uses
  // `Adjacent`.

  /** Positions `a..b-1` of `s` form a run: each is related by `adj` to the
      one before it. */
  predicate IsRun(s: seq<string>, adj: (string, string) -> bool, a: int, b: int)
    requires 0 <= a <= b <= |s|
  {
    forall k :: a < k < b ==> adj(s[k - 1], s[k])
  }

  /** The length of the run that ends at position `i`. */
  function RunEndingAt(s: seq<string>, adj: (string, string) -> bool, i: nat): (n: nat)
    requires i < |s|
    ensures 1 <= n <= i + 1
  {
    if i > 0 && adj(s[i - 1], s[i]) then RunEndingAt(s, adj, i - 1) + 1 else 1
  }

  /** The longest run ending before position `n`. */
  function MaxRun(s: seq<string>, adj: (string, string) -> bool, n: nat): nat
    requires n <= |s|
  {
    if n == 0 then 0
    else
      var m := MaxRun(s, adj, n - 1);
      var r := RunEndingAt(s, adj, n - 1);
      if m >= r then m else r
  }

  /** The length of the longest run of consecutive days in `s`:
      `longestStreak` of a sorted list. */
  function LongestRun(s: seq<string>): nat
  {
    MaxRun(s, Adjacent, |s|)
  }

  /** The run ending at `i` is a run. */
  lemma {:induction false} RunEndingAtIsRun(s: seq<string>, adj: (string, string) -> bool, i: nat)
    requires i < |s|
    ensures IsRun(s, adj, i + 1 - RunEndingAt(s, adj, i), i + 1)
  {
    if i > 0 && adj(s[i - 1], s[i]) {
      RunEndingAtIsRun(s, adj, i - 1);
    }
  }

  /** A run ending at `b - 1` is no longer than the run `RunEndingAt`
      measures there. */
  lemma {:induction false} RunEndingAtIsLongest(s: seq<string>, adj: (string, string) -> bool, a: nat, b: nat)
    requires a < b <= |s| && IsRun(s, adj, a, b)
    ensures b - a <= RunEndingAt(s, adj, b - 1)
    decreases b
  {
    if b - 1 > a {
      assert adj(s[b - 2], s[b - 1]);
      RunEndingAtIsLongest(s, adj, a, b - 1);
    }
  }

  /** `MaxRun` is attained by the run ending at some position and bounds the
      runs ending at every position before `n`. */
  lemma {:induction false} MaxRunMeaning(s: seq<string>, adj: (string, string) -> bool, n: nat)
    requires n <= |s|
    ensures forall i :: 0 <= i < n ==> RunEndingAt(s, adj, i) <= MaxRun(s, adj, n)
    ensures n > 0 ==> exists i :: 0 <= i < n && MaxRun(s, adj, n) == RunEndingAt(s, adj, i)
    ensures n == 0 ==> MaxRun(s, adj, n) == 0
  {
    if n > 0 {
      MaxRunMeaning(s, adj, n - 1);
    }
  }

  /** Every run is at most the longest. */
  lemma RunsAtMostMax(s: seq<string>, adj: (string, string) -> bool)
    ensures forall a, b :: 0 <= a < b <= |s| && IsRun(s, adj, a, b) ==> b - a <= MaxRun(s, adj, |s|)
  {
    MaxRunMeaning(s, adj, |s|);
    forall a, b | 0 <= a < b <= |s| && IsRun(s, adj, a, b)
      ensures b - a <= MaxRun(s, adj, |s|)
    {
      RunEndingAtIsLongest(s, adj, a, b);
    }
  }

  /** What `longestStreak` is: 0 for no dates; otherwise between 1 and the
      number of dates, the length of some run of consecutive days, and at
      least the length of every such run. */
  lemma LongestRunMeaning(s: seq<string>)
    ensures |s| == 0 ==> LongestRun(s) == 0
    ensures |s| > 0 ==> 1 <= LongestRun(s) <= |s|
    ensures |s| > 0 ==> exists a, b :: 0 <= a <= b <= |s| && b - a == LongestRun(s) && IsRun(s, Adjacent, a, b)
    ensures forall a, b :: 0 <= a < b <= |s| && IsRun(s, Adjacent, a, b) ==> b - a <= LongestRun(s)
  {
    var n := |s|;
    MaxRunMeaning(s, Adjacent, n);
    if n > 0 {
      var i :| 0 <= i < n && MaxRun(s, Adjacent, n) == RunEndingAt(s, Adjacent, i);
      RunEndingAtIsRun(s, Adjacent, i);
      assert IsRun(s, Adjacent, i + 1 - LongestRun(s), i + 1);
    }
    RunsAtMostMax(s, Adjacent);
  }

  /** The longest-run loop: sort the dates, then walk them keeping the
      length of the current run and the longest run closed so far. */
  method LongestStreakScan(completedDates: seq<string>) returns (longestStreak: nat)
    ensures longestStreak == LongestRun(Sort(completedDates))
  {
    longestStreak := 0;
    if |completedDates| > 0 {
      var sortedDates := Sort(completedDates);
      var tempStreak: nat := 1;
      var i := 1;
      while i < |sortedDates|
        invariant 1 <= i <= |sortedDates|
        invariant tempStreak == RunEndingAt(sortedDates, Adjacent, i - 1)
        invariant MaxRun(sortedDates, Adjacent, i) == if longestStreak >= tempStreak then longestStreak else tempStreak
      {
        if Adjacent(sortedDates[i - 1], sortedDates[i]) {
          tempStreak := tempStreak + 1;
        } else {
          longestStreak := if longestStreak >= tempStreak then longestStreak else tempStreak;
          tempStreak := 1;
        }
        i := i + 1;
      }
      longestStreak := if longestStreak >= tempStreak then longestStreak else tempStreak;
    }
  }

  // ---------------------------------------------------------------------
  // The longest run covers the current streak
  // ---------------------------------------------------------------------

  /** The day number of a stored date (0 for any other string). */
  function DayNumber(x: string): int
  {
    if IsDateString(x) then Ordinal(DateOf(x)) else 0
  }

  predicate AllDateStrings(s: seq<string>)
  {
    forall i :: 0 <= i < |s| ==> IsDateString(s[i])
  }

  predicate NoRepeats(s: seq<string>)
  {
    forall i, j :: 0 <= i < j < |s| ==> s[i] != s[j]
  }

  // The lemmas below, up to `StreakIsRun`, take the day numbering `day`
  // and the adjacency `adj` as parameters: they need only that day numbers
  // increase along the list and that one day apart means adjacent.

  /** The day numbers strictly increase along `s`. */
  predicate Increasing(s: seq<string>, day: string -> int)
  {
    forall i, j :: 0 <= i < j < |s| ==> day(s[i]) < day(s[j])
  }

  /** Some position of `s` holds day number `v`. */
  predicate HasDay(s: seq<string>, day: string -> int, v: int)
  {
    exists i :: 0 <= i < |s| && day(s[i]) == v
  }

  /** Neighbours of `s` one day number apart are adjacent. */
  predicate NextDaysAdjacent(s: seq<string>, day: string -> int, adj: (string, string) -> bool)
  {
    forall i :: 0 < i < |s| && day(s[i]) == day(s[i - 1]) + 1 ==> adj(s[i - 1], s[i])
  }

  /** If every day of `lo .. lo+k-1` occurs and `lo` occurs at `p`, then
      those days sit at positions `p .. p+k-1`. */
  lemma {:induction false} ConsecutiveDays(s: seq<string>, day: string -> int, lo: int, k: nat, p: nat, m: nat)
    requires Increasing(s, day)
    requires forall v :: lo <= v < lo + k ==> HasDay(s, day, v)
    requires p < |s| && day(s[p]) == lo && m < k
    ensures p + m < |s| && day(s[p + m]) == lo + m
    decreases m
  {
    if m > 0 {
      ConsecutiveDays(s, day, lo, k, p, m - 1);
      assert HasDay(s, day, lo + m);
      var i :| 0 <= i < |s| && day(s[i]) == lo + m;
      assert p + m <= i;
      assert day(s[p + m - 1]) < day(s[p + m]) <= day(s[i]);
    }
  }

  /** In a list of increasing day numbers, `k` consecutive day numbers from
      `lo` form a run, so the longest run is at least `k`. */
  lemma StreakIsRun(s: seq<string>, day: string -> int, adj: (string, string) -> bool, lo: int, k: nat)
    requires 0 < k && Increasing(s, day) && NextDaysAdjacent(s, day, adj)
    requires forall v :: lo <= v < lo + k ==> HasDay(s, day, v)
    ensures MaxRun(s, adj, |s|) >= k
  {
    assert HasDay(s, day, lo);
    var p :| 0 <= p < |s| && day(s[p]) == lo;
    RunOfConsecutiveDays(s, day, adj, lo, k, p);
    RunsAtMostMax(s, adj);
  }

  /** The `k` positions from `p` whose day numbers count up from `lo` form a
      run. */
  lemma RunOfConsecutiveDays(s: seq<string>, day: string -> int, adj: (string, string) -> bool, lo: int, k: nat, p: nat)
    requires 0 < k && Increasing(s, day) && NextDaysAdjacent(s, day, adj)
    requires forall v :: lo <= v < lo + k ==> HasDay(s, day, v)
    requires p < |s| && day(s[p]) == lo
    ensures p + k <= |s| && IsRun(s, adj, p, p + k)
  {
    ConsecutiveDays(s, day, lo, k, p, k - 1);
    forall q | p < q < p + k
      ensures adj(s[q - 1], s[q])
    {
      ConsecutiveDays(s, day, lo, k, p, q - 1 - p);
      ConsecutiveDays(s, day, lo, k, p, q - p);
    }
  }

  /** Sorted, without repeats, and all stored dates: the day numbers strictly
      increase along the list. */
  lemma SortedDaysIncrease(s: seq<string>)
    requires AllDateStrings(s) && Sorted(s) && NoRepeats(s)
    ensures Increasing(s, DayNumber)
  {
    forall i, j | 0 <= i < j < |s|
      ensures DayNumber(s[i]) < DayNumber(s[j])
    {
      LexLessIsChronological(s[i], s[j]);
    }
  }

  /** A list without repeats has no element twice. */
  lemma {:induction false} NoRepeatsCount(s: seq<string>, x: string)
    requires NoRepeats(s)
    ensures multiset(s)[x] <= 1
  {
    if |s| > 0 {
      assert s == [s[0]] + s[1..];
      NoRepeatsCount(s[1..], x);
      if s[0] == x {
        assert x !in s[1..];
      }
    }
  }

  /** Two equal elements at different positions occur twice. */
  lemma TwoOccurrences(s: seq<string>, i: nat, j: nat)
    requires i < j < |s| && s[i] == s[j]
    ensures multiset(s)[s[i]] >= 2
  {
    assert s == s[..j] + s[j..];
    assert s[i] in s[..j] && s[j] in s[j..];
  }

  /** A sorted rearrangement of a list without repeats has none either. */
  lemma SortKeepsNoRepeats(dates: seq<string>)
    requires NoRepeats(dates)
    ensures NoRepeats(Sort(dates))
  {
    var s := Sort(dates);
    forall i, j | 0 <= i < j < |s|
      ensures s[i] != s[j]
    {
      NoRepeatsCount(dates, s[i]);
      if s[i] == s[j] {
        TwoOccurrences(s, i, j);
      }
    }
  }

  /** The stored date `j` days back from `a` has day number
      `Ordinal(a) - j`. */
  lemma StreakDayNumber(a: Date, j: nat)
    requires Valid(a) && IsDateString(FormatDate(DaysBefore(a, j)))
    ensures DayNumber(FormatDate(DaysBefore(a, j))) == Ordinal(a) - j
  {
    var x := FormatDate(DaysBefore(a, j));
    DateStringFormat(x);
    FormatDateInjective(DateOf(x), DaysBefore(a, j));
    DaysBeforeOrdinal(a, j);
  }

  /** Every day number of a streak of `k` days ending at `a` occurs in `s`. */
  lemma StreakDaysPresent(s: seq<string>, a: Date, k: nat)
    requires Valid(a) && AllDateStrings(s)
    requires forall j :: 0 <= j < k ==> FormatDate(DaysBefore(a, j)) in s
    ensures forall v :: Ordinal(a) - (k - 1) <= v < Ordinal(a) - (k - 1) + k ==> HasDay(s, DayNumber, v)
  {
    forall v | Ordinal(a) - (k - 1) <= v < Ordinal(a) - (k - 1) + k
      ensures HasDay(s, DayNumber, v)
    {
      var j := Ordinal(a) - v;
      var i :| 0 <= i < |s| && s[i] == FormatDate(DaysBefore(a, j));
      StreakDayNumber(a, j);
    }
  }

  /** Neighbouring stored dates one day number apart are adjacent. */
  lemma DatesNextDaysAdjacent(s: seq<string>)
    requires AllDateStrings(s)
    ensures NextDaysAdjacent(s, DayNumber, Adjacent)
  {
    forall i | 0 < i < |s| && DayNumber(s[i]) == DayNumber(s[i - 1]) + 1
      ensures Adjacent(s[i - 1], s[i])
    {
      NextDayIsAdjacent(s[i - 1], s[i]);
    }
  }

  /** Two stored dates one day number apart are adjacent. */
  lemma NextDayIsAdjacent(x: string, y: string)
    requires IsDateString(x) && IsDateString(y)
    requires Ordinal(DateOf(y)) == Ordinal(DateOf(x)) + 1
    ensures Adjacent(x, y)
  {
  }

  /** Membership carries over between collections with the same strings. */
  lemma StreakDaysCarryOver(S: set<string>, s: seq<string>, a: Date, k: nat)
    requires Valid(a)
    requires forall j :: 0 <= j < k ==> FormatDate(DaysBefore(a, j)) in S
    requires forall x :: x in S <==> x in s
    ensures forall j :: 0 <= j < k ==> FormatDate(DaysBefore(a, j)) in s
  {
  }

  /** Sorting keeps exactly the same strings. */
  lemma SortSameElements(dates: seq<string>)
    ensures forall x :: x in Sort(dates) <==> x in dates
  {
    var s := Sort(dates);
    forall x ensures x in s <==> x in dates {
      assert x in multiset(s) <==> x in multiset(dates);
    }
  }

  /** Sorting stored dates gives stored dates. */
  lemma SortKeepsDateStrings(dates: seq<string>)
    requires AllDateStrings(dates)
    ensures AllDateStrings(Sort(dates))
  {
    SortSameElements(dates);
    var s := Sort(dates);
    forall i | 0 <= i < |s| ensures IsDateString(s[i]) {
      assert s[i] in dates;
    }
  }

  /** For distinct stored dates, the longest run is at least the current
      streak: the streak's days are consecutive in sorted order. */
  lemma LongestCoversCurrent(dates: seq<string>, today: Date)
    requires Valid(today) && today.year >= 100
    requires AllDateStrings(dates) && NoRepeats(dates)
    ensures ParseDate(FormatDate(today)).Ok?
    ensures LongestRun(Sort(dates)) >= CurrentStreak(dates, FormatDate(today))
  {
    var t := FormatDate(today);
    ParseFormatRoundTrip(today);
    var k := CurrentStreak(dates, t);
    if k > 0 {
      CurrentStreakMeaning(dates, t);
      var a := StreakAnchor(dates, t).value;
      var s := Sort(dates);
      SortSameElements(dates);
      SortKeepsNoRepeats(dates);
      SortKeepsDateStrings(dates);
      assert forall x :: x in Distinct(dates) <==> x in s;
      StreakDaysCarryOver(Distinct(dates), s, a, k);
      SortedDaysIncrease(s);
      StreakDaysPresent(s, a, k);
      DatesNextDaysAdjacent(s);
      StreakIsRun(s, DayNumber, Adjacent, Ordinal(a) - (k - 1), k);
    }
  }

  // ---------------------------------------------------------------------
  // Per-habit statistics
  // ---------------------------------------------------------------------

  datatype HabitStats = HabitStats(
    habit: Habit, totalDays: int, completedDays: int, achievementRate: real,
    currentStreak: int, longestStreak: int)

  /** The statistics the page computes for one habit. */
  function HabitStatsOf(h: Habit, logs: seq<HabitLog>, today: string): HabitStats
    requires ParseDate(today).Ok?
  {
    var dates := CompletedDates(h, logs);
    HabitStats(h, TotalDays, |dates|, AchievementRate(|dates|),
      CurrentStreak(dates, today), LongestRun(Sort(dates)))
  }

  /** One iteration of `fetchedHabits.map(...)`. */
  method ComputeHabitStats(h: Habit, logs: seq<HabitLog>, today: string) returns (stat: HabitStats)
    requires ParseDate(today).Ok?
    ensures stat == HabitStatsOf(h, logs, today)
  {
    var completedDates := CompletedDates(h, logs);
    var completedDays := |completedDates|;
    var achievementRate := AchievementRate(completedDays);
    var currentStreak := CalculateStreak(completedDates, today);
    var longestStreak := LongestStreakScan(completedDates);
    stat := HabitStats(h, TotalDays, completedDays, achievementRate, currentStreak, longestStreak);
  }

  /** What one habit's statistics say: the window is 30 days; the completed
      days are the qualifying logs; the longest streak is 0 exactly when
      nothing is completed and otherwise between 1 and the completed days;
      the current streak is `calculateStreak` of the completed dates. */
  lemma HabitStatsMeaning(h: Habit, logs: seq<HabitLog>, today: string)
    requires ParseDate(today).Ok?
    ensures var st := HabitStatsOf(h, logs, today);
      && st.habit == h && st.totalDays == 30
      && st.completedDays == |QualifyingLogs(h, logs)|
      && (st.completedDays <= 30 ==> 0.0 <= st.achievementRate <= 100.0)
      && (st.longestStreak == 0 <==> st.completedDays == 0)
      && st.longestStreak <= st.completedDays
      && st.currentStreak == CurrentStreak(CompletedDates(h, logs), today)
  {
    var dates := CompletedDates(h, logs);
    CompletedDatesMeaning(h, logs);
    AchievementRateMeaning(|dates|, |dates|);
    var s := Sort(dates);
    assert |s| == |multiset(s)| == |multiset(dates)| == |dates|;
    LongestRunMeaning(s);
  }

  /** The page's `stats`: `fetchedHabits.map(...)`. */
  method ComputeStats(habits: seq<Habit>, logs: seq<HabitLog>, today: string) returns (stats: seq<HabitStats>)
    requires ParseDate(today).Ok?
    ensures |stats| == |habits|
    ensures forall i :: 0 <= i < |habits| ==> stats[i] == HabitStatsOf(habits[i], logs, today)
  {
    ghost var want := seq(|habits|, j requires 0 <= j < |habits| => HabitStatsOf(habits[j], logs, today));
    stats := [];
    var i := 0;
    while i < |habits|
      invariant 0 <= i <= |habits| && stats == want[..i]
    {
      var stat := ComputeHabitStats(habits[i], logs, today);
      PrefixExtend(want, i, stat);
      stats := stats + [stat];
      i := i + 1;
    }
    assert stats == want;
  }

  // ---------------------------------------------------------------------
  // Overall statistics
  // ---------------------------------------------------------------------

  /** `stats.reduce((sum, s) => sum + s.completedDays, 0)`. */
  function TotalCompletions(stats: seq<HabitStats>): int
  {
    Sum(stats, (s: HabitStats) => s.completedDays)
  }

  /** The mean of the per-habit rates; 0 with no habits. */
  function OverallRate(stats: seq<HabitStats>): real
  {
    if |stats| > 0 then SumReal(stats, (s: HabitStats) => s.achievementRate) / (|stats| as real) else 0.0
  }

  /** Completions are never negative, and at most 30 per habit when each
      habit has at most 30. */
  lemma TotalCompletionsBounds(stats: seq<HabitStats>)
    requires forall i :: 0 <= i < |stats| ==> 0 <= stats[i].completedDays <= 30
    ensures 0 <= TotalCompletions(stats) <= 30 * |stats|
  {
    SumBounds(stats, (s: HabitStats) => s.completedDays, 0, 30);
  }

  /** The overall rate is the unweighted mean of the rates (0 with no
      habits), within [0, 100] when every rate is. */
  lemma OverallRateMeaning(stats: seq<HabitStats>)
    ensures |stats| == 0 ==> OverallRate(stats) == 0.0
    ensures |stats| > 0 ==> OverallRate(stats) * (|stats| as real) == SumReal(stats, (s: HabitStats) => s.achievementRate)
    ensures (forall i :: 0 <= i < |stats| ==> 0.0 <= stats[i].achievementRate <= 100.0) ==>
      0.0 <= OverallRate(stats) <= 100.0
  {
    var rate := (s: HabitStats) => s.achievementRate;
    if |stats| > 0 {
      MeanTimesCount(SumReal(stats, rate), |stats|);
      if forall i :: 0 <= i < |stats| ==> 0.0 <= stats[i].achievementRate <= 100.0 {
        SumRealBounds(stats, rate, 0.0, 100.0);
        MeanBounds(SumReal(stats, rate), |stats|);
      }
    }
  }

  /** Dividing by `n` and multiplying back gives the total. */
  lemma MeanTimesCount(total: real, n: nat)
    requires 0 < n
    ensures (total / (n as real)) * (n as real) == total
  {
  }

  /** A mean of `n` values in [0, 100] is in [0, 100]. */
  lemma MeanBounds(total: real, n: nat)
    requires 0 < n && 0.0 <= total <= (n as real) * 100.0
    ensures 0.0 <= total / (n as real) <= 100.0
  {
  }

  /** The position the best-habit `reduce` ends on among the first `n`
      statistics: a later habit replaces the best only with a strictly
      greater rate. */
  function BestIndex(stats: seq<HabitStats>, n: nat): (b: nat)
    requires 0 < n <= |stats|
    ensures b < n
    ensures forall j :: 0 <= j < n ==> stats[j].achievementRate <= stats[b].achievementRate
    ensures forall j :: 0 <= j < b ==> stats[j].achievementRate < stats[b].achievementRate
  {
    if n == 1 then 0
    else
      var best := BestIndex(stats, n - 1);
      if stats[n - 1].achievementRate > stats[best].achievementRate then n - 1 else best
  }

  /** `bestHabitStat?.habit.name || "-"`. */
  function BestHabit(stats: seq<HabitStats>): (name: string)
    ensures |stats| == 0 ==> name == "-"
  {
    if |stats| == 0 then "-"
    else
      var name := stats[BestIndex(stats, |stats|)].habit.name;
      if name == "" then "-" else name
  }

  /** The best habit is the first one with the greatest rate: ties keep the
      earlier habit, so equal rates (all 0, say) pick the first habit. */
  lemma BestHabitIsFirstMaximum(stats: seq<HabitStats>, i: nat)
    requires i < |stats|
    requires forall j :: 0 <= j < |stats| ==> stats[j].achievementRate <= stats[i].achievementRate
    requires forall j :: 0 <= j < i ==> stats[j].achievementRate < stats[i].achievementRate
    ensures BestIndex(stats, |stats|) == i
    ensures BestHabit(stats) == if stats[i].habit.name == "" then "-" else stats[i].habit.name
  {
  }

  datatype OverallStats = OverallStats(
    totalHabits: int, totalCompletions: int, overallRate: real, bestHabit: string)

  /** `setOverallStats({...})`. */
  function Overall(habits: seq<Habit>, stats: seq<HabitStats>): (o: OverallStats)
    ensures o.totalHabits == |habits|
  {
    OverallStats(|habits|, TotalCompletions(stats), OverallRate(stats), BestHabit(stats))
  }
}
