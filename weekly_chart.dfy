/** The weekly bar chart on the dashboard
    (src/components/dashboard/weekly-chart.tsx): one bar per day of the
    last seven days with that day's completed and total habits and its
    rounded rate, and the week's rate over all seven days. */
module WeeklyChart {
  import opened Wrappers
  import opened Seqs
  import opened Calendar
  import opened DateUtils
  import opened HabitModel

  /** One bar (its label, text made from the date, is not part of this
      model). */
  datatype ChartEntry = ChartEntry(date: string, completed: int, total: int, rate: int)

  /** The bar for `date`: the first summary with that date, or zeros. */
  function EntryFor(data: seq<DayData>, date: string): (e: ChartEntry)
  {
    var dayData := FindFirst(data, (d: DayData) => d.date == date);
    match dayData
    case None => ChartEntry(date, 0, 0, 0)
    case Some(d) => ChartEntry(date, d.completed, d.total, if d.total > 0 then RoundPercent(d.completed, d.total) else 0)
  }

  /** `chartData`: `getPastDays(7).map(...)`. */
  function ChartData(data: seq<DayData>, today: Date): (r: seq<ChartEntry>)
    requires Valid(today)
  {
    Map(PastDays(today, 7), (date: string) => EntryFor(data, date))
  }

  /** `Math.round(totalCompleted / totalHabits * 100)` over the seven bars,
      0 when they have no habits. */
  function WeeklyRate(chart: seq<ChartEntry>): int
  {
    var totalCompleted := Sum(chart, (e: ChartEntry) => e.completed);
    var totalHabits := Sum(chart, (e: ChartEntry) => e.total);
    if totalHabits > 0 then RoundPercent(totalCompleted, totalHabits) else 0
  }

  /** The chart has seven bars, for the dates `getPastDays(7)` gives, in
      that order, the last one today's. */
  lemma ChartDataDates(data: seq<DayData>, today: Date)
    requires Valid(today)
    ensures |ChartData(data, today)| == 7
    ensures forall i :: 0 <= i < 7 ==> ChartData(data, today)[i].date == PastDays(today, 7)[i]
    ensures ChartData(data, today)[6].date == FormatDate(today)
  {
    PastDatesConsecutive(today, 7);
    FormatAllAt(PastDates(today, 7), 6);
  }

  /** A bar with no summary of its date is all zeros; otherwise the first
      summary of the date gives its counts, its rate is the rounded
      percentage when the day has habits and 0 when not, and within
      [0, 100] when no more are done than exist. */
  lemma EntryForMeaning(data: seq<DayData>, date: string, k: nat)
    ensures (forall i :: 0 <= i < |data| ==> data[i].date != date) ==> EntryFor(data, date) == ChartEntry(date, 0, 0, 0)
    ensures k < |data| && data[k].date == date && (forall i :: 0 <= i < k ==> data[i].date != date) ==>
      var e := EntryFor(data, date);
      && e.completed == data[k].completed && e.total == data[k].total
      && (e.total > 0 ==> 2 * e.total * e.rate <= 200 * e.completed + e.total < 2 * e.total * (e.rate + 1))
      && (e.total <= 0 ==> e.rate == 0)
      && (0 <= e.completed <= e.total ==> 0 <= e.rate <= 100)
  {
    if k < |data| && data[k].date == date && (forall i :: 0 <= i < k ==> data[i].date != date) {
      var p := (d: DayData) => d.date == date;
      var r := FindFirst(data, p);
      var j :| 0 <= j < |data| && data[j] == r.value && p(data[j]) && forall i :: 0 <= i < j ==> !p(data[i]);
      assert j == k;
      var e := EntryFor(data, date);
      if e.total > 0 { RoundPercentBounds(e.completed, e.total); }
    }
  }

  /** The week's rate is 0 when the bars have no habits; it is within
      [0, 100] when no bar has more done than it has habits. */
  lemma WeeklyRateBounds(chart: seq<ChartEntry>)
    ensures Sum(chart, (e: ChartEntry) => e.total) <= 0 ==> WeeklyRate(chart) == 0
    ensures (forall i :: 0 <= i < |chart| ==> 0 <= chart[i].completed <= chart[i].total) ==>
      0 <= WeeklyRate(chart) <= 100
  {
    var c := (e: ChartEntry) => e.completed;
    var t := (e: ChartEntry) => e.total;
    if forall i :: 0 <= i < |chart| ==> 0 <= chart[i].completed <= chart[i].total {
      SumLeq(chart, c, t);
      SumNonNegative(chart, c);
      if Sum(chart, t) > 0 {
        RoundPercentBounds(Sum(chart, c), Sum(chart, t));
      }
    }
  }

  /** The week's rate weighs days by their number of habits: a day with 1
      of 1 done and a day with 0 of 3 done make 25, where the mean of the
      two daily rates (100 and 0) is 50. */
  lemma WeeklyRateIsCountWeighted()
    ensures var data := [DayData("2024-01-01", 1, 1), DayData("2024-01-02", 0, 3)];
      var chart := [EntryFor(data, "2024-01-01"), EntryFor(data, "2024-01-02")];
      chart[0].rate == 100 && chart[1].rate == 0 && WeeklyRate(chart) == 25
  {
    var data := [DayData("2024-01-01", 1, 1), DayData("2024-01-02", 0, 3)];
    EntryForMeaning(data, "2024-01-01", 0);
    EntryForMeaning(data, "2024-01-02", 1);
    var chart := [EntryFor(data, "2024-01-01"), EntryFor(data, "2024-01-02")];
    assert chart[0].completed == 1 && chart[0].total == 1;
    assert chart[1].completed == 0 && chart[1].total == 3;
    var c := (e: ChartEntry) => e.completed;
    var t := (e: ChartEntry) => e.total;
    assert chart[..1] == [chart[0]] && chart[..1][..0] == [];
    assert Sum(chart[..1], c) == 1 && Sum(chart[..1], t) == 1;
    assert Sum(chart, c) == 1 && Sum(chart, t) == 4;
  }
}
