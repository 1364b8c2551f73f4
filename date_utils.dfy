/** The date helpers of the habit tracker (src/lib/date-utils.ts), with the
    current date passed in instead of read from the clock. */
module DateUtils {
  import opened Wrappers
  import opened Strings
  import opened Calendar

  // ---------------------------------------------------------------------
  // formatDate and the two ways the source turns a string back into a date
  // ---------------------------------------------------------------------

  /** `formatDate`: `${year}-${MM}-${DD}`, month and day padded to two
      digits, the year printed as `String` prints it. */
  function FormatDate(d: Date): string
    requires Valid(d)
  {
    IntToString(d.year) + "-" + TwoDigits(d.month) + "-" + TwoDigits(d.day)
  }

  /** The formatted string ends in `-MM-DD`: exactly two digits each for the
      month and the day, after the year. */
  lemma FormatDatePadding(d: Date)
    requires Valid(d)
    ensures var s := FormatDate(d); var n := |s|;
      n >= 7 && s[..n - 6] == IntToString(d.year) && s[n - 6] == '-' && s[n - 3] == '-'
      && IsDigits(s[n - 5..n - 3]) && DigitsValue(s[n - 5..n - 3]) == d.month
      && IsDigits(s[n - 2..]) && DigitsValue(s[n - 2..]) == d.day
  {
    TwoDigitsValue(d.month);
    TwoDigitsValue(d.day);
    NatToStringDigits(if d.year < 0 then -d.year else d.year);
    var y, mm, dd := IntToString(d.year), TwoDigits(d.month), TwoDigits(d.day);
    var s := FormatDate(d);
    var n := |s|;
    assert s == y + "-" + mm + "-" + dd;
    assert s[n - 5..n - 3] == mm && s[n - 2..] == dd && s[..n - 6] == y;
  }

  /** Different dates format differently. */
  lemma FormatDateInjective(a: Date, b: Date)
    requires Valid(a) && Valid(b) && FormatDate(a) == FormatDate(b)
    ensures a == b
  {
    FormatDatePadding(a);
    FormatDatePadding(b);
    IntToStringInjective(a.year, b.year);
  }

  predicate IsNumeral(s: string) { |s| > 0 && IsDigits(s) }

  /** `new Date(year, monthIndex, day)` as a calendar date: a year 0..99
      means 1900..1999, and a month index outside 0..11 or a day outside
      the month rolls over into the neighbouring months and years. */
  function LocalDate(year: int, monthIndex: int, day: int): (d: Date)
    ensures Valid(d)
  {
    var y := if 0 <= year <= 99 then 1900 + year else year;
    AddDays(Date(y + monthIndex / 12, monthIndex % 12 + 1, 1), day - 1)
  }

  /** In range, `new Date(year, month - 1, day)` is that very date. */
  lemma LocalDateExact(d: Date)
    requires Valid(d) && !(0 <= d.year <= 99)
    ensures LocalDate(d.year, d.month - 1, d.day) == d
  {
    assert (d.month - 1) / 12 == 0 && (d.month - 1) % 12 + 1 == d.month;
    AddDaysWithinMonth(d.year, d.month, 1, d.day - 1);
  }

  /** `parseDate`: split at `-`, read the first three pieces as numbers and
      build a local date. A piece that is not a string of decimal digits (or
      fewer than three pieces) is reported as an error; the source would
      build an Invalid Date there. Pieces after the third are ignored, as
      the destructuring assignment ignores them. */
  function ParseDate(s: string): (r: Result<Date>)
    ensures r.Ok? ==> Valid(r.value)
  {
    var parts := Split(s, '-');
    if |parts| < 3 then Err("a date needs year, month and day")
    else if !(IsNumeral(parts[0]) && IsNumeral(parts[1]) && IsNumeral(parts[2])) then
      Err("date fields must be decimal numbers")
    else Ok(LocalDate(DigitsValue(parts[0]), DigitsValue(parts[1]) - 1, DigitsValue(parts[2])))
  }

  /** A formatted date of a year from 0 on splits at `-` into its three
      fields, which read back as the year, the month and the day. */
  lemma FormatDateFields(d: Date)
    requires Valid(d) && d.year >= 0
    ensures var parts := Split(FormatDate(d), '-');
      |parts| == 3 && IsNumeral(parts[0]) && IsNumeral(parts[1]) && IsNumeral(parts[2])
      && DigitsValue(parts[0]) == d.year && DigitsValue(parts[1]) == d.month && DigitsValue(parts[2]) == d.day
  {
    var y, mm, dd := NatToString(d.year), TwoDigits(d.month), TwoDigits(d.day);
    NatToStringDigits(d.year);
    TwoDigitsValue(d.month);
    TwoDigitsValue(d.day);
    assert FormatDate(d) == y + ['-'] + (mm + ['-'] + dd);
    DigitsExclude(y, '-');
    DigitsExclude(mm, '-');
    DigitsExclude(dd, '-');
    SplitPrefix(y, '-', mm + ['-'] + dd);
    SplitPrefix(mm, '-', dd);
    SplitWhole(dd, '-');
  }

  /** Formatting then parsing gives the date back, for years from 100 on
      (earlier years are read as 1900 + year, see ParseReadsShortYearsAs1900s). */
  lemma ParseFormatRoundTrip(d: Date)
    requires Valid(d) && d.year >= 100
    ensures ParseDate(FormatDate(d)) == Ok(d)
  {
    FormatDateFields(d);
    LocalDateExact(d);
  }

  /** A year of one or two digits comes back 1900 years later: the
      two-digit-year rule of `new Date(year, month, day)`. */
  lemma ParseReadsShortYearsAs1900s(d: Date)
    requires Valid(d) && 0 <= d.year <= 99 && !(d.month == 2 && d.day == 29)
    ensures ParseDate(FormatDate(d)) == Ok(Date(d.year + 1900, d.month, d.day))
  {
    FormatDateFields(d);
    var later := Date(d.year + 1900, d.month, d.day);
    assert Valid(later) by {
      assert d.month != 2 ==> DaysInMonth(d.year + 1900, d.month) == DaysInMonth(d.year, d.month);
    }
    LocalDateShortYear(d.year, d.month, d.day);
  }

  lemma LocalDateShortYear(y: int, m: int, day: int)
    requires 0 <= y <= 99 && Valid(Date(y + 1900, m, day))
    ensures LocalDate(y, m - 1, day) == Date(y + 1900, m, day)
  {
    assert (m - 1) / 12 == 0 && (m - 1) % 12 + 1 == m;
    AddDaysWithinMonth(y + 1900, m, 1, day - 1);
  }

  /** The built-in parse of a date-only ISO string (`new Date("YYYY-MM-DD")`,
      midnight UTC), restricted to its `YYYY-MM-DD` form of an existing
      date; every other string is an Invalid Date here. */
  function ParseIsoDate(s: string): (r: Option<Date>)
    ensures r.Some? ==> Valid(r.value) && |s| == 10
  {
    if |s| == 10 && IsDigits(s[..4]) && s[4] == '-' && IsDigits(s[5..7]) && s[7] == '-' && IsDigits(s[8..]) then
      var y, m, d := DigitsValue(s[..4]), DigitsValue(s[5..7]), DigitsValue(s[8..]);
      if 1 <= m <= 12 && 1 <= d <= DaysInMonth(y, m) then Some(Date(y, m, d)) else None
    else None
  }

  /** A stored date: `YYYY-MM-DD` of an existing date in the years 1000..9999,
      exactly the strings FormatDate produces for those years. */
  predicate IsDateString(s: string)
  {
    ParseIsoDate(s).Some? && s[0] != '0'
  }

  /** The date a stored date string denotes. */
  function DateOf(s: string): (d: Date)
    requires IsDateString(s)
    ensures Valid(d) && 1000 <= d.year <= 9999
  {
    var d := ParseIsoDate(s).value;
    LeadingDigitLowerBound(s[..4]);
    DigitsValueBound(s[..4]);
    assert Pow10(3) == 1000 && Pow10(4) == 10000;
    d
  }

  /** Years 1000..9999 format as stored date strings denoting the same date. */
  lemma FormatIsDateString(d: Date)
    requires Valid(d) && 1000 <= d.year <= 9999
    ensures IsDateString(FormatDate(d)) && DateOf(FormatDate(d)) == d
  {
    var y, mm, dd := NatToString(d.year), TwoDigits(d.month), TwoDigits(d.day);
    NatToStringDigits(d.year);
    NatToStringWidth(d.year);
    TwoDigitsValue(d.month);
    TwoDigitsValue(d.day);
    var s := FormatDate(d);
    assert s == y + "-" + mm + "-" + dd;
    FormatFieldsAt(s, y, mm, dd);
    assert ParseIsoDate(s) == Some(d);
  }

  lemma FormatFieldsAt(s: string, y: string, mm: string, dd: string)
    requires |y| == 4 && |mm| == 2 && |dd| == 2 && s == y + "-" + mm + "-" + dd
    ensures |s| == 10 && s[..4] == y && s[4] == '-' && s[5..7] == mm && s[7] == '-' && s[8..] == dd
  {
  }

  /** Every stored date string is the formatted form of its date. */
  lemma DateStringFormat(s: string)
    requires IsDateString(s)
    ensures FormatDate(DateOf(s)) == s
  {
    var d := DateOf(s);
    NatToStringOfDigits(s[..4]);
    TwoDigitsOfDigits(s[5..7]);
    TwoDigitsOfDigits(s[8..]);
    assert s == s[..4] + "-" + s[5..7] + "-" + s[8..];
  }

  /** `parseDate` and the built-in ISO parse agree on stored date strings,
      and formatting the parsed date gives the string back. */
  lemma ParseDateOfDateString(s: string)
    requires IsDateString(s)
    ensures ParseDate(s) == Ok(DateOf(s)) && FormatDate(ParseDate(s).value) == s
  {
    DateStringFormat(s);
    ParseFormatRoundTrip(DateOf(s));
  }

  /** On stored date strings the code-unit order (`sort`, `localeCompare` on
      these characters) is chronological order. */
  lemma LexLessIsChronological(a: string, b: string)
    requires IsDateString(a) && IsDateString(b)
    ensures LexLess(a, b) <==> Ordinal(DateOf(a)) < Ordinal(DateOf(b))
  {
    var da, db := DateOf(a), DateOf(b);
    assert a == a[..4] + ([a[4]] + (a[5..7] + ([a[7]] + a[8..])));
    assert b == b[..4] + ([b[4]] + (b[5..7] + ([b[7]] + b[8..])));
    LexLessConcat(a[..4], [a[4]] + (a[5..7] + ([a[7]] + a[8..])), b[..4], [b[4]] + (b[5..7] + ([b[7]] + b[8..])));
    LexLessConcat([a[4]], a[5..7] + ([a[7]] + a[8..]), [b[4]], b[5..7] + ([b[7]] + b[8..]));
    LexLessConcat(a[5..7], [a[7]] + a[8..], b[5..7], [b[7]] + b[8..]);
    LexLessConcat([a[7]], a[8..], [b[7]], b[8..]);
    LexLessDigits(a[..4], b[..4]);
    LexLessDigits(a[5..7], b[5..7]);
    LexLessDigits(a[8..], b[8..]);
    if a[..4] == b[..4] { assert da.year == db.year; }
    if a[5..7] == b[5..7] { assert da.month == db.month; }
    if da.year == db.year && a[..4] != b[..4] {
      LexLessTotal(a[..4], b[..4]);
      LexLessDigits(a[..4], b[..4]);
      LexLessDigits(b[..4], a[..4]);
    }
    if da.month == db.month && a[5..7] != b[5..7] {
      LexLessTotal(a[5..7], b[5..7]);
      LexLessDigits(b[5..7], a[5..7]);
    }
    OrdinalOrderIff(da, db);
  }

  // ---------------------------------------------------------------------
  // getPastDays
  // ---------------------------------------------------------------------

  /** The last `n` dates up to and including `today`, oldest first. */
  function PastDates(today: Date, n: nat): (w: seq<Date>)
    requires Valid(today)
    ensures |w| == n && forall j :: 0 <= j < n ==> Valid(w[j])
  {
    seq(n, j requires 0 <= j < n => DaysBefore(today, n - 1 - j))
  }

  /** `formatDate` applied to each date, in order. */
  function FormatAll(ds: seq<Date>): (r: seq<string>)
    requires forall j :: 0 <= j < |ds| ==> Valid(ds[j])
    ensures |r| == |ds|
  {
    if |ds| == 0 then [] else FormatAll(ds[..|ds| - 1]) + [FormatDate(ds[|ds| - 1])]
  }

  lemma {:induction false} FormatAllAt(ds: seq<Date>, j: nat)
    requires forall k :: 0 <= k < |ds| ==> Valid(ds[k])
    requires j < |ds|
    ensures FormatAll(ds)[j] == FormatDate(ds[j])
  {
    if j < |ds| - 1 {
      FormatAllAt(ds[..|ds| - 1], j);
    }
  }

  /** Formatting one more date appends its string. */
  lemma FormatAllSnoc(ds: seq<Date>, k: nat)
    requires forall j :: 0 <= j < |ds| ==> Valid(ds[j])
    requires k < |ds|
    ensures FormatAll(ds[..k + 1]) == FormatAll(ds[..k]) + [FormatDate(ds[k])]
  {
    assert ds[..k + 1][..k] == ds[..k];
  }

  /** The strings `getPastDays(days)` returns: the window, formatted (empty
      when `days` is not positive). */
  function PastDays(today: Date, days: int): (r: seq<string>)
    requires Valid(today)
  {
    FormatAll(PastDates(today, if days > 0 then days else 0))
  }

  /** `getPastDays`: a counting loop from `days - 1` down to 0 that appends
      the date `i` days before today. (Starting at `n - 1` with `n` the
      positive part of `days` runs the same iterations.) */
  method GetPastDays(today: Date, days: int) returns (dates: seq<string>)
    requires Valid(today)
    ensures dates == PastDays(today, days)
  {
    dates := [];
    var n: nat := if days > 0 then days else 0;
    ghost var window := PastDates(today, n);
    var i: int := n - 1;
    while i >= 0
      invariant -1 <= i <= n - 1
      invariant dates == FormatAll(window[..n - 1 - i])
    {
      var date := DaysBefore(today, i);
      assert date == window[n - 1 - i];
      FormatAllSnoc(window, n - 1 - i);
      dates := dates + [FormatDate(date)];
      i := i - 1;
    }
    assert window[..n] == window;
  }

  /** The window ends today and steps one calendar day at a time. */
  lemma PastDatesConsecutive(today: Date, days: nat)
    requires Valid(today) && days > 0
    ensures PastDates(today, days)[days - 1] == today
    ensures forall j :: 0 <= j < days ==> PastDates(today, days)[j] == AddDays(today, j - (days - 1))
    ensures forall j :: 0 < j < days ==> PastDates(today, days)[j] == NextDay(PastDates(today, days)[j - 1])
  {
    var w := PastDates(today, days);
    forall j | 0 <= j < days
      ensures w[j] == AddDays(today, j - (days - 1))
    {
      DaysBeforeIsAddDays(today, days - 1 - j);
    }
    forall j | 0 < j < days
      ensures w[j] == NextDay(w[j - 1])
    {
      assert w[j] == DaysBefore(today, days - 1 - j);
      assert w[j - 1] == DaysBefore(today, days - j) == PrevDay(w[j]);
      PrevNextInverse(w[j]);
    }
  }

  /** With four-digit years throughout, the formatted window is strictly
      ascending as strings, hence free of repeats. */
  lemma PastDaysAscending(today: Date, days: nat)
    requires Valid(today) && days > 0
    requires today.year <= 9999 && PastDates(today, days)[0].year >= 1000
    ensures forall i, j :: 0 <= i < j < days ==> LexLess(PastDays(today, days)[i], PastDays(today, days)[j])
  {
    PastDatesOrdinal(today, days);
    forall i, j | 0 <= i < j < days
      ensures LexLess(PastDays(today, days)[i], PastDays(today, days)[j])
    {
      FormatAllAt(PastDates(today, days), i);
      FormatAllAt(PastDates(today, days), j);
      WindowAscending(today, PastDates(today, days), i, j);
    }
  }

  /** The window's dates are `n - 1`, …, 1, 0 days before today. */
  lemma PastDatesOrdinal(today: Date, n: nat)
    requires Valid(today)
    ensures forall k :: 0 <= k < n ==> Ordinal(PastDates(today, n)[k]) == Ordinal(today) - (n - 1 - k)
  {
    var w := PastDates(today, n);
    forall k | 0 <= k < n
      ensures Ordinal(w[k]) == Ordinal(today) - (n - 1 - k)
    {
      assert w[k] == DaysBefore(today, n - 1 - k);
      DaysBeforeOrdinal(today, n - 1 - k);
    }
  }

  lemma WindowAscending(today: Date, w: seq<Date>, i: nat, j: nat)
    requires Valid(today) && today.year <= 9999
    requires i < j < |w| && forall k :: 0 <= k < |w| ==> Valid(w[k]) && Ordinal(w[k]) == Ordinal(today) - (|w| - 1 - k)
    requires w[0].year >= 1000
    ensures LexLess(FormatDate(w[i]), FormatDate(w[j]))
  {
    YearBetween(w[0], w[i], today);
    YearBetween(w[0], w[j], today);
    FormatChronological(w[i], w[j]);
  }

  /** For years 1000..9999, an earlier date formats to a smaller string. */
  lemma FormatChronological(a: Date, b: Date)
    requires Valid(a) && Valid(b) && 1000 <= a.year <= 9999 && 1000 <= b.year <= 9999
    requires Ordinal(a) < Ordinal(b)
    ensures LexLess(FormatDate(a), FormatDate(b))
  {
    FormatIsDateString(a);
    FormatIsDateString(b);
    LexLessIsChronological(FormatDate(a), FormatDate(b));
  }

  /** A date between two others in time has a year between theirs. */
  lemma YearBetween(lo: Date, d: Date, hi: Date)
    requires Valid(lo) && Valid(d) && Valid(hi)
    requires Ordinal(lo) <= Ordinal(d) <= Ordinal(hi)
    ensures lo.year <= d.year <= hi.year
  {
    OrdinalOrderIff(lo, d);
    OrdinalOrderIff(d, hi);
  }

  // ---------------------------------------------------------------------
  // getDayOfWeek and formatDateShort
  // ---------------------------------------------------------------------

  /** The weekday labels, Sunday first. */
  const DayLabels: seq<string> := ["日", "月", "火", "水", "木", "金", "土"]

  /** `getDayOfWeek`: the label of the parsed date's weekday. */
  function GetDayOfWeek(s: string): (r: Result<string>)
    ensures r.Ok? ==> r.value in DayLabels
    ensures r.Ok? <==> ParseDate(s).Ok?
  {
    match ParseDate(s)
    case Err(e) => Err(e)
    case Ok(d) => Ok(DayLabels[Weekday(d)])
  }

  /** The label of a formatted date is that of its weekday, and the next
      day's label is the next one round the week. */
  lemma DayOfWeekAdvances(d: Date)
    requires Valid(d) && d.year >= 100
    ensures GetDayOfWeek(FormatDate(d)) == Ok(DayLabels[Weekday(d)])
    ensures GetDayOfWeek(FormatDate(NextDay(d))) == Ok(DayLabels[(Weekday(d) + 1) % 7])
  {
    ParseFormatRoundTrip(d);
    ParseFormatRoundTrip(NextDay(d));
    WeekdayNext(d);
  }

  /** `formatDateShort`: `M/D` of the parsed date, without zero padding. */
  function FormatDateShort(s: string): (r: Result<string>)
    ensures r.Ok? <==> ParseDate(s).Ok?
    ensures r.Ok? ==> var parts := Split(r.value, '/');
      |parts| == 2 && IsNumeral(parts[0]) && IsNumeral(parts[1])
      && (|parts[0]| > 1 ==> parts[0][0] != '0') && (|parts[1]| > 1 ==> parts[1][0] != '0')
      && DigitsValue(parts[0]) == ParseDate(s).value.month
      && DigitsValue(parts[1]) == ParseDate(s).value.day
  {
    match ParseDate(s)
    case Err(e) => Err(e)
    case Ok(d) =>
      var m, dd := NatToString(d.month), NatToString(d.day);
      NatToStringDigits(d.month);
      NatToStringDigits(d.day);
      DigitsExclude(m, '/');
      DigitsExclude(dd, '/');
      SplitPrefix(m, '/', dd);
      SplitWhole(dd, '/');
      Ok(m + "/" + dd)
  }

  /** On a stored date string the short form drops the zero padding of the
      month and the day. */
  lemma FormatDateShortOfDateString(s: string)
    requires IsDateString(s)
    ensures FormatDateShort(s) == Ok(NatToString(DigitsValue(s[5..7])) + "/" + NatToString(DigitsValue(s[8..])))
  {
    ParseDateOfDateString(s);
  }

  // ---------------------------------------------------------------------
  // calculateWeeklyRate
  // ---------------------------------------------------------------------

  /** `Math.round(c / t * 100)` for `t > 0`: the integer nearest to `100c/t`,
      halves rounded up. */
  function RoundPercent(c: int, t: int): (r: int)
    requires t > 0
    ensures 2 * t * r <= 200 * c + t < 2 * t * (r + 1)
  {
    DivBounds(200 * c + t, 2 * t);
    (200 * c + t) / (2 * t)
  }

  lemma DivBounds(a: int, b: int)
    requires b > 0
    ensures b * (a / b) <= a < b * (a / b + 1)
  {
  }

  /** A share of at most the whole rounds to a percentage in 0..100. */
  lemma RoundPercentBounds(c: int, t: int)
    requires t > 0
    ensures 0 <= c <= t ==> 0 <= RoundPercent(c, t) <= 100
  {
    var r := RoundPercent(c, t);
    if r < 0 && c >= 0 {
      MulNeg(2 * t, r);
    }
    if r > 100 && c <= t {
      assert 2 * t * r >= 2 * t * 101 by { MulMono(2 * t, 101, r); }
    }
  }

  lemma MulNeg(a: int, b: int)
    requires a > 0 && b < 0
    ensures a * b <= -a
  {
  }

  lemma MulMono(a: int, b: int, c: int)
    requires a >= 0 && b <= c
    ensures a * b <= a * c
  {
  }

  /** A larger share never rounds to a smaller percentage. */
  lemma RoundPercentMonotone(c1: int, c2: int, t: int)
    requires t > 0 && c1 <= c2
    ensures RoundPercent(c1, t) <= RoundPercent(c2, t)
  {
    var r1, r2 := RoundPercent(c1, t), RoundPercent(c2, t);
    if r1 > r2 {
      MulMono(2 * t, r2 + 1, r1);
    }
  }

  /** `calculateWeeklyRate(totalHabits, completedCount)`. */
  function CalculateWeeklyRate(totalHabits: int, completedCount: int): (r: int)
    ensures totalHabits == 0 ==> r == 0
    ensures totalHabits > 0 ==> 2 * totalHabits * r <= 200 * completedCount + totalHabits < 2 * totalHabits * (r + 1)
    ensures 0 <= completedCount <= totalHabits ==> 0 <= r <= 100
  {
    if totalHabits == 0 then 0
    else if totalHabits > 0 then
      RoundPercentBounds(completedCount, totalHabits);
      RoundPercent(completedCount, totalHabits)
    else RoundPercent(-completedCount, -totalHabits)
  }

  // ---------------------------------------------------------------------
  // calculateStreak
  // ---------------------------------------------------------------------

  /** The largest string under code-unit order: the first element after the
      descending sort of `calculateStreak`. */
  function LexMax(s: seq<string>): (m: string)
    requires |s| > 0
    ensures m in s && forall x :: x in s ==> LexLeq(x, m)
  {
    if |s| == 1 then s[0]
    else
      var m := LexMax(s[1..]);
      assert forall x :: x in s ==> x == s[0] || x in s[1..];
      if LexLess(m, s[0]) then
        assert forall x :: x in s[1..] ==> LexLeq(x, s[0]) by {
          forall x | x in s[1..] ensures LexLeq(x, s[0]) {
            if x != m { LexLessTransitive(x, m, s[0]); }
          }
        }
        s[0]
      else
        LexLeqTotal(s[0], m);
        m
  }

  lemma LexLeqTotal(a: string, b: string)
    ensures LexLeq(a, b) || LexLess(b, a)
  {
    if a != b { LexLessTotal(a, b); }
  }

  /** A string below some element is not the largest. */
  lemma BelowSomeIsNotMax(s: seq<string>, x: string, y: string)
    requires y in s && LexLess(x, y)
    ensures LexMax(s) != x
  {
    var m := LexMax(s);
    if m == x {
      assert LexLeq(y, m);
      if y != m { LexLessAsymmetric(y, m); }
      LexLessIrreflexive(x);
    }
  }

  /** Two strings that are each at least the other are equal. */
  lemma LexLeqAntisymmetric(a: string, b: string)
    requires LexLeq(a, b) && LexLeq(b, a)
    ensures a == b
  {
    if a != b { LexLessAsymmetric(a, b); }
  }

  /** The length of the run of consecutive days in `dates` that ends at `d`
      and goes back in time. */
  function RunBack(dates: set<string>, d: Date): nat
    requires Valid(d)
    decreases |dates|
  {
    var s := FormatDate(d);
    if s in dates then 1 + RunBack(dates - {s}, PrevDay(d)) else 0
  }

  /** Removing a later date does not change a run that ends earlier. */
  lemma {:induction false} RunBackRemoveLater(dates: set<string>, d: Date, later: Date)
    requires Valid(d) && Valid(later) && Ordinal(later) > Ordinal(d)
    ensures RunBack(dates - {FormatDate(later)}, d) == RunBack(dates, d)
    decreases |dates|
  {
    var s := FormatDate(d);
    if s == FormatDate(later) { FormatDateInjective(d, later); }
    PrevDayOrdinal(d);
    if s in dates {
      assert dates - {FormatDate(later)} - {s} == dates - {s} - {FormatDate(later)};
      RunBackRemoveLater(dates - {s}, PrevDay(d), later);
    }
  }

  /** A day that is present extends the run ending the day before by one. */
  lemma RunBackStep(dates: set<string>, d: Date)
    requires Valid(d) && FormatDate(d) in dates
    ensures RunBack(dates, d) == 1 + RunBack(dates, PrevDay(d))
  {
    PrevDayOrdinal(d);
    RunBackRemoveLater(dates, PrevDay(d), d);
  }

  /** A run is no longer than the number of dates. */
  lemma {:induction false} RunBackAtMostDates(dates: set<string>, d: Date)
    requires Valid(d)
    ensures RunBack(dates, d) <= |dates|
    decreases |dates|
  {
    var s := FormatDate(d);
    if s in dates {
      var rest := dates - {s};
      assert |rest| == |dates| - 1;
      RunBackAtMostDates(rest, PrevDay(d));
    }
  }

  /** What the run length means: the `k` days `d, d-1, …, d-(k-1)` are all
      present and `d-k` is not. */
  lemma RunBackMeaning(dates: set<string>, d: Date)
    requires Valid(d)
    ensures forall i :: 0 <= i < RunBack(dates, d) ==> FormatDate(DaysBefore(d, i)) in dates
    ensures FormatDate(DaysBefore(d, RunBack(dates, d))) !in dates
  {
    forall i | 0 <= i < RunBack(dates, d)
      ensures FormatDate(DaysBefore(d, i)) in dates
    {
      RunBackPresent(dates, d, i);
    }
    RunBackGap(dates, d);
  }

  /** Every day of the run is present. */
  lemma {:induction false} RunBackPresent(dates: set<string>, d: Date, i: nat)
    requires Valid(d) && i < RunBack(dates, d)
    ensures FormatDate(DaysBefore(d, i)) in dates
    decreases |dates|
  {
    var s := FormatDate(d);
    assert s in dates;
    if i > 0 {
      var rest := dates - {s};
      var p := PrevDay(d);
      assert RunBack(dates, d) == 1 + RunBack(rest, p);
      RunBackPresent(rest, p, i - 1);
      DaysBeforePrev(d, i - 1);
    }
  }

  /** The day just before the run is absent. */
  lemma {:induction false} RunBackGap(dates: set<string>, d: Date)
    requires Valid(d)
    ensures FormatDate(DaysBefore(d, RunBack(dates, d))) !in dates
    decreases |dates|
  {
    var s := FormatDate(d);
    if s in dates {
      var rest := dates - {s};
      var p := PrevDay(d);
      var k := 1 + RunBack(rest, p);
      assert RunBack(dates, d) == k;
      RunBackGap(rest, p);
      var gap := DaysBefore(d, k);
      DaysBeforePrev(d, k - 1);
      assert FormatDate(gap) !in rest;
      EarlierFormatsDiffer(d, k);
    } else {
      assert RunBack(dates, d) == 0 && DaysBefore(d, 0) == d;
    }
  }

  /** Counting back from the day before is counting back one more day. */
  lemma {:induction false} DaysBeforePrev(d: Date, i: nat)
    requires Valid(d)
    ensures DaysBefore(PrevDay(d), i) == DaysBefore(d, i + 1)
  {
    if i > 0 {
      DaysBeforePrev(d, i - 1);
    }
  }

  lemma EarlierFormatsDiffer(d: Date, k: nat)
    requires Valid(d) && k > 0
    ensures FormatDate(DaysBefore(d, k)) != FormatDate(d)
  {
    if FormatDate(DaysBefore(d, k)) == FormatDate(d) {
      FormatDateInjective(DaysBefore(d, k), d);
      DaysBeforeOrdinal(d, k);
    }
  }

  /** The run length is the only count with that meaning. */
  lemma RunBackUnique(dates: set<string>, d: Date, k: nat)
    requires Valid(d)
    requires forall i :: 0 <= i < k ==> FormatDate(DaysBefore(d, i)) in dates
    requires FormatDate(DaysBefore(d, k)) !in dates
    ensures RunBack(dates, d) == k
  {
    RunBackMeaning(dates, d);
  }

  /** The set of distinct strings in a list. */
  function Distinct(s: seq<string>): set<string> { set x | x in s }

  /** The day the current streak is counted back from: the parsed `today`
      when the latest completed date is the `today` string itself, yesterday
      when it is yesterday's formatted date, and none otherwise (an empty
      list included). */
  function StreakAnchor(completedDates: seq<string>, today: string): (a: Option<Date>)
    requires ParseDate(today).Ok?
    ensures a.Some? ==> a.value == ParseDate(today).value || a.value == PrevDay(ParseDate(today).value)
  {
    if |completedDates| == 0 then None
    else
      var todayDate := ParseDate(today).value;
      var yesterday := PrevDay(todayDate);
      var latest := LexMax(completedDates);
      if latest == today then Some(todayDate)
      else if latest == FormatDate(yesterday) then Some(yesterday)
      else None
  }

  /** The value `calculateStreak(completedDates, today)` returns. */
  function CurrentStreak(completedDates: seq<string>, today: string): nat
    requires ParseDate(today).Ok?
  {
    match StreakAnchor(completedDates, today)
    case None => 0
    case Some(anchor) => RunBack(Distinct(completedDates), anchor)
  }

  /** `calculateStreak`: sort descending, check that the latest date is
      today or yesterday, then walk back one day at a time while the date is
      in the set. */
  method CalculateStreak(completedDates: seq<string>, today: string) returns (streak: nat)
    requires ParseDate(today).Ok?
    ensures streak == CurrentStreak(completedDates, today)
  {
    if |completedDates| == 0 {
      return 0;
    }
    var latest := LexMax(completedDates);
    var todayDate := ParseDate(today).value;
    var yesterday := PrevDay(todayDate);
    var yesterdayStr := FormatDate(yesterday);
    if latest != today && latest != yesterdayStr {
      return 0;
    }
    streak := 0;
    var currentDate := if latest == today then todayDate else yesterday;
    ghost var anchor := currentDate;
    var dateSet := Distinct(completedDates);
    while FormatDate(currentDate) in dateSet
      invariant Valid(currentDate)
      invariant RunBack(dateSet, anchor) == streak + RunBack(dateSet, currentDate)
      decreases RunBack(dateSet, currentDate)
    {
      RunBackStep(dateSet, currentDate);
      streak := streak + 1;
      currentDate := PrevDay(currentDate);
    }
  }

  /** The anchor in terms of the set of dates: today when the `today`
      string is present and nothing is later, yesterday when yesterday is
      present, nothing is later and today does not qualify. */
  lemma StreakAnchorMeaning(completedDates: seq<string>, today: string)
    requires ParseDate(today).Ok?
    ensures var S := Distinct(completedDates); var td := ParseDate(today).value;
      var y := FormatDate(PrevDay(td));
      && (StreakAnchor(completedDates, today) == Some(td) <==>
            today in S && forall x :: x in S ==> LexLeq(x, today))
      && (StreakAnchor(completedDates, today) == Some(PrevDay(td)) <==>
            !(today in S && (forall x :: x in S ==> LexLeq(x, today))) && y in S && forall x :: x in S ==> LexLeq(x, y))
  {
    var S := Distinct(completedDates);
    var td := ParseDate(today).value;
    var y := FormatDate(PrevDay(td));
    PrevDayOrdinal(td);
    assert PrevDay(td) != td;
    if |completedDates| > 0 {
      var m := LexMax(completedDates);
      if today in S && forall x :: x in S ==> LexLeq(x, today) {
        LexLeqAntisymmetric(m, today);
      }
      if y in S && forall x :: x in S ==> LexLeq(x, y) {
        LexLeqAntisymmetric(m, y);
      }
    }
  }

  /** What the current streak means: `k > 0` exactly when there is an anchor
      (today or yesterday), and then the `k` days back from the anchor are
      all completed and the day before them is not; `k` never exceeds the
      number of distinct dates. `today` is written the way `formatDate`
      writes it, as `getToday` does; otherwise the raw string can match the
      latest date while its reformatting does not, and the streak is 0. */
  lemma CurrentStreakMeaning(completedDates: seq<string>, today: string)
    requires ParseDate(today).Ok? && FormatDate(ParseDate(today).value) == today
    ensures var k := CurrentStreak(completedDates, today); var S := Distinct(completedDates);
      && k <= |S|
      && (k > 0 <==> StreakAnchor(completedDates, today).Some?)
      && (StreakAnchor(completedDates, today).Some? ==>
            var anchor := StreakAnchor(completedDates, today).value;
            (forall i :: 0 <= i < k ==> FormatDate(DaysBefore(anchor, i)) in S)
            && FormatDate(DaysBefore(anchor, k)) !in S)
  {
    var S := Distinct(completedDates);
    match StreakAnchor(completedDates, today)
    case None =>
    case Some(anchor) =>
      RunBackMeaning(S, anchor);
      RunBackAtMostDates(S, anchor);
      var m := LexMax(completedDates);
      assert m in S && FormatDate(anchor) == m;
      assert RunBack(S, anchor) > 0;
  }

  /** The streak depends only on the set of dates: not on their order, not
      on repeats. */
  lemma CurrentStreakIgnoresOrder(a: seq<string>, b: seq<string>, today: string)
    requires ParseDate(today).Ok? && Distinct(a) == Distinct(b)
    ensures CurrentStreak(a, today) == CurrentStreak(b, today)
  {
    if |a| > 0 {
      assert a[0] in Distinct(b);
      var ma, mb := LexMax(a), LexMax(b);
      assert ma in Distinct(b) && mb in Distinct(a);
      LexLeqAntisymmetric(ma, mb);
      assert |b| > 0;
      assert StreakAnchor(a, today) == StreakAnchor(b, today);
    }
  }

  /** A stored date after today makes the latest date neither today nor
      yesterday, so the streak is 0. */
  lemma CurrentStreakFutureDate(completedDates: seq<string>, today: string, future: string)
    requires IsDateString(today) && DateOf(today).year >= 1001
    requires future in completedDates && IsDateString(future)
    requires Ordinal(DateOf(future)) > Ordinal(DateOf(today))
    ensures ParseDate(today).Ok? && CurrentStreak(completedDates, today) == 0
  {
    ParseDateOfDateString(today);
    var td := DateOf(today);
    var yesterday := PrevDay(td);
    var f := DateOf(future);
    assert yesterday.year == td.year || yesterday.year == td.year - 1;
    PrevDayOrdinal(td);
    DateStringFormat(future);
    FormatChronological(td, f);
    FormatChronological(yesterday, f);
    BelowSomeIsNotMax(completedDates, today, future);
    BelowSomeIsNotMax(completedDates, FormatDate(yesterday), future);
    assert StreakAnchor(completedDates, today) == None;
  }
}
