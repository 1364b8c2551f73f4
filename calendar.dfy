/** Proleptic Gregorian calendar arithmetic: the calendar the JavaScript
    `Date` object uses for local dates, without its clock, time of day or
    time zone. A date is a year, a month 1..12 and a day of that month;
    every count of days is done through the ordinal, the number of days
    since 0001-01-01. */
module Calendar {

  datatype Date = Date(year: int, month: int, day: int)

  predicate IsLeapYear(y: int) { y % 4 == 0 && (y % 100 != 0 || y % 400 == 0) }

  function DaysInMonth(y: int, m: int): (n: int)
    requires 1 <= m <= 12
    ensures 28 <= n <= 31
  {
    if m == 2 then (if IsLeapYear(y) then 29 else 28)
    else if m == 4 || m == 6 || m == 9 || m == 11 then 30
    else 31
  }

  /** A calendar date that exists. */
  predicate Valid(d: Date)
  {
    1 <= d.month <= 12 && 1 <= d.day <= DaysInMonth(d.year, d.month)
  }

  function DaysInYear(y: int): int { if IsLeapYear(y) then 366 else 365 }

  /** Days in the months of year `y` before month `m`. */
  function DaysBeforeMonth(y: int, m: int): int
    requires 1 <= m <= 13
    decreases m
  {
    if m == 1 then 0 else DaysBeforeMonth(y, m - 1) + DaysInMonth(y, m - 1)
  }

  /** Days from 0001-01-01 to January 1 of year `y` (negative before year 1). */
  function DaysBeforeYear(y: int): int
  {
    var z := y - 1;
    365 * z + z / 4 - z / 100 + z / 400
  }

  /** Days since 0001-01-01 (a Monday). */
  function Ordinal(d: Date): int
    requires Valid(d)
  {
    DaysBeforeYear(d.year) + DaysBeforeMonth(d.year, d.month) + d.day - 1
  }

  lemma DaysBeforeMonthWholeYear(y: int)
    ensures DaysBeforeMonth(y, 13) == DaysInYear(y)
  {
  }

  lemma DaysBeforeNextYear(y: int)
    ensures DaysBeforeYear(y + 1) == DaysBeforeYear(y) + DaysInYear(y)
  {
    DivStep(y - 1, 4);
    DivStep(y - 1, 100);
    DivStep(y - 1, 400);
    DivisorChain(y);
  }

  /** Multiples of 400 are multiples of 100, which are multiples of 4. */
  lemma DivisorChain(y: int)
    ensures y % 400 == 0 ==> y % 100 == 0
    ensures y % 100 == 0 ==> y % 4 == 0
  {
    if y % 400 == 0 {
      DivUnique(y, 100, 4 * (y / 400), 0);
    }
    if y % 100 == 0 {
      DivUnique(y, 4, 25 * (y / 100), 0);
    }
  }

  /** Stepping `z` by one bumps `z / k` exactly when `k` divides `z + 1`. */
  lemma DivStep(z: int, k: int)
    requires k > 0
    ensures (z + 1) / k == z / k + (if (z + 1) % k == 0 then 1 else 0)
  {
    var q, r := z / k, z % k;
    if r + 1 < k {
      DivUnique(z + 1, k, q, r + 1);
    } else {
      DivUnique(z + 1, k, q + 1, 0);
    }
  }

  /** Euclidean division has one quotient and one remainder. */
  lemma DivUnique(a: int, k: int, q: int, r: int)
    requires k > 0 && 0 <= r < k && a == q * k + r
    ensures a / k == q && a % k == r
  {
    var q', r' := a / k, a % k;
    assert (q - q') * k == r' - r;
    if q > q' {
      MulLowerBound(q - q', k);
    } else if q < q' {
      MulLowerBound(q' - q, k);
    }
  }

  lemma MulLowerBound(a: int, k: int)
    requires a >= 1 && k > 0
    ensures a * k >= k
  {
  }

  /** The months before `m1`, plus month `m1` itself, fit before `m2`. */
  lemma {:induction false} DaysBeforeMonthMonotone(y: int, m1: int, m2: int)
    requires 1 <= m1 < m2 <= 13
    ensures DaysBeforeMonth(y, m1) + DaysInMonth(y, m1) <= DaysBeforeMonth(y, m2)
    decreases m2
  {
    if m2 > m1 + 1 {
      DaysBeforeMonthMonotone(y, m1, m2 - 1);
    }
  }

  /** Year `a` ends no later than year `b` begins. */
  lemma {:induction false} DaysBeforeYearMonotone(a: int, b: int)
    requires a < b
    ensures DaysBeforeYear(a) + DaysInYear(a) <= DaysBeforeYear(b)
    decreases b - a
  {
    DaysBeforeNextYear(a);
    if a + 1 < b {
      DaysBeforeYearMonotone(a + 1, b);
    }
  }

  /** A date's ordinal lies within its year. */
  lemma OrdinalWithinYear(d: Date)
    requires Valid(d)
    ensures DaysBeforeYear(d.year) <= Ordinal(d) < DaysBeforeYear(d.year) + DaysInYear(d.year)
  {
    DaysBeforeMonthMonotone(d.year, d.month, 13);
    DaysBeforeMonthWholeYear(d.year);
  }

  /** Calendar order: by year, then month, then day. */
  predicate Before(a: Date, b: Date)
  {
    a.year < b.year
    || (a.year == b.year && a.month < b.month)
    || (a.year == b.year && a.month == b.month && a.day < b.day)
  }

  /** The ordinal follows calendar order. */
  lemma OrdinalOrder(a: Date, b: Date)
    requires Valid(a) && Valid(b) && Before(a, b)
    ensures Ordinal(a) < Ordinal(b)
  {
    if a.year < b.year {
      OrdinalWithinYear(a);
      OrdinalWithinYear(b);
      DaysBeforeYearMonotone(a.year, b.year);
    } else if a.month < b.month {
      DaysBeforeMonthMonotone(a.year, a.month, b.month);
    }
  }

  /** Calendar order and ordinal order are the same order. */
  lemma OrdinalOrderIff(a: Date, b: Date)
    requires Valid(a) && Valid(b)
    ensures Before(a, b) <==> Ordinal(a) < Ordinal(b)
    ensures a == b <==> Ordinal(a) == Ordinal(b)
  {
    if Before(a, b) { OrdinalOrder(a, b); }
    if Before(b, a) { OrdinalOrder(b, a); }
  }

  /** Distinct dates have distinct ordinals. */
  lemma OrdinalInjective(a: Date, b: Date)
    requires Valid(a) && Valid(b) && Ordinal(a) == Ordinal(b)
    ensures a == b
  {
    OrdinalOrderIff(a, b);
  }

  /** The day after `d`, rolling over month and year ends. */
  function NextDay(d: Date): (r: Date)
    requires Valid(d)
    ensures Valid(r)
  {
    if d.day < DaysInMonth(d.year, d.month) then Date(d.year, d.month, d.day + 1)
    else if d.month < 12 then Date(d.year, d.month + 1, 1)
    else Date(d.year + 1, 1, 1)
  }

  /** The day after is one day later. */
  lemma NextDayOrdinal(d: Date)
    requires Valid(d)
    ensures Ordinal(NextDay(d)) == Ordinal(d) + 1
  {
    var y, m := d.year, d.month;
    if d.day < DaysInMonth(y, m) {
      assert NextDay(d) == Date(y, m, d.day + 1);
    } else if m < 12 {
      assert NextDay(d) == Date(y, m + 1, 1);
      MonthStartOrdinal(y, m + 1);
    } else {
      assert NextDay(d) == Date(y + 1, 1, 1);
      YearStartOrdinal(y + 1);
    }
  }

  /** The day before `d`: what `setDate(getDate() - 1)` does to a date. */
  function PrevDay(d: Date): (r: Date)
    requires Valid(d)
    ensures Valid(r)
  {
    if d.day > 1 then Date(d.year, d.month, d.day - 1)
    else if d.month > 1 then Date(d.year, d.month - 1, DaysInMonth(d.year, d.month - 1))
    else Date(d.year - 1, 12, 31)
  }

  /** The day before is one day earlier. */
  lemma PrevDayOrdinal(d: Date)
    requires Valid(d)
    ensures Ordinal(PrevDay(d)) == Ordinal(d) - 1
  {
    var y, m := d.year, d.month;
    if d.day > 1 {
      assert PrevDay(d) == Date(y, m, d.day - 1);
    } else if m > 1 {
      assert PrevDay(d) == Date(y, m - 1, DaysInMonth(y, m - 1));
      MonthStartOrdinal(y, m);
    } else {
      assert PrevDay(d) == Date(y - 1, 12, 31);
      YearStartOrdinal(y);
    }
  }

  /** The first of a month follows the last day of the month before. */
  lemma MonthStartOrdinal(y: int, m: int)
    requires 1 < m <= 12
    ensures Ordinal(Date(y, m, 1)) == Ordinal(Date(y, m - 1, DaysInMonth(y, m - 1))) + 1
  {
    assert DaysBeforeMonth(y, m) == DaysBeforeMonth(y, m - 1) + DaysInMonth(y, m - 1);
  }

  /** January 1 follows December 31 of the year before. */
  lemma YearStartOrdinal(y: int)
    ensures Ordinal(Date(y, 1, 1)) == Ordinal(Date(y - 1, 12, 31)) + 1
  {
    DaysBeforeMonthWholeYear(y - 1);
    assert DaysBeforeMonth(y - 1, 13) == DaysBeforeMonth(y - 1, 12) + 31;
    DaysBeforeNextYear(y - 1);
  }

  lemma PrevNextInverse(d: Date)
    requires Valid(d)
    ensures PrevDay(NextDay(d)) == d && NextDay(PrevDay(d)) == d
  {
    NextDayOrdinal(d);
    PrevDayOrdinal(NextDay(d));
    PrevDayOrdinal(d);
    NextDayOrdinal(PrevDay(d));
    OrdinalInjective(PrevDay(NextDay(d)), d);
    OrdinalInjective(NextDay(PrevDay(d)), d);
  }

  /** The date `n` days before `d` (`setDate(getDate() - n)`). */
  function DaysBefore(d: Date, n: nat): (r: Date)
    requires Valid(d)
    ensures Valid(r)
  {
    if n == 0 then d else PrevDay(DaysBefore(d, n - 1))
  }

  /** Counting back `n` days moves the ordinal back by `n`. */
  lemma {:induction false} DaysBeforeOrdinal(d: Date, n: nat)
    requires Valid(d)
    ensures Ordinal(DaysBefore(d, n)) == Ordinal(d) - n
  {
    if n > 0 {
      DaysBeforeOrdinal(d, n - 1);
      PrevDayOrdinal(DaysBefore(d, n - 1));
    }
  }

  /** The date `k` days after `d`, `k` of either sign: how `Date` normalises
      a day of the month outside 1..days-in-month. */
  function AddDays(d: Date, k: int): (r: Date)
    requires Valid(d)
    ensures Valid(r)
    decreases if k >= 0 then k else -k
  {
    if k == 0 then d
    else if k > 0 then AddDays(NextDay(d), k - 1)
    else AddDays(PrevDay(d), k + 1)
  }

  /** Adding `k` days moves the ordinal by `k`. */
  lemma {:induction false} AddDaysOrdinal(d: Date, k: int)
    requires Valid(d)
    ensures Ordinal(AddDays(d, k)) == Ordinal(d) + k
    decreases if k >= 0 then k else -k
  {
    if k > 0 {
      assert AddDays(d, k) == AddDays(NextDay(d), k - 1);
      NextDayOrdinal(d);
      AddDaysOrdinal(NextDay(d), k - 1);
    } else if k < 0 {
      assert AddDays(d, k) == AddDays(PrevDay(d), k + 1);
      PrevDayOrdinal(d);
      AddDaysOrdinal(PrevDay(d), k + 1);
    }
  }

  /** Counting back and adding a negative count agree. */
  lemma DaysBeforeIsAddDays(d: Date, n: nat)
    requires Valid(d)
    ensures DaysBefore(d, n) == AddDays(d, -(n as int))
  {
    DaysBeforeOrdinal(d, n);
    AddDaysOrdinal(d, -(n as int));
    OrdinalInjective(DaysBefore(d, n), AddDays(d, -(n as int)));
  }

  /** Within a month, adding days moves only the day of the month. */
  lemma AddDaysWithinMonth(y: int, m: int, day: int, k: nat)
    requires 1 <= m <= 12 && 1 <= day && day + k <= DaysInMonth(y, m)
    ensures AddDays(Date(y, m, day), k) == Date(y, m, day + k)
  {
    AddDaysOrdinal(Date(y, m, day), k);
    OrdinalInjective(AddDays(Date(y, m, day), k), Date(y, m, day + k));
  }

  /** Day of the week, Sunday = 0 (`Date.prototype.getDay`). */
  function Weekday(d: Date): (w: nat)
    requires Valid(d)
    ensures w < 7
  {
    (Ordinal(d) + 1) % 7
  }

  /** Consecutive dates advance the weekday cyclically. */
  lemma WeekdayNext(d: Date)
    requires Valid(d)
    ensures Weekday(NextDay(d)) == (Weekday(d) + 1) % 7
  {
    NextDayOrdinal(d);
    ModShift(Ordinal(d) + 1, 1);
  }

  /** Two dates `k` days apart are `k mod 7` weekdays apart. */
  lemma WeekdayAddDays(d: Date, k: int)
    requires Valid(d)
    ensures Weekday(AddDays(d, k)) == (Weekday(d) + k) % 7
  {
    AddDaysOrdinal(d, k);
    ModShift(Ordinal(d) + 1, k);
  }

  /** Adding `k` commutes with reducing modulo 7. */
  lemma ModShift(a: int, k: int)
    ensures (a + k) % 7 == (a % 7 + k) % 7
  {
    var q := a / 7;
    assert a + k == (a % 7 + k) + 7 * q;
    DivUnique(a % 7 + k, 7, (a % 7 + k) / 7, (a % 7 + k) % 7);
    DivUnique(a + k, 7, (a % 7 + k) / 7 + q, (a % 7 + k) % 7);
  }

  /** The anchor of the weekday count: 1970-01-01 was a Thursday and
      2024-01-01 a Monday. */
  lemma WeekdayReference()
    ensures Valid(Date(1970, 1, 1)) && Weekday(Date(1970, 1, 1)) == 4
    ensures Valid(Date(2024, 1, 1)) && Weekday(Date(2024, 1, 1)) == 1
  {
  }
}
