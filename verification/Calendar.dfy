/** Dates of the proleptic Gregorian calendar, instants, and calendar-month addition
    (sepko/licenses.py, sepko/schedules.py). */
module Calendar {
  import opened Wrappers
  import Rounding

  datatype Date = Date(year: int, month: int, day: int)

  predicate Leap(y: int) { y % 4 == 0 && (y % 100 != 0 || y % 400 == 0) }

  /** calendar.monthrange(y, m)[1] */
  function DaysIn(y: int, m: int): (n: int)
    ensures 28 <= n <= 31
  {
    if m == 2 then (if Leap(y) then 29 else 28)
    else if m == 4 || m == 6 || m == 9 || m == 11 then 30
    else 31
  }

  const MAX_YEAR := 9999

  predicate Valid(d: Date) {
    1 <= d.year <= MAX_YEAR && 1 <= d.month <= 12 && 1 <= d.day <= DaysIn(d.year, d.month)
  }

  predicate Before(a: Date, b: Date) {
    a.year < b.year
    || (a.year == b.year && (a.month < b.month || (a.month == b.month && a.day < b.day)))
  }

  predicate NotAfter(a: Date, b: Date) { a == b || Before(a, b) }

  // ---------- counting days ----------

  function DaysBeforeYear(y: int): int {
    365 * (y - 1) + (y - 1) / 4 - (y - 1) / 100 + (y - 1) / 400
  }

  function DaysBeforeMonth(y: int, m: int): (n: int)
    requires 1 <= m <= 13
    ensures n >= 0
  {
    if m == 1 then 0 else DaysBeforeMonth(y, m - 1) + DaysIn(y, m - 1)
  }

  /** date.toordinal() */
  function Ordinal(d: Date): int
    requires Valid(d)
  {
    DaysBeforeYear(d.year) + DaysBeforeMonth(d.year, d.month) + d.day
  }

  lemma YearDays(y: int)
    ensures DaysBeforeMonth(y, 13) == if Leap(y) then 366 else 365
  {
    assert DaysBeforeMonth(y, 2) == 31;
    assert DaysBeforeMonth(y, 4) == DaysBeforeMonth(y, 2) + DaysIn(y, 2) + 31;
    assert DaysBeforeMonth(y, 6) == DaysBeforeMonth(y, 4) + 61;
    assert DaysBeforeMonth(y, 8) == DaysBeforeMonth(y, 6) + 61;
    assert DaysBeforeMonth(y, 10) == DaysBeforeMonth(y, 8) + 61;
    assert DaysBeforeMonth(y, 12) == DaysBeforeMonth(y, 10) + 61;
  }

  lemma Quotient(y: int, k: int)
    requires k > 1
    ensures y / k == (y - 1) / k + if y % k == 0 then 1 else 0
  {
    var q, r := y / k, y % k;
    assert y == q * k + r;
    if r == 0 {
      assert y - 1 == (q - 1) * k + (k - 1);
      Rounding.DivIs(y - 1, k, q - 1);
    } else {
      Rounding.DivIs(y - 1, k, q);
    }
  }

  lemma YearLength(y: int)
    ensures DaysBeforeYear(y + 1) == DaysBeforeYear(y) + DaysBeforeMonth(y, 13)
  {
    YearDays(y);
    Quotient(y, 4);
    Quotient(y, 100);
    Quotient(y, 400);
    assert y % 4 == 0 <== y % 100 == 0;
    assert y % 100 == 0 <== y % 400 == 0;
  }

  lemma {:induction false} MonthsMonotone(y: int, m: int, n: int)
    requires 1 <= m < n <= 13
    ensures DaysBeforeMonth(y, m) + DaysIn(y, m) <= DaysBeforeMonth(y, n)
  {
    if m + 1 < n { MonthsMonotone(y, m, n - 1); }
  }

  lemma {:induction false} YearsMonotone(y: int, z: int)
    requires y < z
    ensures DaysBeforeYear(y) + DaysBeforeMonth(y, 13) <= DaysBeforeYear(z)
    decreases z - y
  {
    YearLength(y);
    if y + 1 < z { YearsMonotone(y + 1, z); }
  }

  lemma OrdinalGrows(a: Date, b: Date)
    requires Valid(a) && Valid(b) && Before(a, b)
    ensures Ordinal(a) < Ordinal(b)
  {
    if a.year < b.year {
      YearsMonotone(a.year, b.year);
      if a.month < 13 { MonthsMonotone(a.year, a.month, 13); }
    } else if a.month < b.month {
      MonthsMonotone(a.year, a.month, b.month);
    }
  }

  /** Day counts order dates as the calendar does. */
  lemma OrdinalOrders(a: Date, b: Date)
    requires Valid(a) && Valid(b)
    ensures Before(a, b) <==> Ordinal(a) < Ordinal(b)
  {
    if Before(a, b) { OrdinalGrows(a, b); }
    else if Before(b, a) { OrdinalGrows(b, a); }
    else { assert a == b; }
  }

  /** (until - today).days */
  function DaysLeft(until: Date, today: Date): int
    requires Valid(until) && Valid(today)
  {
    Ordinal(until) - Ordinal(today)
  }

  function NextDay(d: Date): Date {
    if d.day < DaysIn(d.year, d.month) then Date(d.year, d.month, d.day + 1)
    else if d.month < 12 then Date(d.year, d.month + 1, 1)
    else Date(d.year + 1, 1, 1)
  }

  /** Each day has the number after the day before. */
  lemma OrdinalCounts(d: Date)
    requires Valid(d) && Valid(NextDay(d))
    ensures Ordinal(NextDay(d)) == Ordinal(d) + 1
  {
    YearLength(d.year);
    assert DaysBeforeMonth(d.year, d.month + 1) == DaysBeforeMonth(d.year, d.month) + DaysIn(d.year, d.month);
  }

  // ---------- instants ----------

  datatype Stamp = Stamp(date: Date, second: nat)

  predicate StampBefore(a: Stamp, b: Stamp) {
    Before(a.date, b.date) || (a.date == b.date && a.second < b.second)
  }

  /** A time-zone aware datetime: the instant in UTC, which comparisons use, and the calendar
      fields of its own zone, which .year, .month and .date() read. */
  datatype DateTime = DateTime(utc: Stamp, wall: Stamp)

  /** t.year; a real datetime's year is never negative. */
  function YearOf(t: DateTime): nat { if t.wall.date.year < 0 then 0 else t.wall.date.year }

  predicate IsUtc(t: DateTime) { t.utc == t.wall }

  function Midnight(d: Date): Stamp { Stamp(d, 0) }

  /** start <= t < end */
  predicate Within(t: DateTime, start: Stamp, end: Stamp) {
    !StampBefore(t.utc, start) && StampBefore(t.utc, end)
  }

  /** The windows queried by next_ord_num, _month_bounds and _day_bounds. */
  predicate InYear(t: DateTime, y: int) {
    Within(t, Midnight(Date(y, 1, 1)), Midnight(Date(y + 1, 1, 1)))
  }

  predicate InMonth(t: DateTime, y: int, m: int) {
    Within(t, Midnight(Date(y, m, 1)),
           Midnight(if m == 12 then Date(y + 1, 1, 1) else Date(y, m + 1, 1)))
  }

  /** _day_bounds: in December the end is the first of January, whatever the day. */
  function DayEnd(d: Date): Date {
    if d.month == 12 then Date(d.year + 1, 1, 1) else NextDay(d)
  }

  predicate InDay(t: DateTime, d: Date) { Within(t, Midnight(d), Midnight(DayEnd(d))) }

  lemma YearWindow(t: DateTime, y: int)
    requires Valid(t.utc.date)
    ensures InYear(t, y) <==> t.utc.date.year == y
  {
  }

  lemma MonthWindow(t: DateTime, y: int, m: int)
    requires Valid(t.utc.date) && 1 <= m <= 12
    ensures InMonth(t, y, m) <==> t.utc.date.year == y && t.utc.date.month == m
  {
  }

  /** Outside December the day window is the day; in December it is the rest of the month. */
  lemma DayWindow(t: DateTime, d: Date)
    requires Valid(t.utc.date) && Valid(d)
    ensures d.month != 12 ==> (InDay(t, d) <==> t.utc.date == d)
    ensures d.month == 12 ==>
      (InDay(t, d) <==> t.utc.date.year == d.year && t.utc.date.month == 12 && t.utc.date.day >= d.day)
  {
  }

  // ---------- adding months ----------

  /** add_months: negative counts and years past 9999 raise. */
  function AddMonths(start: Date, months: int): Result<Date> {
    if months < 0 then Err("months must be >= 0")
    else
      var month0 := start.month - 1 + months;
      var year := start.year + month0 / 12;
      var month := month0 % 12 + 1;
      var last := DaysIn(year, month);
      if year > MAX_YEAR then Err("year is out of range")
      else Ok(Date(year, month, if start.day < last then start.day else last))
  }

  /** Months counted from year 0, so that calendar months become consecutive integers. */
  function MonthIndex(d: Date): int { 12 * d.year + d.month - 1 }

  lemma MonthIndexOrders(a: Date, b: Date)
    requires Valid(a) && Valid(b)
    ensures MonthIndex(a) < MonthIndex(b) ==> Before(a, b)
    ensures MonthIndex(a) == MonthIndex(b) ==> a.year == b.year && a.month == b.month
  {
  }

  /** The result lies exactly `months` calendar months on, on the same day where that month has
      it and on its last day otherwise. */
  lemma AddMonthsLands(start: Date, months: int)
    requires Valid(start) && AddMonths(start, months).Ok?
    ensures var r := AddMonths(start, months).value;
      && Valid(r)
      && MonthIndex(r) == MonthIndex(start) + months
      && r.day <= start.day
      && (r.day == start.day || r.day == DaysIn(r.year, r.month))
  {
  }

  /** Error cases, exactly. */
  lemma AddMonthsFails(start: Date, months: int)
    requires Valid(start)
    ensures AddMonths(start, months).Err?
       <==> months < 0 || MonthIndex(start) + months >= 12 * (MAX_YEAR + 1)
  {
  }

  lemma AddMonthsMonotone(s: Date, t: Date, n: int)
    requires Valid(s) && Valid(t) && NotAfter(s, t)
    requires AddMonths(s, n).Ok? && AddMonths(t, n).Ok?
    ensures NotAfter(AddMonths(s, n).value, AddMonths(t, n).value)
  {
    AddMonthsLands(s, n);
    AddMonthsLands(t, n);
    MonthIndexOrders(AddMonths(s, n).value, AddMonths(t, n).value);
  }

  lemma AddMonthsStrict(s: Date, m: int, n: int)
    requires Valid(s) && m < n
    requires AddMonths(s, m).Ok? && AddMonths(s, n).Ok?
    ensures Before(AddMonths(s, m).value, AddMonths(s, n).value)
  {
    AddMonthsLands(s, m);
    AddMonthsLands(s, n);
    MonthIndexOrders(AddMonths(s, m).value, AddMonths(s, n).value);
  }

  lemma AddNoMonths(s: Date)
    requires Valid(s)
    ensures AddMonths(s, 0) == Ok(s)
  {
  }

  /** Adding a + b months in two steps stays in the same month, is never later than one step and
      at most three days earlier; both agree exactly when the intermediate month is long enough. */
  lemma AddMonthsSplit(s: Date, a: int, b: int)
    requires Valid(s) && a >= 0 && b >= 0 && AddMonths(s, a + b).Ok?
    ensures AddMonths(s, a).Ok? && AddMonths(AddMonths(s, a).value, b).Ok?
    ensures var mid := AddMonths(s, a).value;
      var two, one := AddMonths(mid, b).value, AddMonths(s, a + b).value;
      && two.year == one.year && two.month == one.month
      && two.day <= one.day <= two.day + 3
      && (two == one <==> s.day <= DaysIn(mid.year, mid.month) || one.day <= DaysIn(mid.year, mid.month))
      && (s.day <= 28 ==> two == one)
  {
    AddMonthsFails(s, a);
    AddMonthsFails(s, a + b);
    AddMonthsLands(s, a);
    var mid := AddMonths(s, a).value;
    AddMonthsFails(mid, b);
    AddMonthsLands(mid, b);
    AddMonthsLands(s, a + b);
    MonthIndexOrders(AddMonths(mid, b).value, AddMonths(s, a + b).value);
  }
}
