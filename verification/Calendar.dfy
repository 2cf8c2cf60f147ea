/** The proleptic Gregorian calendar. A date is a number of days; day 0 is 0001-01-01, a Monday. */
module Calendar {

  type Date = int

  /** Days since Monday: 0 for Monday, 6 for Sunday. */
  function Weekday(date: Date): (w: int)
    ensures 0 <= w < 7
  {
    date % 7
  }

  /** The Monday of the ISO week that contains `date`. */
  function WeekMonday(date: Date): (monday: Date)
    ensures Weekday(monday) == 0 && monday <= date <= monday + 6
  {
    date - Weekday(date)
  }

  /** Two dates lie in one ISO week exactly when they share its Monday. */
  lemma SameWeek(a: Date, b: Date)
    ensures WeekMonday(a) == WeekMonday(b) <==> WeekMonday(a) <= b <= WeekMonday(a) + 6
  {
  }

  /** The number of days from `from` to `to`, both included. */
  function DayCount(from: Date, to: Date): nat {
    if to < from then 0 else to - from + 1
  }

  // ---------------------------------------------------------------------
  // Years and months
  // ---------------------------------------------------------------------

  predicate IsLeap(year: int) {
    year % 4 == 0 && (year % 100 != 0 || year % 400 == 0)
  }

  /** January 1 of a year. */
  function YearStart(year: int): Date {
    365 * (year - 1) + (year - 1) / 4 - (year - 1) / 100 + (year - 1) / 400
  }

  lemma NextYearStart(year: int)
    ensures YearStart(year + 1) == YearStart(year) + if IsLeap(year) then 366 else 365
  {
    QuotientStep(year, 4);
    QuotientStep(year, 100);
    QuotientStep(year, 400);
    CenturiesAreFourths(year);
  }

  lemma CenturiesAreFourths(year: int)
    ensures year % 100 == 0 ==> year % 4 == 0
    ensures year % 400 == 0 ==> year % 100 == 0
  {
    HundredsAreFourths(year / 100);
    HundredsAreFourths(year / 400);
  }

  lemma HundredsAreFourths(k: int)
    ensures (100 * k) % 4 == 0 && (400 * k) % 100 == 0
  {
    assert 100 * k == 4 * (25 * k) && 400 * k == 100 * (4 * k);
  }

  lemma QuotientStep(year: int, n: int)
    requires n == 4 || n == 100 || n == 400
    ensures year / n == (year - 1) / n + if year % n == 0 then 1 else 0
  {
  }

  lemma {:induction false} YearStartsAscend(a: int, b: int)
    requires a < b
    ensures YearStart(a) + 365 * (b - a) <= YearStart(b)
    decreases b - a
  {
    NextYearStart(b - 1);
    if a < b - 1 {
      YearStartsAscend(a, b - 1);
    }
  }

  function Distance(date: Date, year: int): nat {
    if date < YearStart(year) then YearStart(year) - date
    else if date >= YearStart(year + 1) then date - YearStart(year + 1) + 1
    else 0
  }

  function SearchYear(date: Date, year: int): (found: int)
    ensures YearStart(found) <= date < YearStart(found + 1)
    decreases Distance(date, year)
  {
    NextYearStart(year - 1);
    NextYearStart(year + 1);
    if date < YearStart(year) then SearchYear(date, year - 1)
    else if date >= YearStart(year + 1) then SearchYear(date, year + 1)
    else year
  }

  /** The year a date lies in. */
  function YearOf(date: Date): (year: int)
    ensures YearStart(year) <= date < YearStart(year + 1)
  {
    SearchYear(date, date / 365 + 1)
  }

  lemma YearIsUnique(date: Date, year: int)
    requires YearStart(year) <= date < YearStart(year + 1)
    ensures YearOf(date) == year
  {
    var found := YearOf(date);
    if found < year && found + 1 < year {
      YearStartsAscend(found + 1, year);
    }
    if year < found && year + 1 < found {
      YearStartsAscend(year + 1, found);
    }
  }

  function DaysInMonth(year: int, month: int): (days: int)
    requires 1 <= month <= 12
    ensures 28 <= days <= 31
  {
    if month == 2 then (if IsLeap(year) then 29 else 28)
    else if month == 4 || month == 6 || month == 9 || month == 11 then 30
    else 31
  }

  /** Days of the year before the first of a month; month 13 stands for the next January. */
  function DaysBefore(year: int, month: int): int
    requires 1 <= month <= 13
  {
    if month == 1 then 0 else DaysBefore(year, month - 1) + DaysInMonth(year, month - 1)
  }

  lemma DaysOfYear(year: int)
    ensures DaysBefore(year, 13) == if IsLeap(year) then 366 else 365
  {
    var feb := DaysInMonth(year, 2);
    assert DaysBefore(year, 2) == 31 && DaysBefore(year, 3) == 31 + feb;
    assert DaysBefore(year, 4) == 62 + feb && DaysBefore(year, 5) == 92 + feb;
    assert DaysBefore(year, 6) == 123 + feb && DaysBefore(year, 7) == 153 + feb;
    assert DaysBefore(year, 8) == 184 + feb && DaysBefore(year, 9) == 215 + feb;
    assert DaysBefore(year, 10) == 245 + feb && DaysBefore(year, 11) == 276 + feb;
    assert DaysBefore(year, 12) == 306 + feb && DaysBefore(year, 13) == 337 + feb;
  }

  function MonthStart(year: int, month: int): Date
    requires 1 <= month <= 13
  {
    YearStart(year) + DaysBefore(year, month)
  }

  /** The last `month`, at most `month`, that has begun by the given day of the year. */
  function SearchMonth(year: int, dayOfYear: int, month: int): (found: int)
    requires 1 <= month <= 12 && 0 <= dayOfYear < DaysBefore(year, month + 1)
    ensures 1 <= found <= 12 && DaysBefore(year, found) <= dayOfYear < DaysBefore(year, found + 1)
  {
    if DaysBefore(year, month) <= dayOfYear then month else SearchMonth(year, dayOfYear, month - 1)
  }

  function MonthOf(date: Date): (month: int)
    ensures 1 <= month <= 12
    ensures MonthStart(YearOf(date), month) <= date < MonthStart(YearOf(date), month + 1)
  {
    NextYearStart(YearOf(date));
    DaysOfYear(YearOf(date));
    SearchMonth(YearOf(date), date - YearStart(YearOf(date)), 12)
  }

  function DayOf(date: Date): (day: int)
    ensures 1 <= day <= 31
  {
    date - MonthStart(YearOf(date), MonthOf(date)) + 1
  }

  lemma DayOfNewYear(year: int)
    ensures MonthStart(year, 13) == YearStart(year + 1) == MonthStart(year + 1, 1)
  {
    NextYearStart(year);
    DaysOfYear(year);
  }

  lemma MonthIsUnique(date: Date, year: int, month: int)
    requires 1 <= month <= 12 && YearOf(date) == year
    requires MonthStart(year, month) <= date < MonthStart(year, month + 1)
    ensures MonthOf(date) == month
  {
    var found := MonthOf(date);
    if found < month {
      MonthStartsAscend(year, found + 1, month);
    } else if month < found {
      MonthStartsAscend(year, month + 1, found);
    }
  }

  lemma WithinYear(year: int, month: int, date: Date)
    requires 1 <= month <= 12
    requires MonthStart(year, month) <= date < MonthStart(year, month + 1)
    ensures YearOf(date) == year
  {
    DayOfNewYear(year);
    MonthStartsAscend(year, month + 1, 13);
    MonthStartsAscend(year, 1, month);
    YearIsUnique(date, year);
  }

  /** A date determines and is determined by its year, month and day. */
  lemma CivilDate(year: int, month: int, day: int)
    requires 1 <= month <= 12 && 1 <= day <= DaysInMonth(year, month)
    ensures
      var date := MonthStart(year, month) + day - 1;
      YearOf(date) == year && MonthOf(date) == month && DayOf(date) == day
  {
    var date := MonthStart(year, month) + day - 1;
    WithinYear(year, month, date);
    MonthIsUnique(date, year, month);
  }

  lemma {:induction false} MonthStartsAscend(year: int, a: int, b: int)
    requires 1 <= a <= b <= 13
    ensures MonthStart(year, a) + 28 * (b - a) <= MonthStart(year, b)
    decreases b - a
  {
    if a < b {
      MonthStartsAscend(year, a, b - 1);
    }
  }


  // ---------------------------------------------------------------------
  // Known dates
  // ---------------------------------------------------------------------

  lemma MonthLengths(year: int)
    ensures forall m | m in [1, 3, 5, 7, 8, 10, 12] :: DaysInMonth(year, m) == 31
    ensures forall m | m in [4, 6, 9, 11] :: DaysInMonth(year, m) == 30
    ensures DaysInMonth(year, 2) == if year % 4 == 0 && (year % 100 != 0 || year % 400 == 0) then 29 else 28
  {
  }

  /** 2026-05-11 is a Monday, and weekdays repeat every seven days. */
  lemma KnownMonday(d: Date)
    ensures Weekday(MonthStart(2026, 5) + 10) == 0
    ensures Weekday(d + 1) == if Weekday(d) == 6 then 0 else Weekday(d) + 1
  {
    assert YearStart(2026) == 739616;
    assert DaysBefore(2026, 2) == 31 && DaysBefore(2026, 3) == 59 && DaysBefore(2026, 4) == 90;
    assert MonthStart(2026, 5) == 739736;
  }
}
