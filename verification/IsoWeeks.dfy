/** The calendar week number shown beside each week. */
module IsoWeeks {
  import opened Calendar

  // ---------------------------------------------------------------------
  // What the script computes
  // ---------------------------------------------------------------------

  /** `Date.UTC` takes the years 0 to 99 for 1900 to 1999. */
  function UtcYear(year: int): int {
    if 0 <= year <= 99 then year + 1900 else year
  }

  function UtcDay(year: int, month: int, day: int): Date
    requires 1 <= month <= 12
  {
    MonthStart(UtcYear(year), month) + day - 1
  }

  /** `Math.round` of the quotient of two whole numbers: the nearest, and upwards from a half. */
  function RoundedQuotient(a: int, b: int): int
    requires b > 0
  {
    (2 * a + b) / (2 * b)
  }

  method IsoWeek(d: Date) returns (week: int)
    ensures week == ShownWeek(d)
  {
    hide YearOf, MonthOf, DayOf, UtcDay, RoundedQuotient, Weekday;
    var utcDate := UtcDay(YearOf(d), MonthOf(d), DayOf(d));
    var dayNumber := Weekday(utcDate);
    utcDate := utcDate - dayNumber + 3;
    var firstThursday := UtcDay(YearOf(utcDate), 1, 4);
    week := 1 + RoundedQuotient(utcDate - firstThursday - 3 + Weekday(firstThursday), 7);
  }

  function ThursdayOf(d: Date): (t: Date)
    ensures Weekday(t) == 3 && WeekMonday(t) == WeekMonday(d)
  {
    WeekMonday(d) + 3
  }

  function ShownWeek(d: Date): int {
    var thursday := ThursdayOf(UtcDay(YearOf(d), MonthOf(d), DayOf(d)));
    ShownFor(thursday, UtcDay(YearOf(thursday), 1, 4))
  }

  function ShownFor(thursday: Date, january4: Date): int {
    1 + RoundedQuotient(thursday - january4 - 3 + Weekday(january4), 7)
  }

  // ---------------------------------------------------------------------
  // Section 2.2.10 of ISO 8601:2004
  // ---------------------------------------------------------------------

  /** The number of Thursdays from `from` to `to`. */
  function Thursdays(from: Date, to: Date): nat
    decreases DayCount(from, to)
  {
    if to < from then 0 else Thursdays(from, to - 1) + if Weekday(to) == 3 then 1 else 0
  }

  /** A week belongs to the year of its Thursday, and the weeks of a year are counted from the one
      with its first Thursday. */
  function WeekNumber(d: Date): nat {
    Thursdays(YearStart(YearOf(ThursdayOf(d))), ThursdayOf(d))
  }

  lemma {:induction false} ThursdaysClosedForm(from: Date, to: Date)
    requires from <= to + 1
    ensures Thursdays(from, to) == (to + 4) / 7 - (from + 3) / 7
    decreases DayCount(from, to)
  {
    if from <= to {
      ThursdaysClosedForm(from, to - 1);
      SeventhStep(to);
    }
  }

  lemma SeventhStep(d: Date)
    ensures (d + 4) / 7 == (d + 3) / 7 + if Weekday(d) == 3 then 1 else 0
  {
  }

  lemma MondayOfWeek(d: Date)
    ensures WeekMonday(d) == 7 * (d / 7)
  {
  }

  lemma RoundedMultiple(k: int)
    ensures RoundedQuotient(7 * k, 7) == k
  {
  }

  /** The division is exact, so the rounding never acts. */
  lemma RoundingNeverActs(thursday: Date, january4: Date)
    requires Weekday(thursday) == 3
    ensures thursday - january4 - 3 + Weekday(january4) == 7 * (thursday / 7 - january4 / 7)
    ensures RoundedQuotient(thursday - january4 - 3 + Weekday(january4), 7) == thursday / 7 - january4 / 7
  {
    MondayOfWeek(thursday);
    MondayOfWeek(january4);
    RoundedMultiple(thursday / 7 - january4 / 7);
  }

  /** January 4 lies in the week of the year's first Thursday. */
  lemma WeeksFromJanuary4(yearStart: Date, thursday: Date)
    requires Weekday(thursday) == 3 && yearStart <= thursday
    ensures Thursdays(yearStart, thursday) == 1 + thursday / 7 - (yearStart + 3) / 7
  {
    ThursdaysClosedForm(yearStart, thursday);
    assert (thursday + 4) / 7 == thursday / 7 + 1;
  }

  lemma UtcDayOfDate(d: Date)
    requires YearOf(d) < 0 || YearOf(d) > 99
    ensures UtcDay(YearOf(d), MonthOf(d), DayOf(d)) == d
  {
  }

  lemma January4(year: int)
    ensures UtcDay(year, 1, 4) == YearStart(UtcYear(year)) + 3
  {
  }

  /** Both count from the week of a January 4: they agree when it is the same one, and the number
      shown is too small when the script takes one 1900 years later. */
  lemma CompareCounts(thursday: Date, year: int)
    requires Weekday(thursday) == 3 && YearStart(year) <= thursday
    ensures year < 0 || year > 99 ==>
      ShownFor(thursday, UtcDay(year, 1, 4)) == Thursdays(YearStart(year), thursday)
    ensures 0 <= year <= 99 ==>
      ShownFor(thursday, UtcDay(year, 1, 4)) < Thursdays(YearStart(year), thursday)
  {
    January4(year);
    RoundingNeverActs(thursday, UtcDay(year, 1, 4));
    WeeksFromJanuary4(YearStart(year), thursday);
    if 0 <= year <= 99 {
      YearStartsAscend(year, year + 1900);
      LaterWeek(YearStart(year) + 3, YearStart(year + 1900) + 3);
    }
  }

  lemma LaterWeek(a: Date, b: Date)
    requires a + 7 <= b
    ensures a / 7 < b / 7
  {
  }

  /** The years 0 to 99 are counted as if they were 1900 years later. */
  predicate Shifted(year: int) {
    0 <= year <= 99
  }

  /** When the number shown is the calendar week number: outside the years 0 to 99 when the year of the
      week's Thursday lies outside them too. Inside them the day is looked up 1900 years later, one weekday
      on, which falls into the wrong week unless the year of the Thursday begins so that this evens out. In
      the year 0, which unlike 1900 has a leap day, January and February move by two weekdays. */
  predicate ShownRight(d: Date) {
    var thursday := ThursdayOf(d);
    var year := YearOf(thursday);
    if !Shifted(YearOf(d)) then !Shifted(year)
    else if YearOf(d) == 0 then Weekday(d) != 6 && (MonthOf(d) > 2 || Weekday(d) != 5)
    else if Weekday(d) == 6 then Weekday(YearStart(year)) == 3 && thursday + 6 < YearStart(year + 1)
    else Weekday(YearStart(year)) != 3
  }

  /** For every date the number shown is the calendar week number exactly then. */
  lemma ShownWeekIsTheWeekNumber(d: Date)
    ensures ShownWeek(d) == WeekNumber(d) <==> ShownRight(d)
  {
    if !Shifted(YearOf(d)) {
      UtcDayOfDate(d);
      CompareCounts(ThursdayOf(d), YearOf(ThursdayOf(d)));
    } else if YearOf(d) == 0 {
      YearZero(d);
    } else {
      EarlyYear(d);
    }
  }

  const SHIFT := 693960

  lemma ShiftedStart(year: int)
    requires 1 <= year <= 100
    ensures YearStart(year + 1900) == YearStart(year) + SHIFT
  {
  }

  lemma {:induction false} SameMonths(a: int, b: int, month: int)
    requires IsLeap(a) == IsLeap(b) && 1 <= month <= 13
    ensures DaysBefore(a, month) == DaysBefore(b, month)
    decreases month
  {
    if month > 1 {
      SameMonths(a, b, month - 1);
    }
  }

  lemma ShiftedDay(d: Date)
    requires 1 <= YearOf(d) <= 99
    ensures UtcDay(YearOf(d), MonthOf(d), DayOf(d)) == d + SHIFT
  {
    var year := YearOf(d);
    ShiftedStart(year);
    SameLeap(year);
    SameMonths(year, year + 1900, MonthOf(d));
  }

  lemma SameLeap(year: int)
    requires 1 <= year <= 99
    ensures IsLeap(year) == IsLeap(year + 1900)
  {
  }

  /** The number shown counts from the January 4 of the year in which the day is looked up. */
  lemma ShownLater(d: Date, e: Date, year: int)
    requires e == UtcDay(YearOf(d), MonthOf(d), DayOf(d)) && year > 99
    requires YearStart(year) <= ThursdayOf(e) < YearStart(year + 1)
    ensures ShownWeek(d) == 1 + ThursdayOf(e) / 7 - (YearStart(year) + 3) / 7
  {
    YearIsUnique(ThursdayOf(e), year);
    CompareCounts(ThursdayOf(e), year);
    WeeksFromJanuary4(YearStart(year), ThursdayOf(e));
  }

  lemma CountedFrom(d: Date)
    ensures WeekNumber(d) == 1 + ThursdayOf(d) / 7 - (YearStart(YearOf(ThursdayOf(d))) + 3) / 7
  {
    WeeksFromJanuary4(YearStart(YearOf(ThursdayOf(d))), ThursdayOf(d));
  }

  /** One weekday later a Sunday belongs to the next week. */
  lemma NextWeekday(d: Date)
    ensures ThursdayOf(d + SHIFT) == (if Weekday(d) == 6 then ThursdayOf(d) + 6 else ThursdayOf(d) - 1) + SHIFT
  {
  }

  lemma EarlyYearOf(t: Date)
    requires YearStart(1) <= t < YearStart(100) + 7
    ensures 1 <= YearOf(t) <= 100
  {
    StartsAround100();
    YearStarts(YearOf(t));
  }

  lemma YearStarts(year: int)
    ensures year < 1 ==> YearStart(year + 1) <= YearStart(1)
    ensures year > 100 ==> YearStart(101) <= YearStart(year)
  {
    if year + 1 < 1 {
      YearStartsAscend(year + 1, 1);
    }
    if 101 < year {
      YearStartsAscend(101, year);
    }
  }

  lemma EarlyYear(d: Date)
    requires 1 <= YearOf(d) <= 99
    ensures ShownWeek(d) == WeekNumber(d) <==> ShownRight(d)
  {
    hide YearStart, YearOf, MonthOf, DayOf, UtcDay, WeekNumber, ShownWeek, ThursdayOf, Weekday;
    var t := ThursdayOf(d);
    var v := if Weekday(d) == 6 then t + 6 else t - 1;
    ShiftedDay(d);
    NextWeekday(d);
    DayOfEarlyYear(d);
    EarlyYearOf(t);
    EarlyYearOf(v);
    CountedFrom(d);
    LaterYear(v);
    ShownLater(d, d + SHIFT, YearOf(v) + 1900);
    ShiftedStart(YearOf(v));
    NeighbouringYears(t, v);
    CompareEarly(t, v, YearStart(YearOf(t)), YearStart(YearOf(t) + 1), YearStart(YearOf(v)));
  }

  lemma DayOfEarlyYear(d: Date)
    requires 1 <= YearOf(d) <= 99
    ensures YearStart(1) <= d < YearStart(100) && YearStart(1) == 0
    ensures ThursdayOf(d) - 1 >= 0 && ThursdayOf(d) <= d + 3 && (Weekday(d) == 6 ==> ThursdayOf(d) == d - 3)
  {
    hide ThursdayOf, Weekday, YearOf;
    FirstYearStart();
    hide YearStart;
    if YearOf(d) > 1 {
      YearStartsAscend(1, YearOf(d));
    }
    if YearOf(d) < 99 {
      YearStartsAscend(YearOf(d) + 1, 100);
    }
    ThursdayNear(d);
  }

  lemma FirstYearStart()
    ensures YearStart(1) == 0
  {
  }

  lemma ThursdayNear(d: Date)
    ensures d - 3 <= ThursdayOf(d) <= d + 3 && (Weekday(d) == 6 ==> ThursdayOf(d) == d - 3)
    ensures d >= 0 ==> ThursdayOf(d) >= 3
  {
  }

  lemma LaterYear(v: Date)
    requires 1 <= YearOf(v) <= 100 && v < YearStart(100) + 7
    ensures YearStart(YearOf(v) + 1900) <= v + SHIFT < YearStart(YearOf(v) + 1901)
  {
    ShiftedStart(YearOf(v));
    if YearOf(v) <= 99 {
      ShiftedStart(YearOf(v) + 1);
    } else {
      YearStartsAscend(2000, 2001);
    }
  }

  /** The looked-up Thursday lies in the year of the real one or across its near edge. */
  lemma NeighbouringYears(t: Date, v: Date)
    requires v == t + 6 || v == t - 1
    ensures v == t - 1 ==>
      YearStart(YearOf(v)) == YearStart(YearOf(t)) || (t == YearStart(YearOf(t)) && YearStart(YearOf(v)) + 365 <= t)
    ensures v == t + 6 ==>
      if v < YearStart(YearOf(t) + 1) then YearStart(YearOf(v)) == YearStart(YearOf(t))
      else YearStart(YearOf(v)) == YearStart(YearOf(t) + 1)
    ensures YearStart(YearOf(t)) + 365 <= YearStart(YearOf(t) + 1)
  {
    var year := YearOf(t);
    YearStartsAscend(year, year + 1);
    if v == t - 1 && v < YearStart(year) {
      YearStartsAscend(year - 1, year);
      YearIsUnique(v, year - 1);
    } else if v >= YearStart(year + 1) {
      YearStartsAscend(year + 1, year + 2);
      YearIsUnique(v, year + 1);
    } else {
      YearIsUnique(v, year);
    }
  }

  lemma CompareEarly(t: Date, v: Date, start: Date, next: Date, vStart: Date)
    requires Weekday(t) == 3 && start <= t < next && start + 365 <= next
    requires v == t + 6 || v == t - 1
    requires v == t - 1 ==> vStart == start || (t == start && vStart + 365 <= t)
    requires v == t + 6 ==> vStart == if v < next then start else next
    ensures 1 + (v + SHIFT) / 7 - (vStart + SHIFT + 3) / 7 == 1 + t / 7 - (start + 3) / 7 <==>
      if v == t + 6 then Weekday(start) == 3 && v < next else Weekday(start) != 3
  {
    assert SHIFT == 7 * 99137 + 1;
    assert (v + SHIFT) / 7 == (v + 1) / 7 + 99137;
    assert (vStart + SHIFT + 3) / 7 == (vStart + 4) / 7 + 99137;
  }

  lemma YearZero(d: Date)
    requires YearOf(d) == 0
    ensures ShownWeek(d) == WeekNumber(d) <==> ShownRight(d)
  {
    hide YearOf, MonthOf, DayOf, UtcDay, WeekNumber, ShownWeek, ThursdayOf, Weekday;
    YearZeroDay(d);
    StartsAroundZero();
    hide YearStart;
    var e := d + SHIFT + if MonthOf(d) > 2 then 0 else 1;
    var t, u := ThursdayOf(d), ThursdayOf(e);
    CompareZero(d, e, MonthOf(d) > 2);
    CountedFrom(d);
    YearIsUnique(t, if t < YearStart(0) then -1 else 0);
    ShownLater(d, e, if u < YearStart(1901) then 1900 else 1901);
  }

  lemma StartsAroundZero()
    ensures YearStart(-1) == -731 && YearStart(0) == -366 && YearStart(1) == 0
    ensures YearStart(1900) == 693595 && YearStart(1901) == 693960 && YearStart(1902) == 694325
  {
  }

  lemma YearZeroDay(d: Date)
    requires YearOf(d) == 0
    ensures UtcDay(0, MonthOf(d), DayOf(d)) == d + SHIFT + if MonthOf(d) > 2 then 0 else 1
    ensures if MonthOf(d) > 2 then -306 <= d < 0 else -366 <= d < -306
  {
    StartsAroundZero();
    var month := MonthOf(d);
    MonthsOfZero(month);
    MonthStartsAscend(0, 1, month);
    MonthStartsAscend(0, month + 1, 13);
    if month > 2 {
      MonthStartsAscend(0, 3, month);
    } else {
      MonthStartsAscend(0, month + 1, 3);
    }
    DayOfNewYear(0);
  }

  lemma {:induction false} MonthsOfZero(month: int)
    requires 1 <= month <= 13
    ensures DaysBefore(0, month) == DaysBefore(1900, month) + if month > 2 then 1 else 0
    ensures DaysBefore(0, 3) == 60
    decreases month
  {
    if month > 1 {
      MonthsOfZero(month - 1);
    } else {
      assert DaysBefore(0, 2) == 31;
    }
  }

  lemma CompareZero(d: Date, e: Date, late: bool)
    requires if late then -306 <= d < 0 && e == d + SHIFT else -366 <= d < -306 && e == d + SHIFT + 1
    ensures
      var t, u := ThursdayOf(d), ThursdayOf(e);
      var shown := 1 + u / 7 - ((if u < 693960 then 693595 else 693960) + 3) / 7;
      var number := 1 + t / 7 - ((if t < -366 then -731 else -366) + 3) / 7;
      && 693595 <= u < 694325 && -731 <= t < 0
      && (shown == number <==> Weekday(d) != 6 && (late || Weekday(d) != 5))
  {
    var steps := if late then 1 else 2;
    ThursdayMoves(d, 99137, steps);
    assert e == d + 7 * 99137 + steps;
    WeekBounds(d, if late then -306 else -366, if late then -1 else -307);
    hide ThursdayOf;
  }

  lemma ThursdayMoves(d: Date, weeks: int, steps: nat)
    requires steps <= 2
    ensures ThursdayOf(d) == 7 * (d / 7) + 3
    ensures ThursdayOf(d + 7 * weeks + steps) == 7 * (d / 7 + weeks + if Weekday(d) + steps >= 7 then 1 else 0) + 3
  {
    MondayOfWeek(d);
    MondayOfWeek(d + 7 * weeks + steps);
    QuotientMoves(d, weeks, steps);
  }

  lemma QuotientMoves(d: int, weeks: int, steps: nat)
    requires steps <= 2
    ensures (d + 7 * weeks + steps) / 7 == d / 7 + weeks + if d % 7 + steps >= 7 then 1 else 0
  {
    assert d + 7 * weeks + steps == 7 * (d / 7 + weeks) + (d % 7 + steps);
  }

  lemma WeekBounds(d: int, low: int, high: int)
    requires low <= d <= high
    ensures low / 7 <= d / 7 <= high / 7 && d == 7 * (d / 7) + d % 7
  {
  }

  /** The first of January of the year 100 is such a date. */
  lemma NewYear100IsShownWrong(d: Date)
    requires d == YearStart(100)
    ensures YearOf(d) == 100 && ShownWeek(d) != WeekNumber(d)
  {
    NewYear100(d);
    ShownWeekIsTheWeekNumber(d);
  }

  lemma NewYear100(d: Date)
    requires d == YearStart(100)
    ensures YearOf(d) == 100 && YearOf(ThursdayOf(d)) == 99
  {
    StartsAround100();
    YearIsUnique(d, 100);
    YearIsUnique(d - 1, 99);
    FridayIsAfterThursday(d);
  }

  lemma StartsAround100()
    ensures YearStart(99) == 35794 && YearStart(100) == 36159 && YearStart(101) == 36524
  {
  }

  lemma FridayIsAfterThursday(d: Date)
    requires d == 36159
    ensures ThursdayOf(d) == d - 1
  {
  }

  // ---------------------------------------------------------------------
  // How the number runs through the calendar
  // ---------------------------------------------------------------------

  /** All days of a week share one number. */
  lemma OneNumberPerWeek(d: Date, e: Date)
    requires WeekMonday(d) == WeekMonday(e)
    ensures WeekNumber(d) == WeekNumber(e)
  {
  }

  /** The number is 1 to 53. */
  lemma WeekNumberRange(d: Date)
    ensures 1 <= WeekNumber(d) <= 53
  {
    var thursday := ThursdayOf(d);
    var start := YearStart(YearOf(thursday));
    NextYearStart(YearOf(thursday));
    WeeksFromJanuary4(start, thursday);
    FewWeeks(start, thursday);
  }

  lemma FewWeeks(start: Date, thursday: Date)
    requires Weekday(thursday) == 3 && start <= thursday < start + 366
    ensures (start + 3) / 7 <= thursday / 7 <= (start + 3) / 7 + 52
  {
  }

  lemma NextThursday(d: Date)
    ensures ThursdayOf(d + 7) == ThursdayOf(d) + 7
  {
  }

  /** From one week to the next the number rises by one, or starts again at 1 exactly when the year of
      the Thursday changes. */
  lemma WeekNumberSteps(d: Date)
    ensures
      var year, next := YearOf(ThursdayOf(d)), YearOf(ThursdayOf(d + 7));
      if next == year then WeekNumber(d + 7) == WeekNumber(d) + 1
      else next == year + 1 && WeekNumber(d + 7) == 1 && WeekNumber(d) >= 52
  {
    NextThursday(d);
    YearOfNextThursday(ThursdayOf(d));
    CountsOfNextThursday(ThursdayOf(d), YearOf(ThursdayOf(d)));
  }

  lemma YearOfNextThursday(t: Date)
    ensures YearOf(t + 7) == if t + 7 < YearStart(YearOf(t) + 1) then YearOf(t) else YearOf(t) + 1
  {
    var year := YearOf(t);
    if t + 7 < YearStart(year + 1) {
      YearIsUnique(t + 7, year);
    } else {
      YearStartsAscend(year + 1, year + 2);
      YearIsUnique(t + 7, year + 1);
    }
  }

  lemma CountsOfNextThursday(t: Date, year: int)
    requires Weekday(t) == 3 && YearStart(year) <= t < YearStart(year + 1)
    ensures Thursdays(YearStart(year), t + 7) == Thursdays(YearStart(year), t) + 1
    ensures t + 7 >= YearStart(year + 1) ==>
      Thursdays(YearStart(year + 1), t + 7) == 1 && Thursdays(YearStart(year), t) >= 52
  {
    YearStartsAscend(year, year + 1);
    CountsBetween(YearStart(year), YearStart(year + 1), t);
  }

  lemma CountsBetween(start: Date, next: Date, t: Date)
    requires Weekday(t) == 3 && start <= t < next && start + 365 <= next
    ensures Thursdays(start, t + 7) == Thursdays(start, t) + 1
    ensures t + 7 >= next ==> Thursdays(next, t + 7) == 1 && Thursdays(start, t) >= 52
  {
    WeeksFromJanuary4(start, t);
    WeeksFromJanuary4(start, t + 7);
    if t + 7 >= next {
      WeeksFromJanuary4(next, t + 7);
      FirstAndLastWeek(start, next, t);
    }
  }

  lemma FirstAndLastWeek(start: Date, next: Date, t: Date)
    requires Weekday(t) == 3 && start + 365 <= next && t < next <= t + 7
    ensures (t + 7) / 7 == (next + 3) / 7
    ensures t / 7 - (start + 3) / 7 >= 51
  {
  }
}
