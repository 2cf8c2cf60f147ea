/** The minutes of work a day asks for, and what an absence takes away from them. */
module Targets {
  import opened Calendar
  import opened Numbers
  import opened WorkSchedules
  import opened Leave

  function ScheduledDayMinutes(history: WorkScheduleHistory, date: Date, contractStart: Date,
                               excused: bool, weeklyHours: real): int {
    if date < contractStart || excused then 0
    else
      var schedule := history.On(date);
      if schedule.Covers(date) then schedule.DayMinutes(weeklyHours) else 0
  }

  /** The minutes asked for from `from` to `to` when public holidays and the days of `off` are excused. */
  function SpanTarget(a: Account, off: seq<Range>, hours: WeeklyHoursHistory, from: Date, to: Date): int
    decreases DayCount(from, to)
  {
    if to < from then 0
    else
      SpanTarget(a, off, hours, from, to - 1)
      + ScheduledDayMinutes(a.history, to, a.contractStart, to in a.holidays || Booked(off, to), hours.On(to))
  }

  method SpanTargetMinutes(a: Account, off: seq<Range>, hours: WeeklyHoursHistory, from: Date, to: Date)
      returns (total: int)
    ensures total == SpanTarget(a, off, hours, from, to)
  {
    total := 0;
    var date := from;
    while date <= to
      invariant from <= date
      invariant date <= to + 1 || date == from
      invariant total == SpanTarget(a, off, hours, from, date - 1)
    {
      var excused := date in a.holidays || Booked(off, date);
      total := total + ScheduledDayMinutes(a.history, date, a.contractStart, excused, hours.On(date));
      date := date + 1;
    }
  }

  /** What a working day is worth under the contract in force on it. */
  function DayValue(a: Account, hours: WeeklyHoursHistory, date: Date): int {
    a.history.On(date).DayMinutes(hours.On(date))
  }

  function TotalValue(a: Account, hours: WeeklyHoursHistory, days: seq<Date>): int {
    if days == [] then 0
    else TotalValue(a, hours, days[..|days| - 1]) + DayValue(a, hours, days[|days| - 1])
  }

  /** The eligible days a weekly quota left uncharged. */
  function Refused(a: Account, from: Date, to: Date): seq<Date>
    decreases DayCount(from, to)
  {
    if to < from then []
    else
      var before := Refused(a, from, to - 1);
      if Eligible(a, to) && !Charges(a, Charged(a, from, to - 1), to) then before + [to] else before
  }

  lemma TotalValueAppend(a: Account, hours: WeeklyHoursHistory, days: seq<Date>, d: Date)
    ensures TotalValue(a, hours, days + [d]) == TotalValue(a, hours, days) + DayValue(a, hours, d)
  {
    assert (days + [d])[..|days|] == days;
  }

  /** What one day loses to the absences. */
  lemma DayLoss(a: Account, hours: WeeklyHoursHistory, d: Date)
    ensures
      var full := ScheduledDayMinutes(a.history, d, a.contractStart, d in a.holidays || Booked([], d), hours.On(d));
      var left := ScheduledDayMinutes(a.history, d, a.contractStart, d in a.holidays || Booked(a.ranges, d), hours.On(d));
      full - left == if d >= a.contractStart && Eligible(a, d) then DayValue(a, hours, d) else 0
  {
  }

  lemma EligibleDayIsChargedOrRefused(a: Account, hours: WeeklyHoursHistory, first: Date, d: Date)
    requires first <= d
    ensures TotalValue(a, hours, Charged(a, first, d)) + TotalValue(a, hours, Refused(a, first, d))
         == TotalValue(a, hours, Charged(a, first, d - 1)) + TotalValue(a, hours, Refused(a, first, d - 1))
            + if Eligible(a, d) then DayValue(a, hours, d) else 0
  {
    TotalValueAppend(a, hours, Charged(a, first, d - 1), d);
    TotalValueAppend(a, hours, Refused(a, first, d - 1), d);
  }

  /** Leave and target agree for every history: what the absences take off the target is the value
      of the days charged plus the value of the eligible days the quota let go free. */
  lemma {:induction false} TargetLosesChargedAndRefused(a: Account, hours: WeeklyHoursHistory, from: Date, to: Date)
    ensures SpanTarget(a, [], hours, from, to) - SpanTarget(a, a.ranges, hours, from, to)
         == TotalValue(a, hours, LeaveDays(a, from, to))
            + TotalValue(a, hours, Refused(a, Max(from, a.contractStart), to))
    decreases DayCount(from, to)
  {
    var first := Max(from, a.contractStart);
    if from <= to {
      TargetLosesChargedAndRefused(a, hours, from, to - 1);
      DayLoss(a, hours, to);
      if first <= to {
        EligibleDayIsChargedOrRefused(a, hours, first, to);
      }
    }
  }

  /** Where no quota applies nothing goes free, so the two figures are one. */
  lemma {:induction false} NothingRefused(a: Account, from: Date, to: Date)
    requires forall d | from <= d <= to :: Cap(a, d).None?
    ensures Refused(a, from, to) == []
    decreases DayCount(from, to)
  {
    if from <= to {
      NothingRefused(a, from, to - 1);
    }
  }

  /** For recorded and irregular schedules the target loses exactly the value of the leave days. */
  lemma TargetAndLeaveAgree(a: Account, hours: WeeklyHoursHistory, from: Date, to: Date)
    requires forall d | from <= d <= to :: Cap(a, d).None?
    ensures SpanTarget(a, [], hours, from, to) - SpanTarget(a, a.ranges, hours, from, to)
         == TotalValue(a, hours, LeaveDays(a, from, to))
  {
    TargetLosesChargedAndRefused(a, hours, from, to);
    NothingRefused(a, Max(from, a.contractStart), to);
  }

  /** A span may be cut anywhere: each day belongs to one part, so months add up to the year. */
  lemma {:induction false} TargetSplits(a: Account, off: seq<Range>, hours: WeeklyHoursHistory,
                                        from: Date, split: Date, to: Date)
    requires from <= split <= to + 1
    ensures SpanTarget(a, off, hours, from, to)
         == SpanTarget(a, off, hours, from, split - 1) + SpanTarget(a, off, hours, split, to)
    decreases DayCount(split, to)
  {
    if split <= to {
      TargetSplits(a, off, hours, from, split, to - 1);
    }
  }

  /** Recording later working days leaves every target of the time before them alone. */
  lemma {:induction false} LaterChangeKeepsTargets(
      entries: seq<Dated<WorkSchedule>>, k: nat, e: Dated<WorkSchedule>, a: Account,
      off: seq<Range>, hours: WeeklyHoursHistory, from: Date, to: Date)
    requires k <= |entries| && to < e.validFrom
    requires a.history == WorkScheduleHistory.New(entries, a.history.fallback)
    ensures
      var later := WorkScheduleHistory.New(entries[..k] + [e] + entries[k..], a.history.fallback);
      SpanTarget(a.(history := later), off, hours, from, to) == SpanTarget(a, off, hours, from, to)
    decreases DayCount(from, to)
  {
    if from <= to {
      LaterChangeKeepsTargets(entries, k, e, a, off, hours, from, to - 1);
      ScheduleChangeLeavesThePast(entries, k, e, a.history.fallback, to);
    }
  }

  /** Recording later weekly hours leaves them alone too, when the hours of the past do not hang on the
      new entry. */
  lemma {:induction false} LaterHoursKeepTargets(
      entries: seq<Dated<real>>, k: nat, e: Dated<real>, fallback: real, a: Account,
      off: seq<Range>, from: Date, to: Date)
    requires k <= |entries| && to < e.validFrom
    requires exists i | 0 <= i < |entries| ::
      entries[i].validFrom < e.validFrom || (i < k && entries[i].validFrom == e.validFrom)
    ensures SpanTarget(a, off, WeeklyHoursHistory.New(entries[..k] + [e] + entries[k..], fallback), from, to)
         == SpanTarget(a, off, WeeklyHoursHistory.New(entries, fallback), from, to)
    decreases DayCount(from, to)
  {
    if from <= to {
      LaterHoursKeepTargets(entries, k, e, fallback, a, off, from, to - 1);
      HoursChangeLeavesThePast(entries, k, e, fallback, to);
    }
  }

  // ---------------------------------------------------------------------
  // A full week is worth the contract
  // ---------------------------------------------------------------------

  function Abs(x: real): real {
    if x >= 0.0 then x else -x
  }

  lemma RoundIsNearest(x: real)
    requires x >= 0.0
    ensures -0.5 <= Round(x) as real - x <= 0.5
  {
  }

  /** The days of one week a schedule works. */
  function CoveredInWeek(s: WorkSchedule, monday: Date, n: nat): nat {
    if n == 0 then 0 else CoveredInWeek(s, monday, n - 1) + if s.Covers(monday + n - 1) then 1 else 0
  }

  lemma RecordedDaysInWeek(s: WorkSchedule, monday: Date)
    requires s.HasFixedDays() && s.Recordable() && Weekday(monday) == 0
    ensures CoveredInWeek(s, monday, 7) == |s.weekdays|
  {
    WeekdaySum(s, monday, 7);
    assert Below(s.weekdays, 7) == s.weekdays;
  }

  function Below(days: set<nat>, n: nat): set<nat> {
    set w | w in days && w < n
  }

  lemma OneMoreWeekday(days: set<nat>, n: nat)
    ensures |Below(days, n + 1)| == |Below(days, n)| + if n in days then 1 else 0
  {
    if n in days {
      assert Below(days, n + 1) == Below(days, n) + {n};
    } else {
      assert Below(days, n + 1) == Below(days, n);
    }
  }

  lemma {:induction false} WeekdaySum(s: WorkSchedule, monday: Date, n: nat)
    requires s.HasFixedDays() && Weekday(monday) == 0 && n <= 7
    ensures CoveredInWeek(s, monday, n) == |Below(s.weekdays, n)|
  {
    if n == 0 {
      assert Below(s.weekdays, 0) == {};
    } else {
      WeekdaySum(s, monday, n - 1);
      OneMoreWeekday(s.weekdays, n - 1);
      assert Weekday(monday + n - 1) == n - 1;
    }
  }

  lemma {:induction false} PoolDays(s: WorkSchedule, monday: Date, n: nat)
    requires !s.HasFixedDays() && !s.IsIrregular() && Weekday(monday) == 0 && n <= 7
    ensures CoveredInWeek(s, monday, n) == if n <= s.DaysPerWeek() then n else s.DaysPerWeek()
  {
    if n > 0 {
      PoolDays(s, monday, n - 1);
      assert Weekday(monday + n - 1) == n - 1;
    }
  }

  lemma OneMoreDay(days: nat, minutes: int)
    ensures (days + 1) * minutes == days * minutes + minutes
  {
  }

  lemma {:induction false} WeekTarget(a: Account, hours: WeeklyHoursHistory, s: WorkSchedule, h: real, monday: Date, n: nat)
    requires a.contractStart <= monday && forall d | monday <= d < monday + n :: d !in a.holidays
    requires forall d | monday <= d < monday + n :: a.history.On(d) == s && hours.On(d) == h
    ensures SpanTarget(a, [], hours, monday, monday + n - 1) == CoveredInWeek(s, monday, n) * s.DayMinutes(h)
  {
    if n > 0 {
      WeekTarget(a, hours, s, h, monday, n - 1);
      var last := monday + n - 1;
      assert monday <= last < monday + n && a.history.On(last) == s;
      OneMoreDay(CoveredInWeek(s, monday, n - 1), s.DayMinutes(h));
    }
  }

  lemma ProductNotNegative(x: real, y: real)
    requires x >= 0.0 && y >= 0.0
    ensures x * y >= 0.0
  {
  }

  lemma TimesNearest(days: nat, x: real, rounded: int)
    requires -0.5 <= rounded as real - x <= 0.5
    ensures Abs((days * rounded) as real - days as real * x) <= days as real / 2.0
  {
    var d, gap := days as real, rounded as real - x;
    assert (days * rounded) as real == d * rounded as real;
    assert d * gap == d * rounded as real - d * x;
    ProductNotNegative(d, 0.5 - gap);
    ProductNotNegative(d, 0.5 + gap);
    assert d * (0.5 - gap) == d * 0.5 - d * gap;
    assert d * (0.5 + gap) == d * 0.5 + d * gap;
  }

  /** An ordinary full week asks for the contract's minutes, to within half a minute per working
      day, for every schedule that has a target at all. */
  lemma FullWeekIsTheContract(a: Account, hours: WeeklyHoursHistory, s: WorkSchedule, h: real, monday: Date)
    requires Weekday(monday) == 0 && a.contractStart <= monday
    requires forall d | monday <= d < monday + 7 :: d !in a.holidays
    requires forall d | monday <= d < monday + 7 :: a.history.On(d) == s && hours.On(d) == h
    requires h > 0.0 && !s.IsIrregular() && s.Recordable()
    ensures Abs(SpanTarget(a, [], hours, monday, monday + 6) as real - h * 60.0) <= s.DaysPerWeek() as real / 2.0
  {
    hide SpanTarget, CoveredInWeek, WorkScheduleHistory.On, WeeklyHoursHistory.On;
    WeekTarget(a, hours, s, h, monday, 7);
    if s.HasFixedDays() {
      RecordedDaysInWeek(s, monday);
    } else {
      PoolDays(s, monday, 7);
    }
    var days := s.DaysPerWeek();
    var x := h / days as real * 60.0;
    DayShare(h, days);
    RoundIsNearest(x);
    TimesNearest(days, x, Round(x));
  }

  lemma DayShare(h: real, days: nat)
    requires days > 0 && h > 0.0
    ensures h / days as real * 60.0 >= 0.0
    ensures days as real * (h / days as real * 60.0) == h * 60.0
  {
    var share := h / days as real;
    assert share * days as real == h;
    assert share >= 0.0;
    assert days as real * (share * 60.0) == (share * days as real) * 60.0;
  }


  // ---------------------------------------------------------------------
  // In plain numbers
  // ---------------------------------------------------------------------

  /** The day asks for something: the contract has begun and works it, and it is neither a holiday nor in
      one of the ranges, their first and last days included. */
  predicate Asks(a: Account, off: seq<Range>, d: Date) {
    && d >= a.contractStart && a.history.On(d).Covers(d) && d !in a.holidays
    && forall i | 0 <= i < |off| :: d < off[i].from || off[i].to < d
  }

  /** A day that asks for something asks for the minutes of its schedule and hours, any other for nothing. */
  lemma OneDayTarget(a: Account, off: seq<Range>, hours: WeeklyHoursHistory, d: Date)
    ensures SpanTarget(a, off, hours, d, d) ==
      if Asks(a, off, d) then a.history.On(d).DayMinutes(hours.On(d)) else 0
  {
    assert SpanTarget(a, off, hours, d, d - 1) == 0;
    if Booked(off, d) {
      var i :| 0 <= i < |off| && InRange(off[i], d);
      assert !(d < off[i].from || off[i].to < d);
    } else {
      forall i | 0 <= i < |off| ensures d < off[i].from || off[i].to < d {
        assert !InRange(off[i], d);
      }
    }
  }

  /** Before the contract start nothing is asked for. */
  lemma {:induction false} TargetBeginsWithContract(a: Account, off: seq<Range>, hours: WeeklyHoursHistory, from: Date, to: Date)
    ensures SpanTarget(a, off, hours, from, to) == SpanTarget(a, off, hours, Max(from, a.contractStart), to)
    ensures to < a.contractStart ==> SpanTarget(a, off, hours, from, to) == 0
    decreases DayCount(from, to)
  {
    if from <= to {
      TargetBeginsWithContract(a, off, hours, from, to - 1);
    }
  }

  /** The target of a span is the sum of the values of exactly the days that ask for something. */
  lemma {:induction false} TargetIsSum(a: Account, off: seq<Range>, hours: WeeklyHoursHistory, from: Date, to: Date)
      returns (days: seq<Date>)
    ensures SpanTarget(a, off, hours, from, to) == TotalValue(a, hours, days)
    ensures forall i, j | 0 <= i < j < |days| :: days[i] < days[j]
    ensures forall d :: d in days <==> from <= d <= to && Asks(a, off, d)
    decreases DayCount(from, to)
  {
    hide Asks;
    if to < from {
      days := [];
    } else {
      var front := TargetIsSum(a, off, hours, from, to - 1);
      OneDayTarget(a, off, hours, to);
      TargetSplits(a, off, hours, from, to, to);
      TotalValueAppend(a, hours, front, to);
      hide SpanTarget, TotalValue;
      days := if Asks(a, off, to) then front + [to] else front;
      forall i | 0 <= i < |front| ensures front[i] < to {
        assert front[i] in front;
      }
    }
  }
}
