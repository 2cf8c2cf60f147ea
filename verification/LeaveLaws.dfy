/** Laws of the charged leave days: the weekly quota, splitting a window, later changes. */
module LeaveLaws {
  import opened Calendar
  import opened Numbers
  import opened WorkSchedules
  import opened Leave
  import opened Wrappers

  // ---------------------------------------------------------------------
  // The days charged
  // ---------------------------------------------------------------------

  /** A day of the window is charged exactly when the days charged before it leave room for it. */
  lemma {:induction false} ChargedDays(a: Account, from: Date, to: Date)
    ensures forall d :: d in Charged(a, from, to) <==> from <= d <= to && Charges(a, Charged(a, from, d - 1), d)
    decreases DayCount(from, to)
  {
    if from <= to {
      ChargedDays(a, from, to - 1);
    }
  }

  lemma {:induction false} ChargedAscend(a: Account, from: Date, to: Date)
    ensures forall i, j | 0 <= i < j < |Charged(a, from, to)| :: Charged(a, from, to)[i] < Charged(a, from, to)[j]
    decreases DayCount(from, to)
  {
    if from <= to {
      ChargedAscend(a, from, to - 1);
      var before := Charged(a, from, to - 1);
      ChargedDays(a, from, to - 1);
      forall i | 0 <= i < |before| ensures before[i] < to {
        assert before[i] in before;
      }
    }
  }

  /** Cutting the window at the end cuts the list of days and nothing else. */
  lemma {:induction false} FirstPartIsExact(a: Account, from: Date, split: Date, to: Date)
    requires split <= to + 1
    ensures Charged(a, from, split - 1) <= Charged(a, from, to)
    ensures forall d :: d in Charged(a, from, split - 1) <==> d in Charged(a, from, to) && d < split
    decreases DayCount(split, to)
  {
    ChargedDays(a, from, to);
    ChargedDays(a, from, split - 1);
    if split <= to {
      FirstPartIsExact(a, from, split, to - 1);
    }
  }

  // ---------------------------------------------------------------------
  // The weekly quota
  // ---------------------------------------------------------------------

  /** The number of eligible days from `from` to `to`. */
  function EligibleCount(a: Account, from: Date, to: Date): nat
    decreases DayCount(from, to)
  {
    if to < from then 0 else EligibleCount(a, from, to - 1) + if Eligible(a, to) then 1 else 0
  }

  /** One weekly quota is in force from `from` to `to`. */
  ghost predicate QuotaOf(a: Account, cap: int, from: Date, to: Date) {
    forall d | from <= d <= to :: Cap(a, d) == Some(cap)
  }

  lemma UsedBefore(a: Account, from: Date, to: Date, monday: Date)
    requires to < monday && Weekday(monday) == 0
    ensures Used(a, Charged(a, from, to), monday) == 0
  {
    ChargedDays(a, from, to);
    UsedNowhere(a, Charged(a, from, to), monday);
  }

  lemma {:induction false} UsedNowhere(a: Account, days: seq<Date>, monday: Date)
    requires forall d | d in days :: WeekMonday(d) != monday
    ensures Used(a, days, monday) == 0
  {
    if days != [] {
      UsedNowhere(a, days[..|days| - 1], monday);
      assert days[|days| - 1] in days;
    }
  }

  /** Within a week the quota is used up by the eligible days in order. */
  lemma {:induction false} QuotaUsed(a: Account, cap: int, from: Date, to: Date, monday: Date)
    requires QuotaOf(a, cap, from, to) && cap >= 1 && Weekday(monday) == 0 && to <= monday + 6
    ensures Used(a, Charged(a, from, to), monday) == Min(cap, EligibleCount(a, Max(from, monday), to))
    decreases DayCount(from, to)
  {
    if to < monday {
      UsedBefore(a, from, to, monday);
    } else if from <= to {
      QuotaUsed(a, cap, from, to - 1, monday);
      SameWeek(monday, to);
      UsedAppend(a, Charged(a, from, to - 1), to, monday);
      assert Cap(a, to) == Some(cap);
    }
  }

  /** A contract that is only a day count is charged the first days of each week: a day costs
      leave exactly when it is eligible and fewer than `cap` eligible days of its week precede it. */
  lemma FirstEligibleDaysAreCharged(a: Account, cap: int, from: Date, to: Date, d: Date)
    requires QuotaOf(a, cap, from, to) && cap >= 1
    ensures d in Charged(a, from, to) <==>
      && from <= d <= to
      && Eligible(a, d)
      && EligibleCount(a, Max(from, WeekMonday(d)), d - 1) < cap
  {
    ChargedDays(a, from, to);
    if from <= d <= to {
      assert Cap(a, d) == Some(cap);
      QuotaUsed(a, cap, from, d - 1, WeekMonday(d));
    }
  }

  lemma UnrecordedQuota(ranges: seq<Range>, contractStart: Date, holidays: set<Date>, workdaysPerWeek: int,
                        from: Date, to: Date)
    requires workdaysPerWeek >= 1
    ensures QuotaOf(Unrecorded(ranges, contractStart, holidays, workdaysPerWeek), workdaysPerWeek, from, to)
  {
    forall d ensures Cap(Unrecorded(ranges, contractStart, holidays, workdaysPerWeek), d) == Some(workdaysPerWeek) {}
  }

  // ---------------------------------------------------------------------
  // Splitting a window in two calls
  // ---------------------------------------------------------------------

  /** The second of two calls starts with a fresh quota, so it charges every day the single call
      charges from the split on, and perhaps more. */
  lemma {:induction false} SecondPartIsSuperset(a: Account, from: Date, split: Date, to: Date)
    requires from <= split
    ensures forall d | d in Charged(a, from, to) && d >= split :: d in Charged(a, split, to)
    ensures forall m :: Weekday(m) == 0 ==> Used(a, Charged(a, split, to), m) <= Used(a, Charged(a, from, to), m)
    decreases DayCount(split, to)
  {
    var whole, part := Charged(a, from, to), Charged(a, split, to);
    ChargedDays(a, from, to);
    if split <= to {
      SecondPartIsSuperset(a, from, split, to - 1);
      var wholeBefore, partBefore := Charged(a, from, to - 1), Charged(a, split, to - 1);
      ChargedDays(a, from, to - 1);
      forall m | Weekday(m) == 0 ensures Used(a, part, m) <= Used(a, whole, m) {
        UsedAppend(a, wholeBefore, to, m);
        UsedAppend(a, partBefore, to, m);
      }
    }
  }

  /** The days of the split week the second call charges would find room after those of the first. */
  ghost predicate CarryFits(a: Account, from: Date, split: Date, to: Date) {
    var monday := WeekMonday(split);
    var carried := Used(a, Charged(a, from, split - 1), monday);
    forall d | split <= d <= Min(to, monday + 6) && Cap(a, d).Some? && Charges(a, Charged(a, split, d - 1), d) ::
      carried + Used(a, Charged(a, split, d - 1), monday) < Cap(a, d).value
  }

  /** What decides about one day when the calls have agreed so far. */
  ghost predicate DayFits(a: Account, from: Date, split: Date, d: Date) {
    Charges(a, Charged(a, split, d - 1), d) ==>
      Charges(a, Charged(a, from, split - 1) + Charged(a, split, d - 1), d)
  }

  lemma LaterWeeksFit(a: Account, from: Date, split: Date, d: Date)
    requires from <= split <= d
    ensures DayFits(a, from, split, d) <==>
      (d <= WeekMonday(split) + 6 && Cap(a, d).Some? && Charges(a, Charged(a, split, d - 1), d) ==>
         Used(a, Charged(a, from, split - 1), WeekMonday(split)) + Used(a, Charged(a, split, d - 1), WeekMonday(split))
           < Cap(a, d).value)
    ensures Charges(a, Charged(a, from, split - 1) + Charged(a, split, d - 1), d) ==>
      Charges(a, Charged(a, split, d - 1), d)
  {
    var first, part := Charged(a, from, split - 1), Charged(a, split, d - 1);
    UsedConcat(a, first, part, WeekMonday(d));
    if d <= WeekMonday(split) + 6 {
      SameWeek(split, d);
    } else {
      UsedBefore(a, from, split - 1, WeekMonday(d));
    }
  }

  lemma CarryGrows(a: Account, from: Date, split: Date, to: Date)
    requires from <= split <= to
    ensures CarryFits(a, from, split, to) <==> CarryFits(a, from, split, to - 1) && DayFits(a, from, split, to)
  {
    LaterWeeksFit(a, from, split, to);
  }

  /** Two calls charge together exactly what one call charges if and only if every day of the split week
      that the second call charges under a quota would fit beside what the first call has charged. */
  lemma {:induction false} TwoCallsAgree(a: Account, from: Date, split: Date, to: Date)
    requires from <= split <= to + 1
    ensures Charged(a, from, to) == Charged(a, from, split - 1) + Charged(a, split, to)
       <==> CarryFits(a, from, split, to)
    decreases DayCount(split, to)
  {
    if split == to + 1 {
      assert Charged(a, from, to) + [] == Charged(a, from, to);
    } else {
      TwoCallsAgree(a, from, split, to - 1);
      CarryGrows(a, from, split, to);
      AgreeOneMoreDay(a, from, split, to);
    }
  }

  lemma AgreeOneMoreDay(a: Account, from: Date, split: Date, to: Date)
    requires from <= split <= to
    ensures
      Charged(a, from, to) == Charged(a, from, split - 1) + Charged(a, split, to) <==>
        Charged(a, from, to - 1) == Charged(a, from, split - 1) + Charged(a, split, to - 1) && DayFits(a, from, split, to)
  {
    hide Charges;
    LaterWeeksFit(a, from, split, to);
    ChargedUpTo(a, from, to - 1);
    ChargedUpTo(a, from, split - 1);
    ChargedUpTo(a, split, to - 1);
    SameLastDay(Charged(a, from, to - 1), Charged(a, from, split - 1), Charged(a, split, to - 1), to,
                Charges(a, Charged(a, from, to - 1), to), Charges(a, Charged(a, split, to - 1), to));
  }

  lemma ChargedUpTo(a: Account, from: Date, to: Date)
    ensures forall d | d in Charged(a, from, to) :: d <= to
  {
    ChargedDays(a, from, to);
  }

  /** Lists that end before `d` agree after a step exactly when they agreed before and both or neither
      take `d`. */
  lemma SameLastDay(whole: seq<Date>, first: seq<Date>, part: seq<Date>, d: Date, inWhole: bool, inPart: bool)
    requires d !in whole && d !in first && d !in part
    ensures (if inWhole then whole + [d] else whole) == first + (if inPart then part + [d] else part)
       <==> whole == first + part && inWhole == inPart
  {
    var after := if inWhole then whole + [d] else whole;
    assert d in after <==> inWhole;
    assert d in first + (if inPart then part + [d] else part) <==> inPart;
    assert first + (part + [d]) == (first + part) + [d];
    if inWhole && inPart && after == first + (part + [d]) {
      assert whole == after[..|after| - 1] == first + part;
    }
  }

  lemma {:induction false} UsedConcat(a: Account, x: seq<Date>, y: seq<Date>, monday: Date)
    ensures Used(a, x + y, monday) == Used(a, x, monday) + Used(a, y, monday)
  {
    if y == [] {
      assert x + y == x;
    } else {
      var n := |y| - 1;
      UsedConcat(a, x, y[..n], monday);
      assert x + y == (x + y[..n]) + [y[n]];
      UsedAppend(a, x + y[..n], y[n], monday);
    }
  }

  lemma NothingCarriedFits(a: Account, from: Date, split: Date, to: Date)
    requires Used(a, Charged(a, from, split - 1), WeekMonday(split)) == 0
    ensures CarryFits(a, from, split, to)
  {
    hide Charged, Used, Eligible, Cap, WeekMonday;
    forall d | split <= d <= Min(to, WeekMonday(split) + 6) && Cap(a, d).Some? && Charges(a, Charged(a, split, d - 1), d)
      ensures 0 + Used(a, Charged(a, split, d - 1), WeekMonday(split)) < Cap(a, d).value
    {
      SameWeek(split, d);
    }
  }

  /** A second window that begins on a Monday splits no week. */
  lemma SplitOnMondayIsExact(a: Account, from: Date, split: Date, to: Date)
    requires from <= split <= to + 1 && Weekday(split) == 0
    ensures Charged(a, from, to) == Charged(a, from, split - 1) + Charged(a, split, to)
  {
    UsedBefore(a, from, split - 1, split);
    NothingCarriedFits(a, from, split, to);
    TwoCallsAgree(a, from, split, to);
  }

  /** Recorded weekdays and irregular contracts know no quota and may be split anywhere. */
  lemma SplitWithoutQuotaIsExact(a: Account, from: Date, split: Date, to: Date)
    requires from <= split <= to + 1
    requires forall d | split <= d <= to :: Cap(a, d).None?
    ensures Charged(a, from, to) == Charged(a, from, split - 1) + Charged(a, split, to)
  {
    TwoCallsAgree(a, from, split, to);
  }

  lemma {:induction false} EligibleGrows(a: Account, from: Date, mid: Date, to: Date)
    requires mid <= to
    ensures EligibleCount(a, from, mid) <= EligibleCount(a, from, to)
    ensures mid < to && from <= to && Eligible(a, to) ==> EligibleCount(a, from, mid) < EligibleCount(a, from, to)
    decreases DayCount(mid, to)
  {
    if mid < to {
      EligibleGrows(a, from, mid, to - 1);
    }
  }

  lemma {:induction false} NthEligible(a: Account, from: Date, to: Date, k: nat) returns (d: Date)
    requires k < EligibleCount(a, from, to)
    ensures from <= d <= to && Eligible(a, d) && EligibleCount(a, from, d - 1) == k
    decreases DayCount(from, to)
  {
    if Eligible(a, to) && EligibleCount(a, from, to - 1) == k {
      d := to;
    } else {
      d := NthEligible(a, from, to - 1, k);
    }
  }

  /** Under one quota the carry of a day depends on how many eligible days precede it on either side. */
  lemma CarryUnderQuota(a: Account, cap: int, from: Date, split: Date, to: Date, d: Date)
    requires QuotaOf(a, cap, from, to) && cap >= 1 && from <= split <= d <= Min(to, WeekMonday(split) + 6)
    ensures Charges(a, Charged(a, split, d - 1), d) <==> Eligible(a, d) && EligibleCount(a, split, d - 1) < cap
    ensures EligibleCount(a, split, d - 1) < cap ==>
      Used(a, Charged(a, split, d - 1), WeekMonday(split)) == EligibleCount(a, split, d - 1)
  {
    SameWeek(split, d);
    QuotaUsed(a, cap, split, d - 1, WeekMonday(split));
    assert Cap(a, d) == Some(cap);
  }

  /** Under one quota a split is harmless exactly when one side of the split week has nothing
      eligible or both sides together stay within the quota. */
  lemma SplitUnderQuota(a: Account, cap: int, from: Date, split: Date, to: Date)
    requires QuotaOf(a, cap, from, to) && cap >= 1 && from <= split <= to + 1
    ensures
      var monday := WeekMonday(split);
      var left := EligibleCount(a, Max(from, monday), split - 1);
      var right := EligibleCount(a, split, Min(to, monday + 6));
      (Charged(a, from, to) == Charged(a, from, split - 1) + Charged(a, split, to)) <==>
        (left == 0 || right == 0 || left + right <= cap)
  {
    hide Charged, Charges, EligibleCount, Used, Cap, Eligible;
    var monday := WeekMonday(split);
    var sunday := Min(to, monday + 6);
    var left := EligibleCount(a, Max(from, monday), split - 1);
    var right := EligibleCount(a, split, sunday);
    TwoCallsAgree(a, from, split, to);
    QuotaUsed(a, cap, from, split - 1, monday);
    if left == 0 || right == 0 || left + right <= cap {
      forall d | split <= d <= sunday && Cap(a, d).Some? && Charges(a, Charged(a, split, d - 1), d)
        ensures Min(cap, left) + Used(a, Charged(a, split, d - 1), monday) < Cap(a, d).value
      {
        CarryUnderQuota(a, cap, from, split, to, d);
        EligibleGrows(a, split, d, sunday);
        EligibleGrows(a, split, d - 1, d);
      }
    } else {
      var d := NthEligible(a, split, sunday, Max(cap - left, 0));
      CarryUnderQuota(a, cap, from, split, to, d);
      assert Cap(a, d) == Some(cap) && !(left + EligibleCount(a, split, d - 1) < cap);
      assert !CarryFits(a, from, split, to);
    }
  }

  /** The same for what a caller asks for: a window cut before `split` loses and gains nothing if and only
      if the contract had not begun before the second part, or the carry fits. */
  lemma LeaveDaysSplit(a: Account, windowStart: Date, split: Date, windowEnd: Date)
    requires windowStart <= split <= windowEnd + 1
    ensures
      LeaveDays(a, windowStart, windowEnd) == LeaveDays(a, windowStart, split - 1) + LeaveDays(a, split, windowEnd)
      <==> a.contractStart >= split || CarryFits(a, Max(windowStart, a.contractStart), split, windowEnd)
  {
    if a.contractStart >= split {
      assert LeaveDays(a, windowStart, split - 1) == [];
    } else {
      TwoCallsAgree(a, Max(windowStart, a.contractStart), split, windowEnd);
    }
  }

  // ---------------------------------------------------------------------
  // What the charged days depend on
  // ---------------------------------------------------------------------

  /** Only the union of the ranges and the schedules of the days up to `to` matter. */
  lemma {:induction false} ChargedDependsOnDays(a: Account, b: Account, from: Date, to: Date)
    requires a.holidays == b.holidays
    requires forall d | from <= d <= to :: a.history.On(d) == b.history.On(d)
    requires forall d | from <= d <= to :: Booked(a.ranges, d) <==> Booked(b.ranges, d)
    ensures Charged(a, from, to) == Charged(b, from, to)
    decreases DayCount(from, to)
  {
    if from <= to {
      ChargedDependsOnDays(a, b, from, to - 1);
      ChargedDays(a, from, to - 1);
      UsedDependsOnDays(a, b, Charged(a, from, to - 1), WeekMonday(to));
    }
  }

  lemma {:induction false} UsedDependsOnDays(a: Account, b: Account, days: seq<Date>, monday: Date)
    requires forall d | d in days :: a.history.On(d) == b.history.On(d)
    ensures Used(a, days, monday) == Used(b, days, monday)
  {
    if days != [] {
      var n := |days| - 1;
      assert days[n] in days;
      UsedDependsOnDays(a, b, days[..n], monday);
    }
  }

  /** Recording a change of working days from `e.validFrom` on leaves every leave day charged
      before it as it was, however far the window reaches. */
  lemma LaterChangeKeepsLeaveDays(
      entries: seq<Dated<WorkSchedule>>, k: nat, e: Dated<WorkSchedule>, fallback: WorkSchedule,
      ranges: seq<Range>, contractStart: Date, holidays: set<Date>, from: Date, to: Date, d: Date)
    requires k <= |entries| && d < e.validFrom
    ensures
      var before := Account(WorkScheduleHistory.New(entries, fallback), ranges, contractStart, holidays);
      var after := Account(WorkScheduleHistory.New(entries[..k] + [e] + entries[k..], fallback),
                           ranges, contractStart, holidays);
      d in Charged(after, from, to) <==> d in Charged(before, from, to)
  {
    var before := Account(WorkScheduleHistory.New(entries, fallback), ranges, contractStart, holidays);
    var after := Account(WorkScheduleHistory.New(entries[..k] + [e] + entries[k..], fallback),
                         ranges, contractStart, holidays);
    forall x | from <= x <= d ensures before.history.On(x) == after.history.On(x) {
      ScheduleChangeLeavesThePast(entries, k, e, fallback, x);
    }
    ScheduleChangeLeavesThePast(entries, k, e, fallback, d);
    ChargedDependsOnDays(before, after, from, d);
    ChargedDays(before, from, to);
    ChargedDays(after, from, to);
    ChargedDays(before, from, d);
    ChargedDays(after, from, d);
    assert d in Charged(before, from, to) <==> d <= to && d in Charged(before, from, d);
    assert d in Charged(after, from, to) <==> d <= to && d in Charged(after, from, d);
  }


  // ---------------------------------------------------------------------
  // In plain numbers
  // ---------------------------------------------------------------------

  /** The day is a working day taken off: the contract works it, it is no public holiday, and it lies in a
      booking, first and last day included. */
  lemma EligibleMeans(a: Account, d: Date)
    ensures Eligible(a, d) <==>
      && a.history.On(d).Covers(d) && d !in a.holidays
      && exists i | 0 <= i < |a.ranges| :: a.ranges[i].from <= d <= a.ranges[i].to
  {
    if Booked(a.ranges, d) {
      var i :| 0 <= i < |a.ranges| && InRange(a.ranges[i], d);
      assert a.ranges[i].from <= d <= a.ranges[i].to;
    }
    if i :| 0 <= i < |a.ranges| && a.ranges[i].from <= d <= a.ranges[i].to {
      assert InRange(a.ranges[i], d);
    }
  }

  /** Where the contract knows no quota on it, a day costs leave exactly when it is such a day of the window
      from the contract start on. */
  lemma DayWithoutQuota(a: Account, windowStart: Date, windowEnd: Date, d: Date)
    requires a.history.On(d).weekdays != {} || a.history.On(d).fallbackDaysPerWeek <= 0
    ensures d in LeaveDays(a, windowStart, windowEnd) <==>
      && windowStart <= d <= windowEnd && a.contractStart <= d
      && a.history.On(d).Covers(d) && d !in a.holidays
      && exists i | 0 <= i < |a.ranges| :: a.ranges[i].from <= d <= a.ranges[i].to
  {
    ChargedDays(a, Max(windowStart, a.contractStart), windowEnd);
    EligibleMeans(a, d);
  }

  /** The days of a week that count against its quota. */
  function QuotaDays(a: Account, days: seq<Date>, monday: Date): set<Date> {
    set c | c in days && WeekMonday(c) == monday && Cap(a, c).Some?
  }

  lemma OneMoreQuotaDay(a: Account, front: seq<Date>, last: Date, monday: Date)
    requires last !in front
    ensures |QuotaDays(a, front + [last], monday)|
         == |QuotaDays(a, front, monday)| + if WeekMonday(last) == monday && Cap(a, last).Some? then 1 else 0
  {
    hide Cap, WeekMonday;
    if WeekMonday(last) == monday && Cap(a, last).Some? {
      assert QuotaDays(a, front + [last], monday) == QuotaDays(a, front, monday) + {last};
    } else {
      assert QuotaDays(a, front + [last], monday) == QuotaDays(a, front, monday);
    }
  }

  lemma {:induction false} UsedIsCount(a: Account, days: seq<Date>, monday: Date)
    requires forall i, j | 0 <= i < j < |days| :: days[i] < days[j]
    ensures Used(a, days, monday) == |QuotaDays(a, days, monday)|
  {
    hide Cap, WeekMonday;
    if days == [] {
      assert QuotaDays(a, days, monday) == {};
    } else {
      var n := |days| - 1;
      var front, last := days[..n], days[n];
      UsedIsCount(a, front, monday);
      assert days == front + [last] && last !in front;
      hide QuotaDays;
      OneMoreQuotaDay(a, front, last, monday);
    }
  }

  /** For every history: under a quota a day costs leave exactly when, besides, fewer days under a quota
      have been charged from the Monday of its week to the day before than its own quota has. */
  lemma DayUnderQuota(a: Account, windowStart: Date, windowEnd: Date, d: Date)
    requires a.history.On(d).weekdays == {} && a.history.On(d).fallbackDaysPerWeek >= 1
    ensures
      var charged := LeaveDays(a, windowStart, windowEnd);
      d in charged <==>
        && windowStart <= d <= windowEnd && a.contractStart <= d
        && a.history.On(d).Covers(d) && d !in a.holidays
        && (exists i | 0 <= i < |a.ranges| :: a.ranges[i].from <= d <= a.ranges[i].to)
        && |set c | c in charged && d - d % 7 <= c < d
                    && a.history.On(c).weekdays == {} && a.history.On(c).fallbackDaysPerWeek >= 1|
             < a.history.On(d).fallbackDaysPerWeek
  {
    var from := Max(windowStart, a.contractStart);
    ChargedDays(a, from, windowEnd);
    EligibleMeans(a, d);
    if from <= d <= windowEnd {
      CountBefore(a, from, windowEnd, d);
    }
  }

  lemma CountBefore(a: Account, from: Date, to: Date, d: Date)
    requires from <= d <= to
    ensures Used(a, Charged(a, from, d - 1), WeekMonday(d))
         == |set c | c in Charged(a, from, to) && d - d % 7 <= c < d
                     && a.history.On(c).weekdays == {} && a.history.On(c).fallbackDaysPerWeek >= 1|
  {
    var before, charged := Charged(a, from, d - 1), Charged(a, from, to);
    ChargedAscend(a, from, d - 1);
    UsedIsCount(a, before, WeekMonday(d));
    FirstPartIsExact(a, from, d, to);
    hide Charged;
    var plain := set c | c in charged && d - d % 7 <= c < d
                        && a.history.On(c).weekdays == {} && a.history.On(c).fallbackDaysPerWeek >= 1;
    forall c ensures c in QuotaDays(a, before, WeekMonday(d)) <==> c in plain {
      SameWeek(d, c);
      CapMeans(a, c);
    }
    assert QuotaDays(a, before, WeekMonday(d)) == plain;
  }

  lemma CapMeans(a: Account, c: Date)
    ensures Cap(a, c).Some? <==> a.history.On(c).weekdays == {} && a.history.On(c).fallbackDaysPerWeek >= 1
  {
  }

  /** The working days taken off from `from` to `to`. */
  function DaysOff(a: Account, from: Date, to: Date): set<Date> {
    set c: Date | from <= c <= to && a.history.On(c).Covers(c) && c !in a.holidays
                  && exists i | 0 <= i < |a.ranges| :: a.ranges[i].from <= c <= a.ranges[i].to
  }

  lemma {:induction false} EligibleIsCount(a: Account, from: Date, to: Date)
    ensures EligibleCount(a, from, to) == |DaysOff(a, from, to)|
    decreases DayCount(from, to)
  {
    if to < from {
      assert DaysOff(a, from, to) == {};
    } else {
      EligibleIsCount(a, from, to - 1);
      EligibleMeans(a, to);
      if Eligible(a, to) {
        assert DaysOff(a, from, to) == DaysOff(a, from, to - 1) + {to};
      } else {
        assert DaysOff(a, from, to) == DaysOff(a, from, to - 1);
      }
    }
  }

  /** Under one quota: the first days of each week are charged, counted as a set. */
  lemma FirstDaysOfTheWeek(a: Account, cap: int, from: Date, to: Date, d: Date)
    requires QuotaOf(a, cap, from, to) && cap >= 1
    ensures d in Charged(a, from, to) <==>
      && from <= d <= to && a.history.On(d).Covers(d) && d !in a.holidays
      && (exists i | 0 <= i < |a.ranges| :: a.ranges[i].from <= d <= a.ranges[i].to)
      && |DaysOff(a, Max(from, d - d % 7), d - 1)| < cap
  {
    FirstEligibleDaysAreCharged(a, cap, from, to, d);
    EligibleMeans(a, d);
    EligibleIsCount(a, Max(from, WeekMonday(d)), d - 1);
  }
}
