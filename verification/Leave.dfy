/** Which days of an absence are charged to a leave account, and to which booking. */
module Leave {
  import opened Calendar
  import opened Numbers
  import opened WorkSchedules
  import opened Wrappers

  datatype Range = Range(from: Date, to: Date)

  predicate InRange(r: Range, date: Date) {
    r.from <= date <= r.to
  }

  predicate Booked(ranges: seq<Range>, date: Date) {
    exists i | 0 <= i < |ranges| :: InRange(ranges[i], date)
  }

  /** What decides about a day, apart from the window asked for. */
  datatype Account = Account(history: WorkScheduleHistory, ranges: seq<Range>,
                             contractStart: Date, holidays: set<Date>)

  /** A working day taken off that is no public holiday. */
  predicate Eligible(a: Account, date: Date) {
    && a.history.On(date).Covers(date)
    && date !in a.holidays
    && Booked(a.ranges, date)
  }

  function Cap(a: Account, date: Date): Option<int> {
    a.history.On(date).WeeklyLeaveCap()
  }

  /** How many of `days` count against the quota of the week of `monday`. */
  function Used(a: Account, days: seq<Date>, monday: Date): nat {
    if days == [] then 0
    else
      var n := |days| - 1;
      Used(a, days[..n], monday) + if WeekMonday(days[n]) == monday && Cap(a, days[n]).Some? then 1 else 0
  }

  predicate Charges(a: Account, before: seq<Date>, date: Date) {
    && Eligible(a, date)
    && match Cap(a, date)
       case None => true
       case Some(cap) => Used(a, before, WeekMonday(date)) < cap
  }

  /** The days charged from `from` to `to`, each judged by the days charged before it. */
  function Charged(a: Account, from: Date, to: Date): (days: seq<Date>)
    decreases DayCount(from, to)
  {
    if to < from then []
    else
      var before := Charged(a, from, to - 1);
      if Charges(a, before, to) then before + [to] else before
  }

  function LeaveDays(a: Account, windowStart: Date, windowEnd: Date): seq<Date> {
    Charged(a, Max(windowStart, a.contractStart), windowEnd)
  }

  // ---------------------------------------------------------------------
  // The day loop with its map of weekly quotas
  // ---------------------------------------------------------------------

  function CountIn(used: map<Date, int>, monday: Date): int {
    if monday in used then used[monday] else 0
  }

  lemma UsedAppend(a: Account, days: seq<Date>, date: Date, monday: Date)
    ensures Used(a, days + [date], monday)
         == Used(a, days, monday) + if WeekMonday(date) == monday && Cap(a, date).Some? then 1 else 0
  {
    assert (days + [date])[..|days|] == days;
  }

  ghost predicate Tallies(a: Account, tally: map<Date, int>, days: seq<Date>) {
    forall monday :: CountIn(tally, monday) == Used(a, days, monday)
  }

  lemma NextTally(a: Account, tally: map<Date, int>, days: seq<Date>, date: Date)
    requires Tallies(a, tally, days)
    ensures
      var used := CountIn(tally, WeekMonday(date));
      && used == Used(a, days, WeekMonday(date))
      && Tallies(a, tally[WeekMonday(date) := used], days)
      && (Cap(a, date).Some? ==> Tallies(a, tally[WeekMonday(date) := used + 1], days + [date]))
      && (Cap(a, date).None? ==> Tallies(a, tally, days + [date]))
  {
    forall monday ensures Used(a, days + [date], monday)
      == Used(a, days, monday) + if WeekMonday(date) == monday && Cap(a, date).Some? then 1 else 0
    {
      UsedAppend(a, days, date, monday);
    }
  }

  lemma {:induction false} NothingBooked(a: Account, from: Date, to: Date)
    requires a.ranges == []
    ensures Charged(a, from, to) == []
    decreases DayCount(from, to)
  {
    if from <= to {
      NothingBooked(a, from, to - 1);
    }
  }

  method ScheduledLeaveDays(a: Account, windowStart: Date, windowEnd: Date) returns (charged: seq<Date>)
    ensures charged == LeaveDays(a, windowStart, windowEnd)
  {
    hide WorkScheduleHistory.On, WorkSchedule.Covers, InRange, WeekMonday;
    var from := Max(windowStart, a.contractStart);
    if a.ranges == [] || windowEnd < windowStart {
      if a.ranges == [] {
        NothingBooked(a, from, windowEnd);
      }
      return [];
    }
    charged := [];
    assert Tallies(a, map[], []);
    hide Used, Tallies, CountIn;
    var cappedInWeek: map<Date, int> := map[];
    var date := from;
    while date <= windowEnd
      invariant from <= date
      invariant date <= windowEnd + 1 || date == from
      invariant charged == Charged(a, from, date - 1)
      invariant Tallies(a, cappedInWeek, charged)
    {
      var schedule := a.history.On(date);
      if schedule.Covers(date) && date !in a.holidays && Booked(a.ranges, date) {
        NextTally(a, cappedInWeek, charged, date);
        match schedule.WeeklyLeaveCap() {
          case Some(cap) =>
            var used := CountIn(cappedInWeek, WeekMonday(date));
            cappedInWeek := cappedInWeek[WeekMonday(date) := used];
            if used < cap {
              cappedInWeek := cappedInWeek[WeekMonday(date) := used + 1];
              charged := charged + [date];
            }
          case None =>
            charged := charged + [date];
        }
      }
      date := date + 1;
    }
  }

  // ---------------------------------------------------------------------
  // The calendar used before weekdays were recorded
  // ---------------------------------------------------------------------

  function Clamp(r: Range, windowStart: Date, windowEnd: Date): Range {
    Range(Max(r.from, windowStart), Min(r.to, windowEnd))
  }

  method ClampRanges(ranges: seq<Range>, windowStart: Date, windowEnd: Date) returns (clamped: seq<Range>)
    ensures forall date | windowStart <= date <= windowEnd :: Booked(clamped, date) <==> Booked(ranges, date)
    ensures clamped == [] ==> forall date | windowStart <= date <= windowEnd :: !Booked(ranges, date)
  {
    clamped := [];
    for i := 0 to |ranges|
      invariant forall date | windowStart <= date <= windowEnd :: Booked(clamped, date) <==> Booked(ranges[..i], date)
    {
      var r := Clamp(ranges[i], windowStart, windowEnd);
      forall date ensures Booked(ranges[..i + 1], date) <==> Booked(ranges[..i], date) || InRange(ranges[i], date) {
        assert ranges[..i + 1] == ranges[..i] + [ranges[i]];
        BookedAppend(ranges[..i], ranges[i], date);
      }
      forall date ensures Booked(clamped + [r], date) <==> Booked(clamped, date) || InRange(r, date) {
        BookedAppend(clamped, r, date);
      }
      if r.from <= r.to {
        clamped := clamped + [r];
      }
    }
    assert ranges[..|ranges|] == ranges;
  }

  lemma BookedAppend(ranges: seq<Range>, r: Range, date: Date)
    ensures Booked(ranges + [r], date) <==> Booked(ranges, date) || InRange(r, date)
  {
    var all := ranges + [r];
    if Booked(ranges, date) {
      var i :| 0 <= i < |ranges| && InRange(ranges[i], date);
      assert InRange(all[i], date);
    }
    if InRange(r, date) {
      assert InRange(all[|ranges|], date);
    }
  }

  function Unrecorded(ranges: seq<Range>, contractStart: Date, holidays: set<Date>, workdaysPerWeek: int): Account {
    Account(WorkScheduleHistory.WithoutHistory(WorkSchedule.WithoutFixedDays(workdaysPerWeek)),
            ranges, contractStart, holidays)
  }

  lemma {:induction false} NothingEligible(a: Account, from: Date, to: Date)
    requires forall date | from <= date <= to :: !Booked(a.ranges, date)
    ensures Charged(a, from, to) == []
    decreases DayCount(from, to)
  {
    if from <= to {
      NothingEligible(a, from, to - 1);
    }
  }

  lemma {:induction false} ContractStartInsideChargeOnly(a: Account, b: Account, from: Date, to: Date)
    requires a.history == b.history && a.ranges == b.ranges && a.holidays == b.holidays
    ensures Charged(a, from, to) == Charged(b, from, to)
    ensures forall days, monday :: Used(a, days, monday) == Used(b, days, monday)
    decreases DayCount(from, to)
  {
    forall days, monday ensures Used(a, days, monday) == Used(b, days, monday) {
      UsedIgnoresContractStart(a, b, days, monday);
    }
    if from <= to {
      ContractStartInsideChargeOnly(a, b, from, to - 1);
    }
  }

  lemma {:induction false} UsedIgnoresContractStart(a: Account, b: Account, days: seq<Date>, monday: Date)
    requires a.history == b.history
    ensures Used(a, days, monday) == Used(b, days, monday)
  {
    if days != [] {
      UsedIgnoresContractStart(a, b, days[..|days| - 1], monday);
    }
  }

  /** What charges a day of a contract without recorded weekdays. */
  lemma UnrecordedCharges(ranges: seq<Range>, contractStart: Date, holidays: set<Date>, workdaysPerWeek: int,
                          before: seq<Date>, date: Date)
    ensures
      var a := Unrecorded(ranges, contractStart, holidays, workdaysPerWeek);
      var irregular := PotentialWorkdaysPerWeek(workdaysPerWeek) == 0;
      && Cap(a, date) == (if irregular then None else Some(workdaysPerWeek))
      && (Charges(a, before, date) <==>
            && date !in holidays && Booked(ranges, date)
            && (irregular || (IsPotentialWorkday(date, workdaysPerWeek)
                              && Used(a, before, WeekMonday(date)) < workdaysPerWeek)))
  {
  }

  lemma StartBeforeWindow(ranges: seq<Range>, windowStart: Date, windowEnd: Date,
                          holidays: set<Date>, workdaysPerWeek: int)
    ensures forall contractStart | contractStart <= windowStart ::
      LeaveDays(Unrecorded(ranges, contractStart, holidays, workdaysPerWeek), windowStart, windowEnd)
        == Charged(Unrecorded(ranges, windowStart, holidays, workdaysPerWeek), windowStart, windowEnd)
  {
    forall contractStart | contractStart <= windowStart
      ensures LeaveDays(Unrecorded(ranges, contractStart, holidays, workdaysPerWeek), windowStart, windowEnd)
           == Charged(Unrecorded(ranges, windowStart, holidays, workdaysPerWeek), windowStart, windowEnd)
    {
      ContractStartInsideChargeOnly(
        Unrecorded(ranges, contractStart, holidays, workdaysPerWeek),
        Unrecorded(ranges, windowStart, holidays, workdaysPerWeek), windowStart, windowEnd);
    }
  }

  /** The reference calendar. For every contract start it returns what the schedule-based rule
      charges a contract without recorded weekdays from that start on. */
  method CountedWorkdays(ranges: seq<Range>, windowStart: Date, windowEnd: Date,
                         holidays: set<Date>, workdaysPerWeek: int) returns (counted: seq<Date>)
    ensures forall contractStart | contractStart <= windowStart ::
      counted == LeaveDays(Unrecorded(ranges, contractStart, holidays, workdaysPerWeek), windowStart, windowEnd)
  {
    hide InRange, WeekMonday, Charges, Cap, IsPotentialWorkday, WorkScheduleHistory.On;
    ghost var a := Unrecorded(ranges, windowStart, holidays, workdaysPerWeek);
    StartBeforeWindow(ranges, windowStart, windowEnd, holidays, workdaysPerWeek);
    var clamped := ClampRanges(ranges, windowStart, windowEnd);
    if clamped == [] {
      assert forall date | windowStart <= date <= windowEnd :: !Booked(a.ranges, date);
      NothingEligible(a, windowStart, windowEnd);
      return [];
    }
    var irregular := PotentialWorkdaysPerWeek(workdaysPerWeek) == 0;
    counted := [];
    assert Tallies(a, map[], []);
    hide Used, Tallies, CountIn;
    var usedInWeek: map<Date, int> := map[];
    var date := windowStart;
    while date <= windowEnd
      invariant windowStart <= date
      invariant date <= windowEnd + 1 || date == windowStart
      invariant counted == Charged(a, windowStart, date - 1)
      invariant !irregular ==> Tallies(a, usedInWeek, counted)
    {
      UnrecordedCharges(ranges, windowStart, holidays, workdaysPerWeek, counted, date);
      var isCandidate := date !in holidays && (irregular || IsPotentialWorkday(date, workdaysPerWeek));
      if isCandidate && Booked(clamped, date) {
        if irregular {
          counted := counted + [date];
        } else {
          NextTally(a, usedInWeek, counted, date);
          var used := CountIn(usedInWeek, WeekMonday(date));
          usedInWeek := usedInWeek[WeekMonday(date) := used];
          if used < workdaysPerWeek {
            usedInWeek := usedInWeek[WeekMonday(date) := used + 1];
            counted := counted + [date];
          }
        }
      }
      date := date + 1;
    }
  }
}
