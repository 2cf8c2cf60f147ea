/** The timer behind the daily and weekly jobs. It is polled with whatever the clock and the
    settings say, so both the time and the timezone may jump between two polls. */
module CalendarTimers {
  import opened Calendar
  import opened Wrappers

  /** Seconds on the one true time line. */
  type Instant = int

  const DAY := 86400

  /** A timezone: the local clock at an instant, in seconds since 0001-01-01 00:00 local time, and
      the earliest instant at which the local clock shows a given time, if it ever does. */
  datatype Zone = Zone(local: Instant -> int, earliest: int -> Option<Instant>)

  ghost predicate Consistent(z: Zone) {
    && (forall clock | z.earliest(clock).Some? :: z.local(z.earliest(clock).value) == clock)
    && (forall t {:trigger z.local(t)} :: z.earliest(z.local(t)).Some? && z.earliest(z.local(t)).value <= t)
  }

  function DateAt(z: Zone, t: Instant): Date {
    z.local(t) / DAY
  }

  /** As time goes on the local date never goes back. */
  ghost predicate DatesNeverFall(z: Zone) {
    forall t, u | t <= u :: DateAt(z, t) <= DateAt(z, u)
  }

  // ---------------------------------------------------------------------
  // From local times to instants
  // ---------------------------------------------------------------------

  /** The search gives up after two days of minutes. */
  const SEARCH_MINUTES := 48 * 60

  function FirstValid(z: Zone, clock: int, minutes: nat): Option<Instant>
    decreases if minutes <= SEARCH_MINUTES then SEARCH_MINUTES - minutes + 1 else 0
  {
    if minutes > SEARCH_MINUTES then None
    else
      var target := z.earliest(clock + 60 * minutes);
      if target.Some? then target else FirstValid(z, clock, minutes + 1)
  }

  /** The first occurrence of a local time, or of the first minute after it that exists. */
  function ResolveLocalTime(z: Zone, date: Date, hour: int, minute: int, second: int): Option<Instant> {
    if 0 <= hour < 24 && 0 <= minute < 60 && 0 <= second < 60
    then FirstValid(z, date * DAY + 3600 * hour + 60 * minute + second, 0)
    else None
  }

  method ResolveBySearch(z: Zone, date: Date, hour: int, minute: int, second: int) returns (r: Option<Instant>)
    ensures r == ResolveLocalTime(z, date, hour, minute, second)
  {
    if !(0 <= hour < 24 && 0 <= minute < 60 && 0 <= second < 60) {
      return None;
    }
    var start := date * DAY + 3600 * hour + 60 * minute + second;
    for minutes := 0 to SEARCH_MINUTES + 1
      invariant FirstValid(z, start, 0) == FirstValid(z, start, minutes)
    {
      var target := z.earliest(start + 60 * minutes);
      if target.Some? {
        return target;
      }
    }
    return None;
  }

  predicate Shows(z: Zone, t: Instant, clock: int, minutes: int) {
    z.local(t) == clock + 60 * minutes
  }

  /** Minute `m` of the search is the first that the clock shows, and `t` the first time it does. */
  ghost predicate FirstShown(z: Zone, clock: int, from: nat, m: int, t: Instant) {
    && from <= m <= SEARCH_MINUTES
    && Shows(z, t, clock, m)
    && (forall u | Shows(z, u, clock, m) :: t <= u)
    && (forall k, u | from <= k < m :: !Shows(z, u, clock, k))
  }

  /** What the search finds: the earliest instant of the first of the minutes from the wanted time
      on that the local clock ever shows; and it finds nothing only if the clock skips two days. */
  ghost predicate IsResolved(z: Zone, clock: int, from: nat, r: Option<Instant>) {
    match r
    case None => forall m, t | from <= m <= SEARCH_MINUTES :: !Shows(z, t, clock, m)
    case Some(t) => exists m :: FirstShown(z, clock, from, m, t)
  }

  lemma {:induction false} SearchResolves(z: Zone, clock: int, from: nat)
    requires Consistent(z) && from <= SEARCH_MINUTES + 1
    ensures IsResolved(z, clock, from, FirstValid(z, clock, from))
    decreases SEARCH_MINUTES + 1 - from
  {
    if from <= SEARCH_MINUTES {
      var target := z.earliest(clock + 60 * from);
      if target.Some? {
        assert z.local(target.value) == clock + 60 * from;
        assert FirstShown(z, clock, from, from, target.value);
      } else {
        assert forall u :: !Shows(z, u, clock, from);
        SearchResolves(z, clock, from + 1);
        StillResolved(z, clock, from, FirstValid(z, clock, from + 1));
      }
    }
  }

  lemma StillResolved(z: Zone, clock: int, from: nat, r: Option<Instant>)
    requires IsResolved(z, clock, from + 1, r) && forall u :: !Shows(z, u, clock, from)
    ensures IsResolved(z, clock, from, r)
  {
    if r.Some? {
      var m :| FirstShown(z, clock, from + 1, m, r.value);
      assert FirstShown(z, clock, from, m, r.value);
    }
  }

  datatype CalendarSchedule = DailyAfterMidnight | MondayNoon

  function Later(target: Option<Instant>, now: Instant): Option<Instant> {
    if target.Some? && target.value > now then target else None
  }

  function NextMondayAt(z: Zone, now: Instant, hour: int): Option<Instant> {
    var days := (7 - Weekday(DateAt(z, now))) % 7;
    var date := DateAt(z, now) + days;
    match ResolveLocalTime(z, date, hour, 0, 0)
    case None => None
    case Some(target) =>
      if target > now then Some(target) else Later(ResolveLocalTime(z, date + 7, hour, 0, 0), now)
  }

  function Next(schedule: CalendarSchedule, z: Zone, now: Instant): (target: Option<Instant>)
    ensures target.Some? ==> target.value > now
  {
    match schedule
    case MondayNoon => NextMondayAt(z, now, 12)
    case DailyAfterMidnight =>
      var date := DateAt(z, now);
      match ResolveLocalTime(z, date, 0, 0, 30)
      case None => None
      case Some(today) =>
        if today > now then Some(today) else Later(ResolveLocalTime(z, date + 1, 0, 0, 30), now)
  }

  // ---------------------------------------------------------------------
  // The timer
  // ---------------------------------------------------------------------

  type ZoneId = int

  datatype Plan = Plan(zone: ZoneId, target: Instant)

  datatype TimerState = TimerState(planned: Option<Plan>, lastRun: Option<Date>)

  function Planned(schedule: CalendarSchedule, zones: ZoneId -> Zone, now: Instant, zone: ZoneId): Option<Plan> {
    match Next(schedule, zones(zone), now)
    case None => None
    case Some(target) => Some(Plan(zone, target))
  }

  /** One poll: the state after it and the date to run for, if any. */
  function Polled(schedule: CalendarSchedule, zones: ZoneId -> Zone, st: TimerState, now: Instant, zone: ZoneId):
      (TimerState, Option<Date>)
  {
    var plan := if st.planned.None? || st.planned.value.zone != zone
                then Planned(schedule, zones, now, zone) else st.planned;
    if plan.None? || plan.value.target > now then (st.(planned := plan), None)
    else
      var next := Planned(schedule, zones, now, zone);
      if st.lastRun.None? || DateAt(zones(zone), plan.value.target) > st.lastRun.value
      then (TimerState(next, Some(DateAt(zones(zone), now))), Some(DateAt(zones(zone), now)))
      else (st.(planned := next), None)
  }

  class CalendarTimer {
    const schedule: CalendarSchedule
    const zones: ZoneId -> Zone
    var planned: Option<Plan>
    var lastRun: Option<Date>

    /** A new waiter knows only the date that ran last. */
    constructor (schedule: CalendarSchedule, zones: ZoneId -> Zone, lastRun: Option<Date>)
      ensures this.schedule == schedule && this.zones == zones
      ensures State() == TimerState(None, lastRun)
    {
      this.schedule := schedule;
      this.zones := zones;
      this.planned := None;
      this.lastRun := lastRun;
    }

    function State(): TimerState
      reads this
    {
      TimerState(planned, lastRun)
    }

    method Poll(now: Instant, zone: ZoneId) returns (run: Option<Date>)
      modifies this
      ensures (State(), run) == Polled(schedule, zones, old(State()), now, zone)
      ensures planned.Some? ==> planned.value.zone == zone && planned.value.target > now
      ensures planned.None? ==> Next(schedule, zones(zone), now).None?
    {
      if planned.None? || planned.value.zone != zone {
        planned := Planned(schedule, zones, now, zone);
      }
      if planned.Some? {
        var target := planned.value.target;
        if target <= now {
          planned := Planned(schedule, zones, now, zone);
          if lastRun.None? || DateAt(zones(zone), target) > lastRun.value {
            lastRun := Some(DateAt(zones(zone), now));
            return lastRun;
          }
        }
      }
      return None;
    }
  }

  // ---------------------------------------------------------------------
  // Any sequence of polls and restarts
  // ---------------------------------------------------------------------

  /** A poll at any instant in any zone, or a new waiter that keeps the last date. */
  datatype Event = Poll(now: Instant, zone: ZoneId) | Restart

  function After(schedule: CalendarSchedule, zones: ZoneId -> Zone, st: TimerState, event: Event):
      (TimerState, Option<Date>)
  {
    match event
    case Poll(now, zone) => Polled(schedule, zones, st, now, zone)
    case Restart => (st.(planned := None), None)
  }

  /** The dates the timer hands out over a sequence of events. */
  function Dates(schedule: CalendarSchedule, zones: ZoneId -> Zone, st: TimerState, events: seq<Event>): seq<Date>
    decreases |events|
  {
    if events == [] then []
    else
      var (next, run) := After(schedule, zones, st, events[0]);
      (if run.Some? then [run.value] else []) + Dates(schedule, zones, next, events[1..])
  }

  ghost predicate Increasing(dates: seq<Date>) {
    forall i, j | 0 <= i < j < |dates| :: dates[i] < dates[j]
  }

  /** The date of a planned target, once the target is reached, is never ahead of the calendar. */
  ghost predicate TargetDatesHold(schedule: CalendarSchedule, z: Zone) {
    forall now, u | Next(schedule, z, now).Some? && Next(schedule, z, now).value <= u ::
      DateAt(z, Next(schedule, z, now).value) <= DateAt(z, u)
  }

  /** Any plan was once the next target of its zone. */
  ghost predicate PlanIsNext(schedule: CalendarSchedule, zones: ZoneId -> Zone, st: TimerState) {
    st.planned.Some? ==> exists now :: Next(schedule, zones(st.planned.value.zone), now) == Some(st.planned.value.target)
  }

  /** A date is handed out only above the last one, and becomes the last one. */
  lemma PollRaisesLastRun(schedule: CalendarSchedule, zones: ZoneId -> Zone, st: TimerState, event: Event)
    requires (forall id :: TargetDatesHold(schedule, zones(id))) && PlanIsNext(schedule, zones, st)
    ensures
      var (next, run) := After(schedule, zones, st, event);
      && PlanIsNext(schedule, zones, next)
      && (run.Some? ==> next.lastRun == run && (st.lastRun.Some? ==> run.value > st.lastRun.value))
      && (run.None? ==> next.lastRun == st.lastRun)
  {
    hide Next, DateAt;
    if event.Poll? {
      var z := zones(event.zone);
      assert TargetDatesHold(schedule, z);
      var plan := if st.planned.None? || st.planned.value.zone != event.zone
                  then Planned(schedule, zones, event.now, event.zone) else st.planned;
      if plan.Some? && plan.value.target <= event.now {
        var now :| Next(schedule, z, now) == Some(plan.value.target);
        assert DateAt(z, plan.value.target) <= DateAt(z, event.now);
      }
    }
  }

  lemma {:induction false} DatesIncreaseAbove(
      schedule: CalendarSchedule, zones: ZoneId -> Zone, st: TimerState, events: seq<Event>)
    requires (forall id :: TargetDatesHold(schedule, zones(id))) && PlanIsNext(schedule, zones, st)
    ensures Increasing(Dates(schedule, zones, st, events))
    ensures st.lastRun.Some? ==> forall d | d in Dates(schedule, zones, st, events) :: d > st.lastRun.value
    decreases |events|
  {
    hide TargetDatesHold, PlanIsNext, After;
    if events != [] {
      var (next, run) := After(schedule, zones, st, events[0]);
      PollRaisesLastRun(schedule, zones, st, events[0]);
      DatesIncreaseAbove(schedule, zones, next, events[1..]);
      var later := Dates(schedule, zones, next, events[1..]);
      if run.Some? {
        forall j | 0 <= j < |later| ensures run.value < later[j] {
          assert later[j] in later;
        }
        assert Dates(schedule, zones, st, events) == [run.value] + later;
      } else {
        assert Dates(schedule, zones, st, events) == later;
      }
    }
  }

  lemma DatesStep(schedule: CalendarSchedule, zones: ZoneId -> Zone, st: TimerState, event: Event, rest: seq<Event>)
    ensures Dates(schedule, zones, st, [event] + rest)
         == (if After(schedule, zones, st, event).1.Some? then [After(schedule, zones, st, event).1.value] else [])
            + Dates(schedule, zones, After(schedule, zones, st, event).0, rest)
  {
    assert ([event] + rest)[1..] == rest;
  }

  /** Two polls, a new waiter and the same two polls again, the clock having been set back. */
  function TwicePolled(now: Instant, u: Instant, zone: ZoneId): seq<Event> {
    [Poll(now, zone)] + ([Poll(u, zone)] + ([Restart] + ([Poll(now, zone)] + ([Poll(u, zone)] + []))))
  }

  /** They run the same date twice when the date of the target is ahead of the calendar at the second. */
  lemma TargetAheadRunsTwice(schedule: CalendarSchedule, zones: ZoneId -> Zone, now: Instant, u: Instant, zone: ZoneId)
    requires
      var target := Next(schedule, zones(zone), now);
      target.Some? && target.value <= u && DateAt(zones(zone), target.value) > DateAt(zones(zone), u)
    ensures
      var date := DateAt(zones(zone), u);
      Dates(schedule, zones, TimerState(None, None), TwicePolled(now, u, zone)) == [date, date]
  {
    hide Next, DateAt;
    var date := DateAt(zones(zone), u);
    var plan := Planned(schedule, zones, now, zone);
    var s0, s1 := TimerState(None, None), TimerState(plan, None);
    var s2 := TimerState(Planned(schedule, zones, u, zone), Some(date));
    var s3, s4 := TimerState(None, Some(date)), TimerState(plan, Some(date));
    FutureTarget(schedule, zones(zone), now);
    assert Polled(schedule, zones, s0, now, zone) == (s1, None);
    assert Polled(schedule, zones, s1, u, zone) == (s2, Some(date));
    assert Polled(schedule, zones, s3, now, zone) == (s4, None);
    assert Polled(schedule, zones, s4, u, zone) == (s2, Some(date));
    var e4 := [Poll(u, zone)] + [];
    var e3 := [Poll(now, zone)] + e4;
    var e2 := [Restart] + e3;
    var e1 := [Poll(u, zone)] + e2;
    DatesStep(schedule, zones, s0, Poll(now, zone), e1);
    DatesStep(schedule, zones, s1, Poll(u, zone), e2);
    DatesStep(schedule, zones, s2, Restart, e3);
    DatesStep(schedule, zones, s3, Poll(now, zone), e4);
    DatesStep(schedule, zones, s4, Poll(u, zone), []);
  }

  lemma FutureTarget(schedule: CalendarSchedule, z: Zone, now: Instant)
    ensures Next(schedule, z, now).Some? ==> Next(schedule, z, now).value > now
  {
  }

  /** Whatever the clock, the timezone setting and the waiters do, no date runs twice and none runs after
      a later one, if and only if in every zone the date of a target, once reached, is never ahead of the
      calendar. */
  lemma DatesStrictlyIncrease(schedule: CalendarSchedule, zones: ZoneId -> Zone)
    ensures (forall events :: Increasing(Dates(schedule, zones, TimerState(None, None), events)))
       <==> (forall id :: TargetDatesHold(schedule, zones(id)))
  {
    hide Next, DateAt;
    var start := TimerState(None, None);
    if forall id :: TargetDatesHold(schedule, zones(id)) {
      forall events ensures Increasing(Dates(schedule, zones, start, events)) {
        DatesIncreaseAbove(schedule, zones, start, events);
      }
    } else {
      var id :| !TargetDatesHold(schedule, zones(id));
      var now, u :| Next(schedule, zones(id), now).Some? && Next(schedule, zones(id), now).value <= u
                    && DateAt(zones(id), Next(schedule, zones(id), now).value) > DateAt(zones(id), u);
      TargetAheadRunsTwice(schedule, zones, now, u, id);
      var dates := Dates(schedule, zones, start, TwicePolled(now, u, id));
      assert dates[0] == dates[1] && !Increasing(dates);
    }
  }

  /** In zones whose local date never goes back that is so. */
  lemma RisingDatesHold(schedule: CalendarSchedule, z: Zone)
    requires DatesNeverFall(z)
    ensures TargetDatesHold(schedule, z)
  {
  }

  /** A zone whose clock goes back by an hour when it shows `second` past the midnight of day 1. */
  function FallsBackOverMidnight(second: int): Zone {
    var change := DAY + second;
    Zone((t: Instant) => if t < change then t else t - 3600,
         (clock: int) => if clock < change then Some(clock) else Some(clock + 3600))
  }

  lemma FallingBackIsConsistent(second: int)
    requires 0 < second < 3600
    ensures Consistent(FallsBackOverMidnight(second)) && !DatesNeverFall(FallsBackOverMidnight(second))
  {
    var z := FallsBackOverMidnight(second);
    assert DateAt(z, DAY + second - 1) == 1;
    assert DateAt(z, DAY + second) == 0;
    assert DateAt(z, DAY + second - 1) > DateAt(z, DAY + second);
  }

  function FallBackTarget(second: int, date: Date): Instant {
    if date * DAY + 30 < DAY + second then date * DAY + 30 else date * DAY + 30 + 3600
  }

  lemma FallBackTargets(second: int, now: Instant)
    requires 0 < second < 3600
    ensures
      var z := FallsBackOverMidnight(second);
      var next := Next(DailyAfterMidnight, z, now);
      next.Some? ==> next.value == FallBackTarget(second, DateAt(z, now))
                     || next.value == FallBackTarget(second, DateAt(z, now) + 1)
  {
    var z := FallsBackOverMidnight(second);
    var date := DateAt(z, now);
    assert FirstValid(z, date * DAY + 30, 0) == Some(FallBackTarget(second, date));
    assert FirstValid(z, (date + 1) * DAY + 30, 0) == Some(FallBackTarget(second, date + 1));
  }

  lemma TargetBeforeTheChange(second: int)
    requires 0 < second < 3600
    ensures
      var z := FallsBackOverMidnight(second);
      Next(DailyAfterMidnight, z, DAY) == if second > 30 then Some(DAY + 30) else Some(DAY + 30 + 3600)
  {
    var z := FallsBackOverMidnight(second);
    assert DateAt(z, DAY) == 1;
    assert FirstValid(z, DAY + 30, 0) == Some(FallBackTarget(second, 1));
  }

  /** Falling back over midnight makes a date run twice exactly when the job of the new day has been due
      by then: a zone whose dates go back need not be one where a date can run twice. */
  lemma ADateCanRunTwiceWhenDatesFall(second: int)
    requires 0 < second < 3600
    ensures TargetDatesHold(DailyAfterMidnight, FallsBackOverMidnight(second)) <==> second <= 30
  {
    var z := FallsBackOverMidnight(second);
    if second <= 30 {
      forall now, u | Next(DailyAfterMidnight, z, now).Some? && Next(DailyAfterMidnight, z, now).value <= u
        ensures DateAt(z, Next(DailyAfterMidnight, z, now).value) <= DateAt(z, u)
      {
        FallBackTargets(second, now);
        var target := Next(DailyAfterMidnight, z, now).value;
        var date := if target == FallBackTarget(second, DateAt(z, now)) then DateAt(z, now) else DateAt(z, now) + 1;
        EarlyFall(second, date, u);
      }
    } else {
      TargetBeforeTheChange(second);
      assert DateAt(z, DAY + 30) == 1 && DateAt(z, DAY + second) == 0;
    }
  }

  lemma EarlyFall(second: int, date: Date, u: Instant)
    requires 0 < second <= 30 && FallBackTarget(second, date) <= u
    ensures
      var z := FallsBackOverMidnight(second);
      DateAt(z, FallBackTarget(second, date)) == date <= DateAt(z, u)
  {
  }

  // ---------------------------------------------------------------------
  // No date is missed
  // ---------------------------------------------------------------------

  function FixedOffset(offset: int): Zone {
    Zone((t: Instant) => t + offset, (clock: int) => Some(clock - offset))
  }

  /** How often a job runs, and how long after the midnight that begins Monday, day 0, its first turn is due. */
  function Period(schedule: CalendarSchedule): int {
    if schedule.MondayNoon? then 7 * DAY else DAY
  }

  function Phase(schedule: CalendarSchedule): int {
    if schedule.MondayNoon? then 12 * 3600 else 30
  }

  /** The date of a turn: every day, or every Monday. */
  function TurnDate(schedule: CalendarSchedule, turn: int): Date {
    if schedule.MondayNoon? then 7 * turn else turn
  }

  /** When a turn is due under a fixed offset. */
  function DueAt(schedule: CalendarSchedule, offset: int, turn: int): Instant {
    turn * Period(schedule) + Phase(schedule) - offset
  }

  /** The first turn that is not yet due at `now`. */
  function NextTurn(schedule: CalendarSchedule, offset: int, now: Instant): (turn: int)
    ensures DueAt(schedule, offset, turn - 1) <= now < DueAt(schedule, offset, turn)
  {
    if schedule.MondayNoon? then (now + offset - 12 * 3600) / (7 * DAY) + 1 else (now + offset - 30) / DAY + 1
  }

  lemma NextTurnIsUnique(schedule: CalendarSchedule, offset: int, now: Instant, turn: int)
    requires DueAt(schedule, offset, turn - 1) <= now < DueAt(schedule, offset, turn)
    ensures NextTurn(schedule, offset, now) == turn
  {
  }

  lemma FixedTargets(offset: int, date: Date, hour: int, second: int)
    requires 0 <= hour < 24 && 0 <= second < 60
    ensures ResolveLocalTime(FixedOffset(offset), date, hour, 0, second)
         == Some(date * DAY + 3600 * hour + second - offset)
  {
    assert FirstValid(FixedOffset(offset), date * DAY + 3600 * hour + second, 0)
        == Some(date * DAY + 3600 * hour + second - offset);
  }

  /** Under a fixed offset the planned target is always the next turn: no later Monday or day is
      skipped and no earlier one is due. */
  lemma NextIsNextTurn(schedule: CalendarSchedule, offset: int, now: Instant)
    ensures Next(schedule, FixedOffset(offset), now) == Some(DueAt(schedule, offset, NextTurn(schedule, offset, now)))
  {
    var date := DateAt(FixedOffset(offset), now);
    match schedule {
      case DailyAfterMidnight =>
        FixedTargets(offset, date, 0, 30);
        FixedTargets(offset, date + 1, 0, 30);
        NextTurnIsUnique(schedule, offset, now, if now < DueAt(schedule, offset, date) then date else date + 1);
      case MondayNoon =>
        var monday := date + (7 - Weekday(date)) % 7;
        FixedTargets(offset, monday, 12, 0);
        FixedTargets(offset, monday + 7, 12, 0);
        ComingMonday(date);
        var week := monday / 7;
        NextTurnIsUnique(schedule, offset, now, if now < DueAt(schedule, offset, week) then week else week + 1);
    }
  }

  lemma ComingMonday(date: Date)
    ensures
      var monday := date + (7 - Weekday(date)) % 7;
      monday == 7 * (monday / 7) && monday - 7 < date <= monday
  {
  }

  /** The loop of a job: after each run a new waiter starts that knows the date just run. */
  function JobRuns(schedule: CalendarSchedule, zones: ZoneId -> Zone, zone: ZoneId, st: TimerState,
                   polls: seq<Instant>): seq<Date>
    decreases |polls|
  {
    if polls == [] then []
    else
      var (next, run) := Polled(schedule, zones, st, polls[0], zone);
      if run.Some? then [run.value] + JobRuns(schedule, zones, zone, next.(planned := None), polls[1..])
      else JobRuns(schedule, zones, zone, next, polls[1..])
  }

  /** The dates of the turns from `from` on, up to but not including `to`. */
  function TurnDates(schedule: CalendarSchedule, from: int, to: int): seq<Date>
    decreases if from < to then to - from else 0
  {
    if from >= to then [] else [TurnDate(schedule, from)] + TurnDates(schedule, from + 1, to)
  }

  ghost predicate MinuteApart(last: Instant, polls: seq<Instant>) {
    && (polls != [] ==> last <= polls[0] <= last + 60)
    && forall i | 0 < i < |polls| :: polls[i - 1] <= polls[i] <= polls[i - 1] + 60
  }

  /** The state between two polls, the last of them at `last`: either the next turn is planned, or a
      waiter has just been started within a minute of the turn that ran. */
  ghost predicate OnTrack(schedule: CalendarSchedule, offset: int, zone: ZoneId, st: TimerState, last: Instant) {
    var turn := NextTurn(schedule, offset, last);
    && (st.lastRun.Some? ==> st.lastRun.value < TurnDate(schedule, turn))
    && match st.planned
       case Some(plan) => plan == Plan(zone, DueAt(schedule, offset, turn))
       case None => last < DueAt(schedule, offset, turn - 1) + 60
  }

  /** Within a minute of being due, a turn still has its date. */
  lemma DateOfTurn(schedule: CalendarSchedule, offset: int, turn: int, now: Instant)
    requires DueAt(schedule, offset, turn) <= now < DueAt(schedule, offset, turn) + 60
    ensures DateAt(FixedOffset(offset), now) == TurnDate(schedule, turn)
  {
    assert (now + offset) / DAY == TurnDate(schedule, turn);
  }

  /** A minute takes the clock over at most one turn. */
  lemma AtMostOneTurn(schedule: CalendarSchedule, offset: int, last: Instant, now: Instant)
    requires last <= now <= last + 60
    ensures
      var turn := NextTurn(schedule, offset, last);
      if now >= DueAt(schedule, offset, turn)
      then NextTurn(schedule, offset, now) == turn + 1 && now < DueAt(schedule, offset, turn) + 60
      else NextTurn(schedule, offset, now) == turn
  {
    var turn := NextTurn(schedule, offset, last);
    NextTurnIsUnique(schedule, offset, now, if now >= DueAt(schedule, offset, turn) then turn + 1 else turn);
  }

  lemma PollKeepsTrack(schedule: CalendarSchedule, zones: ZoneId -> Zone, zone: ZoneId, offset: int,
                       st: TimerState, last: Instant, now: Instant)
    requires zones(zone) == FixedOffset(offset) && OnTrack(schedule, offset, zone, st, last) && last <= now <= last + 60
    ensures
      var turn := NextTurn(schedule, offset, last);
      var (next, run) := Polled(schedule, zones, st, now, zone);
      if now >= DueAt(schedule, offset, turn)
      then run == Some(TurnDate(schedule, turn)) && NextTurn(schedule, offset, now) == turn + 1
           && OnTrack(schedule, offset, zone, next.(planned := None), now)
      else run == None && NextTurn(schedule, offset, now) == turn && OnTrack(schedule, offset, zone, next, now)
  {
    hide NextTurn, Next, FixedOffset;
    NextIsNextTurn(schedule, offset, now);
    AtMostOneTurn(schedule, offset, last, now);
    var turn := NextTurn(schedule, offset, last);
    if now >= DueAt(schedule, offset, turn) {
      DateOfTurn(schedule, offset, turn, now);
      DateOfTurn(schedule, offset, turn, DueAt(schedule, offset, turn));
      assert TurnDate(schedule, turn) < TurnDate(schedule, turn + 1);
    }
  }

  lemma {:induction false} OnTrackMissesNothing(
      schedule: CalendarSchedule, zones: ZoneId -> Zone, zone: ZoneId, offset: int,
      st: TimerState, last: Instant, polls: seq<Instant>)
    requires zones(zone) == FixedOffset(offset) && OnTrack(schedule, offset, zone, st, last) && MinuteApart(last, polls)
    ensures JobRuns(schedule, zones, zone, st, polls)
         == TurnDates(schedule, NextTurn(schedule, offset, last),
                      NextTurn(schedule, offset, if polls == [] then last else polls[|polls| - 1]))
    decreases |polls|
  {
    hide NextTurn, TurnDate, OnTrack, Polled;
    if polls != [] {
      var now := polls[0];
      var (next, run) := Polled(schedule, zones, st, now, zone);
      PollKeepsTrack(schedule, zones, zone, offset, st, last, now);
      var rest := polls[1..];
      assert forall i | 0 < i < |rest| :: rest[i - 1] == polls[i] && rest[i] == polls[i + 1];
      OnTrackMissesNothing(schedule, zones, zone, offset, if run.Some? then next.(planned := None) else next, now, rest);
      PollsAscend(last, polls);
      TurnsAscend(schedule, offset, now, polls[|polls| - 1]);
    }
  }

  lemma TurnsAscend(schedule: CalendarSchedule, offset: int, a: Instant, b: Instant)
    requires a <= b
    ensures NextTurn(schedule, offset, a) <= NextTurn(schedule, offset, b)
  {
  }

  lemma {:induction false} PollsAscend(last: Instant, polls: seq<Instant>)
    requires MinuteApart(last, polls) && polls != []
    ensures polls[0] <= polls[|polls| - 1]
    decreases |polls|
  {
    if |polls| > 1 {
      PollsAscend(polls[0], polls[1..]);
    }
  }

  /** Under a fixed offset and with polls at most a minute apart, the job runs exactly once for every
      day, or every Monday, that falls due after the first poll, in order, until the last poll. */
  lemma NoDateIsMissed(schedule: CalendarSchedule, zones: ZoneId -> Zone, zone: ZoneId, offset: int,
                       lastRun: Option<Date>, polls: seq<Instant>)
    requires zones(zone) == FixedOffset(offset)
    requires polls != [] && MinuteApart(polls[0], polls)
    requires lastRun.Some? ==> lastRun.value < TurnDate(schedule, NextTurn(schedule, offset, polls[0]))
    ensures JobRuns(schedule, zones, zone, TimerState(None, lastRun), polls)
         == TurnDates(schedule, NextTurn(schedule, offset, polls[0]), NextTurn(schedule, offset, polls[|polls| - 1]))
  {
    hide NextTurn, FixedOffset, Next, TurnDate;
    var first := polls[0];
    NextIsNextTurn(schedule, offset, first);
    var st := TimerState(Some(Plan(zone, DueAt(schedule, offset, NextTurn(schedule, offset, first)))), lastRun);
    assert Polled(schedule, zones, TimerState(None, lastRun), first, zone) == (st, None);
    assert MinuteApart(first, polls[1..]);
    OnTrackMissesNothing(schedule, zones, zone, offset, st, first, polls[1..]);
  }
}
