/** What the timer resolves and plans, in plain numbers of seconds. */
module LocalTimes {
  import opened Calendar
  import opened CalendarTimers
  import opened Wrappers

  /** Under a fixed offset the target shows 00:00:30, or 12:00:00 on a Monday, and lies at most a day, or a
      week, ahead: no such time between now and the target is passed over. */
  lemma TargetsShowTheirTime(schedule: CalendarSchedule, offset: int, now: Instant)
    ensures
      var target := Next(schedule, FixedOffset(offset), now);
      && target.Some? && target.value > now
      && (schedule.DailyAfterMidnight? ==> (target.value + offset) % 86400 == 30 && target.value <= now + 86400)
      && (schedule.MondayNoon? ==>
            && (target.value + offset) % 86400 == 43200 && (target.value + offset) / 86400 % 7 == 0
            && target.value <= now + 604800)
  {
    NextIsNextTurn(schedule, offset, now);
    DueTimes(schedule, offset, NextTurn(schedule, offset, now));
  }

  lemma DueTimes(schedule: CalendarSchedule, offset: int, turn: int)
    ensures schedule.DailyAfterMidnight? ==> (DueAt(schedule, offset, turn) + offset) % 86400 == 30
    ensures schedule.MondayNoon? ==>
      && (DueAt(schedule, offset, turn) + offset) % 86400 == 43200
      && (DueAt(schedule, offset, turn) + offset) / 86400 % 7 == 0
  {
    if schedule.MondayNoon? {
      assert DueAt(schedule, offset, turn) + offset == 86400 * (7 * turn) + 43200;
      assert (DueAt(schedule, offset, turn) + offset) / 86400 == 7 * turn;
    }
  }

  /** A time of day is resolved to the earliest instant at which the clock shows it or, of the times that
      lie whole minutes and at most two days after it, the first that the clock ever shows; there is no such
      instant when it shows none of them, and none for what is no time of day. */
  lemma LocalTimesResolve(z: Zone, date: Date, hour: int, minute: int, second: int)
    requires Consistent(z)
    ensures
      var clock := 86400 * date + 3600 * hour + 60 * minute + second;
      var r := ResolveLocalTime(z, date, hour, minute, second);
      if !(0 <= hour <= 23 && 0 <= minute <= 59 && 0 <= second <= 59) then r == None
      else if r.None? then forall t :: !(clock <= z.local(t) <= clock + 172800 && (z.local(t) - clock) % 60 == 0)
      else
        && clock <= z.local(r.value) <= clock + 172800 && (z.local(r.value) - clock) % 60 == 0
        && forall u :: (z.local(u) == z.local(r.value) ==> r.value <= u)
                       && (clock <= z.local(u) < z.local(r.value) ==> (z.local(u) - clock) % 60 != 0)
  {
    hide FirstValid, IsResolved, Consistent;
    if 0 <= hour <= 23 && 0 <= minute <= 59 && 0 <= second <= 59 {
      var clock := 86400 * date + 3600 * hour + 60 * minute + second;
      assert ResolveLocalTime(z, date, hour, minute, second) == FirstValid(z, clock, 0);
      SearchResolves(z, clock, 0);
      ResolvedMeans(z, clock, FirstValid(z, clock, 0));
    }
  }

  lemma ResolvedMeans(z: Zone, clock: int, r: Option<Instant>)
    requires IsResolved(z, clock, 0, r)
    ensures
      if r.None? then forall t :: !(clock <= z.local(t) <= clock + 172800 && (z.local(t) - clock) % 60 == 0)
      else
        && clock <= z.local(r.value) <= clock + 172800 && (z.local(r.value) - clock) % 60 == 0
        && forall u :: (z.local(u) == z.local(r.value) ==> r.value <= u)
                       && (clock <= z.local(u) < z.local(r.value) ==> (z.local(u) - clock) % 60 != 0)
  {
    if r.None? {
      forall t ensures !(clock <= z.local(t) <= clock + 172800 && (z.local(t) - clock) % 60 == 0) {
        assert !Shows(z, t, clock, (z.local(t) - clock) / 60) || !(clock <= z.local(t) <= clock + 172800);
      }
    } else {
      var m :| FirstShown(z, clock, 0, m, r.value);
      forall u
        ensures z.local(u) == z.local(r.value) ==> r.value <= u
        ensures clock <= z.local(u) < z.local(r.value) ==> (z.local(u) - clock) % 60 != 0
      {
        assert z.local(u) == z.local(r.value) ==> Shows(z, u, clock, m);
        if clock <= z.local(u) < z.local(r.value) {
          assert !Shows(z, u, clock, (z.local(u) - clock) / 60);
        }
      }
    }
  }
}
