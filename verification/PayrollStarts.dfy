/** The payroll job from a fresh installation on: which month the account begins with, and whether the
    months before it are kept. */
module PayrollStarts {
  import opened Calendar
  import opened Periods
  import opened PayrollJobs
  import opened Sorting
  import opened Wrappers

  // ---------------------------------------------------------------------
  // The first runs
  // ---------------------------------------------------------------------

  ghost predicate NeverBack(runs: seq<JobRun>) {
    forall i | 0 < i < |runs| :: runs[i - 1].today <= runs[i].today
  }

  /** The month before a run's, up to which it queues. */
  function TargetOf(run: JobRun): int {
    MonthNumber(run.today) - 1
  }

  /** The first run that saves a marker, or the number of runs. */
  function FirstSaving(runs: seq<JobRun>): (k: nat)
    ensures k <= |runs| && forall i | 0 <= i < k :: !Saves(runs[i].faults)
    ensures k < |runs| ==> Saves(runs[k].faults)
  {
    if runs == [] || Saves(runs[0].faults) then 0 else 1 + FirstSaving(runs[1..])
  }

  /** The first run that has a first period to begin with, or the number of runs. */
  function FirstAttempting(runs: seq<JobRun>): (k: nat)
    ensures k <= |runs| && forall i | 0 <= i < k :: !Attempts(runs[i].faults)
    ensures k < |runs| ==> Attempts(runs[k].faults)
  {
    if runs == [] || Attempts(runs[0].faults) then 0 else 1 + FirstAttempting(runs[1..])
  }

  /** One of the runs got the month into the queue. */
  ghost predicate Inserted(runs: seq<JobRun>, month: int) {
    exists i | 0 <= i < |runs| :: Inserts(runs[i].faults) && TargetOf(runs[i]) == month
  }

  /** What runs that saved no marker have left behind. */
  ghost predicate OnlyQueued(s: JobState, runs: seq<JobRun>) {
    && s.marker.None? && s.settled == {} && s.mailed == []
    && s.firstPeriod == (if FirstAttempting(runs) < |runs| then Some(TargetOf(runs[FirstAttempting(runs)])) else None)
    && forall m :: m in s.pending <==> Inserted(runs, m)
  }

  lemma InsertedAppend(front: seq<JobRun>, last: JobRun, month: int)
    ensures Inserted(front + [last], month) <==>
      Inserted(front, month) || (Inserts(last.faults) && TargetOf(last) == month)
  {
    var runs := front + [last];
    if Inserted(front, month) {
      var i :| 0 <= i < |front| && Inserts(front[i].faults) && TargetOf(front[i]) == month;
      assert runs[i] == front[i];
    }
    if Inserts(last.faults) && TargetOf(last) == month {
      assert runs[|front|] == last;
    }
  }

  lemma {:induction false} AttemptingAppend(front: seq<JobRun>, last: JobRun)
    ensures FirstAttempting(front + [last])
         == if FirstAttempting(front) < |front| || Attempts(last.faults) then FirstAttempting(front) else |front| + 1
  {
    if front != [] && !Attempts(front[0].faults) {
      AttemptingAppend(front[1..], last);
      assert (front + [last])[1..] == front[1..] + [last];
    }
  }

  lemma QueueOnceMore(s: JobState, front: seq<JobRun>, last: JobRun)
    requires OnlyQueued(s, front) && !Saves(last.faults)
    ensures OnlyQueued(Run(s, last), front + [last])
  {
    hide MonthNumber, Queued;
    FirstQueueing(s, MonthNumber(last.today), last.faults);
    AttemptingAppend(front, last);
    forall m ensures Inserted(front + [last], m) <==> m in Run(s, last).pending {
      InsertedAppend(front, last, m);
    }
  }

  lemma {:induction false} BeforeTheMarker(runs: seq<JobRun>)
    requires forall i | 0 <= i < |runs| :: !Saves(runs[i].faults)
    ensures OnlyQueued(AfterRuns(INITIAL, runs), runs)
  {
    if runs != [] {
      var front, last := runs[..|runs| - 1], runs[|runs| - 1];
      assert runs == front + [last];
      BeforeTheMarker(front);
      RunsInTwoParts(INITIAL, front, [last]);
      OneRun(AfterRuns(INITIAL, front), last);
      QueueOnceMore(AfterRuns(INITIAL, front), front, last);
    }
  }

  lemma OneRun(s: JobState, run: JobRun)
    ensures AfterRuns(s, [run]) == Run(s, run)
  {
    assert [run][1..] == [];
  }

  lemma {:induction false} DatesAreOrdered(runs: seq<JobRun>, i: nat, j: nat)
    requires NeverBack(runs) && i <= j < |runs|
    ensures runs[i].today <= runs[j].today
    decreases j
  {
    if i < j {
      DatesAreOrdered(runs, i, j - 1);
      assert runs[j - 1].today <= runs[j].today;
    }
  }

  lemma NotStartedBefore(runs: seq<JobRun>, today: Date)
    requires forall i | 0 <= i < |runs| :: !Saves(runs[i].faults) && runs[i].today <= today
    ensures NotStarted(AfterRuns(INITIAL, runs), MonthNumber(today))
  {
    BeforeTheMarker(runs);
    hide MonthNumber;
    forall m | m in AfterRuns(INITIAL, runs).pending ensures m < MonthNumber(today) {
      var i :| 0 <= i < |runs| && Inserts(runs[i].faults) && TargetOf(runs[i]) == m;
      MonthNumbersAscend(runs[i].today, today);
    }
  }

  /** The runs up to and including the one that saves the first marker. */
  lemma TheFirstMarker(runs: seq<JobRun>, k: nat)
    requires NeverBack(runs) && k == FirstSaving(runs) < |runs|
    ensures AfterRuns(INITIAL, runs[..k + 1]) == Run(AfterRuns(INITIAL, runs[..k]), runs[k])
    ensures NotStarted(AfterRuns(INITIAL, runs[..k]), MonthNumber(runs[k].today))
    ensures Accounted(AfterRuns(INITIAL, runs[..k + 1]), TargetOf(runs[k]), MonthNumber(runs[k].today))
  {
    hide MonthNumber, Run, Accounted, NotStarted, AfterRuns, NeverBack, Saves;
    var before := runs[..k];
    forall i | 0 <= i < k ensures before[i].today <= runs[k].today {
      DatesAreOrdered(runs, i, k);
    }
    NotStartedBefore(before, runs[k].today);
    assert runs[..k + 1] == before + [runs[k]];
    RunsInTwoParts(INITIAL, before, [runs[k]]);
    OneRun(AfterRuns(INITIAL, before), runs[k]);
    FirstRun(AfterRuns(INITIAL, before), MonthNumber(runs[k].today), runs[k]);
  }

  lemma RestAscends(runs: seq<JobRun>, k: nat)
    requires NeverBack(runs) && k < |runs|
    ensures DatesAscend(runs[k].today, runs[k + 1..])
    ensures (if runs[k + 1..] == [] then runs[k].today else runs[k + 1..][|runs[k + 1..]| - 1].today)
         == runs[|runs| - 1].today
  {
    var rest := runs[k + 1..];
    forall i | 0 < i < |rest| ensures rest[i - 1].today <= rest[i].today {
      assert runs[k + i].today <= runs[k + 1 + i].today;
    }
    assert rest != [] ==> runs[k].today <= runs[k + 1].today;
  }

  lemma AccountSince(runs: seq<JobRun>, k: nat)
    requires NeverBack(runs) && k == FirstSaving(runs) < |runs|
    ensures Accounted(AfterRuns(INITIAL, runs), TargetOf(runs[k]), MonthNumber(runs[|runs| - 1].today))
  {
    hide MonthNumber, Run, Saves, Accounted, NotStarted, NeverBack, DatesAscend, AfterRuns;
    TheFirstMarker(runs, k);
    RestAscends(runs, k);
    assert runs == runs[..k + 1] + runs[k + 1..];
    RunsInTwoParts(INITIAL, runs[..k + 1], runs[k + 1..]);
    RunsKeepAccount(AfterRuns(INITIAL, runs[..k + 1]), TargetOf(runs[k]), runs[k].today, runs[k + 1..]);
  }

  /** A fresh installation, whatever fails in its runs: until a marker is saved nothing is settled or
      mailed; from then on every month from the target of the run that saved it up to the marker is pending
      or settled and never both. */
  lemma RunsFromTheStart(runs: seq<JobRun>)
    requires NeverBack(runs) && runs != []
    ensures
      var k, now := FirstSaving(runs), MonthNumber(runs[|runs| - 1].today);
      if k < |runs| then Accounted(AfterRuns(INITIAL, runs), TargetOf(runs[k]), now)
      else NotStarted(AfterRuns(INITIAL, runs), now)
  {
    hide MonthNumber, Run, Saves, Accounted, NotStarted, NeverBack, AfterRuns;
    var k := FirstSaving(runs);
    if k < |runs| {
      AccountSince(runs, k);
    } else {
      forall i | 0 <= i < |runs| ensures runs[i].today <= runs[|runs| - 1].today {
        DatesAreOrdered(runs, i, |runs| - 1);
      }
      NotStartedBefore(runs, runs[|runs| - 1].today);
    }
  }

  // ---------------------------------------------------------------------
  // The months before the first marker
  // ---------------------------------------------------------------------

  /** The month is queued or done with. */
  predicate Kept(s: JobState, month: int) {
    month in s.pending || month in s.settled
  }

  /** One queueing that saves the first marker keeps every month from the first period on if and only if
      those before its own target were in the queue already. */
  lemma FirstQueueingKeeps(s: JobState, last: int, now: int, faults: QueueFaults)
    requires NotStarted(s, last) && last <= now && Queued(s, now, faults).1
    ensures
      var queued := Queued(s, now, faults).0;
      && queued.firstPeriod.Some?
      && ((forall m | queued.firstPeriod.value <= m <= now - 1 :: Kept(queued, m)) <==>
          (s.firstPeriod.Some? ==> forall m | s.firstPeriod.value <= m <= now - 2 :: m in s.pending))
  {
    FirstQueueing(s, now, faults);
    var queued := Queued(s, now, faults).0;
    hide Queued;
    forall m ensures Kept(queued, m) <==> m in s.pending || m == now - 1 {}
    if s.firstPeriod.Some? && forall m | queued.firstPeriod.value <= m <= now - 1 :: Kept(queued, m) {
      forall m | s.firstPeriod.value <= m <= now - 2 ensures m in s.pending {
        assert Kept(queued, m);
      }
    }
  }

  /** Later runs neither lose nor bring back a month before the account begins. */
  lemma RunKeepsEarlierMonths(s: JobState, first: int, last: int, run: JobRun, month: int)
    requires Accounted(s, first, last) && last <= MonthNumber(run.today) && month < first
    ensures Kept(Run(s, run), month) <==> Kept(s, month)
    ensures Run(s, run).firstPeriod == s.firstPeriod
  {
    hide MonthNumber, Deferred;
    var (queued, ok) := Queued(s, MonthNumber(run.today), run.faults);
    if ok && run.Scheduled? && run.listed {
      ProcessingSettlesPending(queued, Ascending(queued.pending), run.today, run.dayOfMonth, run.reports);
      assert month in queued.pending + queued.settled <==> month in Run(s, run).pending + Run(s, run).settled;
    }
  }

  lemma {:induction false} RunsKeepEarlierMonths(s: JobState, first: int, last: Date, runs: seq<JobRun>, month: int)
    requires Accounted(s, first, MonthNumber(last)) && DatesAscend(last, runs) && month < first
    ensures Kept(AfterRuns(s, runs), month) <==> Kept(s, month)
    ensures AfterRuns(s, runs).firstPeriod == s.firstPeriod
    decreases |runs|
  {
    hide MonthNumber, Run, Kept;
    if runs != [] {
      MonthNumbersAscend(last, runs[0].today);
      RunKeepsAccount(s, first, MonthNumber(last), runs[0]);
      RunKeepsEarlierMonths(s, first, MonthNumber(last), runs[0], month);
      assert DatesAscend(runs[0].today, runs[1..]);
      RunsKeepEarlierMonths(Run(s, runs[0]), first, runs[0].today, runs[1..], month);
    }
  }

  lemma SavingRunKeeps(s: JobState, last: int, run: JobRun, month: int)
    requires NotStarted(s, last) && Saves(run.faults) && month < TargetOf(run)
    ensures Kept(Run(s, run), month) <==> month in s.pending
    ensures Run(s, run).firstPeriod == if s.firstPeriod.None? then Some(TargetOf(run)) else s.firstPeriod
  {
    hide MonthNumber, Deferred;
    FirstQueueing(s, MonthNumber(run.today), run.faults);
    var queued := Queued(s, MonthNumber(run.today), run.faults).0;
    hide Queued;
    if run.Scheduled? && run.listed {
      ProcessingSettlesPending(queued, Ascending(queued.pending), run.today, run.dayOfMonth, run.reports);
      assert month in queued.pending + queued.settled <==> month in Run(s, run).pending + Run(s, run).settled;
    }
  }

  /** What the first marker finds of the earlier months. */
  lemma FirstMarkerKeeps(runs: seq<JobRun>, k: nat, month: int)
    requires NeverBack(runs) && k == FirstSaving(runs) < |runs| && month < TargetOf(runs[k])
    ensures Kept(AfterRuns(INITIAL, runs[..k + 1]), month) <==> Inserted(runs[..k], month)
    ensures AfterRuns(INITIAL, runs[..k + 1]).firstPeriod == Some(TargetOf(runs[FirstAttempting(runs)]))
  {
    hide MonthNumber, Run, Inserted, NeverBack, Accounted, NotStarted;
    TheFirstMarker(runs, k);
    BeforeTheMarker(runs[..k]);
    AttemptingPrefix(runs, k);
    SavingRunKeeps(AfterRuns(INITIAL, runs[..k]), MonthNumber(runs[k].today), runs[k], month);
  }

  lemma AttemptingPrefix(runs: seq<JobRun>, k: nat)
    requires k < |runs| && Attempts(runs[k].faults)
    ensures FirstAttempting(runs) == if FirstAttempting(runs[..k]) < k then FirstAttempting(runs[..k]) else k
  {
    var a, p := FirstAttempting(runs), FirstAttempting(runs[..k]);
    assert a <= k;
    assert a < k ==> Attempts(runs[..k][a].faults);
    assert p < k ==> Attempts(runs[p].faults);
  }

  lemma AttemptsFirst(runs: seq<JobRun>)
    requires FirstSaving(runs) < |runs|
    ensures FirstAttempting(runs) <= FirstSaving(runs)
  {
  }

  lemma EarlierMonthIsKept(runs: seq<JobRun>, month: int)
    requires NeverBack(runs) && FirstSaving(runs) < |runs| && month < TargetOf(runs[FirstSaving(runs)])
    ensures Kept(AfterRuns(INITIAL, runs), month) <==> Inserted(runs[..FirstSaving(runs)], month)
    ensures AfterRuns(INITIAL, runs).firstPeriod == Some(TargetOf(runs[FirstAttempting(runs)]))
  {
    hide MonthNumber, AfterRuns, Inserted, Saves, Kept, Accounted, NotStarted, NeverBack, DatesAscend, Run;
    hide FirstAttempting, FirstSaving;
    var k := FirstSaving(runs);
    TheFirstMarker(runs, k);
    RestAscends(runs, k);
    assert runs == runs[..k + 1] + runs[k + 1..];
    RunsInTwoParts(INITIAL, runs[..k + 1], runs[k + 1..]);
    RunsKeepEarlierMonths(AfterRuns(INITIAL, runs[..k + 1]), TargetOf(runs[k]), runs[k].today, runs[k + 1..], month);
    FirstMarkerKeeps(runs, k, month);
  }

  /** Over every run of a fresh installation: a month before the one the account begins with is kept
      exactly when one of the runs before the first marker inserted it. So all months from the first period
      ever attempted up to the marker are kept if and only if each month between that period and the target
      of the run that saved the first marker had a run that got its insert through. */
  lemma FirstMonthsAreKept(runs: seq<JobRun>)
    requires NeverBack(runs) && FirstSaving(runs) < |runs|
    ensures
      var k, after := FirstSaving(runs), AfterRuns(INITIAL, runs);
      var from := TargetOf(runs[FirstAttempting(runs)]);
      && after.firstPeriod == Some(from) && after.marker.Some?
      && (forall m | m < TargetOf(runs[k]) :: Kept(after, m) <==> Inserted(runs[..k], m))
      && ((forall m | from <= m <= after.marker.value :: Kept(after, m)) <==>
          (forall m | from <= m < TargetOf(runs[k]) :: Inserted(runs[..k], m)))
  {
    hide MonthNumber, AfterRuns, Inserted, Saves, NeverBack, FirstAttempting;
    var k, after := FirstSaving(runs), AfterRuns(INITIAL, runs);
    var first := TargetOf(runs[k]);
    RunsFromTheStart(runs);
    EarlierMonthIsKept(runs, first - 1);
    forall m | m < first ensures Kept(after, m) <==> Inserted(runs[..k], m) {
      EarlierMonthIsKept(runs, m);
    }
    assert forall m | first <= m <= after.marker.value :: Kept(after, m);
    AttemptsFirst(runs);
    hide Kept, Accounted;
    var from := TargetOf(runs[FirstAttempting(runs)]);
    if forall m | from <= m <= after.marker.value :: Kept(after, m) {
      forall m | from <= m < first ensures Inserted(runs[..k], m) {
        assert Kept(after, m);
      }
    }
  }

  /** Such a month can be left out for good: its queueing fails until the next month begins. */
  lemma FirstPeriodCanBeLeftOut(today: Date, dayOfMonth: nat, reports: int -> Report, more: seq<JobRun>)
    requires DatesAscend(FirstDay(Following(MonthAt(today))), more)
    ensures
      var after := AfterRuns(INITIAL, LateStart(today, dayOfMonth, reports) + more);
      after.firstPeriod == Some(MonthNumber(today) - 1) && !Kept(after, MonthNumber(today) - 1)
  {
    hide MonthNumber, FirstDay, AfterRuns, Kept, LateStart, NeverBack, DatesAscend, FirstSaving, FirstAttempting;
    var runs := LateStart(today, dayOfMonth, reports) + more;
    LateStartRuns(today, dayOfMonth, reports, more);
    FirstMonthsAreKept(runs);
    NextMonthBegins(today);
    assert !Inserted(runs[..1], MonthNumber(today) - 1);
  }

  lemma LateStartRuns(today: Date, dayOfMonth: nat, reports: int -> Report, more: seq<JobRun>)
    requires DatesAscend(FirstDay(Following(MonthAt(today))), more)
    ensures
      var runs := LateStart(today, dayOfMonth, reports) + more;
      && |runs| >= 2 && NeverBack(runs) && FirstSaving(runs) == 1 && FirstAttempting(runs) == 0
      && runs[0].today == today && runs[1].today == FirstDay(Following(MonthAt(today)))
      && !Inserts(runs[0].faults)
  {
    hide MonthNumber, FirstDay;
    NextMonthBegins(today);
    var start := LateStart(today, dayOfMonth, reports);
    var runs := start + more;
    assert runs[0] == start[0] && runs[1] == start[1];
    forall i | 0 < i < |runs| ensures runs[i - 1].today <= runs[i].today {
      if i >= 2 {
        assert runs[i] == more[i - 2] && (i > 2 ==> runs[i - 1] == more[i - 3]);
        assert i > 2 ==> more[i - 3].today <= more[i - 2].today;
      }
    }
  }

  function LateStart(today: Date, dayOfMonth: nat, reports: int -> Report): seq<JobRun> {
    [Scheduled(today, dayOfMonth, QueueFaults(true, true, 0, true), true, reports),
     Scheduled(FirstDay(Following(MonthAt(today))), dayOfMonth, QueueFaults(true, true, 1, true), true, reports)]
  }

  lemma NextMonthBegins(today: Date)
    ensures MonthNumber(FirstDay(Following(MonthAt(today)))) == MonthNumber(today) + 1
    ensures today < FirstDay(Following(MonthAt(today)))
  {
    var m := MonthAt(today);
    FollowingMonth(m);
    DaysOfMonth(m, today);
    var next := Following(m);
    FollowingMonth(next);
    DaysOfMonth(next, FirstDay(next));
  }
}
