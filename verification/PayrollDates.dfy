/** The payroll job on dates that may go back: which sequences of dates can put a settled month back into
    the queue, and which cannot. */
module PayrollDates {
  import opened Calendar
  import opened Periods
  import opened PayrollJobs
  import opened PayrollStarts
  import opened Wrappers

  // ---------------------------------------------------------------------
  // One queueing and the next
  // ---------------------------------------------------------------------

  /** In any state, on any date and with any faults one queueing keeps pending and settled months apart if
      and only if it inserts no settled month. */
  lemma QueueingRequeues(s: JobState, now: int, faults: QueueFaults)
    requires s.pending !! s.settled
    ensures Queued(s, now, faults).0.pending !! Queued(s, now, faults).0.settled <==>
            forall m | m in s.settled :: !InsertsMonth(s.marker, now, faults, m)
  {
    QueueingExactly(s, now, faults);
    var queued := Queued(s, now, faults).0;
    hide Queued, InsertsMonth;
    if queued.pending !! queued.settled {
      forall m | m in s.settled ensures !InsertsMonth(s.marker, now, faults, m) {
        assert m in queued.settled && m !in queued.pending;
      }
    }
    if forall m | m in s.settled :: !InsertsMonth(s.marker, now, faults, m) {
      forall m | m in queued.settled ensures m !in queued.pending {
        assert m in s.settled;
      }
    }
  }

  /** While no date has gone back yet that is: nothing is inserted, the target is not before the marker, or
      it is not settled. The marker follows the target all the same. */
  lemma EarlierDateRequeues(s: JobState, first: int, last: int, now: int, faults: QueueFaults)
    requires Accounted(s, first, last)
    ensures
      var queued := Queued(s, now, faults).0;
      && (queued.pending !! queued.settled <==>
            !faults.readable || faults.enqueues == 0 || now - 1 >= s.marker.value || now - 1 !in s.settled)
      && (now - 1 < s.marker.value && faults.readable && faults.enqueues > 0 && faults.markerSaved ==>
            queued.marker == Some(now - 1))
  {
    QueueingExactly(s, now, faults);
    QueueingRequeues(s, now, faults);
    hide Queued;
    if now - 1 < s.marker.value && now - 1 in s.settled {
      assert InsertsMonth(s.marker, now, faults, now - 1) <==> faults.readable && faults.enqueues > 0;
    }
  }

  /** After a queueing on an earlier date the next ordinary one keeps them apart if and only if the earlier
      one inserted nothing, or its target was not settled and it did not lower the marker below a settled
      month. */
  lemma NextQueueingRequeues(s: JobState, first: int, last: int, now: int, faults: QueueFaults, later: int, good: QueueFaults)
    requires Accounted(s, first, last) && now - 1 < s.marker.value < later
    requires good.readable && good.enqueues >= later - now
    ensures
      var back := Queued(s, now, faults).0;
      var next := Queued(back, later, good).0;
      next.pending !! next.settled <==>
        || !faults.readable || faults.enqueues == 0
        || (now - 1 !in s.settled && (!faults.markerSaved || forall m | m in s.settled :: m < now))
  {
    var back := Queued(s, now, faults).0;
    QueueingExactly(s, now, faults);
    QueueingExactly(back, later, good);
    var next := Queued(back, later, good).0;
    hide Queued;
    assert InsertsMonth(s.marker, now, faults, now - 1) <==> faults.readable && faults.enqueues > 0;
    forall m | m in s.settled
      ensures m in next.pending <==>
        faults.readable && faults.enqueues > 0 && (m == now - 1 || (faults.markerSaved && m >= now))
    {
      assert m in back.pending <==> faults.readable && faults.enqueues > 0 && m == now - 1;
      assert m <= s.marker.value;
    }
    if next.pending !! next.settled {
      forall m | m in s.settled ensures m !in next.pending {
        assert m in next.settled;
      }
    }
  }

  // ---------------------------------------------------------------------
  // Any sequence of dates
  // ---------------------------------------------------------------------

  function DatesOf(runs: seq<JobRun>): (dates: seq<Date>)
    ensures |dates| == |runs| && forall i | 0 <= i < |runs| :: dates[i] == runs[i].today
  {
    if runs == [] then [] else DatesOf(runs[..|runs| - 1]) + [runs[|runs| - 1].today]
  }

  /** Of three dates in order the last is in a month the job had been past and come back to: it fell back
      to no earlier than the first, or fell back and returned to at least the first. */
  predicate Returns(x: int, y: int, z: int) {
    x <= z < y || y < x <= z
  }

  ghost predicate ComesBack(dates: seq<Date>) {
    exists i, j, k | 0 <= i < j < k < |dates| ::
      Returns(MonthNumber(dates[i]), MonthNumber(dates[j]), MonthNumber(dates[k]))
  }

  /** A run of index below `n` could have inserted the month: as its target, or between an earlier target
      and its own. */
  ghost predicate Origin(dates: seq<Date>, month: int, n: nat) {
    || (exists i | 0 <= i < n && i < |dates| :: month == MonthNumber(dates[i]) - 1)
    || (exists h, i | 0 <= h < i < n && i < |dates| :: MonthNumber(dates[h]) <= month < MonthNumber(dates[i]))
  }

  /** The marker is the target of run `k`, and every settled month comes from a run up to it. */
  ghost predicate MarkerOf(s: JobState, dates: seq<Date>, k: nat) {
    && k < |dates| && s.marker == Some(MonthNumber(dates[k]) - 1)
    && forall m | m in s.settled :: Origin(dates, m, k + 1)
  }

  ghost predicate InStep(s: JobState, dates: seq<Date>) {
    && s.pending !! s.settled
    && (forall m | m in s.pending :: Origin(dates, m, |dates|))
    && (if s.marker.None? then s.settled == {} else exists k: nat :: MarkerOf(s, dates, k))
  }

  lemma OriginStays(dates: seq<Date>, today: Date, month: int, n: nat)
    requires Origin(dates, month, n) && n <= |dates|
    ensures Origin(dates + [today], month, n) && Origin(dates + [today], month, |dates| + 1)
  {
    hide MonthNumber;
    var more := dates + [today];
    if i :| 0 <= i < n && month == MonthNumber(dates[i]) - 1 {
      assert more[i] == dates[i];
    } else {
      var h, i :| 0 <= h < i < n && MonthNumber(dates[h]) <= month < MonthNumber(dates[i]);
      assert more[h] == dates[h] && more[i] == dates[i];
    }
  }

  lemma PrefixComesBack(dates: seq<Date>, today: Date)
    requires ComesBack(dates)
    ensures ComesBack(dates + [today])
  {
    hide MonthNumber;
    var more := dates + [today];
    var i, j, k :| 0 <= i < j < k < |dates| &&
      Returns(MonthNumber(dates[i]), MonthNumber(dates[j]), MonthNumber(dates[k]));
    assert more[i] == dates[i] && more[j] == dates[j] && more[k] == dates[k];
  }

  lemma ReturnsAt(dates: seq<Date>, i: int, j: int, k: int)
    requires 0 <= i < j < k < |dates|
    requires Returns(MonthNumber(dates[i]), MonthNumber(dates[j]), MonthNumber(dates[k]))
    ensures ComesBack(dates)
  {
  }

  /** A settled month that would be inserted again makes the dates come back. */
  lemma RequeueMeansReturn(s: JobState, dates: seq<Date>, today: Date, faults: QueueFaults, month: int)
    requires InStep(s, dates) && month in s.settled
    requires InsertsMonth(s.marker, MonthNumber(today), faults, month)
    ensures ComesBack(dates + [today])
  {
    hide MonthNumber;
    var more, n, now := dates + [today], |dates|, MonthNumber(today);
    assert more[n] == today && forall i | 0 <= i < n :: more[i] == dates[i];
    var k: nat :| MarkerOf(s, dates, k);
    if i :| 0 <= i <= k && month == MonthNumber(dates[i]) - 1 {
      assert i < k;
      ReturnsAt(more, i, k, n);
    } else {
      var h, i :| 0 <= h < i <= k && MonthNumber(dates[h]) <= month < MonthNumber(dates[i]);
      if now < MonthNumber(dates[i]) {
        ReturnsAt(more, h, i, n);
      } else {
        assert i < k;
        ReturnsAt(more, i, k, n);
      }
    }
  }

  /** What a run inserts has its origin in it. */
  lemma InsertedHasOrigin(s: JobState, dates: seq<Date>, today: Date, faults: QueueFaults, month: int)
    requires InStep(s, dates) && InsertsMonth(s.marker, MonthNumber(today), faults, month)
    ensures Origin(dates + [today], month, |dates| + 1)
  {
    hide MonthNumber;
    var more, n := dates + [today], |dates|;
    assert more[n] == today;
    if month != MonthNumber(today) - 1 {
      var k: nat :| MarkerOf(s, dates, k);
      assert more[k] == dates[k];
    }
  }

  lemma StepKeepsApart(s: JobState, dates: seq<Date>, run: JobRun)
    requires InStep(s, dates) && !ComesBack(dates + [run.today])
    ensures InStep(Run(s, run), dates + [run.today])
    ensures forall m | m in s.settled :: !InsertsMonth(s.marker, MonthNumber(run.today), run.faults, m)
  {
    hide MonthNumber, Run, Passes, InsertsMonth, Deferred, Settles, ComesBack, Origin;
    var more, n, after := dates + [run.today], |dates|, Run(s, run);
    assert more[n] == run.today && forall i | 0 <= i < n :: more[i] == dates[i];
    forall m | m in s.settled ensures !InsertsMonth(s.marker, MonthNumber(run.today), run.faults, m) {
      if InsertsMonth(s.marker, MonthNumber(run.today), run.faults, m) {
        RequeueMeansReturn(s, dates, run.today, run.faults, m);
      }
    }
    forall m ensures m !in after.pending || m !in after.settled {
      RunExactly(s, run, m);
    }
    forall m | m in after.pending || (m in after.settled && m !in s.settled) ensures Origin(more, m, n + 1) {
      RunExactly(s, run, m);
      if m in s.pending {
        OriginStays(dates, run.today, m, n);
      } else {
        InsertedHasOrigin(s, dates, run.today, run.faults, m);
      }
    }
    MarkerMoves(s, dates, run);
  }

  lemma MarkerMoves(s: JobState, dates: seq<Date>, run: JobRun)
    requires InStep(s, dates)
    requires forall m | m in Run(s, run).settled && m !in s.settled :: Origin(dates + [run.today], m, |dates| + 1)
    ensures if Run(s, run).marker.None? then Run(s, run).settled == {}
            else exists k: nat :: MarkerOf(Run(s, run), dates + [run.today], k)
  {
    hide MonthNumber, Run, Passes, InsertsMonth, Deferred, Settles, Origin;
    var more, n, after := dates + [run.today], |dates|, Run(s, run);
    assert more[n] == run.today && forall i | 0 <= i < n :: more[i] == dates[i];
    forall m ensures m in after.settled && m !in s.settled ==> Passes(s.marker, MonthNumber(run.today), run.faults) {
      RunExactly(s, run, m);
    }
    RunExactly(s, run, 0);
    if s.marker.Some? {
      var k: nat :| MarkerOf(s, dates, k);
      forall m | m in s.settled ensures Origin(more, m, k + 1) && Origin(more, m, n + 1) {
        OriginStays(dates, run.today, m, k + 1);
      }
      if Passes(s.marker, MonthNumber(run.today), run.faults) {
        assert MarkerOf(after, more, n) by {
          forall m | m in after.settled ensures Origin(more, m, n + 1) {}
        }
      } else {
        assert MarkerOf(after, more, k);
      }
    } else if Passes(s.marker, MonthNumber(run.today), run.faults) {
      assert MarkerOf(after, more, n);
    } else {
      forall m ensures m !in after.settled {
        RunExactly(s, run, m);
      }
    }
  }

  lemma DatesAppend(front: seq<JobRun>, last: JobRun)
    ensures DatesOf(front + [last]) == DatesOf(front) + [last.today]
  {
  }

  lemma {:induction false} StaysInStep(runs: seq<JobRun>)
    requires !ComesBack(DatesOf(runs))
    ensures InStep(AfterRuns(INITIAL, runs), DatesOf(runs))
  {
    hide Run, MonthNumber, ComesBack, InStep;
    if runs == [] {
      FreshInStep();
    } else {
      var front, last := runs[..|runs| - 1], runs[|runs| - 1];
      assert runs == front + [last];
      DatesAppend(front, last);
      if ComesBack(DatesOf(front)) {
        PrefixComesBack(DatesOf(front), last.today);
      }
      StaysInStep(front);
      RunsInTwoParts(INITIAL, front, [last]);
      OneRun(AfterRuns(INITIAL, front), last);
      StepKeepsApart(AfterRuns(INITIAL, front), DatesOf(front), last);
    }
  }

  lemma FreshInStep()
    ensures InStep(INITIAL, [])
  {
  }

  // ---------------------------------------------------------------------
  // Dates that come back do harm
  // ---------------------------------------------------------------------

  function AllAccepted(): int -> Report {
    (m: int) => Report(Accepted, [Recorded])
  }

  /** A night in which everything works. */
  function GoodNight(today: Date, enqueues: nat): JobRun {
    Scheduled(today, 1, QueueFaults(true, true, enqueues, true), true, AllAccepted())
  }

  function GoodRun(today: Date): JobRun {
    GoodNight(today, 1)
  }

  function GoodClick(today: Date, enqueues: nat): JobRun {
    Manual(today, QueueFaults(true, true, enqueues, true))
  }

  /** A run that cannot even read its marker. */
  function IdleRun(today: Date): JobRun {
    Manual(today, QueueFaults(false, false, 0, false))
  }

  lemma IdleChangesNothing(s: JobState, today: Date)
    ensures Run(s, IdleRun(today)) == s
  {
  }

  /** A good night settles whatever is pending and all it inserts. */
  lemma GoodNightSettles(s: JobState, today: Date, enqueues: nat, month: int)
    requires MonthsMissing(s.marker, MonthNumber(today)) <= enqueues
    ensures
      var after := Run(s, GoodNight(today, enqueues));
      && after.marker == Some(MonthNumber(today) - 1) && month !in after.pending
      && (month in after.settled <==>
            month in s.settled || month in s.pending
            || InsertsMonth(s.marker, MonthNumber(today), GoodNight(today, enqueues).faults, month))
  {
    hide MonthNumber, Run, DayOf;
    var night := GoodNight(today, enqueues);
    RunExactly(s, night, month);
    assert RecordsFrom(night.reports(month).accounting, 0);
  }

  /** What two good nights and a click on dates that come back leave of the first target. */
  lemma ReturningRunsClash(s: JobState, x: Date, y: Date, z: Date, enqueues: nat)
    requires s == INITIAL && Returns(MonthNumber(x), MonthNumber(y), MonthNumber(z))
    requires enqueues >= 1 && enqueues >= MonthNumber(y) - MonthNumber(x) && enqueues >= MonthNumber(z) - MonthNumber(y)
    ensures
      var t := Run(Run(Run(s, GoodNight(x, enqueues)), GoodNight(y, enqueues)), GoodClick(z, enqueues));
      var month := if MonthNumber(z) < MonthNumber(y) then MonthNumber(z) - 1 else MonthNumber(x) - 1;
      month in t.pending && month in t.settled
  {
    hide MonthNumber, Run;
    var month := if MonthNumber(z) < MonthNumber(y) then MonthNumber(z) - 1 else MonthNumber(x) - 1;
    var s1 := Run(s, GoodNight(x, enqueues));
    GoodNightSettles(s, x, enqueues, month);
    GoodNightSettles(s1, y, enqueues, month);
    var s2 := Run(s1, GoodNight(y, enqueues));
    RunExactly(s2, GoodClick(z, enqueues), month);
  }

  /** The runs on the given dates in which only three do anything. */
  function HarmfulRun(dates: seq<Date>, i: int, j: int, k: int, enqueues: nat, n: nat): JobRun
    requires n < |dates|
  {
    if n == i || n == j then GoodNight(dates[n], enqueues)
    else if n == k then GoodClick(dates[n], enqueues)
    else IdleRun(dates[n])
  }

  function HarmfulRuns(dates: seq<Date>, i: int, j: int, k: int, enqueues: nat, n: nat): (runs: seq<JobRun>)
    requires n <= |dates|
    ensures |runs| == n && DatesOf(runs) == dates[..n]
  {
    if n == 0 then []
    else
      var front := HarmfulRuns(dates, i, j, k, enqueues, n - 1);
      DatesAppend(front, HarmfulRun(dates, i, j, k, enqueues, n - 1));
      front + [HarmfulRun(dates, i, j, k, enqueues, n - 1)]
  }

  lemma {:induction false} HarmfulState(dates: seq<Date>, i: int, j: int, k: int, enqueues: nat, n: nat)
    requires 0 <= i < j < k < |dates| && n <= |dates|
    ensures
      var s1 := Run(INITIAL, GoodNight(dates[i], enqueues));
      var s2 := Run(s1, GoodNight(dates[j], enqueues));
      AfterRuns(INITIAL, HarmfulRuns(dates, i, j, k, enqueues, n))
        == if n <= i then INITIAL else if n <= j then s1 else if n <= k then s2
           else Run(s2, GoodClick(dates[k], enqueues))
    decreases n
  {
    hide Run, MonthNumber, DatesOf;
    if n > 0 {
      HarmfulState(dates, i, j, k, enqueues, n - 1);
      var front, last := HarmfulRuns(dates, i, j, k, enqueues, n - 1), HarmfulRun(dates, i, j, k, enqueues, n - 1);
      RunsInTwoParts(INITIAL, front, [last]);
      OneRun(AfterRuns(INITIAL, front), last);
      if n - 1 != i && n - 1 != j && n - 1 != k {
        IdleChangesNothing(AfterRuns(INITIAL, front), dates[n - 1]);
      }
    }
  }

  function Enough(x: int, y: int, z: int): (e: nat)
    ensures e >= 1 && e >= y - x && e >= z - y
  {
    1 + (if y > x then y - x else 0) + (if z > y then z - y else 0)
  }

  lemma ReturningDatesHarm(dates: seq<Date>) returns (runs: seq<JobRun>)
    requires ComesBack(dates)
    ensures DatesOf(runs) == dates && !(AfterRuns(INITIAL, runs).pending !! AfterRuns(INITIAL, runs).settled)
  {
    hide MonthNumber, Run, AfterRuns;
    var i, j, k :| 0 <= i < j < k < |dates| &&
      Returns(MonthNumber(dates[i]), MonthNumber(dates[j]), MonthNumber(dates[k]));
    var enqueues := Enough(MonthNumber(dates[i]), MonthNumber(dates[j]), MonthNumber(dates[k]));
    runs := HarmfulRuns(dates, i, j, k, enqueues, |dates|);
    assert dates[..|dates|] == dates;
    HarmfulState(dates, i, j, k, enqueues, |dates|);
    ReturningRunsClash(INITIAL, dates[i], dates[j], dates[k], enqueues);
  }

  /** On a given sequence of dates, going forward or back, no run of the job ever has a settled month in
      its queue, whatever fails and whatever the reports come to, if and only if the dates never come back
      to a month they have passed. */
  lemma DatesDecide(dates: seq<Date>)
    ensures (forall runs | DatesOf(runs) == dates :: AfterRuns(INITIAL, runs).pending !! AfterRuns(INITIAL, runs).settled)
       <==> !ComesBack(dates)
  {
    hide MonthNumber, Run, AfterRuns, ComesBack, DatesOf;
    if ComesBack(dates) {
      var runs := ReturningDatesHarm(dates);
      assert DatesOf(runs) == dates;
    } else {
      forall runs | DatesOf(runs) == dates
        ensures AfterRuns(INITIAL, runs).pending !! AfterRuns(INITIAL, runs).settled
      {
        StaysInStep(runs);
      }
    }
  }

  /** Dates that never go back never come back. */
  lemma NeverBackNeverReturns(runs: seq<JobRun>)
    requires NeverBack(runs)
    ensures !ComesBack(DatesOf(runs))
  {
    hide MonthNumber;
    var dates := DatesOf(runs);
    forall i, j, k | 0 <= i < j < k < |dates|
      ensures !Returns(MonthNumber(dates[i]), MonthNumber(dates[j]), MonthNumber(dates[k]))
    {
      DatesAreOrdered(runs, i, j);
      DatesAreOrdered(runs, j, k);
      MonthNumbersAscend(dates[i], dates[j]);
      MonthNumbersAscend(dates[j], dates[k]);
    }
  }

  // ---------------------------------------------------------------------
  // No month is lost on any dates
  // ---------------------------------------------------------------------

  ghost predicate Covered(s: JobState, first: int) {
    s.marker.Some? && forall m | first <= m <= s.marker.value :: Kept(s, m)
  }

  lemma RunCovers(s: JobState, first: int, run: JobRun)
    requires Covered(s, first)
    ensures Covered(Run(s, run), first)
  {
    hide MonthNumber, Run, NightSettles;
    RunExactly(s, run, first);
    forall m | first <= m <= Run(s, run).marker.value ensures Kept(Run(s, run), m) {
      RunExactly(s, run, m);
      if m <= s.marker.value {
        assert Kept(s, m);
      }
    }
  }

  lemma {:induction false} RunsCover(s: JobState, first: int, runs: seq<JobRun>)
    requires Covered(s, first)
    ensures Covered(AfterRuns(s, runs), first)
    decreases |runs|
  {
    hide Run, Covered;
    if runs != [] {
      RunCovers(s, first, runs[0]);
      RunsCover(Run(s, runs[0]), first, runs[1..]);
    }
  }

  /** The run that saves the first marker covers its target. */
  lemma FirstMarkerCovers(s: JobState, run: JobRun)
    requires s.marker.None? && Saves(run.faults)
    ensures Covered(Run(s, run), TargetOf(run))
  {
    hide MonthNumber, Run, NightSettles;
    RunExactly(s, run, TargetOf(run));
  }

  /** On any dates, forward or back, and with any faults: from the run that saves the first marker on,
      every month from its target up to the marker is pending or settled. */
  lemma MonthsAreCovered(runs: seq<JobRun>)
    requires FirstSaving(runs) < |runs|
    ensures Covered(AfterRuns(INITIAL, runs), TargetOf(runs[FirstSaving(runs)]))
  {
    hide MonthNumber, Run, Covered, Saves, AfterRuns;
    var k := FirstSaving(runs);
    NoMarkerBefore(runs, k);
    FirstMarkerCovers(AfterRuns(INITIAL, runs[..k]), runs[k]);
    RunsAround(INITIAL, runs, k);
    RunsCover(Run(AfterRuns(INITIAL, runs[..k]), runs[k]), TargetOf(runs[k]), runs[k + 1..]);
  }

  lemma NoMarkerBefore(runs: seq<JobRun>, k: nat)
    requires k == FirstSaving(runs) < |runs|
    ensures AfterRuns(INITIAL, runs[..k]).marker.None?
  {
    hide Saves, AfterRuns;
    BeforeTheMarker(runs[..k]);
  }

  lemma RunsAround(s: JobState, runs: seq<JobRun>, k: nat)
    requires k < |runs|
    ensures AfterRuns(s, runs) == AfterRuns(Run(AfterRuns(s, runs[..k]), runs[k]), runs[k + 1..])
  {
    hide Run;
    var front, rest := runs[..k] + [runs[k]], runs[k + 1..];
    assert runs == front + rest;
    RunsInTwoParts(s, front, rest);
    RunsInTwoParts(s, runs[..k], [runs[k]]);
    OneRun(AfterRuns(s, runs[..k]), runs[k]);
  }

  // ---------------------------------------------------------------------
  // Settled for good
  // ---------------------------------------------------------------------

  lemma RunLeavesSettled(s: JobState, run: JobRun, month: int)
    requires s.pending !! s.settled && month in s.settled
    requires !InsertsMonth(s.marker, MonthNumber(run.today), run.faults, month)
    ensures month in Run(s, run).settled && Mails(Run(s, run).mailed, month) == Mails(s.mailed, month)
  {
    hide MonthNumber, Deferred, Settles, Passes, InsertsMonth, Mails;
    RunExactly(s, run, month);
    QueueingExactly(s, MonthNumber(run.today), run.faults);
    var (queued, ok) := Queued(s, MonthNumber(run.today), run.faults);
    hide Queued;
    if ok && run.Scheduled? && run.listed {
      NightlyRunAnswersEachMonth(s, run, month);
    }
  }

  /** On dates that never come back no month is mailed by schedule, queued again or lost from the settled
      ones after it was settled once, in any life of an installation. */
  lemma {:induction false} SettledForGood(before: seq<JobRun>, after: seq<JobRun>, month: int)
    requires !ComesBack(DatesOf(before + after)) && month in AfterRuns(INITIAL, before).settled
    ensures month in AfterRuns(INITIAL, before + after).settled
    ensures month !in AfterRuns(INITIAL, before + after).pending
    ensures Mails(AfterRuns(INITIAL, before + after).mailed, month) == Mails(AfterRuns(INITIAL, before).mailed, month)
    decreases |after|
  {
    hide MonthNumber, Run, Mails, ComesBack;
    StaysInStep(before + after);
    if after == [] {
      assert before + after == before;
    } else {
      var front, last := after[..|after| - 1], after[|after| - 1];
      var runs := before + front;
      assert before + after == runs + [last];
      DatesAppend(runs, last);
      if ComesBack(DatesOf(runs)) {
        PrefixComesBack(DatesOf(runs), last.today);
      }
      SettledForGood(before, front, month);
      StaysInStep(runs);
      StepKeepsApart(AfterRuns(INITIAL, runs), DatesOf(runs), last);
      RunLeavesSettled(AfterRuns(INITIAL, runs), last, month);
      RunsInTwoParts(INITIAL, runs, [last]);
      OneRun(AfterRuns(INITIAL, runs), last);
    }
  }

  // ---------------------------------------------------------------------
  // Examples
  // ---------------------------------------------------------------------

  lemma ThreeRuns(s: JobState, a: JobRun, b: JobRun, c: JobRun)
    ensures AfterRuns(s, [a, b, c]) == Run(Run(Run(s, a), b), c)
  {
    hide Run;
    assert [a, b] == [a] + [b] && [a, b, c] == [a, b] + [c];
    RunsInTwoParts(s, [a], [b]);
    RunsInTwoParts(s, [a, b], [c]);
    OneRun(s, a);
    OneRun(Run(s, a), b);
    OneRun(Run(Run(s, a), b), c);
  }

  /** Two good nights in consecutive months and a click with the date set back to the first queue a settled
      month. */
  lemma ADateGoingBackRequeues(today: Date)
    ensures
      var later := FirstDay(Following(MonthAt(today)));
      var runs := [GoodRun(today), GoodRun(later), GoodClick(today, 1)];
      !(AfterRuns(INITIAL, runs).pending !! AfterRuns(INITIAL, runs).settled)
  {
    hide MonthNumber, FirstDay, Run, AfterRuns;
    var later := FirstDay(Following(MonthAt(today)));
    NextMonthBegins(today);
    ReturningRunsClash(INITIAL, today, later, today, 1);
    ThreeRuns(INITIAL, GoodRun(today), GoodRun(later), GoodClick(today, 1));
  }

  /** A good night mails what it settles. */
  lemma GoodNightMails(s: JobState, today: Date, enqueues: nat, month: int)
    requires MonthsMissing(s.marker, MonthNumber(today)) <= enqueues
    ensures Mails(Run(s, GoodNight(today, enqueues)).mailed, month) == Mails(s.mailed, month) +
      if month in s.pending || InsertsMonth(s.marker, MonthNumber(today), GoodNight(today, enqueues).faults, month)
      then 1 else 0
  {
    hide MonthNumber, DayOf, Mails, Settles;
    var night := GoodNight(today, enqueues);
    QueueingExactly(s, MonthNumber(today), night.faults);
    hide Queued;
    NightlyRunAnswersEachMonth(s, night, month);
  }

  /** A click on a date two months back, whose target is not even settled, lowers the marker, and the next
      good night on the right date mails a settled month a second time. */
  lemma AMonthIsMailedTwice(today: Date, back: Date)
    requires MonthNumber(back) == MonthNumber(today) - 2
    ensures
      var month := MonthNumber(today) - 1;
      var clicked := AfterRuns(INITIAL, [GoodNight(today, 2), GoodClick(back, 1)]);
      var after := AfterRuns(INITIAL, [GoodNight(today, 2), GoodClick(back, 1), GoodNight(today, 2)]);
      && clicked.pending !! clicked.settled && month in clicked.settled && clicked.marker == Some(month - 2)
      && Mails(after.mailed, month) == 2
  {
    hide MonthNumber, Run, AfterRuns, Mails, InsertsMonth;
    var night, click, month := GoodNight(today, 2), GoodClick(back, 1), MonthNumber(today) - 1;
    var s1 := Run(INITIAL, night);
    forall m ensures m !in s1.pending && (m in s1.settled <==> m == month) {
      FirstInsert(month + 1, 2, m);
      GoodNightSettles(INITIAL, today, 2, m);
    }
    FirstInsert(month + 1, 2, month);
    GoodNightSettles(INITIAL, today, 2, month);
    assert s1.marker == Some(month);
    var s2 := Run(s1, click);
    forall m ensures (m in s2.settled <==> m == month) && (m in s2.pending <==> m == month - 2) {
      RunExactly(s1, click, m);
      BackInsert(month, m);
    }
    RunExactly(s1, click, month);
    BackInsert(month, month);
    assert s2.marker == Some(month - 2);
    GoodNightMails(INITIAL, today, 2, month);
    ClickMailsNothing(s1, click);
    CatchUpInsert(month, month);
    GoodNightMails(s2, today, 2, month);
    assert Mails([], month) == 0 by {
      NoMails(month);
    }
    TwoRuns(INITIAL, night, click);
    ThreeRuns(INITIAL, night, click, night);
  }

  lemma NoMails(month: int)
    ensures Mails([], month) == 0
  {
  }

  lemma TwoRuns(s: JobState, a: JobRun, b: JobRun)
    ensures AfterRuns(s, [a, b]) == Run(Run(s, a), b)
  {
    hide Run;
    assert [a, b] == [a] + [b];
    RunsInTwoParts(s, [a], [b]);
    OneRun(s, a);
    OneRun(Run(s, a), b);
  }

  lemma ClickMailsNothing(s: JobState, click: JobRun)
    requires click.Manual?
    ensures Run(s, click).mailed == s.mailed
  {
    QueueingExactly(s, MonthNumber(click.today), click.faults);
    hide Queued, MonthNumber;
  }

  lemma FirstInsert(now: int, enqueues: nat, month: int)
    requires enqueues >= 1
    ensures InsertsMonth(None, now, QueueFaults(true, true, enqueues, true), month) <==> month == now - 1
    ensures MonthsMissing(None, now) == 1
  {
  }

  lemma BackInsert(marker: int, month: int)
    ensures InsertsMonth(Some(marker), marker - 1, QueueFaults(true, true, 1, true), month) <==> month == marker - 2
    ensures Passes(Some(marker), marker - 1, QueueFaults(true, true, 1, true))
  {
  }

  lemma CatchUpInsert(target: int, month: int)
    ensures InsertsMonth(Some(target - 2), target + 1, QueueFaults(true, true, 2, true), month) <==>
            month == target - 1 || month == target
    ensures MonthsMissing(Some(target - 2), target + 1) == 2
  {
  }
}
