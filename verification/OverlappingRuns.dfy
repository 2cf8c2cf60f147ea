/** A "Send now" click while a nightly run is under way. Both are run step by step, one table access at a
    time, in any interleaving. */
module OverlappingRuns {
  import opened Calendar
  import opened PayrollJobs
  import opened PayrollDates
  import opened Sorting
  import opened Wrappers

  // ---------------------------------------------------------------------
  // One run, step by step
  // ---------------------------------------------------------------------

  /** Where a run stands: before it reads the marker, with months to insert and inserts that will still
      succeed, before it saves the marker, before it lists the queue, with months to report, or done. */
  datatype Phase =
    | Reading
    | Inserting(months: seq<int>, left: nat)
    | Saving
    | Listing
    | Reporting(months: seq<int>)
    | Over

  datatype At = At(s: JobState, phase: Phase)

  function ReadStep(s: JobState, run: JobRun): At {
    var target := MonthNumber(run.today) - 1;
    if !run.faults.readable || (s.marker.None? && !run.faults.historyReady) then At(s, Over)
    else
      var known := if s.marker.None? && s.firstPeriod.None? then s.(firstPeriod := Some(target)) else s;
      var months := MonthsToQueue(s.marker, target);
      At(known, if months == [] then Listing else Inserting(months, run.faults.enqueues))
  }

  function InsertStep(s: JobState, months: seq<int>, left: nat): At
    requires months != []
  {
    if left == 0 then At(s, Over)
    else At(s.(pending := s.pending + {months[0]}), if |months| == 1 then Saving else Inserting(months[1..], left - 1))
  }

  function Step(s: JobState, phase: Phase, run: JobRun): At {
    match phase
    case Reading => ReadStep(s, run)
    case Inserting(months, left) => if months == [] then At(s, Saving) else InsertStep(s, months, left)
    case Saving =>
      if run.faults.markerSaved then At(s.(marker := Some(MonthNumber(run.today) - 1)), Listing) else At(s, Over)
    case Listing =>
      if run.Scheduled? && run.listed then At(s, Reporting(Ascending(s.pending))) else At(s, Over)
    case Reporting(months) =>
      if months == [] || run.Manual? then At(s, Over)
      else At(if Deferred(run.today, run.dayOfMonth, months[0]) then s else Reported(s, months[0], run.reports(months[0])),
              Reporting(months[1..]))
    case Over => At(s, Over)
  }

  function Steps(at: At, run: JobRun, n: nat): At
    decreases n
  {
    if n == 0 then at else Steps(Step(at.s, at.phase, run), run, n - 1)
  }

  lemma {:induction false} StepsAdd(at: At, run: JobRun, m: nat, n: nat)
    ensures Steps(at, run, m + n) == Steps(Steps(at, run, m), run, n)
    decreases m
  {
    hide Step;
    if m > 0 {
      StepsAdd(Step(at.s, at.phase, run), run, m - 1, n);
    }
  }

  // ---------------------------------------------------------------------
  // A run left alone
  // ---------------------------------------------------------------------

  lemma OneStep(at: At, run: JobRun)
    ensures Steps(at, run, 1) == Step(at.s, at.phase, run)
  {
    assert Steps(at, run, 1) == Steps(Step(at.s, at.phase, run), run, 0);
  }

  lemma EnqueueHead(s: JobState, months: seq<int>, count: nat)
    requires months != []
    ensures Enqueue(s, months, count)
         == if count == 0 then s else Enqueue(s.(pending := s.pending + {months[0]}), months[1..], count - 1)
    ensures count > 0 && |months| == 1 ==> Enqueue(s, months, count) == s.(pending := s.pending + {months[0]})
  {
    var head := s.pending + {months[0]};
    if count == 0 {
      assert s.pending + {} == s.pending;
    } else {
      assert s.pending + FirstMonths(months, count) == head + FirstMonths(months[1..], count - 1);
      if |months| == 1 {
        assert FirstMonths(months[1..], count - 1) == {} && head + {} == head;
      }
    }
  }

  lemma {:induction false} InsertsAlone(s: JobState, months: seq<int>, left: nat, run: JobRun) returns (n: nat)
    requires months != []
    ensures Steps(At(s, Inserting(months, left)), run, n)
         == At(Enqueue(s, months, left), if left < |months| then Over else Saving)
    decreases |months|
  {
    hide MonthNumber, Enqueue, Steps;
    EnqueueHead(s, months, left);
    OneStep(At(s, Inserting(months, left)), run);
    if left == 0 || |months| == 1 {
      n := 1;
    } else {
      var next := s.(pending := s.pending + {months[0]});
      var k := InsertsAlone(next, months[1..], left - 1, run);
      StepsAdd(At(s, Inserting(months, left)), run, 1, k);
      n := 1 + k;
    }
  }

  lemma {:induction false} ReportFirst(s: JobState, months: seq<int>, run: JobRun)
    requires run.Scheduled? && months != []
    ensures Processed(s, months, run.today, run.dayOfMonth, run.reports)
         == Processed(Step(s, Reporting(months), run).s, months[1..], run.today, run.dayOfMonth, run.reports)
    decreases |months|
  {
    hide Deferred, Reported;
    var n := |months| - 1;
    if n == 0 {
      assert months[..0] == [] && months[1..] == [];
    } else {
      ReportFirst(s, months[..n], run);
      assert months[..n][1..] == months[1..][..n - 1];
      assert Step(s, Reporting(months[..n]), run).s == Step(s, Reporting(months), run).s;
    }
  }

  lemma {:induction false} ReportsAlone(s: JobState, months: seq<int>, run: JobRun) returns (n: nat)
    requires run.Scheduled?
    ensures Steps(At(s, Reporting(months)), run, n)
         == At(Processed(s, months, run.today, run.dayOfMonth, run.reports), Over)
    decreases |months|
  {
    if months == [] {
      n := 1;
      assert Steps(At(s, Reporting(months)), run, 1) == Steps(At(s, Over), run, 0);
    } else {
      ReportFirst(s, months, run);
      var k := ReportsAlone(Step(s, Reporting(months), run).s, months[1..], run);
      n := k + 1;
    }
  }

  /** The steps up to the listing are the queueing of the nightly run. */
  lemma QueuesAlone(s: JobState, run: JobRun) returns (n: nat)
    ensures
      var (queued, ok) := Queued(s, MonthNumber(run.today), run.faults);
      Steps(At(s, Reading), run, n) == At(queued, if ok then Listing else Over)
  {
    hide MonthNumber, Enqueue;
    var read := ReadStep(s, run);
    assert Steps(At(s, Reading), run, 1) == Steps(read, run, 0);
    n := 1;
    if read.phase.Inserting? {
      var k := InsertsAlone(read.s, read.phase.months, read.phase.left, run);
      StepsAdd(At(s, Reading), run, 1, k);
      n := 1 + k;
      var queued := Enqueue(read.s, read.phase.months, read.phase.left);
      if read.phase.left >= |read.phase.months| {
        StepsAdd(At(s, Reading), run, n, 1);
        assert Steps(At(queued, Saving), run, 1) == Steps(Step(queued, Saving, run), run, 0);
        n := n + 1;
      }
    }
  }

  /** Undisturbed, the steps of a run are the run. */
  lemma RunsAlone(s: JobState, run: JobRun) returns (n: nat)
    ensures Steps(At(s, Reading), run, n) == At(Run(s, run), Over)
  {
    hide MonthNumber, Queued, Processed;
    n := QueuesAlone(s, run);
    var (queued, ok) := Queued(s, MonthNumber(run.today), run.faults);
    if ok {
      StepsAdd(At(s, Reading), run, n, 1);
      var listed := Step(queued, Listing, run);
      assert Steps(At(queued, Listing), run, 1) == Steps(listed, run, 0);
      n := n + 1;
      if listed.phase.Reporting? {
        var k := ReportsAlone(queued, Ascending(queued.pending), run);
        StepsAdd(At(s, Reading), run, n, k);
        n := n + k;
      }
    }
  }

  // ---------------------------------------------------------------------
  // Two runs in any interleaving
  // ---------------------------------------------------------------------

  datatype Who = Night | Click

  /** The shared tables and where the nightly run and the click stand. */
  datatype Pair = Pair(s: JobState, night: Phase, click: Phase)

  function Move(w: Pair, night: JobRun, click: JobRun, who: Who): Pair {
    match who
    case Night => var next := Step(w.s, w.night, night); Pair(next.s, next.phase, w.click)
    case Click => var next := Step(w.s, w.click, click); Pair(next.s, w.night, next.phase)
  }

  function Moves(w: Pair, night: JobRun, click: JobRun, order: seq<Who>): Pair
    decreases |order|
  {
    if order == [] then w else Moves(Move(w, night, click, order[0]), night, click, order[1..])
  }

  function Begun(s: JobState): Pair {
    Pair(s, Reading, Reading)
  }

  predicate Clashes(s: JobState, month: int) {
    month in s.pending && month in s.settled
  }

  // ---------------------------------------------------------------------
  // Which months can clash
  // ---------------------------------------------------------------------

  /** A settled month is inserted again, by a run that finds the marker as it was or as the other run has
      saved it; or the night queues or finds a month and settles it, and the click still inserts it. */
  predicate CanClash(s: JobState, night: JobRun, click: JobRun, month: int) {
    var nightNow, clickNow := MonthNumber(night.today), MonthNumber(click.today);
    if month in s.settled then
      || InsertsMonth(s.marker, clickNow, click.faults, month)
      || InsertsMonth(s.marker, nightNow, night.faults, month)
      || (Passes(s.marker, nightNow, night.faults) && InsertsMonth(Some(nightNow - 1), clickNow, click.faults, month))
      || (Passes(s.marker, clickNow, click.faults) && InsertsMonth(Some(clickNow - 1), nightNow, night.faults, month))
    else
      && NightSettles(s, night, month)
      && (InsertsMonth(s.marker, clickNow, click.faults, month)
          || InsertsMonth(Some(nightNow - 1), clickNow, click.faults, month))
  }

  predicate Queueing(phase: Phase) {
    phase.Reading? || phase.Inserting? || phase.Saving?
  }

  /** The run has read `marker`: what it still inserts is the end of its months, with the inserts that
      remain; before it saves, all of them are in. */
  predicate ReadFrom(phase: Phase, marker: Option<int>, now: int, faults: QueueFaults) {
    match phase
    case Inserting(months, left) =>
      var all := MonthsToQueue(marker, now - 1);
      && Ready(marker, faults) && 0 < |months| <= |all|
      && months == all[|all| - |months|..]
      && left == faults.enqueues - (|all| - |months|)
    case Saving => Ready(marker, faults) && 0 < MonthsMissing(marker, now) <= faults.enqueues
    case _ => true
  }

  /** The run read the marker as it was, or as the other one saved it before. */
  predicate ReadEither(phase: Phase, marker: Option<int>, run: JobRun, other: Phase, otherRun: JobRun) {
    || ReadFrom(phase, marker, MonthNumber(run.today), run.faults)
    || (!Queueing(other) && Passes(marker, MonthNumber(otherRun.today), otherRun.faults)
        && ReadFrom(phase, Some(MonthNumber(otherRun.today) - 1), MonthNumber(run.today), run.faults))
  }

  /** While a run queues, the marker is as it was, or as the other one has saved it. */
  predicate MarkerFor(s: JobState, marker: Option<int>, other: Phase, otherRun: JobRun) {
    || s.marker == marker
    || (!Queueing(other) && Passes(marker, MonthNumber(otherRun.today), otherRun.faults)
        && s.marker == Some(MonthNumber(otherRun.today) - 1))
  }

  /** The click will not insert the month any more. */
  predicate Past(click: Phase, month: int) {
    !click.Reading? && (click.Inserting? ==> month !in click.months)
  }

  /** The month was queued before, by the night, or by the click already. */
  predicate Arrived(s0: JobState, night: JobRun, click: Phase, month: int) {
    || month in s0.pending
    || InsertsMonth(s0.marker, MonthNumber(night.today), night.faults, month)
    || Past(click, month)
  }

  /** The night got to its list by its own queueing as it was, or the click had done with queueing. */
  predicate Excused(s0: JobState, night: JobRun, click: Phase) {
    Passes(s0.marker, MonthNumber(night.today), night.faults) || !Queueing(click)
  }

  ghost predicate Queues(s0: JobState, w: Pair, night: JobRun, click: JobRun) {
    && !w.click.Reporting?
    && ReadEither(w.night, s0.marker, night, w.click, click)
    && ReadEither(w.click, s0.marker, click, w.night, night)
    && (Queueing(w.night) ==> MarkerFor(w.s, s0.marker, w.click, click))
    && (Queueing(w.click) ==> MarkerFor(w.s, s0.marker, w.night, night))
  }

  ghost predicate Settled(s0: JobState, w: Pair, night: JobRun) {
    && night.Scheduled? && s0.settled <= w.s.settled
    && (Queueing(w.night) || w.night.Listing? ==> w.s.settled == s0.settled)
    && (w.night.Listing? || w.night.Reporting? ==> Excused(s0, night, w.click))
    && (w.night.Reporting? ==> night.listed && forall m | m in w.night.months :: Arrived(s0, night, w.click, m))
    && (forall m | m in w.s.pending :: Arrived(s0, night, w.click, m))
    && (forall m | m in w.s.settled && m !in s0.settled ::
          night.listed && !Deferred(night.today, night.dayOfMonth, m) && Settles(night.reports(m))
          && Excused(s0, night, w.click) && Arrived(s0, night, w.click, m))
  }

  /** What holds in every interleaving from `s0` on. */
  ghost predicate InOrder(s0: JobState, w: Pair, night: JobRun, click: JobRun) {
    && night.Scheduled? && click.Manual?
    && Queues(s0, w, night, click) && Settled(s0, w, night)
    && forall m | Clashes(w.s, m) :: CanClash(s0, night, click, m)
  }

  // ---------------------------------------------------------------------
  // One step of either run
  // ---------------------------------------------------------------------

  lemma {:induction false} RangeNth(from: int, to: int, j: nat)
    requires from + j <= to
    ensures j < |MonthRange(from, to)| && MonthRange(from, to)[j] == from + j
    decreases j
  {
    RangeHead(from, to);
    if j > 0 {
      RangeNth(from + 1, to, j - 1);
    }
  }

  lemma NthToQueue(marker: Option<int>, now: int, j: nat)
    requires j < |MonthsToQueue(marker, now - 1)|
    ensures MonthsToQueue(marker, now - 1)[j]
         == if marker.None? || marker.value > now - 1 then now - 1 else marker.value + 1 + j
  {
    QueueLength(marker, now);
    if marker.Some? && marker.value <= now - 1 {
      RangeNth(marker.value + 1, now - 1, j);
    }
  }

  /** Reading leads to the listing when there is nothing to insert, and else to all the months. */
  lemma ReadingFacts(s: JobState, run: JobRun)
    ensures
      var next, now := ReadStep(s, run), MonthNumber(run.today);
      && next.s == s.(firstPeriod := next.s.firstPeriod)
      && (next.phase.Listing? || next.phase.Inserting? || next.phase.Over?)
      && (next.phase.Listing? ==> Passes(s.marker, now, run.faults))
      && ReadFrom(next.phase, s.marker, now, run.faults)
  {
    hide MonthNumber;
    QueueLength(s.marker, MonthNumber(run.today));
  }

  /** Inserting puts in a month the run inserts, once, and leads to the saving when all are in. */
  lemma InsertingFacts(s: JobState, phase: Phase, marker: Option<int>, now: int, faults: QueueFaults)
    requires phase.Inserting? && ReadFrom(phase, marker, now, faults)
    ensures
      var next, month := InsertStep(s, phase.months, phase.left), phase.months[0];
      && ReadFrom(next.phase, marker, now, faults)
      && (next.phase.Inserting? ==> next.phase.months == phase.months[1..])
      && (phase.left == 0 ==> next == At(s, Over))
      && (phase.left > 0 ==>
            && next.s == s.(pending := s.pending + {month}) && (next.phase.Inserting? || next.phase.Saving?)
            && InsertsMonth(marker, now, faults, month) && month !in phase.months[1..])
  {
    hide MonthsToQueue, InsertsMonth, MonthsMissing, Ready;
    var all := MonthsToQueue(marker, now - 1);
    var j := |all| - |phase.months|;
    QueueLength(marker, now);
    assert phase.months[0] == all[j] && phase.months[1..] == all[j + 1..];
    if phase.left > 0 {
      NextInserted(marker, now, faults, j);
      NotAgain(marker, now, j);
    }
  }

  lemma NextInserted(marker: Option<int>, now: int, faults: QueueFaults, j: nat)
    requires Ready(marker, faults) && j < |MonthsToQueue(marker, now - 1)| && j < faults.enqueues
    ensures InsertsMonth(marker, now, faults, MonthsToQueue(marker, now - 1)[j])
  {
    hide MonthsToQueue;
    QueueLength(marker, now);
    NthToQueue(marker, now, j);
  }

  lemma NotAgain(marker: Option<int>, now: int, j: nat)
    requires j < |MonthsToQueue(marker, now - 1)|
    ensures MonthsToQueue(marker, now - 1)[j] !in MonthsToQueue(marker, now - 1)[j + 1..]
  {
    hide MonthsToQueue;
    var all := MonthsToQueue(marker, now - 1);
    QueueLength(marker, now);
    NthToQueue(marker, now, j);
    forall k | j < k < |all| ensures all[k] != all[j] {
      NthToQueue(marker, now, k);
    }
  }

  lemma SavingFacts(marker: Option<int>, now: int, faults: QueueFaults)
    requires ReadFrom(Saving, marker, now, faults) && faults.markerSaved
    ensures Passes(marker, now, faults)
  {
  }

  lemma NightReads(s0: JobState, w: Pair, night: JobRun, click: JobRun)
    requires InOrder(s0, w, night, click) && w.night.Reading?
    ensures InOrder(s0, Move(w, night, click, Night), night, click)
  {
    hide MonthNumber, Deferred, Settles, InsertsMonth, Passes, ReadFrom, CanClash;
    ReadingFacts(w.s, night);
  }

  /** What the night inserts while nothing new is settled. */
  lemma NightClash(s0: JobState, night: JobRun, click: JobRun, month: int)
    requires month in s0.settled
    requires
      || InsertsMonth(s0.marker, MonthNumber(night.today), night.faults, month)
      || (Passes(s0.marker, MonthNumber(click.today), click.faults)
          && InsertsMonth(Some(MonthNumber(click.today) - 1), MonthNumber(night.today), night.faults, month))
    ensures CanClash(s0, night, click, month)
  {
  }

  /** What the click inserts, settled before or by the night. */
  lemma ClickClash(s0: JobState, night: JobRun, click: JobRun, month: int)
    requires
      || InsertsMonth(s0.marker, MonthNumber(click.today), click.faults, month)
      || (Passes(s0.marker, MonthNumber(night.today), night.faults)
          && InsertsMonth(Some(MonthNumber(night.today) - 1), MonthNumber(click.today), click.faults, month))
    requires month in s0.settled || NightSettles(s0, night, month)
    ensures CanClash(s0, night, click, month)
  {
  }

  /** Either marker the run may have read gives the same facts. */
  lemma EitherInserts(s: JobState, phase: Phase, marker: Option<int>, run: JobRun, other: Phase, otherRun: JobRun)
    requires phase.Inserting? && ReadEither(phase, marker, run, other, otherRun)
    ensures phase.months != []
    ensures
      var next := InsertStep(s, phase.months, phase.left);
      var month, now, otherNow := phase.months[0], MonthNumber(run.today), MonthNumber(otherRun.today);
      && ReadEither(next.phase, marker, run, other, otherRun)
      && (next.phase.Inserting? ==> next.phase.months == phase.months[1..])
      && (phase.left == 0 ==> next == At(s, Over))
      && (phase.left > 0 ==>
            && next.s == s.(pending := s.pending + {month}) && (next.phase.Inserting? || next.phase.Saving?)
            && month !in phase.months[1..]
            && (InsertsMonth(marker, now, run.faults, month)
                || (!Queueing(other) && Passes(marker, otherNow, otherRun.faults)
                    && InsertsMonth(Some(otherNow - 1), now, run.faults, month))))
  {
    hide MonthNumber, InsertsMonth, Passes;
    var now := MonthNumber(run.today);
    if ReadFrom(phase, marker, now, run.faults) {
      InsertingFacts(s, phase, marker, now, run.faults);
    } else {
      InsertingFacts(s, phase, Some(MonthNumber(otherRun.today) - 1), now, run.faults);
    }
    hide ReadFrom;
  }

  lemma NightInserts(s0: JobState, w: Pair, night: JobRun, click: JobRun)
    requires InOrder(s0, w, night, click) && w.night.Inserting?
    ensures InOrder(s0, Move(w, night, click, Night), night, click)
  {
    hide MonthNumber, Deferred, Settles, InsertsMonth, Passes, CanClash, ReadFrom;
    EitherInserts(w.s, w.night, s0.marker, night, w.click, click);
    var next, month := InsertStep(w.s, w.night.months, w.night.left), w.night.months[0];
    assert Move(w, night, click, Night) == Pair(next.s, next.phase, w.click);
    assert ReadEither(next.phase, s0.marker, night, w.click, click);
    OtherStaysRead(w.click, s0.marker, click, w.night, next.phase, night);
    hide InsertStep, ReadEither, Move;
    if w.night.left > 0 {
      NightArrives(s0, w, night, click, month);
    }
  }

  /** As long as this run does not begin to queue again, the other has read what it has read. */
  lemma OtherStaysRead(phase: Phase, marker: Option<int>, run: JobRun, other: Phase, next: Phase, otherRun: JobRun)
    requires ReadEither(phase, marker, run, other, otherRun) && (Queueing(next) ==> Queueing(other))
    ensures ReadEither(phase, marker, run, next, otherRun)
  {
    hide MonthNumber, ReadFrom, Passes;
  }

  lemma NightArrives(s0: JobState, w: Pair, night: JobRun, click: JobRun, month: int)
    requires InOrder(s0, w, night, click) && w.night.Inserting?
    requires
      || InsertsMonth(s0.marker, MonthNumber(night.today), night.faults, month)
      || (!Queueing(w.click) && Passes(s0.marker, MonthNumber(click.today), click.faults)
          && InsertsMonth(Some(MonthNumber(click.today) - 1), MonthNumber(night.today), night.faults, month))
    ensures Arrived(s0, night, w.click, month)
    ensures month in w.s.settled ==> CanClash(s0, night, click, month)
  {
    hide MonthNumber, Deferred, Settles, InsertsMonth, Passes, CanClash;
    if month in w.s.settled {
      NightClash(s0, night, click, month);
    }
  }

  lemma NightSaves(s0: JobState, w: Pair, night: JobRun, click: JobRun)
    requires InOrder(s0, w, night, click) && w.night.Saving?
    ensures InOrder(s0, Move(w, night, click, Night), night, click)
  {
    hide MonthNumber, Deferred, Settles, InsertsMonth, Passes, CanClash;
    var now := MonthNumber(night.today);
    if night.faults.markerSaved && ReadFrom(w.night, s0.marker, now, night.faults) {
      SavingFacts(s0.marker, now, night.faults);
    }
  }

  lemma NightListsOrEnds(s0: JobState, w: Pair, night: JobRun, click: JobRun)
    requires InOrder(s0, w, night, click) && (w.night.Listing? || w.night.Over?)
    ensures InOrder(s0, Move(w, night, click, Night), night, click)
  {
    hide MonthNumber, Deferred, Settles, InsertsMonth, Passes, CanClash, Ready, MonthsMissing;
  }

  lemma NightReports(s0: JobState, w: Pair, night: JobRun, click: JobRun)
    requires InOrder(s0, w, night, click) && w.night.Reporting?
    ensures InOrder(s0, Move(w, night, click, Night), night, click)
  {
    hide MonthNumber, Deferred, InsertsMonth, Passes, CanClash, Ready, MonthsMissing, RecordsFrom;
  }

  lemma ClickReads(s0: JobState, w: Pair, night: JobRun, click: JobRun)
    requires InOrder(s0, w, night, click) && w.click.Reading?
    ensures InOrder(s0, Move(w, night, click, Click), night, click)
  {
    hide MonthNumber, Deferred, Settles, InsertsMonth, Passes, ReadFrom, CanClash;
    ReadingFacts(w.s, click);
  }

  lemma ClickInserts(s0: JobState, w: Pair, night: JobRun, click: JobRun)
    requires InOrder(s0, w, night, click) && w.click.Inserting?
    ensures InOrder(s0, Move(w, night, click, Click), night, click)
  {
    hide MonthNumber, Deferred, Settles, InsertsMonth, Passes, CanClash, ReadFrom;
    EitherInserts(w.s, w.click, s0.marker, click, w.night, night);
    var next, month := InsertStep(w.s, w.click.months, w.click.left), w.click.months[0];
    assert Move(w, night, click, Click) == Pair(next.s, w.night, next.phase);
    assert ReadEither(next.phase, s0.marker, click, w.night, night);
    OtherStaysRead(w.night, s0.marker, night, w.click, next.phase, click);
    forall m | Past(w.click, m) || (w.click.left > 0 && m == month) ensures Past(next.phase, m) {}
    hide InsertStep, ReadEither, Move, Past;
    if w.click.left > 0 && month in w.s.settled {
      ClickArrives(s0, w, night, click, month);
    }
  }

  lemma ClickArrives(s0: JobState, w: Pair, night: JobRun, click: JobRun, month: int)
    requires InOrder(s0, w, night, click) && w.click.Inserting? && month in w.click.months && month in w.s.settled
    requires
      || InsertsMonth(s0.marker, MonthNumber(click.today), click.faults, month)
      || (Passes(s0.marker, MonthNumber(night.today), night.faults)
          && InsertsMonth(Some(MonthNumber(night.today) - 1), MonthNumber(click.today), click.faults, month))
    ensures CanClash(s0, night, click, month)
  {
    hide MonthNumber, Deferred, Settles, InsertsMonth, Passes, CanClash;
    ClickClash(s0, night, click, month);
  }

  lemma ClickSaves(s0: JobState, w: Pair, night: JobRun, click: JobRun)
    requires InOrder(s0, w, night, click) && w.click.Saving?
    ensures InOrder(s0, Move(w, night, click, Click), night, click)
  {
    hide MonthNumber, Deferred, Settles, InsertsMonth, Passes, CanClash;
    var now := MonthNumber(click.today);
    if click.faults.markerSaved && ReadFrom(w.click, s0.marker, now, click.faults) {
      SavingFacts(s0.marker, now, click.faults);
    }
  }

  lemma ClickEnds(s0: JobState, w: Pair, night: JobRun, click: JobRun)
    requires InOrder(s0, w, night, click) && (w.click.Listing? || w.click.Over?)
    ensures InOrder(s0, Move(w, night, click, Click), night, click)
  {
    hide MonthNumber, Deferred, Settles, InsertsMonth, Passes, CanClash, Ready, MonthsMissing;
  }

  lemma NightMove(s0: JobState, w: Pair, night: JobRun, click: JobRun)
    requires InOrder(s0, w, night, click)
    ensures InOrder(s0, Move(w, night, click, Night), night, click)
  {
    hide InOrder, Move;
    match w.night {
      case Reading => NightReads(s0, w, night, click);
      case Inserting(_, _) => NightInserts(s0, w, night, click);
      case Saving => NightSaves(s0, w, night, click);
      case Reporting(_) => NightReports(s0, w, night, click);
      case _ => NightListsOrEnds(s0, w, night, click);
    }
  }

  lemma ClickMove(s0: JobState, w: Pair, night: JobRun, click: JobRun)
    requires InOrder(s0, w, night, click)
    ensures InOrder(s0, Move(w, night, click, Click), night, click)
  {
    hide Move;
    assert !w.click.Reporting?;
    hide InOrder;
    match w.click {
      case Reading => ClickReads(s0, w, night, click);
      case Inserting(_, _) => ClickInserts(s0, w, night, click);
      case Saving => ClickSaves(s0, w, night, click);
      case _ => ClickEnds(s0, w, night, click);
    }
  }

  lemma {:induction false} MovesKeepOrder(s0: JobState, w: Pair, night: JobRun, click: JobRun, order: seq<Who>)
    requires InOrder(s0, w, night, click)
    ensures InOrder(s0, Moves(w, night, click, order), night, click)
    decreases |order|
  {
    hide InOrder, Move;
    if order != [] {
      match order[0] {
        case Night => NightMove(s0, w, night, click);
        case Click => ClickMove(s0, w, night, click);
      }
      MovesKeepOrder(s0, Move(w, night, click, order[0]), night, click, order[1..]);
    }
  }

  lemma StartsInOrder(s: JobState, night: JobRun, click: JobRun)
    requires s.pending !! s.settled && night.Scheduled? && click.Manual?
    ensures InOrder(s, Begun(s), night, click)
  {
    hide MonthNumber, Deferred, Settles;
  }

  // ---------------------------------------------------------------------
  // The orders that do harm
  // ---------------------------------------------------------------------

  /** A click that has read the marker before the nightly run and does everything else after it. */
  function StaleClick(before: JobState, after: JobState, click: JobRun): JobState {
    if Ready(before.marker, click.faults)
    then Enqueue(after, MonthsToQueue(before.marker, MonthNumber(click.today) - 1), click.faults.enqueues)
    else after
  }

  /** When the night's own queueing is in order, the months both pending and settled after a stale click
      are exactly those it inserts of the months settled before or by the night. */
  lemma StaleClickRequeues(s: JobState, night: JobRun, click: JobRun, month: int)
    requires s.pending !! s.settled
    requires forall m | m in s.settled :: !InsertsMonth(s.marker, MonthNumber(night.today), night.faults, m)
    ensures Clashes(StaleClick(s, Run(s, night), click), month) <==>
      InsertsMonth(s.marker, MonthNumber(click.today), click.faults, month)
      && (month in s.settled || NightSettles(s, night, month))
  {
    hide MonthNumber, Run, NightSettles, MonthsToQueue;
    RunExactly(s, night, month);
    if Ready(s.marker, click.faults) {
      InsertedMonths(s.marker, MonthNumber(click.today), click.faults, month);
    }
  }

  function Repeated(who: Who, n: nat): seq<Who> {
    if n == 0 then [] else [who] + Repeated(who, n - 1)
  }

  lemma {:induction false} NightMoves(w: Pair, night: JobRun, click: JobRun, n: nat, rest: seq<Who>)
    ensures
      var at := Steps(At(w.s, w.night), night, n);
      Moves(w, night, click, Repeated(Night, n) + rest) == Moves(Pair(at.s, at.phase, w.click), night, click, rest)
    decreases n
  {
    hide Step;
    if n == 0 {
      assert Repeated(Night, 0) + rest == rest;
    } else {
      var order := Repeated(Night, n - 1) + rest;
      assert Repeated(Night, n) + rest == [Night] + order && ([Night] + order)[1..] == order;
      NightMoves(Move(w, night, click, Night), night, click, n - 1, rest);
    }
  }

  lemma {:induction false} ClickMoves(w: Pair, night: JobRun, click: JobRun, n: nat, rest: seq<Who>)
    ensures
      var at := Steps(At(w.s, w.click), click, n);
      Moves(w, night, click, Repeated(Click, n) + rest) == Moves(Pair(at.s, w.night, at.phase), night, click, rest)
    decreases n
  {
    hide Step;
    if n == 0 {
      assert Repeated(Click, 0) + rest == rest;
    } else {
      var order := Repeated(Click, n - 1) + rest;
      assert Repeated(Click, n) + rest == [Click] + order && ([Click] + order)[1..] == order;
      ClickMoves(Move(w, night, click, Click), night, click, n - 1, rest);
    }
  }

  /** The click reads, the whole night runs, the click inserts. */
  lemma StaleOrder(s: JobState, night: JobRun, click: JobRun) returns (order: seq<Who>)
    requires Ready(s.marker, click.faults) && MonthsToQueue(s.marker, MonthNumber(click.today) - 1) != []
    ensures Moves(Begun(s), night, click, order).s.pending == StaleClick(s, Run(s.(firstPeriod := ReadStep(s, click).s.firstPeriod), night), click).pending
    ensures Moves(Begun(s), night, click, order).s.settled == Run(s.(firstPeriod := ReadStep(s, click).s.firstPeriod), night).settled
  {
    hide MonthNumber, Run, Step, MonthsToQueue;
    var read := ReadStep(s, click);
    var after := Run(read.s, night);
    assert Step(s, Reading, click) == read by {
      ReadingStep(s, click);
    }
    assert read.s == s.(firstPeriod := read.s.firstPeriod);
    var n := RunsAlone(read.s, night);
    var k := InsertsAlone(after, read.phase.months, read.phase.left, click);
    var rest := Repeated(Click, k) + [];
    order := [Click] + (Repeated(Night, n) + rest);
    assert order[1..] == Repeated(Night, n) + rest;
    NightMoves(Pair(read.s, Reading, read.phase), night, click, n, rest);
    ClickMoves(Pair(after, Over, read.phase), night, click, k, []);
  }

  lemma ReadingStep(s: JobState, run: JobRun)
    ensures Step(s, Reading, run) == ReadStep(s, run)
  {
  }

  /** The night queues, and then the click runs. */
  lemma QueueThenClick(s: JobState, night: JobRun, click: JobRun) returns (order: seq<Who>)
    ensures Moves(Begun(s), night, click, order).s
         == Run(Queued(s, MonthNumber(night.today), night.faults).0, click)
  {
    hide MonthNumber, Run, Step, Queued;
    var n := QueuesAlone(s, night);
    var (queued, ok) := Queued(s, MonthNumber(night.today), night.faults);
    var k := RunsAlone(queued, click);
    order := Repeated(Night, n) + (Repeated(Click, k) + []);
    NightMoves(Begun(s), night, click, n, Repeated(Click, k) + []);
    ClickMoves(Pair(queued, if ok then Listing else Over, Reading), night, click, k, []);
  }

  /** The click runs, and then the night queues. */
  lemma ClickThenQueue(s: JobState, night: JobRun, click: JobRun) returns (order: seq<Who>)
    ensures Moves(Begun(s), night, click, order).s
         == Queued(Run(s, click), MonthNumber(night.today), night.faults).0
  {
    hide MonthNumber, Run, Step, Queued;
    var k := RunsAlone(s, click);
    var n := QueuesAlone(Run(s, click), night);
    order := Repeated(Click, k) + (Repeated(Night, n) + []);
    ClickMoves(Begun(s), night, click, k, Repeated(Night, n) + []);
    NightMoves(Pair(Run(s, click), Reading, Over), night, click, n, []);
  }

  /** The whole night runs, and then the click. */
  lemma NightThenClick(s: JobState, night: JobRun, click: JobRun) returns (order: seq<Who>)
    ensures Moves(Begun(s), night, click, order).s == Run(Run(s, night), click)
  {
    hide MonthNumber, Run, Step;
    var n := RunsAlone(s, night);
    var k := RunsAlone(Run(s, night), click);
    order := Repeated(Night, n) + (Repeated(Click, k) + []);
    NightMoves(Begun(s), night, click, n, Repeated(Click, k) + []);
    ClickMoves(Pair(Run(s, night), Over, Reading), night, click, k, []);
  }

  lemma SettledClashes(s: JobState, night: JobRun, click: JobRun, month: int) returns (order: seq<Who>)
    requires night.Scheduled? && click.Manual? && month in s.settled && CanClash(s, night, click, month)
    ensures Clashes(Moves(Begun(s), night, click, order).s, month)
  {
    hide MonthNumber, Run, Moves, Begun, InsertsMonth, Passes;
    var nightNow, clickNow := MonthNumber(night.today), MonthNumber(click.today);
    var queued := Queued(s, nightNow, night.faults).0;
    QueueingExactly(s, nightNow, night.faults);
    RunExactly(s, click, month);
    RunExactly(queued, click, month);
    QueueingExactly(Run(s, click), nightNow, night.faults);
    assert !NightSettles(s, click, month) && !NightSettles(queued, click, month);
    hide Queued, NightSettles;
    if InsertsMonth(s.marker, clickNow, click.faults, month)
       || (Passes(s.marker, clickNow, click.faults) && InsertsMonth(Some(clickNow - 1), nightNow, night.faults, month)) {
      order := ClickThenQueue(s, night, click);
    } else {
      order := QueueThenClick(s, night, click);
    }
  }

  lemma NewlySettledClashes(s: JobState, night: JobRun, click: JobRun, month: int) returns (order: seq<Who>)
    requires night.Scheduled? && click.Manual? && month !in s.settled && CanClash(s, night, click, month)
    ensures Clashes(Moves(Begun(s), night, click, order).s, month)
  {
    hide MonthNumber, Run, Moves, Begun, Passes, Deferred, Settles;
    var nightNow, clickNow := MonthNumber(night.today), MonthNumber(click.today);
    if InsertsMonth(s.marker, clickNow, click.faults, month) {
      QueueLength(s.marker, clickNow);
      InsertedMonths(s.marker, clickNow, click.faults, month);
      var read := s.(firstPeriod := ReadStep(s, click).s.firstPeriod);
      RunExactly(read, night, month);
      hide InsertsMonth, NightSettles, MonthsToQueue;
      order := StaleOrder(s, night, click);
    } else {
      RunExactly(s, night, month);
      RunExactly(Run(s, night), click, month);
      hide InsertsMonth;
      order := NightThenClick(s, night, click);
    }
  }

  /** For a nightly run and a click on any dates, from any state in which nothing is both pending and
      settled: some interleaving makes a month both if and only if `CanClash`. In all other cases no
      interleaving does any harm to it. */
  lemma SomeOrderRequeues(s: JobState, night: JobRun, click: JobRun, month: int)
    requires s.pending !! s.settled && night.Scheduled? && click.Manual?
    ensures (exists order :: Clashes(Moves(Begun(s), night, click, order).s, month))
       <==> CanClash(s, night, click, month)
  {
    hide MonthNumber, Moves, Begun, CanClash;
    forall order ensures Clashes(Moves(Begun(s), night, click, order).s, month) ==> CanClash(s, night, click, month) {
      StartsInOrder(s, night, click);
      MovesKeepOrder(s, Begun(s), night, click, order);
    }
    if CanClash(s, night, click, month) {
      if month in s.settled {
        var order := SettledClashes(s, night, click, month);
        assert Clashes(Moves(Begun(s), night, click, order).s, month);
      } else {
        var order := NewlySettledClashes(s, night, click, month);
        assert Clashes(Moves(Begun(s), night, click, order).s, month);
      }
    }
  }

  // ---------------------------------------------------------------------
  // What that comes to
  // ---------------------------------------------------------------------

  /** The night settles the month when it gets there. */
  predicate WouldSettle(night: JobRun, month: int) {
    night.Scheduled? && night.listed && !Deferred(night.today, night.dayOfMonth, month) && Settles(night.reports(month))
  }

  /** Within one month, once a marker is saved: the night queues and settles the month, and the click
      inserts as far as it from the same marker. */
  lemma ClashInOneMonth(s: JobState, first: int, last: int, night: JobRun, click: JobRun, month: int)
    requires Accounted(s, first, last) && last <= MonthNumber(night.today) == MonthNumber(click.today)
    ensures CanClash(s, night, click, month) <==>
      && s.marker.value < month < MonthNumber(night.today)
      && Passes(s.marker, MonthNumber(night.today), night.faults) && WouldSettle(night, month)
      && click.faults.readable && month - s.marker.value <= click.faults.enqueues
  {
    hide MonthNumber, Deferred, Settles;
  }

  /** Within one month, before any marker is saved: it can only be the target of both, when the night saves
      the marker and settles it and the click gets its insert through. */
  lemma ClashAtTheStart(s: JobState, last: int, night: JobRun, click: JobRun, month: int)
    requires NotStarted(s, last) && last <= MonthNumber(night.today) == MonthNumber(click.today)
    ensures CanClash(s, night, click, month) <==>
      && month == MonthNumber(night.today) - 1
      && Saves(night.faults) && WouldSettle(night, month) && Inserts(click.faults)
  {
    hide MonthNumber, Deferred, Settles;
  }

  /** Across a month's end, the click dated in the old month and the night in the new one: as within one
      month up to the click's target, and besides that target itself whenever the night saves its marker
      and the target is settled by then, since the click then finds the marker after its target. */
  lemma ClashAcrossMonths(s: JobState, first: int, last: int, night: JobRun, click: JobRun, month: int)
    requires Accounted(s, first, last) && last <= MonthNumber(click.today) == MonthNumber(night.today) - 1
    ensures CanClash(s, night, click, month) <==>
      var target := MonthNumber(click.today) - 1;
      && Passes(s.marker, MonthNumber(night.today), night.faults) && click.faults.readable
      && (|| (s.marker.value < month <= target && WouldSettle(night, month)
              && month - s.marker.value <= click.faults.enqueues)
          || (month == target && click.faults.enqueues >= 1 && (month in s.settled || WouldSettle(night, month))))
  {
    hide MonthNumber, Deferred, Settles;
  }

  /** The first good night of an installation is enough, when a click overlaps it. */
  lemma OverlappingRunsCanRequeue(today: Date)
    ensures exists order ::
      Clashes(Moves(Begun(INITIAL), GoodRun(today), GoodClick(today, 1), order).s, MonthNumber(today) - 1)
  {
    hide MonthNumber, Moves, DayOf;
    var month := MonthNumber(today) - 1;
    assert Settles(GoodRun(today).reports(month)) by {
      assert RecordsFrom([Recorded], 0);
    }
    ClashAtTheStart(INITIAL, month + 1, GoodRun(today), GoodClick(today, 1), month);
    SomeOrderRequeues(INITIAL, GoodRun(today), GoodClick(today, 1), month);
  }
}
