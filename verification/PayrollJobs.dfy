/** The monthly payroll report as a state machine: a queue of months, a marker for the last month
    queued, and the months that are settled. Months are counted as in `Periods.Ordinal`. */
module PayrollJobs {
  import opened Calendar
  import opened Decimal
  import opened Periods
  import opened Sorting
  import opened Wrappers

  // ---------------------------------------------------------------------
  // Months as numbers
  // ---------------------------------------------------------------------

  function MonthNumber(date: Date): int {
    Ordinal(MonthAt(date))
  }

  function Text(month: int): string {
    FormatPeriod(FromOrdinal(month))
  }

  /** The months to queue, given the marker and the month just finished. */
  function MonthsToQueue(marker: Option<int>, target: int): seq<int> {
    if marker.None? || marker.value > target then [target] else MonthRange(marker.value + 1, target)
  }

  function MonthRange(from: int, to: int): (months: seq<int>)
    ensures forall m :: m in months <==> from <= m <= to
    decreases if to < from then 0 else to - from + 1
  {
    if to < from then [] else MonthRange(from, to - 1) + [to]
  }

  function Texts(months: seq<int>): (texts: seq<string>)
    ensures |texts| == |months|
  {
    if months == [] then [] else Texts(months[..|months| - 1]) + [Text(months[|months| - 1])]
  }

  /** The texts of the month of a date and of the one before it are those of the months counted here. */
  lemma PeriodTexts(today: Date)
    ensures PreviousPeriod(today) == Text(MonthNumber(today) - 1)
    ensures CurrentPeriod(today) == Text(MonthNumber(today))
  {
    var m := MonthAt(today);
    OrdinalOrder(m, m);
    OrdinalOrder(Preceding(m), Preceding(m));
    assert Ordinal(Preceding(m)) == Ordinal(m) - 1;
  }

  lemma {:induction false} TextsOfRange(from: int, to: int)
    ensures Texts(MonthRange(from, to)) == PeriodsBetween(from, to)
    decreases if to < from then 0 else to - from + 1
  {
    if from <= to {
      TextsOfRange(from, to - 1);
      assert MonthRange(from, to)[..|MonthRange(from, to)| - 1] == MonthRange(from, to - 1);
    }
  }

  /** Counting months agrees with the texts that are stored: the backfill of the stored marker is
      the text of the months counted here. */
  lemma BackfillOfTexts(marker: int, target: int)
    requires 0 <= FromOrdinal(marker).year <= I32_MAX && 0 <= FromOrdinal(target).year <= I32_MAX
    ensures Backfill("", Text(target)) == Texts(MonthsToQueue(None, target))
    ensures Backfill(Text(marker), Text(target)) == Texts(MonthsToQueue(Some(marker), target))
  {
    SingleText(target);
    TextIsReadable(target);
    TextIsReadable(marker);
    BackfillOfReadable(Text(marker), Text(target), marker, target);
    TextsToQueue(marker, target);
  }

  lemma TextsToQueue(marker: int, target: int)
    ensures Texts(MonthsToQueue(Some(marker), target))
         == if marker > target then [Text(target)] else PeriodsBetween(marker + 1, target)
  {
    hide FormatPeriod;
    SingleText(target);
    TextsOfRange(marker + 1, target);
  }

  lemma BackfillOfReadable(lastQueued: string, target: string, last: int, wanted: int)
    requires lastQueued != "" && ParseYearMonth(lastQueued) == Some(FromOrdinal(last))
    requires ParseYearMonth(target) == Some(FromOrdinal(wanted))
    ensures Backfill(lastQueued, target) == if last > wanted then [target] else PeriodsBetween(last + 1, wanted)
  {
    hide ParseYearMonth, PeriodsBetween;
  }

  lemma SingleText(month: int)
    ensures Texts([month]) == [Text(month)]
  {
    assert [month][..0] == [];
  }

  lemma TextIsReadable(month: int)
    requires 0 <= FromOrdinal(month).year <= I32_MAX
    ensures Text(month) != "" && ParseYearMonth(Text(month)) == Some(FromOrdinal(month))
  {
    ParseUndoesFormat(FromOrdinal(month));
    assert ParseYearMonth("").None?;
  }

  lemma MonthNumbersAscend(a: Date, b: Date)
    requires a <= b
    ensures MonthNumber(a) <= MonthNumber(b)
  {
    hide YearOf, MonthOf, YearStart, DaysBefore;
    var ma, mb := MonthAt(a), MonthAt(b);
    if ma.year > mb.year {
      if mb.year + 1 < ma.year {
        YearStartsAscend(mb.year + 1, ma.year);
      }
    } else if ma.year == mb.year && ma.month > mb.month {
      MonthStartsAscend(ma.year, mb.month + 1, ma.month);
    }
  }

  /** The month must wait: the configured day is not reached and it is not an older one. */
  predicate Deferred(today: Date, dayOfMonth: nat, month: int) {
    DayOf(today) < dayOfMonth && DayOf(today) < 28 && month >= MonthNumber(today) - 1
  }

  lemma DeferredAgrees(today: Date, dayOfMonth: nat, month: int)
    requires 0 <= FromOrdinal(month).year <= I32_MAX && 1 <= YearOf(today) <= I32_MAX
    ensures Deferred(today, dayOfMonth, month) <==>
            PeriodIsDeferred(Text(month), ProcessThroughPeriod(today, dayOfMonth))
  {
    OnlyTheLastMonthWaits(today, dayOfMonth, FromOrdinal(month));
  }

  // ---------------------------------------------------------------------
  // State and faults
  // ---------------------------------------------------------------------

  datatype JobState = JobState(
    pending: set<int>,          // the stored queue
    settled: set<int>,          // months recorded as done with
    marker: Option<int>,        // the last month queued
    firstPeriod: Option<int>,   // the first month ever attempted
    mailed: seq<int>)           // scheduled mails the server accepted, oldest first

  const INITIAL := JobState({}, {}, None, None, [])

  /** How far one attempt at queueing gets. */
  datatype QueueFaults = QueueFaults(readable: bool, historyReady: bool, enqueues: nat, markerSaved: bool)

  datatype Attempt = Recorded | AbsenceChanged | DatabaseError

  /** What a month's report meets on its way. */
  datatype Course =
    | Broken              // the report could not be produced
    | CoversNobody
    | Waiting             // somebody's month is not final
    | NothingToReport
    | NoSmtp
    | Refused             // SMTP failed or the breaker is open
    | Accepted            // SMTP accepted the mail

  datatype Report = Report(course: Course, accounting: seq<Attempt>)

  const ACCOUNTING_RETRY_ATTEMPTS := 3

  /** Whether one of the accounting attempts from `n` on records the month. */
  predicate RecordsFrom(accounting: seq<Attempt>, n: nat)
    decreases if n <= ACCOUNTING_RETRY_ATTEMPTS then ACCOUNTING_RETRY_ATTEMPTS - n else 0
  {
    && n < ACCOUNTING_RETRY_ATTEMPTS
    && n < |accounting|
    && (accounting[n].Recorded? || (accounting[n].DatabaseError? && RecordsFrom(accounting, n + 1)))
  }

  function FirstMonths(months: seq<int>, count: nat): (s: set<int>)
    ensures forall m | m in s :: m in months
    ensures count >= |months| ==> forall m | m in months :: m in s
  {
    if months == [] || count == 0 then {} else {months[0]} + FirstMonths(months[1..], count - 1)
  }

  lemma {:induction false} OneMoreMonth(months: seq<int>, count: nat)
    requires count < |months|
    ensures FirstMonths(months, count + 1) == FirstMonths(months, count) + {months[count]}
  {
    if count > 0 {
      OneMoreMonth(months[1..], count - 1);
    }
  }

  lemma {:induction false} AllMonths(months: seq<int>, count: nat)
    requires count >= |months|
    ensures FirstMonths(months, count) == FirstMonths(months, |months|)
  {
    if months != [] {
      AllMonths(months[1..], count - 1);
    }
  }

  /** The queue takes a month only once. */
  function Enqueue(s: JobState, months: seq<int>, count: nat): JobState {
    s.(pending := s.pending + FirstMonths(months, count))
  }

  /** Queueing up to the month before `now`; the flag tells whether it succeeded. */
  function Queued(s: JobState, now: int, faults: QueueFaults): (JobState, bool) {
    var target := now - 1;
    if !faults.readable || (s.marker.None? && !faults.historyReady) then (s, false)
    else
      var known := if s.marker.None? && s.firstPeriod.None? then s.(firstPeriod := Some(target)) else s;
      var months := MonthsToQueue(s.marker, target);
      if months == [] then (known, true)
      else
        var queued := Enqueue(known, months, faults.enqueues);
        if faults.enqueues < |months| || !faults.markerSaved then (queued, false)
        else (queued.(marker := Some(target)), true)
  }

  function Settle(s: JobState, month: int): JobState {
    s.(pending := s.pending - {month}, settled := s.settled + {month})
  }

  /** A scheduled report of one month. */
  function Reported(s: JobState, month: int, report: Report): JobState {
    var records := RecordsFrom(report.accounting, 0);
    match report.course
    case CoversNobody => if records then Settle(s, month) else s
    case NothingToReport => if records then Settle(s, month) else s
    case Accepted =>
      var sent := s.(mailed := s.mailed + [month]);
      if records then Settle(sent, month) else sent
    case _ => s
  }

  function Processed(s: JobState, months: seq<int>, today: Date, dayOfMonth: nat, reports: int -> Report): JobState {
    if months == [] then s
    else
      var n := |months| - 1;
      var before := Processed(s, months[..n], today, dayOfMonth, reports);
      if Deferred(today, dayOfMonth, months[n]) then before else Reported(before, months[n], reports(months[n]))
  }

  // ---------------------------------------------------------------------
  // The job
  // ---------------------------------------------------------------------

  class PayrollJob {
    var pending: set<int>
    var settled: set<int>
    var marker: Option<int>
    var firstPeriod: Option<int>
    var mailed: seq<int>

    constructor ()
      ensures State() == INITIAL
    {
      pending, settled, marker, firstPeriod, mailed := {}, {}, None, None, [];
    }

    function State(): JobState
      reads this
    {
      JobState(pending, settled, marker, firstPeriod, mailed)
    }

    method QueuePreviousMonth(today: Date, faults: QueueFaults) returns (ok: bool)
      modifies this
      ensures (State(), ok) == Queued(old(State()), MonthNumber(today), faults)
    {
      hide MonthNumber;
      if !faults.readable {
        return false;
      }
      var target := MonthNumber(today) - 1;
      if marker.None? {
        if !faults.historyReady {
          return false;
        }
        if firstPeriod.None? {
          firstPeriod := Some(target);
        }
      }
      var months := MonthsToQueue(marker, target);
      if months == [] {
        return true;
      }
      ghost var known := State();
      for i := 0 to |months|
        invariant i <= faults.enqueues
        invariant State() == Enqueue(known, months, i)
      {
        if i == faults.enqueues {
          return false;
        }
        OneMoreMonth(months, i);
        pending := pending + {months[i]};
      }
      AllMonths(months, faults.enqueues);
      assert State() == Enqueue(known, months, faults.enqueues);
      if !faults.markerSaved {
        return false;
      }
      marker := Some(target);
      return true;
    }

    /** The accounting transaction with its retries: it settles the month as a whole or not at all. */
    method MarkReported(month: int, accounting: seq<Attempt>) returns (ok: bool)
      modifies this
      ensures ok == RecordsFrom(accounting, 0)
      ensures State() == if ok then Settle(old(State()), month) else old(State())
    {
      for n := 0 to ACCOUNTING_RETRY_ATTEMPTS
        invariant State() == old(State())
        invariant RecordsFrom(accounting, 0) == RecordsFrom(accounting, n)
      {
        if n >= |accounting| || accounting[n].AbsenceChanged? {
          return false;
        }
        if accounting[n].Recorded? {
          pending := pending - {month};
          settled := settled + {month};
          return true;
        }
      }
      return false;
    }

    method ProcessPeriod(month: int, report: Report)
      modifies this
      ensures State() == Reported(old(State()), month, report)
    {
      match report.course {
        case CoversNobody =>
          var ok := MarkReported(month, report.accounting);
        case NothingToReport =>
          var ok := MarkReported(month, report.accounting);
        case Accepted =>
          mailed := mailed + [month];
          var ok := MarkReported(month, report.accounting);
        case Broken =>
        case Waiting =>
        case NoSmtp =>
        case Refused =>
      }
    }

    /** The nightly run. */
    method RunOnce(today: Date, dayOfMonth: nat, faults: QueueFaults, listed: bool, reports: int -> Report)
      modifies this
      ensures State() == Run(old(State()), Scheduled(today, dayOfMonth, faults, listed, reports))
    {
      hide Queued, Deferred, MonthNumber, Reported;
      var ok := QueuePreviousMonth(today, faults);
      if !ok || !listed {
        return;
      }
      var months := Ascending(pending);
      ghost var queued := State();
      for i := 0 to |months|
        invariant State() == Processed(queued, months[..i], today, dayOfMonth, reports)
      {
        assert months[..i + 1][..i] == months[..i];
        if Deferred(today, dayOfMonth, months[i]) {
          continue;
        }
        ProcessPeriod(months[i], reports(months[i]));
      }
      assert months[..|months|] == months;
    }

    /** The administrator's "Send now": it queues what is missing and mails a copy of the oldest month
        owed, or of the running month; a copy changes neither queue nor accounting. */
    method RunNow(today: Date, faults: QueueFaults) returns (target: Option<int>)
      modifies this
      ensures State() == Run(old(State()), Manual(today, faults))
      ensures target.Some? <==> Queued(old(State()), MonthNumber(today), faults).1
      ensures target.Some? && pending != {} ==> target.value in pending && forall m | m in pending :: target.value <= m
      ensures target.Some? && pending == {} ==> target.value == MonthNumber(today)
    {
      var ok := QueuePreviousMonth(today, faults);
      if !ok {
        return None;
      }
      return Some(if pending != {} then Least(pending) else MonthNumber(today));
    }
  }

  // ---------------------------------------------------------------------
  // All runs
  // ---------------------------------------------------------------------

  datatype JobRun =
    | Scheduled(today: Date, dayOfMonth: nat, faults: QueueFaults, listed: bool, reports: int -> Report)
    | Manual(today: Date, faults: QueueFaults)

  function Run(s: JobState, run: JobRun): JobState {
    var (queued, ok) := Queued(s, MonthNumber(run.today), run.faults);
    if ok && run.Scheduled? && run.listed
    then Processed(queued, Ascending(queued.pending), run.today, run.dayOfMonth, run.reports)
    else queued
  }

  function AfterRuns(s: JobState, runs: seq<JobRun>): JobState
    decreases |runs|
  {
    if runs == [] then s else AfterRuns(Run(s, runs[0]), runs[1..])
  }

  /** Dates never go back, the first of them not before `last`. */
  ghost predicate DatesAscend(last: Date, runs: seq<JobRun>) {
    && (runs != [] ==> last <= runs[0].today)
    && forall i | 0 < i < |runs| :: runs[i - 1].today <= runs[i].today
  }

  /** Every month from `first` up to the marker is either pending or settled and never both; nothing
      later is settled, and nothing after the month before `now` is pending. */
  ghost predicate Accounted(s: JobState, first: int, now: int) {
    && s.marker.Some? && first <= s.marker.value < now
    && (forall m | first <= m <= s.marker.value :: m in s.pending || m in s.settled)
    && s.pending !! s.settled
    && (forall m | m in s.settled :: m <= s.marker.value)
    && (forall m | m in s.pending :: m < now)
  }

  /** Before the first marker is saved nothing has been processed. */
  ghost predicate NotStarted(s: JobState, now: int) {
    && s.marker.None? && s.settled == {} && s.mailed == []
    && forall m | m in s.pending :: m < now
  }

  /** A queueing that finds `marker` gets as far as its months. */
  predicate Ready(marker: Option<int>, faults: QueueFaults) {
    faults.readable && (marker.Some? || faults.historyReady)
  }

  /** How many months it has to insert. */
  function MonthsMissing(marker: Option<int>, now: int): nat {
    if marker.None? || marker.value > now - 1 then 1 else now - 1 - marker.value
  }

  /** It inserts the month: its own target when there is no marker or a later one, and otherwise the months
      after the marker as far as the inserts go. */
  predicate InsertsMonth(marker: Option<int>, now: int, faults: QueueFaults, month: int) {
    && Ready(marker, faults)
    && if marker.None? || marker.value > now - 1 then month == now - 1 && faults.enqueues >= 1
       else marker.value < month < now && month - marker.value <= faults.enqueues
  }

  /** It succeeds: there is nothing to insert, or every month goes in and the marker is saved. */
  predicate Passes(marker: Option<int>, now: int, faults: QueueFaults) {
    && Ready(marker, faults)
    && (MonthsMissing(marker, now) == 0 || (MonthsMissing(marker, now) <= faults.enqueues && faults.markerSaved))
  }

  lemma {:induction false} RangeHead(from: int, to: int)
    requires from <= to
    ensures MonthRange(from, to) == [from] + MonthRange(from + 1, to)
    ensures |MonthRange(from, to)| == to - from + 1
    decreases DayCount(from, to)
  {
    if from < to {
      RangeHead(from, to - 1);
    } else {
      assert MonthRange(from, to - 1) == [] && MonthRange(from + 1, to) == [];
    }
  }

  lemma {:induction false} FirstOfRange(from: int, to: int, count: nat, month: int)
    ensures month in FirstMonths(MonthRange(from, to), count) <==> from <= month <= to && month < from + count
    decreases count
  {
    if from <= to {
      RangeHead(from, to);
      if count > 0 {
        FirstOfRange(from + 1, to, count - 1, month);
        assert MonthRange(from, to)[1..] == MonthRange(from + 1, to);
      }
    } else {
      assert MonthRange(from, to) == [];
    }
  }

  lemma QueueLength(marker: Option<int>, now: int)
    ensures |MonthsToQueue(marker, now - 1)| == MonthsMissing(marker, now)
  {
    if marker.Some? && marker.value < now - 1 {
      RangeHead(marker.value + 1, now - 1);
    }
  }

  lemma InsertedMonths(marker: Option<int>, now: int, faults: QueueFaults, month: int)
    requires Ready(marker, faults)
    ensures month in FirstMonths(MonthsToQueue(marker, now - 1), faults.enqueues) <==> InsertsMonth(marker, now, faults, month)
  {
    if marker.None? || marker.value > now - 1 {
      var months := MonthsToQueue(marker, now - 1);
      assert months == [now - 1] && months[0] in months;
      assert FirstMonths(months, faults.enqueues) == if faults.enqueues >= 1 then {now - 1} else {};
    } else {
      FirstOfRange(marker.value + 1, now - 1, faults.enqueues, month);
    }
  }

  /** What a queueing does in any state, on any date and with any faults. */
  lemma QueueingExactly(s: JobState, now: int, faults: QueueFaults)
    ensures
      var (queued, ok) := Queued(s, now, faults);
      && ok == Passes(s.marker, now, faults)
      && (forall m :: m in queued.pending <==> m in s.pending || InsertsMonth(s.marker, now, faults, m))
      && queued.settled == s.settled && queued.mailed == s.mailed
      && queued.marker == if ok then Some(now - 1) else s.marker
  {
    var (queued, ok) := Queued(s, now, faults);
    QueueLength(s.marker, now);
    if Ready(s.marker, faults) {
      forall m ensures m in queued.pending <==> m in s.pending || InsertsMonth(s.marker, now, faults, m) {
        InsertedMonths(s.marker, now, faults, m);
      }
    }
  }

  lemma QueueingKeepsAccount(s: JobState, first: int, last: int, now: int, faults: QueueFaults)
    requires Accounted(s, first, last) && last <= now
    ensures
      var (queued, ok) := Queued(s, now, faults);
      && Accounted(queued, first, now) && queued.settled == s.settled && queued.mailed == s.mailed
      && (ok ==> forall m | m in queued.pending :: m <= queued.marker.value)
  {
    var months := MonthsToQueue(s.marker, now - 1);
  }

  /** Without a marker the queueing is worth trying: what it would begin with can be read and prepared. */
  predicate Attempts(faults: QueueFaults) {
    faults.readable && faults.historyReady
  }

  /** It gets its month into the queue. */
  predicate Inserts(faults: QueueFaults) {
    Attempts(faults) && faults.enqueues >= 1
  }

  /** It saves the first marker. */
  predicate Saves(faults: QueueFaults) {
    Inserts(faults) && faults.markerSaved
  }

  /** What a queueing without a marker does. */
  lemma FirstQueueing(s: JobState, now: int, faults: QueueFaults)
    requires s.marker.None?
    ensures
      var (queued, ok) := Queued(s, now, faults);
      && ok == Saves(faults)
      && queued == s.(
           pending := s.pending + if Inserts(faults) then {now - 1} else {},
           marker := if Saves(faults) then Some(now - 1) else None,
           firstPeriod := if Attempts(faults) && s.firstPeriod.None? then Some(now - 1) else s.firstPeriod)
  {
    var months := MonthsToQueue(s.marker, now - 1);
    assert months == [now - 1] && months[0] in months;
    assert FirstMonths(months, faults.enqueues) == if faults.enqueues >= 1 then {now - 1} else {};
    assert s.pending + {} == s.pending;
  }

  /** What processing may change: months move from pending to settled as they are, only those listed
      and due, and only those are mailed. */
  ghost predicate SettlesSome(s: JobState, after: JobState, months: seq<int>, today: Date, dayOfMonth: nat) {
    && after.marker == s.marker && after.firstPeriod == s.firstPeriod
    && after.pending + after.settled == s.pending + s.settled
    && (forall m | m in after.pending :: m in s.pending)
    && (forall m | m in s.settled :: m in after.settled)
    && (forall m | m in after.settled && m !in s.settled :: m in months && !Deferred(today, dayOfMonth, m))
    && (s.pending !! s.settled ==> after.pending !! after.settled)
    && s.mailed <= after.mailed
    && (forall k | |s.mailed| <= k < |after.mailed| ::
          after.mailed[k] in months && !Deferred(today, dayOfMonth, after.mailed[k]))
  }

  lemma OneMoreReport(s: JobState, mid: JobState, after: JobState, months: seq<int>, month: int,
                      today: Date, dayOfMonth: nat, report: Report)
    requires SettlesSome(s, mid, months, today, dayOfMonth)
    requires month in s.pending && !Deferred(today, dayOfMonth, month) && after == Reported(mid, month, report)
    ensures SettlesSome(s, after, months + [month], today, dayOfMonth)
  {
    hide RecordsFrom, Deferred;
    assert forall m | m in months :: m in months + [month];
    assert month in mid.pending + mid.settled;
    assert after.pending + after.settled == mid.pending + mid.settled;
  }

  lemma {:induction false} ProcessingSettlesPending(
      s: JobState, months: seq<int>, today: Date, dayOfMonth: nat, reports: int -> Report)
    requires forall m | m in months :: m in s.pending
    ensures SettlesSome(s, Processed(s, months, today, dayOfMonth, reports), months, today, dayOfMonth)
  {
    if months != [] {
      var n := |months| - 1;
      var front, month := months[..n], months[n];
      assert months == front + [month] && month in months;
      assert forall m | m in front :: m in months;
      ProcessingSettlesPending(s, front, today, dayOfMonth, reports);
      if !Deferred(today, dayOfMonth, month) {
        OneMoreReport(s, Processed(s, front, today, dayOfMonth, reports),
                      Processed(s, months, today, dayOfMonth, reports), front, month, today, dayOfMonth, reports(month));
      }
    }
  }

  /** A run on a date not before the last keeps the account. */
  lemma RunKeepsAccount(s: JobState, first: int, last: int, run: JobRun)
    requires Accounted(s, first, last) && last <= MonthNumber(run.today)
    ensures Accounted(Run(s, run), first, MonthNumber(run.today))
    ensures s.settled <= Run(s, run).settled
    ensures run.Manual? ==> Run(s, run).settled == s.settled && Run(s, run).mailed == s.mailed
  {
    QueueingKeepsAccount(s, first, last, MonthNumber(run.today), run.faults);
    var (queued, ok) := Queued(s, MonthNumber(run.today), run.faults);
    if ok && run.Scheduled? && run.listed {
      ProcessingSettlesPending(queued, Ascending(queued.pending), run.today, run.dayOfMonth, run.reports);
    }
  }

  /** The run that saves the first marker begins the account at the month before it; no other run does
      more than queue. */
  lemma FirstRun(s: JobState, last: int, run: JobRun)
    requires NotStarted(s, last) && last <= MonthNumber(run.today)
    ensures
      var now := MonthNumber(run.today);
      if Saves(run.faults) then Accounted(Run(s, run), now - 1, now)
      else NotStarted(Run(s, run), now) && Run(s, run) == Queued(s, now, run.faults).0
  {
    var now := MonthNumber(run.today);
    hide MonthNumber, Queued, Deferred;
    FirstQueueing(s, now, run.faults);
    var (queued, ok) := Queued(s, now, run.faults);
    if ok && run.Scheduled? && run.listed {
      ProcessingSettlesPending(queued, Ascending(queued.pending), run.today, run.dayOfMonth, run.reports);
    }
  }

  /** Over all runs on dates that never go back, whatever fails in between: from the first saved
      marker on every month is pending or settled, never both, and a settled month stays settled. */
  lemma {:induction false} RunsKeepAccount(s: JobState, first: int, last: Date, runs: seq<JobRun>)
    requires Accounted(s, first, MonthNumber(last)) && DatesAscend(last, runs)
    ensures Accounted(AfterRuns(s, runs), first, MonthNumber(if runs == [] then last else runs[|runs| - 1].today))
    ensures s.settled <= AfterRuns(s, runs).settled
    decreases |runs|
  {
    hide MonthNumber, Run;
    if runs != [] {
      MonthNumbersAscend(last, runs[0].today);
      RunKeepsAccount(s, first, MonthNumber(last), runs[0]);
      assert DatesAscend(runs[0].today, runs[1..]);
      RunsKeepAccount(Run(s, runs[0]), first, runs[0].today, runs[1..]);
    }
  }

  function Mails(mailed: seq<int>, month: int): nat {
    if mailed == [] then 0 else Mails(mailed[..|mailed| - 1], month) + if mailed[|mailed| - 1] == month then 1 else 0
  }

  /** A scheduled run mails only months it may process: pending, not settled, and not before their
      configured day. */
  lemma RunMailsOnlyOpenMonths(s: JobState, first: int, last: int, run: JobRun)
    requires Accounted(s, first, last) && last <= MonthNumber(run.today)
    ensures s.mailed <= Run(s, run).mailed
    ensures forall k | |s.mailed| <= k < |Run(s, run).mailed| ::
      var m := Run(s, run).mailed[k];
      run.Scheduled? && m !in s.settled && !Deferred(run.today, run.dayOfMonth, m)
    ensures run.Scheduled? ==> forall m | Deferred(run.today, run.dayOfMonth, m) :: m in Run(s, run).settled <==> m in s.settled
  {
    QueueingKeepsAccount(s, first, last, MonthNumber(run.today), run.faults);
    var (queued, ok) := Queued(s, MonthNumber(run.today), run.faults);
    if ok && run.Scheduled? && run.listed {
      ProcessingSettlesPending(queued, Ascending(queued.pending), run.today, run.dayOfMonth, run.reports);
    }
  }

  /** Once a month is settled no scheduled run ever mails it again. */
  lemma {:induction false} SettledIsNeverMailedAgain(s: JobState, first: int, last: Date, runs: seq<JobRun>, month: int)
    requires Accounted(s, first, MonthNumber(last)) && DatesAscend(last, runs) && month in s.settled
    ensures Mails(AfterRuns(s, runs).mailed, month) == Mails(s.mailed, month)
    decreases |runs|
  {
    if runs != [] {
      var next := Run(s, runs[0]);
      MonthNumbersAscend(last, runs[0].today);
      RunKeepsAccount(s, first, MonthNumber(last), runs[0]);
      RunMailsOnlyOpenMonths(s, first, MonthNumber(last), runs[0]);
      NoMoreMails(s.mailed, next.mailed, month);
      assert DatesAscend(runs[0].today, runs[1..]);
      SettledIsNeverMailedAgain(next, first, runs[0].today, runs[1..], month);
    }
  }

  lemma {:induction false} RunsInTwoParts(s: JobState, before: seq<JobRun>, after: seq<JobRun>)
    ensures AfterRuns(s, before + after) == AfterRuns(AfterRuns(s, before), after)
    decreases |before|
  {
    if before == [] {
      assert before + after == after;
    } else {
      assert (before + after)[1..] == before[1..] + after;
      RunsInTwoParts(Run(s, before[0]), before[1..], after);
    }
  }

  lemma {:induction false} NoMoreMails(before: seq<int>, after: seq<int>, month: int)
    requires before <= after
    requires forall k | |before| <= k < |after| :: after[k] != month
    ensures Mails(after, month) == Mails(before, month)
    decreases |after|
  {
    if |before| < |after| {
      NoMoreMails(before, after[..|after| - 1], month);
    } else {
      assert before == after;
    }
  }

  // ---------------------------------------------------------------------
  // What one nightly run does, month by month
  // ---------------------------------------------------------------------

  /** The month is done with: there was nothing to say or the mail went out, and that is on record. */
  predicate Settles(report: Report) {
    (report.course.CoversNobody? || report.course.NothingToReport? || report.course.Accepted?)
    && RecordsFrom(report.accounting, 0)
  }

  /** The month is queued and its turn has come. */
  predicate Due(s: JobState, today: Date, dayOfMonth: nat, month: int) {
    month in s.pending && !Deferred(today, dayOfMonth, month)
  }

  /** What became of one month, judged by its own report alone. */
  ghost predicate Answered(s: JobState, after: JobState, month: int, taken: bool, report: Report) {
    && (month in after.settled <==> month in s.settled || (taken && Settles(report)))
    && (month in after.pending <==> month in s.pending && !(taken && Settles(report)))
    && Mails(after.mailed, month) == Mails(s.mailed, month) + if taken && report.course.Accepted? then 1 else 0
  }

  lemma OneReport(s: JobState, month: int, report: Report, other: int)
    ensures Answered(s, Reported(s, month, report), other, other == month, report)
  {
    hide RecordsFrom;
    assert (s.mailed + [month])[..|s.mailed|] == s.mailed;
  }

  lemma {:induction false} EachMonthIsAnswered(
      s: JobState, months: seq<int>, today: Date, dayOfMonth: nat, reports: int -> Report, month: int)
    requires forall i, j | 0 <= i < j < |months| :: months[i] < months[j]
    ensures Answered(s, Processed(s, months, today, dayOfMonth, reports), month,
                     month in months && !Deferred(today, dayOfMonth, month), reports(month))
  {
    hide Reported, Deferred, Settles, Mails;
    if months != [] {
      var n := |months| - 1;
      var last := months[n];
      assert months == months[..n] + [last] && last !in months[..n];
      EachMonthIsAnswered(s, months[..n], today, dayOfMonth, reports, month);
      if !Deferred(today, dayOfMonth, last) {
        OneReport(Processed(s, months[..n], today, dayOfMonth, reports), last, reports(last), month);
      }
    }
  }

  /** A nightly run that gets as far as the queue treats every month by itself: exactly the due ones
      are attempted, one of them is settled exactly when its own report says so, the others stay queued,
      and each is mailed at most once. No month's trouble holds up another. */
  lemma NightlyRunAnswersEachMonth(s: JobState, run: JobRun, month: int)
    requires run.Scheduled? && run.listed && Queued(s, MonthNumber(run.today), run.faults).1
    ensures
      var queued := Queued(s, MonthNumber(run.today), run.faults).0;
      Answered(queued, Run(s, run), month, Due(queued, run.today, run.dayOfMonth, month), run.reports(month))
  {
    hide Queued, MonthNumber, Deferred, Answered;
    var queued := Queued(s, MonthNumber(run.today), run.faults).0;
    EachMonthIsAnswered(queued, Ascending(queued.pending), run.today, run.dayOfMonth, run.reports, month);
  }

  /** The nightly run gets to the month in the queue and settles it. */
  predicate NightSettles(s: JobState, night: JobRun, month: int) {
    && night.Scheduled? && night.listed
    && Passes(s.marker, MonthNumber(night.today), night.faults)
    && !Deferred(night.today, night.dayOfMonth, month) && Settles(night.reports(month))
    && (month in s.pending || InsertsMonth(s.marker, MonthNumber(night.today), night.faults, month))
  }

  /** What a run does to one month in any state, on any date and with any faults. */
  lemma RunExactly(s: JobState, run: JobRun, month: int)
    ensures
      var after, now := Run(s, run), MonthNumber(run.today);
      && (month in after.settled <==> month in s.settled || NightSettles(s, run, month))
      && (month in after.pending <==>
            (month in s.pending || InsertsMonth(s.marker, now, run.faults, month)) && !NightSettles(s, run, month))
      && after.marker == (if Passes(s.marker, now, run.faults) then Some(now - 1) else s.marker)
      && s.mailed <= after.mailed
  {
    hide MonthNumber, Deferred, Settles, Passes, InsertsMonth;
    var now := MonthNumber(run.today);
    QueueingExactly(s, now, run.faults);
    var (queued, ok) := Queued(s, now, run.faults);
    hide Queued;
    if ok && run.Scheduled? && run.listed {
      ProcessingSettlesPending(queued, Ascending(queued.pending), run.today, run.dayOfMonth, run.reports);
      NightlyRunAnswersEachMonth(s, run, month);
    }
  }
}
