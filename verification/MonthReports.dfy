/** Turning the days of a month report into one list of entries and a list of absence runs. */
module MonthReports {
  import opened Calendar
  import opened Wrappers

  datatype Entry = Entry(startTime: string, endTime: string, minutes: int, category: string,
                         countsAsWork: bool, status: string, comment: Option<string>)

  /** `absence` is the kind of absence; a missing or empty one means none. */
  datatype Day = Day(date: Date, entries: Option<seq<Entry>>, absence: Option<string>)

  datatype DatedEntry = DatedEntry(entryDate: Date, startTime: string, endTime: string, minutes: int,
                                   categoryName: string, countsAsWork: bool, status: string, comment: Option<string>)

  datatype AbsenceRun = AbsenceRun(kind: string, startDate: Date, endDate: Date)

  /** A report as the server sends it, the days missing or not a list perhaps; `fields` is all the rest. */
  datatype Report = Report(days: Option<seq<Day>>, entries: Option<seq<DatedEntry>>,
                           absences: Option<seq<AbsenceRun>>, fields: map<string, string>)

  /** An entry as the list shows it: with the date of its day, everything else as it is. */
  function Dated(date: Date, e: Entry): DatedEntry {
    DatedEntry(date, e.startTime, e.endTime, e.minutes, e.category, e.countsAsWork, e.status, e.comment)
  }

  function EntriesIn(day: Day): seq<Entry> {
    if day.entries.Some? then day.entries.value else []
  }

  predicate Absent(day: Day) {
    day.absence.Some? && day.absence.value != ""
  }

  // ---------------------------------------------------------------------
  // The two lists
  // ---------------------------------------------------------------------

  function EntriesOf(date: Date, entries: seq<Entry>): seq<DatedEntry> {
    if entries == [] then []
    else EntriesOf(date, entries[..|entries| - 1]) + [Dated(date, entries[|entries| - 1])]
  }

  /** All entries of all days in order, each with its date. */
  function AllEntries(days: seq<Day>): seq<DatedEntry> {
    if days == [] then []
    else AllEntries(days[..|days| - 1]) + EntriesOf(days[|days| - 1].date, EntriesIn(days[|days| - 1]))
  }

  /** The loop's state: the runs that are finished and the one still growing. */
  datatype Runs = Runs(finished: seq<AbsenceRun>, active: Option<AbsenceRun>)

  function Flushed(r: Runs): seq<AbsenceRun> {
    if r.active.Some? then r.finished + [r.active.value] else r.finished
  }

  function WithDay(r: Runs, day: Day): Runs {
    if !Absent(day) then Runs(Flushed(r), None)
    else if r.active.None? || r.active.value.kind != day.absence.value
    then Runs(Flushed(r), Some(AbsenceRun(day.absence.value, day.date, day.date)))
    else r.(active := Some(r.active.value.(endDate := day.date)))
  }

  function RunsOf(days: seq<Day>): Runs {
    if days == [] then Runs([], None) else WithDay(RunsOf(days[..|days| - 1]), days[|days| - 1])
  }

  /** The entries and runs of the days replace those of the report; a report without a list of days, or
      none at all, is passed through. */
  function Normalized(report: Option<Report>): Option<Report> {
    if report.None? || report.value.days.None? then report
    else
      var days := report.value.days.value;
      Some(report.value.(entries := Some(AllEntries(days)), absences := Some(Flushed(RunsOf(days)))))
  }

  method NormalizeMonthReport(report: Option<Report>) returns (r: Option<Report>)
    ensures r == Normalized(report)
  {
    if report.None? || report.value.days.None? {
      return report;
    }
    var entries, absences := CollectDays(report.value.days.value);
    return Some(report.value.(entries := Some(entries), absences := Some(absences)));
  }

  method CollectDays(days: seq<Day>) returns (entries: seq<DatedEntry>, absences: seq<AbsenceRun>)
    ensures entries == AllEntries(days)
    ensures absences == Flushed(RunsOf(days))
  {
    entries := [];
    absences := [];
    var active: Option<AbsenceRun> := None;
    for n := 0 to |days|
      invariant entries == AllEntries(days[..n])
      invariant Runs(absences, active) == RunsOf(days[..n])
    {
      assert days[..n + 1][..n] == days[..n];
      var day := days[n];
      var listed := EntriesIn(day);
      ghost var before := entries;
      for k := 0 to |listed|
        invariant entries == before + EntriesOf(day.date, listed[..k])
      {
        assert listed[..k + 1][..k] == listed[..k];
        entries := entries + [Dated(day.date, listed[k])];
      }
      assert listed[..|listed|] == listed;
      if !Absent(day) {
        if active.Some? {
          absences := absences + [active.value];
          active := None;
        }
        continue;
      }
      if active.None? || active.value.kind != day.absence.value {
        if active.Some? {
          absences := absences + [active.value];
        }
        active := Some(AbsenceRun(day.absence.value, day.date, day.date));
        continue;
      }
      active := Some(active.value.(endDate := day.date));
    }
    assert days[..|days|] == days;
    if active.Some? {
      absences := absences + [active.value];
    }
  }

  // ---------------------------------------------------------------------
  // What the runs say about the days
  // ---------------------------------------------------------------------

  ghost predicate Chronological(days: seq<Day>) {
    forall i, j | 0 <= i < j < |days| :: days[i].date < days[j].date
  }

  predicate InRun(run: AbsenceRun, date: Date) {
    run.startDate <= date <= run.endDate
  }

  /** The run begins and ends on listed days with its kind of absence. */
  ghost predicate Anchored(run: AbsenceRun, days: seq<Day>) {
    && (exists k | 0 <= k < |days| :: days[k].date == run.startDate && days[k].absence == Some(run.kind))
    && (exists k | 0 <= k < |days| :: days[k].date == run.endDate && days[k].absence == Some(run.kind))
  }

  /** Runs follow one another without overlap. */
  ghost predicate Disjoint(runs: seq<AbsenceRun>) {
    && (forall i | 0 <= i < |runs| :: runs[i].startDate <= runs[i].endDate)
    && (forall i, j | 0 <= i < j < |runs| :: runs[i].endDate < runs[j].startDate)
  }

  /** The listed days decoded from the runs: an absent day lies in a run of its kind, another day in
      none. */
  ghost predicate Describes(runs: seq<AbsenceRun>, day: Day) {
    if Absent(day) then exists i | 0 <= i < |runs| :: InRun(runs[i], day.date) && runs[i].kind == day.absence.value
    else forall i | 0 <= i < |runs| :: !InRun(runs[i], day.date)
  }

  /** A listed day without absence lies between the two runs. */
  ghost predicate Parted(a: AbsenceRun, b: AbsenceRun, days: seq<Day>) {
    exists k | 0 <= k < |days| :: a.endDate < days[k].date < b.startDate && !Absent(days[k])
  }

  /** No two neighbouring runs could be one. */
  ghost predicate Maximal(runs: seq<AbsenceRun>, days: seq<Day>) {
    forall i, j | 0 <= i < j < |runs| && j == i + 1 :: runs[i].kind != runs[j].kind || Parted(runs[i], runs[j], days)
  }

  /** What the runs say about the days, and that none reaches beyond the last day. */
  ghost predicate Faithful(runs: seq<AbsenceRun>, days: seq<Day>) {
    && Disjoint(runs)
    && (forall k | 0 <= k < |days| :: Describes(runs, days[k]))
    && (forall i | 0 <= i < |runs| :: days != [] && runs[i].endDate <= days[|days| - 1].date)
    && Maximal(runs, days)
  }

  lemma AnchoredStays(run: AbsenceRun, days: seq<Day>, day: Day)
    requires Anchored(run, days)
    ensures Anchored(run, days + [day])
  {
    var s :| 0 <= s < |days| && days[s].date == run.startDate && days[s].absence == Some(run.kind);
    var e :| 0 <= e < |days| && days[e].date == run.endDate && days[e].absence == Some(run.kind);
    assert (days + [day])[s] == days[s] && (days + [day])[e] == days[e];
  }

  /** Runs begin and end on absent days of their kind. */
  lemma {:induction false} RunsAreAnchored(days: seq<Day>)
    ensures forall i | 0 <= i < |Flushed(RunsOf(days))| :: Anchored(Flushed(RunsOf(days))[i], days)
  {
    if days != [] {
      var n := |days| - 1;
      var front, day := days[..n], days[n];
      assert days == front + [day];
      RunsAreAnchored(front);
      var before, after := Flushed(RunsOf(front)), Flushed(RunsOf(days));
      forall i | 0 <= i < |after| ensures Anchored(after[i], days) {
        if i < |before| {
          AnchoredStays(before[i], front, day);
        }
        if Absent(day) && i == |after| - 1 {
          assert days[n].date == after[i].endDate && days[n].absence == Some(after[i].kind);
        }
      }
    }
  }

  /** A run is growing exactly when the last day is absent, for its reason and up to it. */
  ghost predicate InStep(r: Runs, days: seq<Day>) {
    && (r.active.Some? <==> days != [] && Absent(days[|days| - 1]))
    && (r.active.Some? ==> r.active.value.endDate == days[|days| - 1].date
                           && r.active.value.kind == days[|days| - 1].absence.value)
  }

  lemma PartedStays(a: AbsenceRun, b: AbsenceRun, days: seq<Day>, day: Day)
    requires Parted(a, b, days)
    ensures Parted(a, b, days + [day])
  {
    var k :| 0 <= k < |days| && a.endDate < days[k].date < b.startDate && !Absent(days[k]);
    assert (days + [day])[k] == days[k];
  }

  lemma MaximalStays(runs: seq<AbsenceRun>, days: seq<Day>, day: Day)
    requires Maximal(runs, days)
    ensures Maximal(runs, days + [day])
  {
    forall i, j | 0 <= i < j < |runs| && j == i + 1 && runs[i].kind == runs[j].kind
      ensures Parted(runs[i], runs[j], days + [day])
    {
      PartedStays(runs[i], runs[j], days, day);
    }
  }

  /** Every run ends before a later day. */
  lemma RunsEndBefore(runs: seq<AbsenceRun>, days: seq<Day>, day: Day)
    requires Faithful(runs, days) && Chronological(days + [day])
    ensures forall i | 0 <= i < |runs| :: runs[i].endDate < day.date
    ensures forall k | 0 <= k < |days| :: days[k].date < day.date
  {
    var all := days + [day];
    forall k | 0 <= k < |days| ensures days[k].date < day.date {
      assert all[k].date < all[|days|].date;
    }
  }

  lemma PresentDay(runs: seq<AbsenceRun>, days: seq<Day>, day: Day)
    requires Faithful(runs, days) && Chronological(days + [day]) && !Absent(day)
    ensures Faithful(runs, days + [day])
  {
    RunsEndBefore(runs, days, day);
    MaximalStays(runs, days, day);
    forall k | 0 <= k <= |days| ensures Describes(runs, (days + [day])[k]) {}
  }

  lemma DescribedBeside(runs: seq<AbsenceRun>, run: AbsenceRun, day: Day)
    requires Describes(runs, day) && day.date < run.startDate
    ensures Describes(runs + [run], day)
  {
    var more := runs + [run];
    if Absent(day) {
      var i :| 0 <= i < |runs| && InRun(runs[i], day.date) && runs[i].kind == day.absence.value;
      assert more[i] == runs[i];
    }
  }

  /** The run before a new one is for another reason, or a day without absence lies between. */
  lemma NewRunIsApart(r: Runs, days: seq<Day>, day: Day)
    requires Faithful(Flushed(r), days) && InStep(r, days) && Chronological(days + [day]) && Flushed(r) != []
    requires Absent(day) && (r.active.None? || r.active.value.kind != day.absence.value)
    ensures
      var last := Flushed(r)[|Flushed(r)| - 1];
      var run := AbsenceRun(day.absence.value, day.date, day.date);
      last.kind != run.kind || Parted(last, run, days + [day])
  {
    var runs := Flushed(r);
    var last := runs[|runs| - 1];
    if r.active.None? {
      var k := |days| - 1;
      assert Describes(runs, days[k]) && !InRun(last, days[k].date);
      RunsEndBefore(runs, days, day);
      assert (days + [day])[k] == days[k];
    }
  }

  lemma NewRun(r: Runs, days: seq<Day>, day: Day)
    requires Faithful(Flushed(r), days) && InStep(r, days) && Chronological(days + [day])
    requires Absent(day) && (r.active.None? || r.active.value.kind != day.absence.value)
    ensures Faithful(Flushed(r) + [AbsenceRun(day.absence.value, day.date, day.date)], days + [day])
  {
    var runs := Flushed(r);
    var run := AbsenceRun(day.absence.value, day.date, day.date);
    RunsEndBefore(runs, days, day);
    MaximalStays(runs, days, day);
    if runs != [] {
      NewRunIsApart(r, days, day);
    }
    forall k | 0 <= k <= |days| ensures Describes(runs + [run], (days + [day])[k]) {
      if k < |days| {
        DescribedBeside(runs, run, days[k]);
      } else {
        assert (runs + [run])[|runs|] == run && InRun(run, day.date);
      }
    }
  }

  lemma LongerRun(finished: seq<AbsenceRun>, run: AbsenceRun, days: seq<Day>, day: Day)
    requires Faithful(finished + [run], days) && Chronological(days + [day]) && days != []
    requires run.endDate == days[|days| - 1].date && Absent(day) && run.kind == day.absence.value
    ensures Faithful(finished + [run.(endDate := day.date)], days + [day])
  {
    var before, after := finished + [run], finished + [run.(endDate := day.date)];
    RunsEndBefore(before, days, day);
    MaximalStays(before, days, day);
    var n := |finished|;
    assert before[n] == run && forall i | 0 <= i < n :: before[i] == after[i];
    forall i, j | 0 <= i < j < |after| && j == i + 1
      ensures after[i].kind != after[j].kind || Parted(after[i], after[j], days + [day])
    {
      assert before[i].kind != before[j].kind || Parted(before[i], before[j], days + [day]);
    }
    forall k | 0 <= k <= |days| ensures Describes(after, (days + [day])[k]) {
      if k < |days| {
        StillDescribed(finished, run, days, k, day);
      } else {
        assert after[n].startDate <= day.date;
        assert InRun(after[n], day.date);
      }
    }
  }

  lemma StillDescribed(finished: seq<AbsenceRun>, run: AbsenceRun, days: seq<Day>, k: nat, day: Day)
    requires Faithful(finished + [run], days) && Chronological(days + [day]) && k < |days|
    requires run.endDate == days[|days| - 1].date
    ensures Describes(finished + [run.(endDate := day.date)], days[k])
  {
    var before, after := finished + [run], finished + [run.(endDate := day.date)];
    RunsEndBefore(before, days, day);
    assert before[|finished|] == run && Describes(before, days[k]);
    assert forall i | 0 <= i < |finished| :: before[i] == after[i];
    assert days[k].date <= run.endDate by {
      var all := days + [day];
      assert k < |days| - 1 ==> all[k].date < all[|days| - 1].date;
    }
    if Absent(days[k]) {
      var i :| 0 <= i < |before| && InRun(before[i], days[k].date) && before[i].kind == days[k].absence.value;
      assert InRun(after[i], days[k].date) && after[i].kind == days[k].absence.value;
    } else {
      forall i | 0 <= i < |after| ensures !InRun(after[i], days[k].date) {
        assert !InRun(before[i], days[k].date);
      }
    }
  }

  lemma {:induction false} LoopStaysFaithful(days: seq<Day>)
    requires Chronological(days)
    ensures Faithful(Flushed(RunsOf(days)), days) && InStep(RunsOf(days), days)
  {
    if days != [] {
      var n := |days| - 1;
      var front, day := days[..n], days[n];
      assert days == front + [day];
      LoopStaysFaithful(front);
      var r := RunsOf(front);
      if !Absent(day) {
        PresentDay(Flushed(r), front, day);
      } else if r.active.None? || r.active.value.kind != day.absence.value {
        NewRun(r, front, day);
      } else {
        LongerRun(r.finished, r.active.value, front, day);
      }
    }
  }

  /** The runs of a month whose days are listed in order decode back to the days: an absent day lies in
      exactly one run, of its own kind, and another day in none; a run begins and ends on absent days, and no two runs
      could be one. */
  lemma RunsDecodeToDays(days: seq<Day>, k: nat)
    requires Chronological(days) && k < |days|
    ensures
      var runs := Flushed(RunsOf(days));
      && Maximal(runs, days)
      && (forall i | 0 <= i < |runs| :: Anchored(runs[i], days))
      && (Absent(days[k]) ==>
            (exists i | 0 <= i < |runs| :: InRun(runs[i], days[k].date) && runs[i].kind == days[k].absence.value)
            && forall i, j | 0 <= i < |runs| && 0 <= j < |runs| && InRun(runs[i], days[k].date) && InRun(runs[j], days[k].date) :: i == j)
      && (!Absent(days[k]) ==> forall i | 0 <= i < |runs| :: !InRun(runs[i], days[k].date))
  {
    LoopStaysFaithful(days);
    RunsAreAnchored(days);
    assert Describes(Flushed(RunsOf(days)), days[k]);
  }

  /** Every entry of every day is listed once, in order: the entry at position `i` of a day follows
      those of the days before it. */
  lemma {:induction false} EntriesKeepTheirPlace(days: seq<Day>, n: nat, i: nat)
    requires n < |days| && i < |EntriesIn(days[n])|
    ensures |AllEntries(days[..n])| + i < |AllEntries(days)|
    ensures AllEntries(days)[|AllEntries(days[..n])| + i] == Dated(days[n].date, EntriesIn(days[n])[i])
  {
    var last := |days| - 1;
    if n < last {
      EntriesKeepTheirPlace(days[..last], n, i);
      assert days[..last][..n] == days[..n];
    } else {
      EntryAt(days[n].date, EntriesIn(days[n]), i);
    }
  }

  lemma {:induction false} EntryAt(date: Date, entries: seq<Entry>, i: nat)
    requires i < |entries|
    ensures |EntriesOf(date, entries)| == |entries|
    ensures EntriesOf(date, entries)[i] == Dated(date, entries[i])
  {
    var n := |entries| - 1;
    if i < n {
      EntryAt(date, entries[..n], i);
    } else if n > 0 {
      EntryAt(date, entries[..n], n - 1);
    }
  }

  /** And nothing else is listed: every place of the list belongs to an entry of a day. */
  lemma {:induction false} NothingElseIsListed(days: seq<Day>, p: nat) returns (n: nat, i: nat)
    requires p < |AllEntries(days)|
    ensures n < |days| && i < |EntriesIn(days[n])| && p == |AllEntries(days[..n])| + i
  {
    var last := |days| - 1;
    if p < |AllEntries(days[..last])| {
      n, i := NothingElseIsListed(days[..last], p);
      assert days[..last][..n] == days[..n];
    } else {
      n, i := last, p - |AllEntries(days[..last])|;
      if EntriesIn(days[last]) != [] {
        EntryAt(days[last].date, EntriesIn(days[last]), 0);
      }
    }
  }


  // ---------------------------------------------------------------------
  // The report returned
  // ---------------------------------------------------------------------

  /** A report without a list of days is returned as it is, and no report as none. */
  lemma NothingToNormalize(report: Option<Report>)
    requires report.None? || report.value.days.None?
    ensures Normalized(report) == report
  {
  }

  /** In the report returned the days and all other fields are as before, and its runs tell the days: a day
      with an absence is in one of its kind and a day without one in none. */
  lemma ReportTellsAbsences(report: Report, k: nat)
    requires report.days.Some? && k < |report.days.value|
    requires forall i, j | 0 <= i < j < |report.days.value| :: report.days.value[i].date < report.days.value[j].date
    ensures
      var r := Normalized(Some(report));
      && r.Some? && r.value.days == report.days && r.value.fields == report.fields && r.value.absences.Some?
      && var day, runs := report.days.value[k], r.value.absences.value;
         && (day.absence.Some? && day.absence.value != "" ==>
               exists i | 0 <= i < |runs| ::
                 runs[i].startDate <= day.date <= runs[i].endDate && runs[i].kind == day.absence.value)
         && (day.absence.None? || day.absence.value == "" ==>
               forall i | 0 <= i < |runs| :: day.date < runs[i].startDate || runs[i].endDate < day.date)
  {
    var days := report.days.value;
    hide WithDay, AllEntries, Flushed;
    LoopStaysFaithful(days);
    DayTold(Flushed(RunsOf(days)), days[k]);
  }

  /** The run begins and ends on days of its kind. */
  ghost predicate FromDayToDay(run: AbsenceRun, days: seq<Day>) {
    && run.startDate <= run.endDate
    && (exists b | 0 <= b < |days| :: days[b].date == run.startDate && days[b].absence == Some(run.kind))
    && (exists e | 0 <= e < |days| :: days[e].date == run.endDate && days[e].absence == Some(run.kind))
  }

  /** A day without an absence lies between the two. */
  ghost predicate PresentBetween(first: AbsenceRun, second: AbsenceRun, days: seq<Day>) {
    exists b | 0 <= b < |days| ::
      first.endDate < days[b].date < second.startDate && (days[b].absence.None? || days[b].absence.value == "")
  }

  /** The runs lie one behind the other, every run begins and ends on days of its kind, and neighbouring
      runs of one kind have a day without an absence between them. */
  ghost predicate LieApart(runs: seq<AbsenceRun>, days: seq<Day>) {
    && (forall i, j | 0 <= i < j < |runs| :: runs[i].endDate < runs[j].startDate)
    && (forall i | 0 <= i < |runs| :: FromDayToDay(runs[i], days))
    && (forall i, j | 0 <= i < j < |runs| && j == i + 1 && runs[i].kind == runs[j].kind ::
          PresentBetween(runs[i], runs[j], days))
  }

  lemma AnchoredRun(run: AbsenceRun, days: seq<Day>)
    requires Anchored(run, days) && run.startDate <= run.endDate
    ensures FromDayToDay(run, days)
  {
  }

  lemma PartedRuns(first: AbsenceRun, second: AbsenceRun, days: seq<Day>)
    requires Parted(first, second, days)
    ensures PresentBetween(first, second, days)
  {
  }

  lemma FaithfulRunsLieApart(runs: seq<AbsenceRun>, days: seq<Day>)
    requires Faithful(runs, days) && forall i | 0 <= i < |runs| :: Anchored(runs[i], days)
    ensures LieApart(runs, days)
  {
    hide Anchored, Parted, FromDayToDay, PresentBetween, Describes;
    forall i | 0 <= i < |runs| ensures FromDayToDay(runs[i], days) {
      AnchoredRun(runs[i], days);
    }
    forall i, j | 0 <= i < j < |runs| && j == i + 1 && runs[i].kind == runs[j].kind
      ensures PresentBetween(runs[i], runs[j], days)
    {
      PartedRuns(runs[i], runs[j], days);
    }
  }

  lemma ReportRunsLieApart(report: Report)
    requires report.days.Some?
    requires forall i, j | 0 <= i < j < |report.days.value| :: report.days.value[i].date < report.days.value[j].date
    ensures
      var r := Normalized(Some(report));
      r.Some? && r.value.absences.Some? && LieApart(r.value.absences.value, report.days.value)
  {
    LoopStaysFaithful(report.days.value);
    RunsAreAnchored(report.days.value);
    FaithfulRunsLieApart(Flushed(RunsOf(report.days.value)), report.days.value);
  }

  lemma DayTold(runs: seq<AbsenceRun>, day: Day)
    requires Describes(runs, day)
    ensures day.absence.Some? && day.absence.value != "" ==>
      exists i | 0 <= i < |runs| ::
        runs[i].startDate <= day.date <= runs[i].endDate && runs[i].kind == day.absence.value
    ensures day.absence.None? || day.absence.value == "" ==>
      forall i | 0 <= i < |runs| :: day.date < runs[i].startDate || runs[i].endDate < day.date
  {
    if Absent(day) {
      var i :| 0 <= i < |runs| && InRun(runs[i], day.date) && runs[i].kind == day.absence.value;
      assert runs[i].startDate <= day.date <= runs[i].endDate;
    } else {
      forall i | 0 <= i < |runs| ensures day.date < runs[i].startDate || runs[i].endDate < day.date {
        assert !InRun(runs[i], day.date);
      }
    }
  }

  /** In the report returned every entry of every day stands once, with its date and all its fields, behind
      the entries of the days before it. */
  lemma ReportListsEntries(report: Report, n: nat, i: nat)
    requires report.days.Some? && n < |report.days.value|
    requires report.days.value[n].entries.Some? && i < |report.days.value[n].entries.value|
    ensures
      var r := Normalized(Some(report));
      && r.Some? && r.value.entries.Some?
      && var day, listed := report.days.value[n], r.value.entries.value;
         var place := |AllEntries(report.days.value[..n])| + i;
         var e := day.entries.value[i];
         place < |listed| && listed[place]
           == DatedEntry(day.date, e.startTime, e.endTime, e.minutes, e.category, e.countsAsWork, e.status, e.comment)
  {
    EntriesKeepTheirPlace(report.days.value, n, i);
  }

  /** The place of a day's entries is the number of entries before it. */
  lemma {:induction false} EntriesBefore(days: seq<Day>)
    ensures |AllEntries(days)| == EntryCount(days)
  {
    if days != [] {
      EntriesBefore(days[..|days| - 1]);
      if EntriesIn(days[|days| - 1]) != [] {
        EntryAt(days[|days| - 1].date, EntriesIn(days[|days| - 1]), 0);
      }
    }
  }

  function EntryCount(days: seq<Day>): nat {
    if days == [] then 0
    else
      var last := days[|days| - 1];
      EntryCount(days[..|days| - 1]) + if last.entries.Some? then |last.entries.value| else 0
  }
}
