/** The accounting attempts of a payroll report, and the order in which a run mails its months. */
module PayrollReports {
  import opened Calendar
  import opened PayrollJobs
  import opened Sorting

  /** Attempt `n` records the month, and only database errors precede it from `from` on. */
  predicate RecordedAt(accounting: seq<Attempt>, from: nat, n: int) {
    && from <= n < 3 && n < |accounting| && accounting[n].Recorded?
    && forall k | from <= k < n :: accounting[k].DatabaseError?
  }

  /** One of the first three accounting attempts records the month, and only database errors precede it. */
  lemma {:induction false} RecordedWhen(accounting: seq<Attempt>, from: nat)
    ensures RecordsFrom(accounting, from) <==> exists n :: RecordedAt(accounting, from, n)
    decreases if from <= 3 then 3 - from else 0
  {
    if from < 3 && from < |accounting| {
      RecordedWhen(accounting, from + 1);
      if accounting[from].Recorded? {
        assert RecordedAt(accounting, from, from);
      } else if accounting[from].DatabaseError? && RecordsFrom(accounting, from + 1) {
        var n :| RecordedAt(accounting, from + 1, n);
        assert forall k | from <= k < n :: k == from || accounting[k].DatabaseError?;
        assert RecordedAt(accounting, from, n);
      }
    }
  }

  ghost predicate MailedInOrder(mailed: seq<int>, from: int) {
    forall i, j | 0 <= from <= i < j < |mailed| :: mailed[i] < mailed[j]
  }

  lemma {:induction false} ProcessingMailsInOrder(
      s: JobState, months: seq<int>, today: Date, dayOfMonth: nat, reports: int -> Report)
    requires forall i, j | 0 <= i < j < |months| :: months[i] < months[j]
    ensures
      var mailed := Processed(s, months, today, dayOfMonth, reports).mailed;
      && s.mailed <= mailed && MailedInOrder(mailed, |s.mailed|)
      && forall k | |s.mailed| <= k < |mailed| :: mailed[k] in months
  {
    hide Deferred, RecordsFrom;
    if months != [] {
      var n := |months| - 1;
      ProcessingMailsInOrder(s, months[..n], today, dayOfMonth, reports);
      assert months == months[..n] + [months[n]];
      forall m | m in months[..n] ensures m < months[n] {}
    }
  }

  /** A run mails the oldest months first. */
  lemma RunMailsInOrder(s: JobState, run: JobRun)
    ensures s.mailed <= Run(s, run).mailed && MailedInOrder(Run(s, run).mailed, |s.mailed|)
  {
    hide MonthNumber;
    QueueingExactly(s, MonthNumber(run.today), run.faults);
    var (queued, ok) := Queued(s, MonthNumber(run.today), run.faults);
    hide Queued;
    if ok && run.Scheduled? && run.listed {
      ProcessingMailsInOrder(queued, Ascending(queued.pending), run.today, run.dayOfMonth, run.reports);
    }
  }
}
