/** Which failed deliveries are reported to the administrators, and why the reports do not feed
    themselves. */
module DeliveryAlerts {
  import opened Wrappers

  /** Unicode white space, as `trim` understands it. */
  predicate IsSpace(c: char) {
    var u := c as int;
    || 0x09 <= u <= 0x0D || u == 0x20 || u == 0x85 || u == 0xA0 || u == 0x1680
    || 0x2000 <= u <= 0x200A || u == 0x2028 || u == 0x2029 || u == 0x202F || u == 0x205F || u == 0x3000
  }

  function BeforeColon(s: string): (r: string)
    ensures r <= s
  {
    if s == "" || s[0] == ':' then "" else [s[0]] + BeforeColon(s[1..])
  }

  function TrimStart(s: string): string {
    if s != "" && IsSpace(s[0]) then TrimStart(s[1..]) else s
  }

  function TrimEnd(s: string): string {
    if s != "" && IsSpace(s[|s| - 1]) then TrimEnd(s[..|s| - 1]) else s
  }

  /** The stable head of an error text; two failures of one class have the same reason. */
  function FailureClass(error: string): string {
    TrimEnd(TrimStart(BeforeColon(error)))
  }

  /** The details after the first colon never make a new reason. */
  lemma DetailsDoNotMatter(head: string, a: string, b: string)
    requires ':' !in head
    ensures FailureClass(head + ":" + a) == FailureClass(head + ":" + b) == FailureClass(head)
  {
    ColonEndsHead(head, a);
    ColonEndsHead(head, b);
    ColonEndsHead(head, "");
    NoColon(head);
  }

  lemma {:induction false} ColonEndsHead(head: string, tail: string)
    requires ':' !in head
    ensures BeforeColon(head + ":" + tail) == head
  {
    var s := head + ":" + tail;
    if head == "" {
      assert s[0] == ':';
    } else {
      assert s[1..] == head[1..] + ":" + tail && head[0] in head;
      ColonEndsHead(head[1..], tail);
    }
  }

  lemma {:induction false} NoColon(head: string)
    requires ':' !in head
    ensures BeforeColon(head) == head
  {
    if head != "" {
      assert head[0] in head;
      NoColon(head[1..]);
    }
  }

  const PERSISTENT_FAILURE_ATTEMPTS := 100

  predicate IsReportedFailure(attempts: int, previous: Option<string>, error: string) {
    || attempts == 1
    || attempts == PERSISTENT_FAILURE_ATTEMPTS
    || previous.None?
    || FailureClass(previous.value) != FailureClass(error)
  }

  // ---------------------------------------------------------------------
  // The failures of one mail
  // ---------------------------------------------------------------------

  /** Whether the failure at position `i` of a mail's failures is reported. */
  predicate ReportedAt(errors: seq<string>, i: nat)
    requires i < |errors|
  {
    IsReportedFailure(i + 1, if i == 0 then None else Some(errors[i - 1]), errors[i])
  }

  lemma PrefixReported(errors: seq<string>, n: nat, i: nat)
    requires i < n <= |errors|
    ensures ReportedAt(errors[..n], i) == ReportedAt(errors, i)
  {
    assert i > 0 ==> errors[..n][i - 1] == errors[i - 1];
  }

  function ReportCount(errors: seq<string>): nat {
    if errors == [] then 0
    else
      var n := |errors| - 1;
      ReportCount(errors[..n]) + if ReportedAt(errors, n) then 1 else 0
  }

  /** How often the reason changed from one failure to the next. */
  function ClassChanges(errors: seq<string>): nat {
    if |errors| < 2 then 0
    else
      var n := |errors| - 1;
      ClassChanges(errors[..n]) + if FailureClass(errors[n]) != FailureClass(errors[n - 1]) then 1 else 0
  }

  /** The last failure that was reported. */
  function LastReported(errors: seq<string>): (r: nat)
    requires errors != []
    ensures r < |errors| && ReportedAt(errors, r)
    ensures forall i | r < i < |errors| :: !ReportedAt(errors, i)
  {
    var n := |errors| - 1;
    if ReportedAt(errors, n) then n
    else
      var r := LastReported(errors[..n]);
      assert forall i | 0 <= i < n :: ReportedAt(errors[..n], i) == ReportedAt(errors, i) by {
        forall i | 0 <= i < n ensures ReportedAt(errors[..n], i) == ReportedAt(errors, i) {
          PrefixReported(errors, n, i);
        }
      }
      r
  }

  /** What the administrators were told last is why the mail fails now. */
  lemma {:induction false} LastReportIsCurrent(errors: seq<string>)
    requires errors != []
    ensures FailureClass(errors[LastReported(errors)]) == FailureClass(errors[|errors| - 1])
  {
    var n := |errors| - 1;
    if !ReportedAt(errors, n) {
      LastReportIsCurrent(errors[..n]);
    }
  }

  /** A mail is reported once for its first failure, once for each change of reason, and at most once
      more for not going away. */
  lemma {:induction false} ReportsFollowReasons(errors: seq<string>)
    requires errors != []
    ensures 1 + ClassChanges(errors) <= ReportCount(errors) <= 2 + ClassChanges(errors)
    ensures |errors| < 100 ==> ReportCount(errors) == 1 + ClassChanges(errors)
    ensures |errors| == 100 ==> ReportedAt(errors, |errors| - 1)
  {
    var n := |errors| - 1;
    if n == 0 {
      assert ReportCount(errors[..0]) == 0;
    } else {
      ReportsFollowReasons(errors[..n]);
      assert errors[..n][n - 1] == errors[n - 1];
    }
  }

  // ---------------------------------------------------------------------
  // Alerts
  // ---------------------------------------------------------------------

  const WRITER_TARGET := "zerf::log_capture"
  const EMAIL_QUEUE_TARGET := "zerf::email_queue"

  datatype LogRecord = LogRecord(level: string, target: string, adminNotified: Option<string>)

  predicate TargetIsNotificationSubsystem(target: string) {
    || target == WRITER_TARGET
    || "zerf::notifications" <= target
    || "zerf::email" <= target
    || "zerf::error_notify" <= target
  }

  /** Every captured error alerts, except the delivery subsystems' own and those told already. */
  predicate RaisesAdminAlert(r: LogRecord) {
    && r.level == "error"
    && !TargetIsNotificationSubsystem(r.target)
    && r.adminNotified != Some("true")
  }

  type MailId = int

  /** One recorded failure of a mail; `alertMail` says that the mail itself is an admin alert. */
  datatype Failure = Failure(id: MailId, alertMail: bool, error: string)

  /** The errors recorded for one mail, oldest first. */
  function ErrorsOf(run: seq<Failure>, id: MailId): seq<string> {
    if run == [] then []
    else
      var n := |run| - 1;
      if run[n].id == id then ErrorsOf(run[..n], id) + [run[n].error] else ErrorsOf(run[..n], id)
  }

  /** The log line a failure leaves: an error when it is reported, only a note otherwise. */
  function LogLine(reported: bool): LogRecord {
    LogRecord(if reported then "error" else "info", EMAIL_QUEUE_TARGET, None)
  }

  /** The last failure of the run is reported. */
  predicate LastIsReported(run: seq<Failure>)
    requires run != []
  {
    var errors := ErrorsOf(run, run[|run| - 1].id);
    |errors| > 0 && ReportedAt(errors, |errors| - 1)
  }

  /** The alerts one failure raises: the worker's own, and what the log capture makes of its log line. */
  function AlertsOf(f: Failure, reported: bool): seq<MailId> {
    (if reported && !f.alertMail then [f.id] else [])
    + (if RaisesAdminAlert(LogLine(reported)) then [f.id] else [])
  }

  /** The mails about which the run raises alerts, in order. */
  function Alerts(run: seq<Failure>): seq<MailId> {
    if run == [] then []
    else Alerts(run[..|run| - 1]) + AlertsOf(run[|run| - 1], LastIsReported(run))
  }

  lemma OwnAlertOnly(f: Failure, reported: bool)
    ensures AlertsOf(f, reported) == if reported && !f.alertMail then [f.id] else []
  {
    assert "zerf::email" <= EMAIL_QUEUE_TARGET;
  }

  function AboutOrdinaryMails(run: seq<Failure>): seq<Failure> {
    if run == [] then []
    else
      var n := |run| - 1;
      if run[n].alertMail then AboutOrdinaryMails(run[..n]) else AboutOrdinaryMails(run[..n]) + [run[n]]
  }

  /** A mail is an alert or it is not. */
  ghost predicate KindsAreFixed(run: seq<Failure>) {
    forall i, j | 0 <= i < |run| && 0 <= j < |run| && run[i].id == run[j].id :: run[i].alertMail == run[j].alertMail
  }

  lemma {:induction false} OrdinaryErrorsKept(run: seq<Failure>, id: MailId)
    requires forall i | 0 <= i < |run| && run[i].id == id :: !run[i].alertMail
    ensures ErrorsOf(AboutOrdinaryMails(run), id) == ErrorsOf(run, id)
  {
    if run != [] {
      var n := |run| - 1;
      OrdinaryErrorsKept(run[..n], id);
      if !run[n].alertMail {
        ErrorsAppend(AboutOrdinaryMails(run[..n]), run[n], id);
      }
    }
  }

  lemma ErrorsAppend(run: seq<Failure>, f: Failure, id: MailId)
    ensures ErrorsOf(run + [f], id) == if f.id == id then ErrorsOf(run, id) + [f.error] else ErrorsOf(run, id)
  {
    assert (run + [f])[..|run|] == run;
  }

  lemma AlertsGrow(front: seq<Failure>, last: Failure)
    ensures Alerts(front + [last])
         == if LastIsReported(front + [last]) && !last.alertMail then Alerts(front) + [last.id] else Alerts(front)
  {
    hide FailureClass, RaisesAdminAlert;
    OwnAlertOnly(last, LastIsReported(front + [last]));
    assert (front + [last])[..|front|] == front;
  }

  lemma SameHistorySameReport(run: seq<Failure>, other: seq<Failure>)
    requires run != [] && other != [] && run[|run| - 1] == other[|other| - 1]
    requires ErrorsOf(run, run[|run| - 1].id) == ErrorsOf(other, run[|run| - 1].id)
    ensures LastIsReported(run) == LastIsReported(other)
  {
  }

  /** Failing alert mails raise nothing: over any run the alerts are those of the run without them,
      however long the mail server stays down. */
  lemma {:induction false} AlertsDoNotFeedThemselves(run: seq<Failure>)
    requires KindsAreFixed(run)
    ensures Alerts(run) == Alerts(AboutOrdinaryMails(run))
  {
    hide LastIsReported, AlertsOf;
    if run != [] {
      var n := |run| - 1;
      var front, last := run[..n], run[n];
      assert run == front + [last];
      AlertsDoNotFeedThemselves(front);
      AlertsGrow(front, last);
      if !last.alertMail {
        var ordinary := AboutOrdinaryMails(front);
        OrdinaryErrorsKept(run, last.id);
        SameHistorySameReport(run, ordinary + [last]);
        AlertsGrow(ordinary, last);
      }
    }
  }

  function AlertsAbout(alerts: seq<MailId>, id: MailId): nat {
    if alerts == [] then 0
    else AlertsAbout(alerts[..|alerts| - 1], id) + if alerts[|alerts| - 1] == id then 1 else 0
  }

  lemma {:induction false} AlertsAboutConcat(alerts: seq<MailId>, x: MailId, id: MailId)
    ensures AlertsAbout(alerts + [x], id) == AlertsAbout(alerts, id) + if x == id then 1 else 0
    ensures alerts + [] == alerts
  {
    assert (alerts + [x])[..|alerts|] == alerts;
  }

  /** An ordinary mail raises exactly one alert per report, an alert mail none. */
  lemma {:induction false} AlertsAreReports(run: seq<Failure>, id: MailId, alertMail: bool)
    requires forall i | 0 <= i < |run| && run[i].id == id :: run[i].alertMail == alertMail
    ensures AlertsAbout(Alerts(run), id) == if alertMail then 0 else ReportCount(ErrorsOf(run, id))
  {
    hide FailureClass, RaisesAdminAlert;
    if run != [] {
      var n := |run| - 1;
      var front, last := run[..n], run[n];
      AlertsAreReports(front, id, alertMail);
      OwnAlertOnly(last, LastIsReported(run));
      AlertsAboutConcat(Alerts(front), last.id, id);
      ReportsOfLast(run);
    }
  }

  /** The last failure adds one report exactly when it is reported. */
  lemma ReportsOfLast(run: seq<Failure>)
    requires run != []
    ensures
      var front, id := run[..|run| - 1], run[|run| - 1].id;
      ReportCount(ErrorsOf(run, id)) == ReportCount(ErrorsOf(front, id)) + if LastIsReported(run) then 1 else 0
  {
    hide FailureClass;
    var errors := ErrorsOf(run, run[|run| - 1].id);
    assert errors[..|errors| - 1] == ErrorsOf(run[..|run| - 1], run[|run| - 1].id);
  }


  // ---------------------------------------------------------------------
  // In plain text
  // ---------------------------------------------------------------------

  lemma SpacesAre(c: char)
    ensures IsSpace(' ') && IsSpace('\t') && IsSpace('\n') && IsSpace('\r')
    ensures '!' <= c <= '~' ==> !IsSpace(c)
  {
  }

  lemma {:induction false} TrimStartDrops(spaces: string, text: string)
    requires (forall i | 0 <= i < |spaces| :: IsSpace(spaces[i])) && text != "" && !IsSpace(text[0])
    ensures TrimStart(spaces + text) == text
  {
    if spaces == "" {
      assert spaces + text == text;
    } else {
      TrimStartDrops(spaces[1..], text);
      assert (spaces + text)[1..] == spaces[1..] + text;
    }
  }

  lemma {:induction false} TrimEndDrops(text: string, spaces: string)
    requires (forall i | 0 <= i < |spaces| :: IsSpace(spaces[i])) && text != "" && !IsSpace(text[|text| - 1])
    ensures TrimEnd(text + spaces) == text
  {
    if spaces == "" {
      assert text + spaces == text;
    } else {
      var n := |spaces| - 1;
      TrimEndDrops(text, spaces[..n]);
      assert (text + spaces)[..|text| + n] == text + spaces[..n];
    }
  }

  /** The reason of a failure is what stands before the first colon without the white space around it: a
      head that begins and ends in no white space is its own class, so different heads are different
      reasons. */
  lemma HeadIsItsClass(before: string, head: string, behind: string, details: string)
    requires head != "" && !IsSpace(head[0]) && !IsSpace(head[|head| - 1]) && ':' !in before + head + behind
    requires forall i | 0 <= i < |before| :: IsSpace(before[i])
    requires forall i | 0 <= i < |behind| :: IsSpace(behind[i])
    ensures FailureClass(before + head + behind) == head
    ensures FailureClass(before + head + behind + ":" + details) == head
  {
    var text := before + head + behind;
    NoColon(text);
    ColonEndsHead(text, details);
    assert text == before + (head + behind) && (head + behind)[0] == head[0];
    TrimStartDrops(before, head + behind);
    TrimEndDrops(head, behind);
  }

  /** Which log records alert the administrators. */
  lemma ErrorsAlert(r: LogRecord)
    ensures RaisesAdminAlert(r) <==>
      && r.level == "error" && r.adminNotified != Some("true") && r.target != "zerf::log_capture"
      && !("zerf::notifications" <= r.target) && !("zerf::email" <= r.target) && !("zerf::error_notify" <= r.target)
  {
  }


  /** Which failure is reported: the first, the hundredth, and one whose class is not that of the one before;
      a reported one is logged as an error and any other as a note. */
  lemma ReportedWhen(attempts: int, previous: Option<string>, error: string)
    ensures IsReportedFailure(attempts, previous, error) <==>
      attempts == 1 || attempts == 100 || previous.None? || FailureClass(previous.value) != FailureClass(error)
    ensures LogLine(true).level == "error" && LogLine(false).level == "info"
    ensures LogLine(true).target == LogLine(false).target == "zerf::email_queue"
  {
  }
}
