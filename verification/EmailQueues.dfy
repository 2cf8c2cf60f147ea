/** The durable mail queue and the worker that drains it through the circuit breaker. */
module EmailQueues {
  import opened CircuitBreakers
  import opened DeliveryAlerts
  import opened Numbers
  import opened Sorting
  import opened Wrappers

  /** A queued mail: what is to be sent, and how its deliveries went so far. */
  datatype Row = Row(content: string, attempts: nat, lastAttempt: Option<nat>, lastError: Option<string>)

  /** What one attempt meets: when it is made, the server's answer, the three tries to delete the row
      and whether a failure could be recorded. */
  datatype Try = Try(start: nat, end: nat, accepted: bool, error: string, deletes: seq<bool>, recorded: bool)

  function FreshRow(content: string): Row {
    Row(content, 0, None, None)
  }

  const BATCH_LIMIT := 50
  const DELETE_RETRY_ATTEMPTS := 3

  /** The tables and counters the worker changes; `accepted` counts the acceptances of each mail by the
      server, `sends` all SMTP transactions. */
  datatype Mailroom = Mailroom(table: map<MailId, Row>, breaker: BreakerState, accepted: multiset<MailId>, sends: nat)

  // ---------------------------------------------------------------------
  // Order of the queue
  // ---------------------------------------------------------------------

  /** Never-tried mails first, then the one tried longest ago; the number breaks ties. */
  function QueueKey(table: map<MailId, Row>): int -> int {
    (id: int) =>
      if id !in table then 0
      else match table[id].lastAttempt case None => 0 case Some(t) => t + 1
  }

  function InQueueOrder(table: map<MailId, Row>): (ids: seq<MailId>)
    ensures forall id :: id in ids <==> id in table
  {
    SortByKey(Ascending(table.Keys), QueueKey(table))
  }

  function Batch(table: map<MailId, Row>, limit: nat): (ids: seq<MailId>)
    ensures |ids| <= limit && forall id | id in ids :: id in table
  {
    var ids := InQueueOrder(table);
    if |ids| <= limit then ids else ids[..limit]
  }

  // ---------------------------------------------------------------------
  // One pass
  // ---------------------------------------------------------------------

  predicate Deletes(deletes: seq<bool>, n: nat)
    decreases if n <= DELETE_RETRY_ATTEMPTS then DELETE_RETRY_ATTEMPTS - n else 0
  {
    n < DELETE_RETRY_ATTEMPTS && n < |deletes| && (deletes[n] || Deletes(deletes, n + 1))
  }

  function Recorded(table: map<MailId, Row>, id: MailId, t: Try): map<MailId, Row> {
    if t.recorded && id in table
    then table[id := table[id].(attempts := table[id].attempts + 1, lastAttempt := Some(t.end), lastError := Some(t.error))]
    else table
  }

  /** One mail of the batch; the flag says whether the pass goes on. */
  function Handled(p: Settings, m: Mailroom, id: MailId, t: Try): (Mailroom, bool) {
    var (breaker, outcome) := Sent(p, m.breaker, t.start, t.end, t.accepted);
    match outcome
    case CircuitOpen => (m.(breaker := breaker), false)
    case Delivered =>
      var table := if Deletes(t.deletes, 0) then m.table - {id} else m.table;
      (Mailroom(table, breaker, m.accepted + multiset{id}, m.sends + 1), true)
    case Refused => (Mailroom(Recorded(m.table, id, t), breaker, m.accepted, m.sends + 1), true)
  }

  function Drained(p: Settings, m: Mailroom, ids: seq<MailId>, tries: nat -> Try, n: nat): Mailroom
    decreases if n < |ids| then |ids| - n else 0
  {
    if n >= |ids| then m
    else
      var (next, goOn) := Handled(p, m, ids[n], tries(n));
      if goOn then Drained(p, next, ids, tries, n + 1) else next
  }

  class EmailWorker {
    const breaker: CircuitBreaker
    var table: map<MailId, Row>
    var accepted: multiset<MailId>
    var sends: nat

    constructor (breaker: CircuitBreaker)
      ensures this.breaker == breaker && State() == Mailroom(map[], breaker.State(), multiset{}, 0)
    {
      this.breaker := breaker;
      table, accepted, sends := map[], multiset{}, 0;
    }

    function State(): Mailroom
      reads this, breaker
    {
      Mailroom(table, breaker.State(), accepted, sends)
    }

    /** Deleting is repeated a few times, since the mail has already gone out. */
    method DeleteWithRetry(id: MailId, deletes: seq<bool>) returns (ok: bool)
      modifies this`table
      ensures ok == Deletes(deletes, 0)
      ensures table == if ok then old(table) - {id} else old(table)
    {
      for n := 0 to DELETE_RETRY_ATTEMPTS
        invariant table == old(table)
        invariant Deletes(deletes, 0) == Deletes(deletes, n)
      {
        if n >= |deletes| {
          return false;
        }
        if deletes[n] {
          table := table - {id};
          return true;
        }
      }
      return false;
    }

    method Handle(id: MailId, t: Try) returns (goOn: bool)
      modifies this, breaker
      ensures (State(), goOn) == Handled(breaker.params, old(State()), id, t)
    {
      var outcome := breaker.GuardedSend(t.start, t.end, t.accepted);
      match outcome {
        case Delivered =>
          sends := sends + 1;
          accepted := accepted + multiset{id};
          var deleted := DeleteWithRetry(id, t.deletes);
          return true;
        case CircuitOpen =>
          return false;
        case Refused =>
          sends := sends + 1;
          table := Recorded(table, id, t);
          return true;
      }
    }

    /** One poll: the pending mails are sent one after the other until the breaker denies one. */
    method ProcessPending(smtpConfigured: bool, listed: bool, tries: nat -> Try)
      modifies this, breaker
      ensures State() == if smtpConfigured && listed
                         then Drained(breaker.params, old(State()), Batch(old(table), 50), tries, 0)
                         else old(State())
    {
      if !smtpConfigured || !listed {
        return;
      }
      var entries := Batch(table, BATCH_LIMIT);
      var n := 0;
      while n < |entries|
        invariant 0 <= n <= |entries|
        invariant Drained(breaker.params, old(State()), entries, tries, 0)
               == Drained(breaker.params, State(), entries, tries, n)
      {
        var goOn := Handle(entries[n], tries(n));
        if !goOn {
          break;
        }
        n := n + 1;
      }
    }
  }

  // ---------------------------------------------------------------------
  // No mail is lost
  // ---------------------------------------------------------------------

  /** What happens to the mail room: a new mail is queued under a number of its own, the worker makes
      a whole pass or one attempt of it, or another sender changes the shared breaker. */
  datatype Step =
    | Enqueue(content: string)
    | Pass(limit: nat, tries: nat -> Try)
    | Single(id: MailId, t: Try)
    | OtherSender(breaker: BreakerState)

  datatype Run = Run(room: Mailroom, queued: seq<string>)

  function Stepped(p: Settings, r: Run, step: Step): Run {
    match step
    case Enqueue(content) =>
      Run(r.room.(table := r.room.table[|r.queued| := FreshRow(content)]), r.queued + [content])
    case Pass(limit, tries) => r.(room := Drained(p, r.room, Batch(r.room.table, limit), tries, 0))
    case Single(id, t) => if id in r.room.table then r.(room := Handled(p, r.room, id, t).0) else r
    case OtherSender(breaker) => r.(room := r.room.(breaker := breaker))
  }

  function AfterSteps(p: Settings, r: Run, steps: seq<Step>): Run
    decreases |steps|
  {
    if steps == [] then r else AfterSteps(p, Stepped(p, r, steps[0]), steps[1..])
  }

  /** Every mail queued so far waits with its content unchanged or was accepted by the server, and the
      server accepted no other. */
  ghost predicate NothingLost(r: Run) {
    && (forall id | 0 <= id < |r.queued| :: id in r.room.table || id in r.room.accepted)
    && (forall id | id in r.room.table :: 0 <= id < |r.queued| && r.room.table[id].content == r.queued[id])
    && (forall id | id in r.room.accepted :: 0 <= id < |r.queued|)
  }

  lemma HandlingLosesNothing(p: Settings, r: Run, id: MailId, t: Try)
    requires NothingLost(r) && 0 <= id < |r.queued|
    ensures NothingLost(r.(room := Handled(p, r.room, id, t).0))
    ensures r.room.accepted <= Handled(p, r.room, id, t).0.accepted
  {
  }

  lemma {:induction false} DrainingLosesNothing(
      p: Settings, r: Run, ids: seq<MailId>, tries: nat -> Try, n: nat)
    requires NothingLost(r) && forall id | id in ids :: 0 <= id < |r.queued|
    ensures NothingLost(r.(room := Drained(p, r.room, ids, tries, n)))
    ensures r.room.accepted <= Drained(p, r.room, ids, tries, n).accepted
    decreases if n < |ids| then |ids| - n else 0
  {
    if n < |ids| {
      assert ids[n] in ids;
      var (next, goOn) := Handled(p, r.room, ids[n], tries(n));
      HandlingLosesNothing(p, r, ids[n], tries(n));
      hide Handled;
      if goOn {
        DrainingLosesNothing(p, r.(room := next), ids, tries, n + 1);
      }
    }
  }

  lemma StepLosesNothing(p: Settings, r: Run, step: Step)
    requires NothingLost(r)
    ensures NothingLost(Stepped(p, r, step)) && r.queued <= Stepped(p, r, step).queued
    ensures r.room.accepted <= Stepped(p, r, step).room.accepted
  {
    hide Drained, Handled;
    match step {
      case Enqueue(content) =>
      case OtherSender(breaker) =>
      case Single(id, t) =>
        if id in r.room.table {
          HandlingLosesNothing(p, r, id, t);
        }
      case Pass(limit, tries) =>
        DrainingLosesNothing(p, r, Batch(r.room.table, limit), tries, 0);
    }
  }

  /** Over every order of new mails, attempts and other senders, whatever the server and the database
      answer. */
  lemma {:induction false} NoMailIsLost(p: Settings, r: Run, steps: seq<Step>)
    requires NothingLost(r)
    ensures NothingLost(AfterSteps(p, r, steps)) && r.queued <= AfterSteps(p, r, steps).queued
    decreases |steps|
  {
    if steps != [] {
      StepLosesNothing(p, r, steps[0]);
      NoMailIsLost(p, Stepped(p, r, steps[0]), steps[1..]);
    }
  }

  // ---------------------------------------------------------------------
  // No mail is sent twice while deleting works
  // ---------------------------------------------------------------------

  /** Every mail queued so far either waits and was never accepted, or is gone and was accepted once. */
  ghost predicate ExactlyOnce(r: Run) {
    && (forall id | 0 <= id < |r.queued| :: r.room.accepted[id] == if id in r.room.table then 0 else 1)
    && (forall id | id in r.room.table :: 0 <= id < |r.queued|)
    && (forall id | id in r.room.accepted :: 0 <= id < |r.queued|)
  }

  /** One of the tries to delete the row of an accepted mail always succeeds. */
  ghost predicate DeletesWork(step: Step) {
    match step
    case Pass(_, tries) => forall n: nat :: Deletes(tries(n).deletes, 0)
    case Single(_, t) => Deletes(t.deletes, 0)
    case _ => true
  }

  lemma BatchIsDistinct(table: map<MailId, Row>, limit: nat)
    ensures forall i, j | 0 <= i < j < |Batch(table, limit)| :: Batch(table, limit)[i] != Batch(table, limit)[j]
  {
    QueueIsOrdered(table);
    var ids := InQueueOrder(table);
    forall i, j | 0 <= i < j < |ids| ensures ids[i] != ids[j] {
      assert Before(QueueKey(table), ids[i], ids[j]);
    }
  }

  lemma HandledOnce(p: Settings, r: Run, id: MailId, t: Try)
    requires ExactlyOnce(r) && Deletes(t.deletes, 0) && id in r.room.table
    ensures ExactlyOnce(r.(room := Handled(p, r.room, id, t).0))
    ensures Handled(p, r.room, id, t).0.table.Keys >= r.room.table.Keys - {id}
  {
  }

  lemma {:induction false} DrainingSendsOnce(p: Settings, r: Run, ids: seq<MailId>, tries: nat -> Try, n: nat)
    requires ExactlyOnce(r) && forall k: nat :: Deletes(tries(k).deletes, 0)
    requires forall k | n <= k < |ids| :: ids[k] in r.room.table
    requires forall i, j | 0 <= i < j < |ids| :: ids[i] != ids[j]
    ensures ExactlyOnce(r.(room := Drained(p, r.room, ids, tries, n)))
    decreases if n < |ids| then |ids| - n else 0
  {
    if n < |ids| {
      var (next, goOn) := Handled(p, r.room, ids[n], tries(n));
      HandledOnce(p, r, ids[n], tries(n));
      if goOn {
        forall k | n + 1 <= k < |ids| ensures ids[k] in next.table {
          assert ids[k] in r.room.table.Keys - {ids[n]};
        }
        DrainingSendsOnce(p, r.(room := next), ids, tries, n + 1);
      }
    }
  }

  /** Over every order of new mails, attempts and other senders in which deleting works in the end,
      each mail is accepted at most once, and once exactly when it has left the table. */
  lemma {:induction false} NoMailIsSentTwice(p: Settings, r: Run, steps: seq<Step>)
    requires ExactlyOnce(r) && forall i | 0 <= i < |steps| :: DeletesWork(steps[i])
    ensures ExactlyOnce(AfterSteps(p, r, steps))
    decreases |steps|
  {
    if steps != [] {
      assert DeletesWork(steps[0]);
      match steps[0] {
        case Enqueue(content) =>
        case OtherSender(breaker) =>
        case Single(id, t) =>
          if id in r.room.table {
            HandledOnce(p, r, id, t);
          }
        case Pass(limit, tries) =>
          BatchIsDistinct(r.room.table, limit);
          DrainingSendsOnce(p, r, Batch(r.room.table, limit), tries, 0);
      }
      NoMailIsSentTwice(p, Stepped(p, r, steps[0]), steps[1..]);
    }
  }

  /** Only a failed deletion sends a mail again: the row of an accepted mail stays exactly when all
      three tries fail. */
  lemma AcceptedMailStays(p: Settings, m: Mailroom, id: MailId, t: Try)
    requires id in m.table && t.accepted && Allowed(p, m.breaker, t.start).1
    ensures
      var next := Handled(p, m, id, t).0;
      && next.accepted == m.accepted + multiset{id}
      && (id in next.table <==> forall k | 0 <= k < 3 && k < |t.deletes| :: !t.deletes[k])
  {
    DeletesMeansOneWorks(t.deletes, 0);
  }

  lemma {:induction false} DeletesMeansOneWorks(deletes: seq<bool>, n: nat)
    ensures Deletes(deletes, n) <==> exists k :: n <= k < DELETE_RETRY_ATTEMPTS && k < |deletes| && deletes[k]
    decreases if n <= DELETE_RETRY_ATTEMPTS then DELETE_RETRY_ATTEMPTS - n else 0
  {
    if n < DELETE_RETRY_ATTEMPTS {
      DeletesMeansOneWorks(deletes, n + 1);
    }
  }

  // ---------------------------------------------------------------------
  // A pass while the server is down
  // ---------------------------------------------------------------------

  /** Every attempt fails, and the worker pauses less than a cooldown between two of them. */
  ghost predicate ServerDown(p: Settings, tries: nat -> Try) {
    forall n: nat :: !tries(n).accepted && tries(n).start <= tries(n).end && tries(n + 1).start - tries(n).end < p.cooldown
  }

  ghost predicate Consistent(p: Settings, b: BreakerState) {
    b.openedAt.Some? <==> b.consecutiveFailures >= p.failureThreshold
  }

  /** How many attempts a pass over `count` mails makes. */
  function AttemptsMade(p: Settings, b: BreakerState, count: nat, start: int): int {
    match b.openedAt
    case None => Min(count, p.failureThreshold - b.consecutiveFailures)
    case Some(since) => Min(count, if start - since >= p.cooldown then 1 else 0)
  }

  lemma OpenBreakerStops(p: Settings, m: Mailroom, ids: seq<MailId>, tries: nat -> Try, n: nat)
    requires n < |ids| && m.breaker.openedAt.Some?
    requires tries(n).start - m.breaker.openedAt.value < p.cooldown
    ensures Drained(p, m, ids, tries, n) == m
  {
  }

  lemma FailedTry(p: Settings, m: Mailroom, id: MailId, t: Try)
    requires !t.accepted && Allowed(p, m.breaker, t.start).1
    ensures
      var (next, goOn) := Handled(p, m, id, t);
      && goOn && next.sends == m.sends + 1 && next.accepted == m.accepted
      && next.table == Recorded(m.table, id, t)
      && next.breaker == Failed(p, Allowed(p, m.breaker, t.start).0, t.end)
  {
  }

  /** A row the pass did not get to. */
  ghost predicate Untouched(m: Mailroom, after: Mailroom, id: MailId) {
    (id in after.table <==> id in m.table) && (id in m.table ==> after.table[id] == m.table[id])
  }

  /** From a closed breaker the pass fails until the threshold is reached and then stops. */
  lemma {:induction false} ClosedBreakerCountsDown(
      p: Settings, m: Mailroom, ids: seq<MailId>, tries: nat -> Try, n: nat)
    requires ServerDown(p, tries) && m.breaker.openedAt.None? && Consistent(p, m.breaker) && n <= |ids|
    ensures
      var after := Drained(p, m, ids, tries, n);
      var attempts := Min(|ids| - n, p.failureThreshold - m.breaker.consecutiveFailures);
      && after.sends == m.sends + attempts && after.accepted == m.accepted
      && forall id | id !in ids[n..n + attempts] :: Untouched(m, after, id)
    decreases |ids| - n
  {
    if n < |ids| {
      var next := Handled(p, m, ids[n], tries(n)).0;
      FailedTry(p, m, ids[n], tries(n));
      var attempts := Min(|ids| - n, p.failureThreshold - m.breaker.consecutiveFailures);
      assert ids[n..n + attempts] == [ids[n]] + ids[n + 1..n + attempts];
      if next.breaker.openedAt.None? {
        ClosedBreakerCountsDown(p, next, ids, tries, n + 1);
        var after := Drained(p, next, ids, tries, n + 1);
        forall id | id !in ids[n..n + attempts] ensures Untouched(m, after, id) {
          assert id != ids[n] && id !in ids[n + 1..n + attempts];
          assert Untouched(m, next, id) && Untouched(next, after, id);
        }
      } else if n + 1 < |ids| {
        OpenBreakerStops(p, next, ids, tries, n + 1);
      }
    }
  }

  /** With the server down and nobody else sending, a pass makes exactly as many attempts as the
      breaker has left, one when it is open and its cooldown is over, none otherwise; every mail
      after those stays exactly as it was, and none is lost. */
  lemma PassWhileServerIsDown(p: Settings, m: Mailroom, ids: seq<MailId>, tries: nat -> Try)
    requires ServerDown(p, tries) && Consistent(p, m.breaker)
    ensures
      var after := Drained(p, m, ids, tries, 0);
      var attempts := AttemptsMade(p, m.breaker, |ids|, tries(0).start);
      && 0 <= attempts <= |ids|
      && after.sends == m.sends + attempts && after.accepted == m.accepted
      && forall id | id !in ids[..attempts] :: Untouched(m, after, id)
  {
    match m.breaker.openedAt {
      case None =>
        ClosedBreakerCountsDown(p, m, ids, tries, 0);
      case Some(since) =>
        if ids != [] && tries(0).start - since >= p.cooldown {
          FailedTry(p, m, ids[0], tries(0));
          var next := Handled(p, m, ids[0], tries(0)).0;
          if 1 < |ids| {
            OpenBreakerStops(p, next, ids, tries, 1);
          }
          assert ids[..1] == [ids[0]];
        }
    }
  }

  // ---------------------------------------------------------------------
  // What a row remembers of its failures
  // ---------------------------------------------------------------------

  /** The row of a mail after its recorded failures. */
  function RowAfter(content: string, failures: seq<Try>): Row {
    if failures == [] then FreshRow(content)
    else
      var n := |failures| - 1;
      Recorded(map[0 := RowAfter(content, failures[..n])], 0, failures[n].(recorded := true))[0]
  }

  function Errors(failures: seq<Try>): (errors: seq<string>)
    ensures |errors| == |failures|
  {
    if failures == [] then [] else Errors(failures[..|failures| - 1]) + [failures[|failures| - 1].error]
  }

  /** The attempt count and the last error kept in the row are all the worker needs: its decision to
      report the next failure is the one made on the whole history of the mail. */
  lemma {:induction false} RowDecidesReports(content: string, failures: seq<Try>, error: string)
    ensures
      var row := RowAfter(content, failures);
      && row.content == content && row.attempts == |failures|
      && (IsReportedFailure(row.attempts + 1, row.lastError, error) <==>
            ReportedAt(Errors(failures) + [error], |failures|))
  {
    if failures != [] {
      var n := |failures| - 1;
      RowDecidesReports(content, failures[..n], failures[n].error);
      assert (Errors(failures) + [error])[n] == failures[n].error;
    }
  }

  // ---------------------------------------------------------------------
  // Everybody gets a turn
  // ---------------------------------------------------------------------

  lemma QueueIsOrdered(table: map<MailId, Row>)
    ensures Ordered(InQueueOrder(table), QueueKey(table))
  {
    SortOrders(Ascending(table.Keys), QueueKey(table));
  }

  /** A mail that fails at a time later than every attempt before goes to the end of the queue and
      the others move up without changing places. */
  lemma FailureGoesToTheEnd(table: map<MailId, Row>, t: Try)
    requires table != map[] && t.recorded
    requires forall id | id in table && table[id].lastAttempt.Some? :: table[id].lastAttempt.value < t.end
    ensures
      var queue := InQueueOrder(table);
      queue != [] && InQueueOrder(Recorded(table, queue[0], t)) == queue[1..] + [queue[0]]
  {
    var queue := InQueueOrder(table);
    QueueIsOrdered(table);
    QueueNotEmpty(table);
    var head := queue[0];
    assert head in queue;
    var after := Recorded(table, head, t);
    QueueIsOrdered(after);
    var rotated := queue[1..] + [head];
    TailMembers(queue, QueueKey(table));
    forall x ensures x in rotated <==> x in InQueueOrder(after) {
      assert x in rotated <==> x in queue[1..] || x == head;
    }
    RotatedIsOrdered(table, after, queue, t);
    OrderIsUnique(rotated, InQueueOrder(after), QueueKey(after));
  }

  lemma QueueNotEmpty(table: map<MailId, Row>)
    requires table != map[]
    ensures InQueueOrder(table) != []
  {
    if forall id :: id !in table {
      assert false;
    }
    var id :| id in table;
    assert id in InQueueOrder(table);
  }

  lemma RotatedIsOrdered(table: map<MailId, Row>, after: map<MailId, Row>, queue: seq<MailId>, t: Try)
    requires Ordered(queue, QueueKey(table)) && queue != [] && forall id :: id in queue <==> id in table
    requires t.recorded && after == Recorded(table, queue[0], t)
    requires forall id | id in table && table[id].lastAttempt.Some? :: table[id].lastAttempt.value < t.end
    ensures Ordered(queue[1..] + [queue[0]], QueueKey(after))
  {
    var rotated := queue[1..] + [queue[0]];
    var n := |queue| - 1;
    forall i, j | 0 <= i < j < |rotated| ensures Before(QueueKey(after), rotated[i], rotated[j]) {
      assert rotated[i] == queue[i + 1] && queue[i + 1] in queue && queue[0] in queue;
      assert Before(QueueKey(table), queue[0], queue[i + 1]);
      if j < n {
        assert rotated[j] == queue[j + 1] && queue[j + 1] in queue;
        assert Before(QueueKey(table), queue[0], queue[j + 1]);
        assert Before(QueueKey(table), queue[i + 1], queue[j + 1]);
      }
    }
  }

  /** The mail at the head of the queue fails. */
  function HeadFails(table: map<MailId, Row>, t: Try): map<MailId, Row> {
    var queue := InQueueOrder(table);
    if queue == [] then table else Recorded(table, queue[0], t)
  }

  function AfterFailures(table: map<MailId, Row>, tries: seq<Try>): map<MailId, Row>
    decreases |tries|
  {
    if tries == [] then table else AfterFailures(HeadFails(table, tries[0]), tries[1..])
  }

  /** A pass with an open breaker whose cooldown is over is such a failure. */
  lemma OpenPassFailsTheHead(p: Settings, m: Mailroom, tries: nat -> Try, limit: nat)
    requires ServerDown(p, tries) && Consistent(p, m.breaker) && limit > 0
    requires m.breaker.openedAt.Some? && tries(0).start - m.breaker.openedAt.value >= p.cooldown
    ensures Drained(p, m, Batch(m.table, limit), tries, 0).table == HeadFails(m.table, tries(0))
  {
    hide InQueueOrder;
    var ids := Batch(m.table, limit);
    if ids != [] {
      FailedTry(p, m, ids[0], tries(0));
      if 1 < |ids| {
        OpenBreakerStops(p, Handled(p, m, ids[0], tries(0)).0, ids, tries, 1);
      }
    }
  }

  function Rotate(queue: seq<MailId>, k: nat): seq<MailId>
    requires k <= |queue|
  {
    queue[k..] + queue[..k]
  }

  /** Times that rise from attempt to attempt, and above all earlier ones. */
  ghost predicate RisingTimes(table: map<MailId, Row>, tries: seq<Try>) {
    && (forall i | 0 <= i < |tries| :: tries[i].recorded)
    && (forall i, j | 0 <= i < j < |tries| :: tries[i].end < tries[j].end)
    && (forall i, id | 0 <= i < |tries| && id in table && table[id].lastAttempt.Some? ::
          table[id].lastAttempt.value < tries[i].end)
  }

  lemma OneMoreTurn(queue: seq<MailId>, n: nat)
    requires n < |queue|
    ensures Rotate(queue, n) != [] && Rotate(queue, n)[1..] + [Rotate(queue, n)[0]] == Rotate(queue, n + 1)
  {
  }

  lemma FailureTurnsTheQueue(table: map<MailId, Row>, t: Try)
    requires InQueueOrder(table) != [] && t.recorded
    requires forall id | id in table && table[id].lastAttempt.Some? :: table[id].lastAttempt.value < t.end
    ensures InQueueOrder(AfterFailures(table, [t])) == InQueueOrder(table)[1..] + [InQueueOrder(table)[0]]
  {
    assert InQueueOrder(table)[0] in table;
    FailureGoesToTheEnd(table, t);
    assert [t][1..] == [];
  }

  /** While an open breaker grants one attempt at a time, the attempts go round the queue: after `k`
      failures the queue is rotated by `k`, so each of its mails is tried once before any is tried
      again, and an undeliverable mail starves nobody. */
  lemma {:induction false} AttemptsGoRound(table: map<MailId, Row>, tries: seq<Try>)
    requires RisingTimes(table, tries) && |tries| <= |InQueueOrder(table)|
    ensures InQueueOrder(AfterFailures(table, tries)) == Rotate(InQueueOrder(table), |tries|)
    decreases |tries|
  {
    hide InQueueOrder, HeadFails;
    var queue := InQueueOrder(table);
    if tries == [] {
      assert Rotate(queue, 0) == queue;
    } else {
      var n := |tries| - 1;
      var front, last := tries[..n], tries[n];
      assert tries == front + [last];
      AttemptsGoRound(table, front);
      AfterOneMore(table, front, last);
      TimesStayBelow(table, front, last.end);
      OneMoreTurn(queue, n);
      FailureTurnsTheQueue(AfterFailures(table, front), last);
    }
  }

  lemma {:induction false} AfterOneMore(table: map<MailId, Row>, front: seq<Try>, last: Try)
    ensures AfterFailures(table, front + [last]) == AfterFailures(AfterFailures(table, front), [last])
    decreases |front|
  {
    if front == [] {
      assert front + [last] == [last];
    } else {
      AfterOneMore(HeadFails(table, front[0]), front[1..], last);
      assert (front + [last])[1..] == front[1..] + [last];
    }
  }

  lemma {:induction false} TimesStayBelow(table: map<MailId, Row>, tries: seq<Try>, limit: nat)
    requires forall i | 0 <= i < |tries| :: tries[i].end < limit
    requires forall id | id in table && table[id].lastAttempt.Some? :: table[id].lastAttempt.value < limit
    ensures forall id | id in AfterFailures(table, tries) && AfterFailures(table, tries)[id].lastAttempt.Some? ::
      AfterFailures(table, tries)[id].lastAttempt.value < limit
    decreases |tries|
  {
    if tries != [] {
      TimesStayBelow(HeadFails(table, tries[0]), tries[1..], limit);
    }
  }


  // ---------------------------------------------------------------------
  // A pass while the server is up
  // ---------------------------------------------------------------------

  lemma SentWhileUp(p: Settings, m: Mailroom, id: MailId, t: Try)
    requires t.accepted && (m.breaker.openedAt.None? || t.start - m.breaker.openedAt.value >= p.cooldown)
    ensures Handled(p, m, id, t) == (
      Mailroom(if Deletes(t.deletes, 0) then m.table - {id} else m.table, CLOSED, m.accepted + multiset{id}, m.sends + 1), true)
  {
  }

  /** The rows that are left: those of the mails that were not sent, and those whose deletion failed. */
  ghost predicate OnlySentGone(before: map<MailId, Row>, after: map<MailId, Row>, ids: seq<MailId>, tries: nat -> Try, n: nat) {
    && (forall id :: id in after <==>
          id in before && forall k: nat | n <= k < |ids| && ids[k] == id :: !Deletes(tries(k).deletes, 0))
    && (forall id | id in after :: after[id] == before[id])
  }

  lemma OneMoreGone(before: map<MailId, Row>, next: map<MailId, Row>, after: map<MailId, Row>,
                    ids: seq<MailId>, tries: nat -> Try, n: nat)
    requires n < |ids| && OnlySentGone(next, after, ids, tries, n + 1)
    requires next == if Deletes(tries(n).deletes, 0) then before - {ids[n]} else before
    ensures OnlySentGone(before, after, ids, tries, n)
  {
    hide Deletes;
  }

  /** With the server up and the breaker closed or its cooldown over, a pass sends every mail of its batch,
      in order and once each; a row stays only where its deletion fails; and the breaker is closed. */
  lemma {:induction false} PassWhileServerIsUp(p: Settings, m: Mailroom, ids: seq<MailId>, tries: nat -> Try, n: nat)
    requires n <= |ids| && forall k: nat :: tries(k).accepted
    requires m.breaker.openedAt.None? || tries(n).start - m.breaker.openedAt.value >= p.cooldown
    ensures
      var after := Drained(p, m, ids, tries, n);
      && after.sends == m.sends + |ids| - n && after.accepted == m.accepted + multiset(ids[n..])
      && OnlySentGone(m.table, after.table, ids, tries, n)
      && (n < |ids| ==> after.breaker == CLOSED)
    decreases |ids| - n
  {
    hide Deletes, Handled, OnlySentGone;
    if n < |ids| {
      var next := Handled(p, m, ids[n], tries(n)).0;
      SentWhileUp(p, m, ids[n], tries(n));
      PassWhileServerIsUp(p, next, ids, tries, n + 1);
      OneMoreGone(m.table, next.table, Drained(p, next, ids, tries, n + 1).table, ids, tries, n);
      assert ids[n..] == [ids[n]] + ids[n + 1..];
    } else {
      assert ids[n..] == [];
      NothingGone(m.table, ids, tries, n);
    }
  }

  lemma NothingGone(table: map<MailId, Row>, ids: seq<MailId>, tries: nat -> Try, n: nat)
    requires n >= |ids|
    ensures OnlySentGone(table, table, ids, tries, n)
  {
  }

  /** The queue is served in this order: mails never tried before mails tried, of those the one tried longer
      ago first, and the lower number first where that does not decide. */
  lemma ServedInOrder(table: map<MailId, Row>, i: int, j: int)
    requires 0 <= i < j < |InQueueOrder(table)|
    ensures
      var a, b := InQueueOrder(table)[i], InQueueOrder(table)[j];
      && a in table && b in table
      && match (table[a].lastAttempt, table[b].lastAttempt)
         case (None, None) => a < b
         case (None, Some(_)) => true
         case (Some(_), None) => false
         case (Some(s), Some(t)) => s < t || (s == t && a < b)
  {
    QueueIsOrdered(table);
    hide InQueueOrder;
    var queue := InQueueOrder(table);
    assert queue[i] in queue && queue[j] in queue;
    assert Before(QueueKey(table), queue[i], queue[j]);
  }

  /** A batch is the front of the queue. */
  lemma BatchIsFront(table: map<MailId, Row>, limit: nat)
    ensures Batch(table, limit) <= InQueueOrder(table)
    ensures |Batch(table, limit)| == Min(limit, |InQueueOrder(table)|)
  {
  }
}
