/** The circuit breaker in front of the mail server, shared by all senders. Times are seconds on a
    clock that never goes back. */
module CircuitBreakers {
  import opened Wrappers

  datatype Settings = Settings(failureThreshold: nat, cooldown: nat)

  const DEFAULT_SETTINGS := Settings(5, 300)
  const QUEUED_EMAIL_SEND_TIMEOUT := 30
  const ATTACHMENT_SEND_TIMEOUT := 120

  datatype BreakerState = BreakerState(consecutiveFailures: nat, openedAt: Option<int>)

  const CLOSED := BreakerState(0, None)

  function Allowed(p: Settings, s: BreakerState, now: int): (BreakerState, bool) {
    match s.openedAt
    case None => (s, true)
    case Some(since) => if now - since >= p.cooldown then (s.(openedAt := Some(now)), true) else (s, false)
  }

  function Failed(p: Settings, s: BreakerState, now: int): BreakerState {
    var failures := s.consecutiveFailures + 1;
    BreakerState(failures, if failures >= p.failureThreshold then Some(now) else s.openedAt)
  }

  class CircuitBreaker {
    const params: Settings
    var consecutiveFailures: nat
    var openedAt: Option<int>

    constructor (params: Settings)
      ensures this.params == params && State() == CLOSED
    {
      this.params := params;
      consecutiveFailures, openedAt := 0, None;
    }

    function State(): BreakerState
      reads this
    {
      BreakerState(consecutiveFailures, openedAt)
    }

    /** Whether an attempt may proceed; an elapsed cooldown grants one trial and starts anew. */
    method AllowAttempt(now: int) returns (allowed: bool)
      modifies this
      ensures (State(), allowed) == Allowed(params, old(State()), now)
      ensures allowed <==> old(openedAt).None? || now - old(openedAt).value >= params.cooldown
      ensures openedAt == if old(openedAt).Some? && allowed then Some(now) else old(openedAt)
    {
      match openedAt {
        case None =>
          return true;
        case Some(since) =>
          if now - since >= params.cooldown {
            openedAt := Some(now);
            return true;
          }
          return false;
      }
    }

    method RecordSuccess()
      modifies this
      ensures State() == CLOSED
    {
      consecutiveFailures := 0;
      openedAt := None;
    }

    method RecordFailure(now: int)
      modifies this
      ensures State() == Failed(params, old(State()), now)
    {
      consecutiveFailures := consecutiveFailures + 1;
      if consecutiveFailures >= params.failureThreshold {
        openedAt := Some(now);
      }
    }

    /** One guarded attempt: denied, or made and recorded. `accepted` is what the server answers before
        the timeout; a timeout counts as a refusal. */
    method GuardedSend(start: int, end: int, accepted: bool) returns (outcome: SendOutcome)
      modifies this
      ensures (State(), outcome) == Sent(params, old(State()), start, end, accepted)
      ensures outcome.Delivered? ==> consecutiveFailures == 0 && openedAt == None
      ensures outcome.Refused? ==> consecutiveFailures == old(consecutiveFailures) + 1
      ensures outcome.CircuitOpen? ==> State() == old(State())
    {
      var allowed := AllowAttempt(start);
      if !allowed {
        return CircuitOpen;
      }
      if accepted {
        RecordSuccess();
        return Delivered;
      }
      RecordFailure(end);
      return Refused;
    }
  }

  datatype SendOutcome = CircuitOpen | Delivered | Refused

  function Sent(p: Settings, s: BreakerState, start: int, end: int, accepted: bool): (BreakerState, SendOutcome) {
    var (asked, allowed) := Allowed(p, s, start);
    if !allowed then (asked, CircuitOpen)
    else if accepted then (CLOSED, Delivered)
    else (Failed(p, asked, end), Refused)
  }

  // ---------------------------------------------------------------------
  // Several senders at once
  // ---------------------------------------------------------------------

  type Sender = nat

  /** What the senders do to the breaker, in the order they take its lock. */
  datatype Action = Ask | Succeed | Fail

  datatype Event = Event(sender: Sender, at: int, action: Action)

  /** An attempt under way; it is a trial when it was granted while the breaker was open. */
  datatype Attempt = Attempt(since: int, trial: bool)

  datatype World = World(breaker: BreakerState, running: map<Sender, Attempt>, trials: seq<int>, now: int)

  const START := World(CLOSED, map[], [], 0)

  /** Every attempt ends within its sender's time limit. */
  ghost predicate WithinLimits(w: World, limit: Sender -> int, now: int) {
    forall s | s in w.running :: now <= w.running[s].since + limit(s)
  }

  /** A sender asks only when it has no attempt under way, and reports only on one it has. */
  predicate MayHappen(w: World, e: Event) {
    && w.now <= e.at
    && (e.action.Ask? <==> e.sender !in w.running)
  }

  function Happens(p: Settings, w: World, e: Event): World {
    match e.action
    case Ask =>
      var trial := w.breaker.openedAt.Some?;
      var (asked, allowed) := Allowed(p, w.breaker, e.at);
      if allowed
      then World(asked, w.running[e.sender := Attempt(e.at, trial)],
                 if trial then w.trials + [e.at] else w.trials, e.at)
      else w.(now := e.at)
    case Succeed => World(CLOSED, w.running - {e.sender}, w.trials, e.at)
    case Fail => World(Failed(p, w.breaker, e.at), w.running - {e.sender}, w.trials, e.at)
  }

  ghost predicate Legal(p: Settings, limit: Sender -> int, w: World, events: seq<Event>)
    decreases |events|
  {
    events == [] ||
    (MayHappen(w, events[0]) && WithinLimits(w, limit, events[0].at)
     && Legal(p, limit, Happens(p, w, events[0]), events[1..]))
  }

  function AfterAll(p: Settings, w: World, events: seq<Event>): World
    decreases |events|
  {
    if events == [] then w else AfterAll(p, Happens(p, w, events[0]), events[1..])
  }

  ghost predicate TrialsApart(p: Settings, trials: seq<int>) {
    forall i, j | 0 <= i < j < |trials| :: trials[j] - trials[i] >= p.cooldown
  }

  /** The breaker is open exactly when the failures in a row have reached the threshold; trials lie a
      cooldown apart, and an open breaker was opened no earlier than the last of them. */
  ghost predicate Spaced(p: Settings, w: World) {
    && (w.breaker.openedAt.Some? <==> w.breaker.consecutiveFailures >= p.failureThreshold)
    && (w.breaker.openedAt.Some? ==> w.breaker.openedAt.value <= w.now)
    && TrialsApart(p, w.trials)
    && (forall i | 0 <= i < |w.trials| :: w.trials[i] <= w.now)
    && (forall i | 0 <= i < |w.trials| && w.breaker.openedAt.Some? :: w.trials[i] <= w.breaker.openedAt.value)
  }

  /** Every trial under way is the last one granted, so there is only one. */
  ghost predicate SingleTrial(w: World) {
    && (forall s | s in w.running :: w.running[s].since <= w.now)
    && (forall s | s in w.running && w.running[s].trial :: w.trials != [] && w.running[s].since == w.trials[|w.trials| - 1])
    && (forall s, t | s in w.running && t in w.running && w.running[s].trial && w.running[t].trial :: s == t)
  }

  ghost predicate Orderly(p: Settings, w: World, events: seq<Event>)
    decreases |events|
  {
    events == [] || (MayHappen(w, events[0]) && Orderly(p, Happens(p, w, events[0]), events[1..]))
  }

  lemma EventKeepsSpacing(p: Settings, w: World, e: Event)
    requires p.failureThreshold >= 1 && Spaced(p, w) && MayHappen(w, e)
    ensures Spaced(p, Happens(p, w, e))
  {
  }

  /** However long attempts take and whoever reports them in whatever order, an open breaker grants at
      most one trial per cooldown over the whole run. */
  lemma {:induction false} EventsKeepSpacing(p: Settings, w: World, events: seq<Event>)
    requires p.failureThreshold >= 1 && Spaced(p, w) && Orderly(p, w, events)
    ensures Spaced(p, AfterAll(p, w, events))
    decreases |events|
  {
    if events != [] {
      EventKeepsSpacing(p, w, events[0]);
      EventsKeepSpacing(p, Happens(p, w, events[0]), events[1..]);
    }
  }

  ghost predicate LimitsBelowCooldown(p: Settings, limit: Sender -> int) {
    forall s :: limit(s) < p.cooldown
  }

  /** When a trial is granted, no earlier one is still under way. */
  lemma TrialIsNew(p: Settings, limit: Sender -> int, w: World, e: Event)
    requires LimitsBelowCooldown(p, limit) && Spaced(p, w) && SingleTrial(w)
    requires MayHappen(w, e) && WithinLimits(w, limit, e.at)
    requires e.action.Ask? && w.breaker.openedAt.Some? && e.at - w.breaker.openedAt.value >= p.cooldown
    ensures forall s | s in w.running :: !w.running[s].trial
  {
    forall s | s in w.running ensures !w.running[s].trial {
      assert limit(s) < p.cooldown;
      assert e.at <= w.running[s].since + limit(s);
    }
  }

  lemma EventKeepsSingleTrial(p: Settings, limit: Sender -> int, w: World, e: Event)
    requires LimitsBelowCooldown(p, limit) && Spaced(p, w) && SingleTrial(w)
    requires MayHappen(w, e) && WithinLimits(w, limit, e.at)
    ensures SingleTrial(Happens(p, w, e))
  {
    if e.action.Ask? && w.breaker.openedAt.Some? && e.at - w.breaker.openedAt.value >= p.cooldown {
      TrialIsNew(p, limit, w, e);
    }
  }

  /** When every attempt ends before the cooldown does, at most one trial is unresolved at any time. */
  lemma {:induction false} EventsKeepSingleTrial(p: Settings, limit: Sender -> int, w: World, events: seq<Event>)
    requires p.failureThreshold >= 1 && LimitsBelowCooldown(p, limit)
    requires Spaced(p, w) && SingleTrial(w) && Legal(p, limit, w, events)
    ensures SingleTrial(AfterAll(p, w, events)) && Orderly(p, w, events)
    decreases |events|
  {
    if events != [] {
      EventKeepsSpacing(p, w, events[0]);
      EventKeepsSingleTrial(p, limit, w, events[0]);
      EventsKeepSingleTrial(p, limit, Happens(p, w, events[0]), events[1..]);
    }
  }

  /** With the shipped settings and any number of senders, each with one of the two time limits, in
      whatever order they ask and report: the breaker is open exactly from the fifth failure in a row
      on, two trials of an open breaker lie at least five minutes apart over the whole run, and at
      most one of them is unresolved at any time. */
  lemma ShippedBreakerIsSafe(limit: Sender -> int, events: seq<Event>)
    requires forall s :: limit(s) == QUEUED_EMAIL_SEND_TIMEOUT == 30 || limit(s) == ATTACHMENT_SEND_TIMEOUT == 120
    requires Legal(DEFAULT_SETTINGS, limit, START, events)
    ensures
      var w := AfterAll(DEFAULT_SETTINGS, START, events);
      && (w.breaker.openedAt.Some? <==> w.breaker.consecutiveFailures >= 5)
      && (forall i, j | 0 <= i < j < |w.trials| :: w.trials[j] - w.trials[i] >= 300)
      && (forall s, t | s in w.running && t in w.running && w.running[s].trial && w.running[t].trial :: s == t)
  {
    EventsKeepSingleTrial(DEFAULT_SETTINGS, limit, START, events);
    EventsKeepSpacing(DEFAULT_SETTINGS, START, events);
  }

  // ---------------------------------------------------------------------
  // The time limits matter
  // ---------------------------------------------------------------------

  predicate TwoTrials(w: World, s: Sender, t: Sender) {
    s != t && s in w.running && t in w.running && w.running[s].trial && w.running[t].trial
  }

  /** `n` attempts of one sender at time 0, each failing at once. */
  function Failures(sender: Sender, n: nat): seq<Event> {
    if n == 0 then [] else [Event(sender, 0, Ask), Event(sender, 0, Fail)] + Failures(sender, n - 1)
  }

  lemma LegalStep(p: Settings, limit: Sender -> int, w: World, e: Event, rest: seq<Event>)
    ensures Legal(p, limit, w, [e] + rest) <==>
      MayHappen(w, e) && WithinLimits(w, limit, e.at) && Legal(p, limit, Happens(p, w, e), rest)
    ensures AfterAll(p, w, [e] + rest) == AfterAll(p, Happens(p, w, e), rest)
  {
    assert ([e] + rest)[1..] == rest;
  }

  lemma {:induction false} FailingOpens(p: Settings, limit: Sender -> int, w: World, sender: Sender, n: nat, rest: seq<Event>)
    requires limit(sender) >= 0 && 0 < n <= p.failureThreshold
    requires w == World(BreakerState(p.failureThreshold - n, None), map[], [], 0)
    ensures
      var open := World(BreakerState(p.failureThreshold, Some(0)), map[], [], 0);
      && (Legal(p, limit, w, Failures(sender, n) + rest) <==> Legal(p, limit, open, rest))
      && AfterAll(p, w, Failures(sender, n) + rest) == AfterAll(p, open, rest)
    decreases n
  {
    var ask, fail := Event(sender, 0, Ask), Event(sender, 0, Fail);
    var later := Failures(sender, n - 1) + rest;
    assert Failures(sender, n) + rest == [ask] + ([fail] + later);
    var asked := World(w.breaker, map[sender := Attempt(0, false)], [], 0);
    assert Happens(p, w, ask) == asked;
    var failed := Happens(p, asked, fail);
    assert failed.running == map[];
    LegalStep(p, limit, w, ask, [fail] + later);
    LegalStep(p, limit, asked, fail, later);
    if n > 1 {
      FailingOpens(p, limit, failed, sender, n - 1, rest);
    } else {
      assert later == rest;
    }
  }

  /** A sender that may take as long as the cooldown lets a second trial start beside its own. */
  lemma SlowTrialsOverlap(p: Settings, limit: Sender -> int, slow: Sender) returns (events: seq<Event>)
    requires p.failureThreshold >= 1 && limit(slow) >= p.cooldown
    ensures Legal(p, limit, START, events)
    ensures TwoTrials(AfterAll(p, START, events), slow, slow + 1)
  {
    var first, second := Event(slow, p.cooldown, Ask), Event(slow + 1, 2 * p.cooldown, Ask);
    var open := World(BreakerState(p.failureThreshold, Some(0)), map[], [], 0);
    var tried := Happens(p, open, first);
    events := Failures(slow, p.failureThreshold) + ([first] + ([second] + []));
    FailingOpens(p, limit, START, slow, p.failureThreshold, [first] + ([second] + []));
    LegalStep(p, limit, open, first, [second] + []);
    LegalStep(p, limit, tried, second, []);
  }

  ghost predicate AtMostOneTrial(w: World) {
    forall s: Sender, t: Sender :: !TwoTrials(w, s, t)
  }

  /** At most one trial is unresolved in every legal course of events if and only if every sender's time
      limit is shorter than the cooldown. */
  lemma LimitsDecide(p: Settings, limit: Sender -> int)
    requires p.failureThreshold >= 1
    ensures (forall events | Legal(p, limit, START, events) :: AtMostOneTrial(AfterAll(p, START, events)))
       <==> LimitsBelowCooldown(p, limit)
  {
    if LimitsBelowCooldown(p, limit) {
      forall events | Legal(p, limit, START, events) ensures AtMostOneTrial(AfterAll(p, START, events)) {
        EventsKeepSingleTrial(p, limit, START, events);
      }
    } else {
      var slow: Sender :| limit(slow) >= p.cooldown;
      var events := SlowTrialsOverlap(p, limit, slow);
      assert TwoTrials(AfterAll(p, START, events), slow, slow + 1);
      assert !AtMostOneTrial(AfterAll(p, START, events));
    }
  }


  // ---------------------------------------------------------------------
  // Guarded sends as events
  // ---------------------------------------------------------------------

  function EventsOf(sender: Sender, start: int, end: int, accepted: bool, granted: bool): seq<Event> {
    if granted then [Event(sender, start, Ask), Event(sender, end, if accepted then Succeed else Fail)]
    else [Event(sender, start, Ask)]
  }

  /** A guarded send is a question and, when it is granted, the report of how it went: what holds for all
      interleavings of such events holds for the sends. */
  lemma SendIsTwoEvents(p: Settings, w: World, sender: Sender, start: int, end: int, accepted: bool)
    requires sender !in w.running
    ensures
      var (breaker, outcome) := Sent(p, w.breaker, start, end, accepted);
      var granted := sender in Happens(p, w, Event(sender, start, Ask)).running;
      && breaker == AfterAll(p, w, EventsOf(sender, start, end, accepted, granted)).breaker
      && (outcome.CircuitOpen? <==> !granted)
      && (granted ==> (outcome.Delivered? <==> accepted))
  {
    var ask, report := Event(sender, start, Ask), Event(sender, end, if accepted then Succeed else Fail);
    assert [ask][1..] == [] && [ask, report][1..] == [report] && [report][1..] == [];
    var asked := Happens(p, w, ask);
    assert AfterAll(p, w, [ask]) == AfterAll(p, asked, []);
    assert AfterAll(p, w, [ask, report]) == AfterAll(p, asked, [report]);
    assert AfterAll(p, asked, [report]) == AfterAll(p, Happens(p, asked, report), []);
  }

  // ---------------------------------------------------------------------
  // One sender after the other
  // ---------------------------------------------------------------------

  datatype Send = Send(start: int, end: int, accepted: bool)

  /** The breaker after a sequence of sends, and what came of the last of them. */
  function AfterSends(p: Settings, sends: seq<Send>): (BreakerState, SendOutcome) {
    if sends == [] then (CLOSED, Delivered)
    else
      var last := sends[|sends| - 1];
      Sent(p, AfterSends(p, sends[..|sends| - 1]).0, last.start, last.end, last.accepted)
  }

  /** The sends refused since the last one delivered; a denied one counts for nothing. */
  function RefusedInARow(p: Settings, sends: seq<Send>): nat {
    if sends == [] then 0
    else
      match AfterSends(p, sends).1
      case CircuitOpen => RefusedInARow(p, sends[..|sends| - 1])
      case Delivered => 0
      case Refused => RefusedInARow(p, sends[..|sends| - 1]) + 1
  }

  /** The failures counted are the sends refused since the last one delivered, and the breaker is open
      exactly when they have reached the threshold. */
  lemma {:induction false} SendsCountFailures(p: Settings, sends: seq<Send>)
    requires p.failureThreshold >= 1
    ensures AfterSends(p, sends).0.consecutiveFailures == RefusedInARow(p, sends)
    ensures AfterSends(p, sends).0.openedAt.Some? <==> RefusedInARow(p, sends) >= p.failureThreshold
  {
    if sends != [] {
      SendsCountFailures(p, sends[..|sends| - 1]);
    }
  }

  /** What the next send at `t` meets: after a delivery, or fewer refusals than the threshold, it is tried;
      after the refusal that reaches the threshold, or any later one, exactly from a cooldown after that on;
      and a denied send changes nothing. */
  lemma NextSend(p: Settings, sends: seq<Send>, t: int)
    requires p.failureThreshold >= 1 && sends != []
    ensures
      var n := |sends| - 1;
      var (breaker, outcome) := AfterSends(p, sends);
      var granted := Allowed(p, breaker, t).1;
      && (outcome.Delivered? ==> granted && sends[n].accepted)
      && (outcome.Refused? ==> !sends[n].accepted)
      && (outcome.Refused? ==>
            (granted <==> RefusedInARow(p, sends) < p.failureThreshold || t - sends[n].end >= p.cooldown))
      && (outcome.CircuitOpen? ==> breaker == AfterSends(p, sends[..n]).0)
  {
    SendsCountFailures(p, sends);
    SendsCountFailures(p, sends[..|sends| - 1]);
  }
}
