/** The notification list of the front end. Several requests can be under way at once, and their
    answers arrive in any order. */
module Notifications {
  import opened Numbers
  import opened Wrappers

  datatype Item = Item(id: int, isRead: bool)

  /** The module's variables and its two stores. */
  datatype Store = Store(latestRefreshId: int, items: seq<Item>, unread: int)

  const EMPTY := Store(0, [], 0)

  function MarkedRead(items: seq<Item>, id: int): (r: seq<Item>)
    ensures |r| == |items|
    ensures forall i | 0 <= i < |items| :: r[i].id == items[i].id && (r[i].isRead <==> items[i].isRead || items[i].id == id)
  {
    if items == [] then []
    else MarkedRead(items[..|items| - 1], id) + [if items[|items| - 1].id == id then items[|items| - 1].(isRead := true) else items[|items| - 1]]
  }

  function AllRead(items: seq<Item>): (r: seq<Item>)
    ensures |r| == |items|
    ensures forall i | 0 <= i < |items| :: r[i] == items[i].(isRead := true)
  {
    if items == [] then [] else AllRead(items[..|items| - 1]) + [items[|items| - 1].(isRead := true)]
  }

  /** The uninterrupted pieces of code: what runs before a request is answered and what runs after. */
  datatype Event =
    | BeginRefresh(hidden: bool)                       // a trigger fires; nothing happens in a hidden tab
    | Respond(id: int, items: seq<Item>, unread: int)  // both answers of the refresh with that claim arrived
    | FailRefresh(id: int)                             // one of them failed
    | MarkedReadDone(item: int)                        // the server confirmed a mutation
    | MarkedAllDone
    | ClearedDone
    | Stop

  /** The stores and the claims of the refreshes still waiting for their answers. */
  datatype World = World(store: Store, waiting: set<int>)

  const START := World(EMPTY, {})

  /** A refresh is answered once. */
  predicate Possible(w: World, e: Event) {
    match e
    case Respond(id, _, _) => id in w.waiting
    case FailRefresh(id) => id in w.waiting
    case _ => true
  }

  function Superseded(s: Store): Store {
    s.(latestRefreshId := s.latestRefreshId + 1)
  }

  function Handled(w: World, e: Event): World {
    match e
    case BeginRefresh(hidden) =>
      if hidden then w
      else World(Superseded(w.store), w.waiting + {w.store.latestRefreshId + 1})
    case Respond(id, items, unread) =>
      World(if id == w.store.latestRefreshId then w.store.(items := items, unread := unread) else w.store,
            w.waiting - {id})
    case FailRefresh(id) => w.(waiting := w.waiting - {id})
    case MarkedReadDone(item) =>
      var s := Superseded(w.store);
      w.(store := s.(items := MarkedRead(s.items, item), unread := Max(0, s.unread - 1)))
    case MarkedAllDone =>
      var s := Superseded(w.store);
      w.(store := s.(items := AllRead(s.items), unread := 0))
    case ClearedDone => w.(store := Superseded(w.store).(items := [], unread := 0))
    case Stop => w.(store := Superseded(w.store).(items := [], unread := 0))
  }

  /** The service as the code has it: each method is one uninterrupted piece. */
  class NotificationService {
    var latestRefreshId: int
    var notifications: seq<Item>
    var notificationsUnread: int

    constructor ()
      ensures State() == EMPTY
    {
      latestRefreshId, notifications, notificationsUnread := 0, [], 0;
    }

    function State(): Store
      reads this
    {
      Store(latestRefreshId, notifications, notificationsUnread)
    }

    method SupersedeInFlightRefreshes() returns (id: int)
      modifies this`latestRefreshId
      ensures State() == Superseded(old(State())) && id == latestRefreshId
    {
      latestRefreshId := latestRefreshId + 1;
      return latestRefreshId;
    }

    /** The part of a refresh before its requests; it claims an id unless the tab is hidden. */
    method BeginRefresh(hidden: bool, ghost waiting: set<int>) returns (claim: Option<int>)
      modifies this
      ensures World(State(), if claim.Some? then waiting + {claim.value} else waiting)
           == Handled(World(old(State()), waiting), Event.BeginRefresh(hidden))
    {
      if hidden {
        return None;
      }
      var id := SupersedeInFlightRefreshes();
      return Some(id);
    }

    /** The part of a refresh after its answers arrived. */
    method FinishRefresh(refreshId: int, list: Option<seq<Item>>, count: Option<int>, ghost waiting: set<int>)
      modifies this
      ensures World(State(), waiting - {refreshId})
           == Handled(World(old(State()), waiting),
                      Respond(refreshId, if list.Some? then list.value else [], if count.Some? then count.value else 0))
      ensures refreshId == old(latestRefreshId) ==>
        && notifications == (if list.Some? then list.value else [])
        && notificationsUnread == (if count.Some? then count.value else 0)
      ensures refreshId != old(latestRefreshId) ==>
        notifications == old(notifications) && notificationsUnread == old(notificationsUnread)
      ensures latestRefreshId == old(latestRefreshId)
    {
      if refreshId != latestRefreshId {
        return;
      }
      notifications := if list.Some? then list.value else [];
      notificationsUnread := if count.Some? then count.value else 0;
    }

    method FinishMarkRead(item: int, ghost waiting: set<int>)
      modifies this
      ensures World(State(), waiting) == Handled(World(old(State()), waiting), MarkedReadDone(item))
    {
      var claim := SupersedeInFlightRefreshes();
      notifications := MarkedRead(notifications, item);
      notificationsUnread := Max(0, notificationsUnread - 1);
    }

    method FinishMarkAllRead(ghost waiting: set<int>)
      modifies this
      ensures World(State(), waiting) == Handled(World(old(State()), waiting), MarkedAllDone)
    {
      var claim := SupersedeInFlightRefreshes();
      notifications := AllRead(notifications);
      notificationsUnread := 0;
    }

    method FinishClear(ghost waiting: set<int>)
      modifies this
      ensures World(State(), waiting) == Handled(World(old(State()), waiting), ClearedDone)
    {
      var claim := SupersedeInFlightRefreshes();
      notifications := [];
      notificationsUnread := 0;
    }

    method StopNotifications(ghost waiting: set<int>)
      modifies this
      ensures World(State(), waiting) == Handled(World(old(State()), waiting), Stop)
    {
      var claim := SupersedeInFlightRefreshes();
      notifications := [];
      notificationsUnread := 0;
    }
  }

  // ---------------------------------------------------------------------
  // Every order of events
  // ---------------------------------------------------------------------

  function After(w: World, events: seq<Event>): World
    decreases |events|
  {
    if events == [] then w else After(Handled(w, events[0]), events[1..])
  }

  ghost predicate AllPossible(w: World, events: seq<Event>)
    decreases |events|
  {
    events == [] || (Possible(w, events[0]) && AllPossible(Handled(w, events[0]), events[1..]))
  }

  /** The answer of a refresh reaches the stores. */
  predicate Writes(w: World, e: Event) {
    e.Respond? && e.id == w.store.latestRefreshId
  }

  /** The claims whose answers reach the stores, in order. */
  function Written(w: World, events: seq<Event>): seq<int>
    decreases |events|
  {
    if events == [] then []
    else
      var rest := Written(Handled(w, events[0]), events[1..]);
      if Writes(w, events[0]) then [events[0].id] + rest else rest
  }

  ghost predicate ClaimsAreOld(w: World) {
    forall id | id in w.waiting :: id <= w.store.latestRefreshId
  }

  lemma HandlingKeepsClaimsOld(w: World, e: Event)
    requires ClaimsAreOld(w)
    ensures ClaimsAreOld(Handled(w, e)) && w.store.latestRefreshId <= Handled(w, e).store.latestRefreshId
  {
  }

  /** The claims that write strictly increase: a slow answer never overwrites a fresher one, and no
      claim writes twice. */
  lemma {:induction false} WritingClaimsIncrease(w: World, events: seq<Event>, bound: int)
    requires ClaimsAreOld(w) && AllPossible(w, events)
    requires bound <= w.store.latestRefreshId && forall id | id in w.waiting && id >= w.store.latestRefreshId :: id > bound
    ensures forall i | 0 <= i < |Written(w, events)| :: Written(w, events)[i] > bound
    ensures forall i, j | 0 <= i < j < |Written(w, events)| :: Written(w, events)[i] < Written(w, events)[j]
    decreases |events|
  {
    if events != [] {
      var e := events[0];
      var next := Handled(w, e);
      HandlingKeepsClaimsOld(w, e);
      if Writes(w, e) {
        WritingClaimsIncrease(next, events[1..], e.id);
      } else {
        WritingClaimsIncrease(next, events[1..], bound);
      }
    }
  }

  /** The events that make answers under way stale. */
  predicate Supersedes(e: Event) {
    e.MarkedReadDone? || e.MarkedAllDone? || e.ClearedDone? || e.Stop?
  }

  /** The answers of the given claims. */
  predicate Answers(e: Event, claims: set<int>) {
    (e.Respond? || e.FailRefresh?) && e.id in claims
  }

  function Without(events: seq<Event>, claims: set<int>): seq<Event>
    decreases |events|
  {
    if events == [] then []
    else
      var rest := Without(events[1..], claims);
      if Answers(events[0], claims) then rest else [events[0]] + rest
  }

  /** The answers of claims below the newest might as well never arrive: at every point the stores are
      those of a service that does not receive them. */
  lemma {:induction false} OldAnswersChangeNothing(w: World, v: World, stale: set<int>, events: seq<Event>)
    requires w.store == v.store && forall id | id in stale :: id < w.store.latestRefreshId
    ensures After(w, events).store == After(v, Without(events, stale)).store
    ensures forall i | 0 <= i < |Written(w, events)| :: Written(w, events)[i] !in stale
    decreases |events|
  {
    if events != [] {
      var e := events[0];
      var rest := Without(events[1..], stale);
      if Answers(e, stale) {
        OldAnswersChangeNothing(Handled(w, e), v, stale, events[1..]);
      } else {
        OldAnswersChangeNothing(Handled(w, e), Handled(v, e), stale, events[1..]);
        assert ([e] + rest)[1..] == rest;
      }
    }
  }

  /** No refresh that was waiting when a mutation completed or the session ended ever changes the
      stores afterwards: whatever happens then, they are what they would be without its answers. */
  lemma MutationsSilenceEarlierRequests(w: World, e: Event, events: seq<Event>)
    requires ClaimsAreOld(w) && Supersedes(e)
    ensures After(Handled(w, e), events).store == After(Handled(w, e), Without(events, w.waiting)).store
    ensures forall i | 0 <= i < |Written(Handled(w, e), events)| :: Written(Handled(w, e), events)[i] !in w.waiting
  {
    OldAnswersChangeNothing(Handled(w, e), Handled(w, e), w.waiting, events);
  }

  /** A newer refresh silences the older ones in the same way as soon as it begins. */
  lemma NewerRefreshSilencesOlder(w: World, events: seq<Event>)
    requires ClaimsAreOld(w)
    ensures
      var begun := Handled(w, BeginRefresh(false));
      && After(begun, events).store == After(begun, Without(events, w.waiting)).store
      && begun.waiting == w.waiting + {begun.store.latestRefreshId}
  {
    var begun := Handled(w, BeginRefresh(false));
    OldAnswersChangeNothing(begun, begun, w.waiting, events);
  }

  /** Nothing is shown and nothing under way may change that. */
  ghost predicate Quiet(w: World) {
    w.store.items == [] && w.store.unread == 0 && forall id | id in w.waiting :: id < w.store.latestRefreshId
  }

  lemma {:induction false} QuietUntilRefresh(w: World, events: seq<Event>)
    requires Quiet(w) && AllPossible(w, events)
    requires forall i | 0 <= i < |events| :: events[i].BeginRefresh? ==> events[i].hidden
    ensures Quiet(After(w, events))
    decreases |events|
  {
    if events != [] {
      assert events[0].BeginRefresh? ==> events[0].hidden;
      assert Quiet(Handled(w, events[0]));
      QuietUntilRefresh(Handled(w, events[0]), events[1..]);
    }
  }

  /** After the session ended the list stays empty and the count zero until a new refresh begins, even
      when answers and mutations of the old session complete late. */
  lemma StoppedStaysEmpty(w: World, events: seq<Event>)
    requires ClaimsAreOld(w) && AllPossible(Handled(w, Stop), events)
    requires forall i | 0 <= i < |events| :: events[i].BeginRefresh? ==> events[i].hidden
    ensures After(Handled(w, Stop), events).store.items == [] && After(Handled(w, Stop), events).store.unread == 0
  {
    QuietUntilRefresh(Handled(w, Stop), events);
  }

  /** Every world the service can reach has only old claims waiting. */
  lemma {:induction false} ReachableClaimsAreOld(w: World, events: seq<Event>)
    requires ClaimsAreOld(w)
    ensures ClaimsAreOld(After(w, events))
    decreases |events|
  {
    if events != [] {
      HandlingKeepsClaimsOld(w, events[0]);
      ReachableClaimsAreOld(Handled(w, events[0]), events[1..]);
    }
  }


  // ---------------------------------------------------------------------
  // What is shown
  // ---------------------------------------------------------------------

  /** The answer of the newest claim is shown as it is; any other changes nothing shown. */
  lemma NewestAnswerIsShown(w: World, id: int, items: seq<Item>, unread: int)
    ensures
      var s := Handled(w, Respond(id, items, unread)).store;
      if id == w.store.latestRefreshId then s.items == items && s.unread == unread
      else s.items == w.store.items && s.unread == w.store.unread
  {
  }

  /** A refresh that has begun is the newest until something supersedes it. */
  lemma BegunIsNewest(w: World)
    ensures
      var begun := Handled(w, BeginRefresh(false));
      begun.store.latestRefreshId == w.store.latestRefreshId + 1 && begun.store.latestRefreshId in begun.waiting
  {
  }

  /** What each completed mutation does to list and count. */
  lemma MutationsShown(w: World, item: int, i: int)
    ensures
      var s := Handled(w, MarkedReadDone(item)).store;
      && |s.items| == |w.store.items|
      && (0 <= i < |s.items| ==>
            s.items[i].id == w.store.items[i].id
            && (s.items[i].isRead <==> w.store.items[i].isRead || w.store.items[i].id == item))
      && s.unread == if w.store.unread >= 1 then w.store.unread - 1 else 0
    ensures
      var s := Handled(w, MarkedAllDone).store;
      && |s.items| == |w.store.items| && s.unread == 0
      && (0 <= i < |s.items| ==> s.items[i] == Item(w.store.items[i].id, true))
    ensures Handled(w, ClearedDone).store.items == [] && Handled(w, ClearedDone).store.unread == 0
    ensures Handled(w, Stop).store.items == [] && Handled(w, Stop).store.unread == 0
  {
  }

  /** List and count after the mutations among the events, every other event left out. */
  function Mutated(items: seq<Item>, unread: int, events: seq<Event>): (seq<Item>, int)
    decreases |events|
  {
    if events == [] then (items, unread)
    else
      match events[0]
      case MarkedReadDone(item) => Mutated(MarkedRead(items, item), Max(0, unread - 1), events[1..])
      case MarkedAllDone => Mutated(AllRead(items), 0, events[1..])
      case ClearedDone => Mutated([], 0, events[1..])
      case Stop => Mutated([], 0, events[1..])
      case _ => Mutated(items, unread, events[1..])
  }

  /** While no answer is written, list and count change by the mutations completed and by nothing else. */
  lemma {:induction false} OnlyMutationsShow(w: World, events: seq<Event>)
    requires Written(w, events) == []
    ensures (After(w, events).store.items, After(w, events).store.unread) == Mutated(w.store.items, w.store.unread, events)
    decreases |events|
  {
    if events != [] {
      assert !Writes(w, events[0]);
      OnlyMutationsShow(Handled(w, events[0]), events[1..]);
    }
  }

  /** List and count are those of the last answer written, changed by exactly the mutations completed since:
      over every sequence of events that goes on after an answer of the newest claim. */
  lemma LastAnswerIsShown(w: World, id: int, items: seq<Item>, unread: int, events: seq<Event>)
    requires id == w.store.latestRefreshId && Written(Handled(w, Respond(id, items, unread)), events) == []
    ensures
      var s := After(w, [Respond(id, items, unread)] + events).store;
      (s.items, s.unread) == Mutated(items, unread, events)
  {
    var answer := Respond(id, items, unread);
    assert ([answer] + events)[1..] == events;
    OnlyMutationsShow(Handled(w, answer), events);
  }
}
