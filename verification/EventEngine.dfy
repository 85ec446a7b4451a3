/**
  The re-entrant FIFO dispatcher of event_engine.h.

  A listener is known by what it does: a function of its identifier, the event and everything delivered so far,
  giving the calls it makes on the engine before it returns or throws. Quantifying over that function covers
  every deterministic listener, stateful ones included.
*/
module EventEngines {
  import opened Klines

  type EventType = nat

  datatype Event = Event(id: nat, eventType: EventType, timestamp: int, source: Option<nat>, producer: nat)

  datatype Listener = Listener(ignoreSelf: bool, id: nat)

  datatype Action = PutEvent(event: Event) | UpdateTimestamp(timestamp: int)

  datatype Delivery = Delivery(listener: nat, event: Event)

  type Behaviour = (nat, Event, seq<Delivery>) -> seq<Action>

  /** The registered listeners of one engine. */
  datatype Config = Config(engine: nat, senior: seq<Listener>, typed: map<EventType, seq<Listener>>,
      junior: seq<Listener>)

  /** Clock and queue, with the history of everything put and everything delivered. */
  datatype State = State(clock: int, queue: seq<Event>, puts: seq<Event>, trace: seq<Delivery>)

  // ---------------------------------------------------------------------------------------------
  // The dispatcher as a transition system
  // ---------------------------------------------------------------------------------------------

  function Typed(cfg: Config, t: EventType): seq<Listener> {
    if t in cfg.typed then cfg.typed[t] else []
  }

  /** Senior, then typed, then junior listeners. */
  function ListenersFor(cfg: Config, t: EventType): seq<Listener> {
    cfg.senior + Typed(cfg, t) + cfg.junior
  }

  predicate Skips(l: Listener, e: Event) {
    l.ignoreSelf && e.producer == l.id
  }

  /** The marks that put leaves on an event. */
  function Stamp(cfg: Config, e: Event, clock: int, producer: nat): Event {
    e.(source := if e.source.None? then Some(cfg.engine) else e.source,
       timestamp := if e.timestamp == 0 then clock else e.timestamp,
       producer := producer)
  }

  function Later(clock: int, t: int): int {
    if t > clock then t else clock
  }

  function Enqueue(cfg: Config, s: State, e: Event, producer: nat): State {
    var stamped := Stamp(cfg, e, s.clock, producer);
    s.(clock := if e.timestamp == 0 then s.clock else Later(s.clock, e.timestamp),
       queue := s.queue + [stamped], puts := s.puts + [stamped])
  }

  function Act(cfg: Config, s: State, actions: seq<Action>, producer: nat): State {
    if actions == [] then s
    else
      var before := Act(cfg, s, actions[..|actions| - 1], producer);
      match actions[|actions| - 1]
      case PutEvent(e) => Enqueue(cfg, before, e, producer)
      case UpdateTimestamp(t) => before.(clock := Later(before.clock, t))
  }

  function Deliver(cfg: Config, behave: Behaviour, s: State, l: Listener, e: Event): State {
    if Skips(l, e) then s
    else
      var delivered := s.(trace := s.trace + [Delivery(l.id, e)]);
      Act(cfg, delivered, behave(l.id, e, s.trace), l.id)
  }

  function DeliverAll(cfg: Config, behave: Behaviour, s: State, ls: seq<Listener>, e: Event): State {
    if ls == [] then s
    else Deliver(cfg, behave, DeliverAll(cfg, behave, s, ls[..|ls| - 1], e), ls[|ls| - 1], e)
  }

  /** One round of drain: take the oldest event and hand it to its listeners. */
  function Step(cfg: Config, behave: Behaviour, s: State): State {
    if s.queue == [] then s
    else DeliverAll(cfg, behave, s.(queue := s.queue[1..]), ListenersFor(cfg, s.queue[0].eventType), s.queue[0])
  }

  function Steps(cfg: Config, behave: Behaviour, s: State, n: nat): State
    decreases n
  {
    if n == 0 then s else Steps(cfg, behave, Step(cfg, behave, s), n - 1)
  }

  // ---------------------------------------------------------------------------------------------
  // What must be delivered
  // ---------------------------------------------------------------------------------------------

  /** The deliveries that one event owes to a list of listeners. */
  function DeliveriesTo(ls: seq<Listener>, e: Event): seq<Delivery> {
    if ls == [] then []
    else
      var before, l := DeliveriesTo(ls[..|ls| - 1], e), ls[|ls| - 1];
      if Skips(l, e) then before else before + [Delivery(l.id, e)]
  }

  /** The deliveries that a list of events owes, event by event in the order they were put. */
  function Owed(cfg: Config, events: seq<Event>): seq<Delivery> {
    if events == [] then []
    else
      var e := events[|events| - 1];
      Owed(cfg, events[..|events| - 1]) + DeliveriesTo(ListenersFor(cfg, e.eventType), e)
  }

  /**
    Since the idle state `from`, the queue is the unhandled end of everything put, and the handled part has been
    delivered exactly as owed.
  */
  ghost predicate Faithful(cfg: Config, from: State, s: State) {
    exists handled: seq<Event> :: HandledSince(cfg, from, s, handled)
  }

  ghost predicate HandledSince(cfg: Config, from: State, s: State, handled: seq<Event>) {
    s.puts == from.puts + (handled + s.queue) && s.trace == from.trace + Owed(cfg, handled)
  }

  /** Listeners only add to the queue; what they put carries their identifier. */
  lemma {:induction false} ActOnlyPuts(cfg: Config, s: State, actions: seq<Action>, producer: nat)
      returns (more: seq<Event>)
    ensures var s' := Act(cfg, s, actions, producer);
      && s'.trace == s.trace && s'.puts == s.puts + more && s'.queue == s.queue + more
      && (forall e | e in more :: e.producer == producer)
  {
    if actions == [] {
      more := [];
    } else {
      var front := actions[..|actions| - 1];
      more := ActOnlyPuts(cfg, s, front, producer);
      var before := Act(cfg, s, front, producer);
      if actions[|actions| - 1].PutEvent? {
        more := more + [Stamp(cfg, actions[|actions| - 1].event, before.clock, producer)];
      }
    }
  }

  lemma {:induction false} DeliverAllTrace(cfg: Config, behave: Behaviour, s: State, ls: seq<Listener>, e: Event)
      returns (more: seq<Event>)
    ensures var s' := DeliverAll(cfg, behave, s, ls, e);
      && s'.trace == s.trace + DeliveriesTo(ls, e) && s'.puts == s.puts + more && s'.queue == s.queue + more
  {
    if ls == [] {
      more := [];
    } else {
      var front, l := ls[..|ls| - 1], ls[|ls| - 1];
      more := DeliverAllTrace(cfg, behave, s, front, e);
      var before := DeliverAll(cfg, behave, s, front, e);
      if !Skips(l, e) {
        var delivered := before.(trace := before.trace + [Delivery(l.id, e)]);
        var more' := ActOnlyPuts(cfg, delivered, behave(l.id, e, before.trace), l.id);
        more := more + more';
      }
    }
  }

  lemma StepIsFaithful(cfg: Config, behave: Behaviour, from: State, s: State)
    requires Faithful(cfg, from, s)
    ensures Faithful(cfg, from, Step(cfg, behave, s))
  {
    if s.queue != [] {
      var handled: seq<Event> :| HandledSince(cfg, from, s, handled);
      var more := DeliverAllTrace(cfg, behave, s.(queue := s.queue[1..]), ListenersFor(cfg, s.queue[0].eventType),
          s.queue[0]);
      HandledOneMore(cfg, from, s, Step(cfg, behave, s), handled, more);
    }
  }

  lemma HandledOneMore(cfg: Config, from: State, s: State, s': State, handled: seq<Event>, more: seq<Event>)
    requires s.queue != [] && HandledSince(cfg, from, s, handled)
    requires s'.puts == s.puts + more && s'.queue == s.queue[1..] + more
    requires s'.trace == s.trace + DeliveriesTo(ListenersFor(cfg, s.queue[0].eventType), s.queue[0])
    ensures Faithful(cfg, from, s')
  {
    OwedMore(cfg, handled, s.queue[0]);
    MoveFirst(handled, s.queue, more);
    assert HandledSince(cfg, from, s', handled + [s.queue[0]]);
  }

  lemma MoveFirst<T>(a: seq<T>, q: seq<T>, more: seq<T>)
    requires q != []
    ensures a + q + more == (a + [q[0]]) + (q[1..] + more)
  {
  }

  lemma OwedMore(cfg: Config, events: seq<Event>, e: Event)
    ensures Owed(cfg, events + [e]) == Owed(cfg, events) + DeliveriesTo(ListenersFor(cfg, e.eventType), e)
  {
    assert (events + [e])[..|events|] == events;
  }

  /** In every run, after any number of rounds, what was delivered is what is owed to the events handled so far. */
  lemma {:induction false} RunIsFaithful(cfg: Config, behave: Behaviour, from: State, s: State, n: nat)
    requires Faithful(cfg, from, s)
    ensures Faithful(cfg, from, Steps(cfg, behave, s, n))
    decreases n
  {
    if n > 0 {
      StepIsFaithful(cfg, behave, from, s);
      RunIsFaithful(cfg, behave, from, Step(cfg, behave, s), n - 1);
    }
  }

  /**
    A top-level put: whatever the listeners do, when the queue has run empty every event put since, the first one
    and all those the listeners added, has been delivered as owed, in the order of the puts.
  */
  lemma PutDeliversAll(cfg: Config, behave: Behaviour, s: State, e: Event, n: nat) returns (given: seq<Event>)
    requires s.queue == [] && Steps(cfg, behave, Enqueue(cfg, s, e, 0), n).queue == []
    ensures var s' := Steps(cfg, behave, Enqueue(cfg, s, e, 0), n);
      && s'.puts == s.puts + given && s'.trace == s.trace + Owed(cfg, given)
      && given != [] && given[0] == Stamp(cfg, e, s.clock, 0)
  {
    var start := Enqueue(cfg, s, e, 0);
    var s' := Steps(cfg, behave, start, n);
    assert HandledSince(cfg, s, start, []) by { assert [] + start.queue == start.queue; }
    RunIsFaithful(cfg, behave, s, start, n);
    var handled: seq<Event> :| HandledSince(cfg, s, s', handled);
    given := handled;
    assert handled + s'.queue == handled;
    FirstPutStays(cfg, behave, start, n);
    assert start.puts == s.puts + [Stamp(cfg, e, s.clock, 0)];
    assert s'.puts[|s.puts|] == start.puts[|s.puts|];
  }

  lemma {:induction false} FirstPutStays(cfg: Config, behave: Behaviour, s: State, n: nat)
    ensures s.puts <= Steps(cfg, behave, s, n).puts
    decreases n
  {
    if n > 0 {
      if s.queue != [] {
        var _ := DeliverAllTrace(cfg, behave, s.(queue := s.queue[1..]), ListenersFor(cfg, s.queue[0].eventType),
            s.queue[0]);
      }
      FirstPutStays(cfg, behave, Step(cfg, behave, s), n - 1);
    }
  }

  // ---------------------------------------------------------------------------------------------
  // Exactly once
  // ---------------------------------------------------------------------------------------------

  /** Registration hands out 1, 2, 3, ...: no two listeners that see the same event share an identifier. */
  ghost predicate DistinctIds(cfg: Config) {
    forall t :: Distinct(ListenersFor(cfg, t))
  }

  ghost predicate Distinct(ls: seq<Listener>) {
    && (forall i | 0 <= i < |ls| :: ls[i].id >= 1)
    && (forall i, j | 0 <= i < j < |ls| :: ls[i].id != ls[j].id)
  }

  /** The listener is registered for this event and did not put it itself under ignore_self. */
  ghost predicate Receives(cfg: Config, listener: nat, e: Event) {
    Reached(ListenersFor(cfg, e.eventType), listener, e)
  }

  function Count(ds: seq<Delivery>, d: Delivery): nat {
    if ds == [] then 0 else Count(ds[..|ds| - 1], d) + if ds[|ds| - 1] == d then 1 else 0
  }

  lemma {:induction false} CountOfAppend(a: seq<Delivery>, b: seq<Delivery>, d: Delivery)
    ensures Count(a + b, d) == Count(a, d) + Count(b, d)
  {
    if b == [] {
      assert a + b == a;
    } else {
      assert (a + b)[..|a + b| - 1] == a + b[..|b| - 1];
      CountOfAppend(a, b[..|b| - 1], d);
    }
  }

  ghost predicate Reached(ls: seq<Listener>, listener: nat, e: Event) {
    exists l | l in ls :: l.id == listener && !Skips(l, e)
  }

  lemma {:induction false} DeliveriesCount(ls: seq<Listener>, put: Event, listener: nat, e: Event)
    requires Distinct(ls)
    ensures Count(DeliveriesTo(ls, put), Delivery(listener, e)) == if put == e && Reached(ls, listener, e) then 1 else 0
  {
    if ls != [] {
      var front, last := ls[..|ls| - 1], ls[|ls| - 1];
      DeliveriesCount(front, put, listener, e);
      ReachedMore(front, last, listener, e);
      assert ls == front + [last];
      CountOneMore(DeliveriesTo(front, put), Delivery(last.id, put), Delivery(listener, e));
      if Reached(front, listener, e) {
        var l :| l in front && l.id == listener && !Skips(l, e);
      }
    }
  }

  lemma CountOneMore(ds: seq<Delivery>, last: Delivery, d: Delivery)
    ensures Count(ds + [last], d) == Count(ds, d) + if last == d then 1 else 0
  {
    assert (ds + [last])[..|ds|] == ds;
  }

  lemma ReachedMore(front: seq<Listener>, last: Listener, listener: nat, e: Event)
    ensures Reached(front + [last], listener, e) <==>
      Reached(front, listener, e) || (last.id == listener && !Skips(last, e))
  {
    assert last in front + [last];
    if Reached(front, listener, e) {
      var l :| l in front && l.id == listener && !Skips(l, e);
      assert l in front + [last];
    }
  }

  /** How often an event is in the list. */
  function Times(events: seq<Event>, e: Event): nat {
    if events == [] then 0 else Times(events[..|events| - 1], e) + if events[|events| - 1] == e then 1 else 0
  }

  /**
    In a run that has emptied the queue, an event is delivered to each listener registered for it exactly as often as
    it was put, except to one that put it itself and ignores itself, and never to any other listener.
  */
  lemma {:induction false} DeliveredAsOftenAsPut(cfg: Config, events: seq<Event>, e: Event, listener: nat)
    requires DistinctIds(cfg)
    ensures Count(Owed(cfg, events), Delivery(listener, e))
      == if Receives(cfg, listener, e) then Times(events, e) else 0
  {
    if events != [] {
      var front, last := events[..|events| - 1], events[|events| - 1];
      DeliveredAsOftenAsPut(cfg, front, e, listener);
      assert Distinct(ListenersFor(cfg, last.eventType));
      DeliveriesCount(ListenersFor(cfg, last.eventType), last, listener, e);
      CountOfAppend(Owed(cfg, front), DeliveriesTo(ListenersFor(cfg, last.eventType), last), Delivery(listener, e));
    }
  }

  /** Events that can be told apart are each in the list at most once. */
  lemma {:induction false} TimesOfDistinct(events: seq<Event>, e: Event)
    requires forall i, j | 0 <= i < j < |events| :: events[i] != events[j]
    ensures Times(events, e) == if e in events then 1 else 0
  {
    if events != [] {
      TimesOfDistinct(events[..|events| - 1], e);
      LastIsNew(events, e);
    }
  }

  /** In particular exactly once, when the events can be told apart. */
  lemma ExactlyOnce(cfg: Config, events: seq<Event>, e: Event, listener: nat)
    requires DistinctIds(cfg)
    requires forall i, j | 0 <= i < j < |events| :: events[i] != events[j]
    ensures Count(Owed(cfg, events), Delivery(listener, e))
      == if e in events && Receives(cfg, listener, e) then 1 else 0
  {
    DeliveredAsOftenAsPut(cfg, events, e, listener);
    TimesOfDistinct(events, e);
  }

  /**
    A top-level put that runs the queue empty: of any event and any listener there are as many deliveries more than
    before as the event was put, if the listener is to receive it, and none otherwise.
  */
  lemma PutDeliversEach(
    cfg: Config, behave: Behaviour, s: State, e: Event, n: nat, x: Event, listener: nat) returns (given: seq<Event>)
    requires DistinctIds(cfg)
    requires s.queue == [] && Steps(cfg, behave, Enqueue(cfg, s, e, 0), n).queue == []
    ensures var s' := Steps(cfg, behave, Enqueue(cfg, s, e, 0), n);
      && s'.puts == s.puts + given
      && Count(s'.trace, Delivery(listener, x)) ==
         Count(s.trace, Delivery(listener, x)) + if Receives(cfg, listener, x) then Times(given, x) else 0
  {
    given := PutDeliversAll(cfg, behave, s, e, n);
    CountOfAppend(s.trace, Owed(cfg, given), Delivery(listener, x));
    DeliveredAsOftenAsPut(cfg, given, x, listener);
  }

  /** In particular exactly once, when the events put can be told apart. */
  lemma PutDeliversExactlyOnce(
    cfg: Config, behave: Behaviour, s: State, e: Event, n: nat, x: Event, listener: nat) returns (given: seq<Event>)
    requires DistinctIds(cfg)
    requires s.queue == [] && Steps(cfg, behave, Enqueue(cfg, s, e, 0), n).queue == []
    ensures var s' := Steps(cfg, behave, Enqueue(cfg, s, e, 0), n);
      && s'.puts == s.puts + given
      && ((forall i, j | 0 <= i < j < |given| :: given[i] != given[j]) ==>
            Count(s'.trace, Delivery(listener, x)) ==
            Count(s.trace, Delivery(listener, x)) + if x in given && Receives(cfg, listener, x) then 1 else 0)
  {
    given := PutDeliversEach(cfg, behave, s, e, n, x, listener);
    if forall i, j | 0 <= i < j < |given| :: given[i] != given[j] {
      TimesOfDistinct(given, x);
    }
  }

  lemma LastIsNew(events: seq<Event>, e: Event)
    requires events != [] && forall i, j | 0 <= i < j < |events| :: events[i] != events[j]
    ensures e in events <==> e in events[..|events| - 1] || e == events[|events| - 1]
    ensures events[|events| - 1] !in events[..|events| - 1]
  {
    assert events == events[..|events| - 1] + [events[|events| - 1]];
  }

  /** What an outside caller puts (producer 0) reaches every listener registered for it, in registration order. */
  lemma {:induction false} OutsideEventsReachAll(ls: seq<Listener>, e: Event)
    requires Distinct(ls) && e.producer == 0
    ensures |DeliveriesTo(ls, e)| == |ls|
    ensures forall i | 0 <= i < |ls| :: DeliveriesTo(ls, e)[i] == Delivery(ls[i].id, e)
  {
    if ls != [] { OutsideEventsReachAll(ls[..|ls| - 1], e); }
  }

  // ---------------------------------------------------------------------------------------------
  // Who is reached and in which order, by the three lists of registered listeners
  // ---------------------------------------------------------------------------------------------

  /** The three lists that see an event of one type: senior, typed and junior. */
  predicate InList(cfg: Config, t: EventType, list: int, i: int, l: Listener) {
    || (list == 0 && 0 <= i < |cfg.senior| && cfg.senior[i] == l)
    || (list == 1 && t in cfg.typed && 0 <= i < |cfg.typed[t]| && cfg.typed[t][i] == l)
    || (list == 2 && 0 <= i < |cfg.junior| && cfg.junior[i] == l)
  }

  /** No identifier is registered twice, and none is zero. */
  ghost predicate OwnIds(cfg: Config) {
    && (forall t, list, i, l | InList(cfg, t, list, i, l) :: l.id >= 1)
    && (forall t, list, i, l, list', i', l' | InList(cfg, t, list, i, l) && InList(cfg, t, list', i', l') ::
          l.id == l'.id ==> list == list' && i == i')
  }

  /** A registered listener of this identifier that did not put the event itself under ignore_self. */
  ghost predicate IsAddressed(cfg: Config, e: Event, id: nat) {
    exists list, i, l :: InList(cfg, e.eventType, list, i, l) && l.id == id && !(l.ignoreSelf && e.producer == id)
  }

  /** The list and the index in it of a place in the sequence of all listeners of a type. */
  function ListOf(cfg: Config, t: EventType, p: int): (int, int) {
    var n, m := |cfg.senior|, if t in cfg.typed then |cfg.typed[t]| else 0;
    if p < n then (0, p) else if p < n + m then (1, p - n) else (2, p - n - m)
  }

  lemma PlaceIsInList(cfg: Config, t: EventType, p: nat)
    requires p < |ListenersFor(cfg, t)|
    ensures InList(cfg, t, ListOf(cfg, t, p).0, ListOf(cfg, t, p).1, ListenersFor(cfg, t)[p])
  {
  }

  lemma ListIsAPlace(cfg: Config, t: EventType, list: int, i: int, l: Listener) returns (p: nat)
    requires InList(cfg, t, list, i, l)
    ensures p < |ListenersFor(cfg, t)| && ListenersFor(cfg, t)[p] == l && ListOf(cfg, t, p) == (list, i)
  {
    var n, m := |cfg.senior|, if t in cfg.typed then |cfg.typed[t]| else 0;
    p := if list == 0 then i else if list == 1 then n + i else n + m + i;
  }

  lemma OwnIdsAreDistinct(cfg: Config)
    requires OwnIds(cfg)
    ensures DistinctIds(cfg)
  {
    forall t ensures Distinct(ListenersFor(cfg, t)) {
      var ls := ListenersFor(cfg, t);
      forall i | 0 <= i < |ls| ensures ls[i].id >= 1 {
        PlaceIsInList(cfg, t, i);
      }
      forall i, j | 0 <= i < j < |ls| ensures ls[i].id != ls[j].id {
        PlaceIsInList(cfg, t, i);
        PlaceIsInList(cfg, t, j);
        assert ListOf(cfg, t, i) != ListOf(cfg, t, j);
      }
    }
  }

  lemma AddressedAreReached(cfg: Config, e: Event, id: nat)
    ensures IsAddressed(cfg, e, id) <==> Receives(cfg, id, e)
  {
    var t := e.eventType;
    if IsAddressed(cfg, e, id) {
      var list, i, l :| InList(cfg, t, list, i, l) && l.id == id && !(l.ignoreSelf && e.producer == id);
      var p := ListIsAPlace(cfg, t, list, i, l);
      assert l in ListenersFor(cfg, t);
    }
    if Receives(cfg, id, e) {
      var l :| l in ListenersFor(cfg, t) && l.id == id && !Skips(l, e);
      var p :| 0 <= p < |ListenersFor(cfg, t)| && ListenersFor(cfg, t)[p] == l;
      PlaceIsInList(cfg, t, p);
    }
  }

  lemma {:induction false} CountIsMultiplicity(ds: seq<Delivery>, d: Delivery)
    ensures Count(ds, d) == multiset(ds)[d]
  {
    if ds != [] {
      CountIsMultiplicity(ds[..|ds| - 1], d);
      assert ds == ds[..|ds| - 1] + [ds[|ds| - 1]];
    }
  }

  lemma {:induction false} TimesIsMultiplicity(events: seq<Event>, e: Event)
    ensures Times(events, e) == multiset(events)[e]
  {
    if events != [] {
      TimesIsMultiplicity(events[..|events| - 1], e);
      assert events == events[..|events| - 1] + [events[|events| - 1]];
    }
  }

  /**
    A top-level put that empties the queue, told by the registered lists: every senior, typed and junior listener
    gets each event put exactly as often as it was put, unless it put it itself and ignores itself; and no other
    identifier gets anything.
  */
  lemma EveryListIsServed(cfg: Config, behave: Behaviour, s: State, e: Event, n: nat, x: Event, id: nat)
    returns (given: seq<Event>)
    requires OwnIds(cfg)
    requires s.queue == [] && Steps(cfg, behave, Enqueue(cfg, s, e, 0), n).queue == []
    ensures var s' := Steps(cfg, behave, Enqueue(cfg, s, e, 0), n);
      && s'.puts == s.puts + given
      && multiset(s'.trace)[Delivery(id, x)] ==
         multiset(s.trace)[Delivery(id, x)] + if IsAddressed(cfg, x, id) then multiset(given)[x] else 0
  {
    OwnIdsAreDistinct(cfg);
    given := PutDeliversEach(cfg, behave, s, e, n, x, id);
    AddressedAreReached(cfg, x, id);
    CountIsMultiplicity(s.trace, Delivery(id, x));
    CountIsMultiplicity(Steps(cfg, behave, Enqueue(cfg, s, e, 0), n).trace, Delivery(id, x));
    TimesIsMultiplicity(given, x);
  }

  /** The place among `ls` of the listener of each delivery. */
  ghost function Places(ls: seq<Listener>, e: Event): seq<nat> {
    if ls == [] then []
    else if Skips(ls[|ls| - 1], e) then Places(ls[..|ls| - 1], e)
    else Places(ls[..|ls| - 1], e) + [|ls| - 1]
  }

  lemma {:induction false} PlacesIncrease(ls: seq<Listener>, e: Event)
    ensures |Places(ls, e)| == |DeliveriesTo(ls, e)|
    ensures forall i | 0 <= i < |Places(ls, e)| ::
      Places(ls, e)[i] < |ls| && DeliveriesTo(ls, e)[i] == Delivery(ls[Places(ls, e)[i]].id, e)
    ensures forall i, j | 0 <= i < j < |Places(ls, e)| :: Places(ls, e)[i] < Places(ls, e)[j]
  {
    if ls != [] {
      PlacesIncrease(ls[..|ls| - 1], e);
    }
  }

  /**
    One round of drain delivers the oldest event alone, and of two deliveries the earlier one is to a listener that
    stands before: seniors before typed ones before juniors, and within one list in the order of registration.
  */
  lemma RoundKeepsListOrder(cfg: Config, behave: Behaviour, s: State, i: nat, j: nat)
      returns (a: (int, int), b: (int, int))
    requires OwnIds(cfg) && s.queue != []
    requires |s.trace| <= i < j < |Step(cfg, behave, s).trace|
    ensures var e, trace := s.queue[0], Step(cfg, behave, s).trace;
      && s.trace <= trace && trace[i].event == e && trace[j].event == e
      && (exists l :: InList(cfg, e.eventType, a.0, a.1, l) && l.id == trace[i].listener)
      && (exists l :: InList(cfg, e.eventType, b.0, b.1, l) && l.id == trace[j].listener)
      && (a.0 < b.0 || (a.0 == b.0 && a.1 < b.1))
  {
    var e := s.queue[0];
    var ls := ListenersFor(cfg, e.eventType);
    var _ := DeliverAllTrace(cfg, behave, s.(queue := s.queue[1..]), ls, e);
    assert Step(cfg, behave, s).trace == s.trace + DeliveriesTo(ls, e);
    PlacesIncrease(ls, e);
    var p, q := Places(ls, e)[i - |s.trace|], Places(ls, e)[j - |s.trace|];
    a, b := ListOf(cfg, e.eventType, p), ListOf(cfg, e.eventType, q);
    PlaceIsInList(cfg, e.eventType, p);
    PlaceIsInList(cfg, e.eventType, q);
  }

  /** What put makes of an event: only missing marks are filled in, and the producer is the one that is running. */
  lemma StampFillsIn(cfg: Config, s: State, e: Event, producer: nat)
    ensures var s' := Enqueue(cfg, s, e, producer);
      && |s'.queue| == |s.queue| + 1 && s.queue <= s'.queue
      && var x := s'.queue[|s.queue|];
        && x.id == e.id && x.eventType == e.eventType && x.producer == producer
        && x.source == (if e.source.Some? then e.source else Some(cfg.engine))
        && (e.timestamp != 0 ==> x.timestamp == e.timestamp) && (e.timestamp == 0 ==> x.timestamp == s.clock)
        && s'.clock == if e.timestamp > s.clock && e.timestamp != 0 then e.timestamp else s.clock
  {
  }

  // ---------------------------------------------------------------------------------------------
  // The clock
  // ---------------------------------------------------------------------------------------------

  /** Every event put has a source and is not ahead of the clock. */
  ghost predicate Marked(s: State) {
    forall e | e in s.puts :: e.source.Some? && e.timestamp <= s.clock
  }

  lemma {:induction false} ActClock(cfg: Config, s: State, actions: seq<Action>, producer: nat)
    requires Marked(s)
    ensures Marked(Act(cfg, s, actions, producer)) && Act(cfg, s, actions, producer).clock >= s.clock
  {
    if actions != [] { ActClock(cfg, s, actions[..|actions| - 1], producer); }
  }

  lemma {:induction false} DeliverAllClock(cfg: Config, behave: Behaviour, s: State, ls: seq<Listener>, e: Event)
    requires Marked(s)
    ensures Marked(DeliverAll(cfg, behave, s, ls, e)) && DeliverAll(cfg, behave, s, ls, e).clock >= s.clock
  {
    if ls != [] {
      var l, before := ls[|ls| - 1], DeliverAll(cfg, behave, s, ls[..|ls| - 1], e);
      DeliverAllClock(cfg, behave, s, ls[..|ls| - 1], e);
      ActClock(cfg, before.(trace := before.trace + [Delivery(l.id, e)]), behave(l.id, e, before.trace), l.id);
    }
  }

  /** In every run the clock never runs back, no event put is ahead of it, and every one has been given a source. */
  lemma {:induction false} ClockIsMonotone(cfg: Config, behave: Behaviour, s: State, n: nat)
    requires Marked(s)
    ensures Marked(Steps(cfg, behave, s, n)) && Steps(cfg, behave, s, n).clock >= s.clock
    decreases n
  {
    if n > 0 {
      if s.queue != [] {
        DeliverAllClock(cfg, behave, s.(queue := s.queue[1..]), ListenersFor(cfg, s.queue[0].eventType), s.queue[0]);
      }
      ClockIsMonotone(cfg, behave, Step(cfg, behave, s), n - 1);
    }
  }

  // ---------------------------------------------------------------------------------------------
  // Termination of drain
  // ---------------------------------------------------------------------------------------------

  function Pow(b: nat, n: nat): nat {
    if n == 0 then 1 else b * Pow(b, n - 1)
  }

  /** The sum of (bound + 1) ^ rank over the queue. */
  ghost function Weight(queue: seq<Event>, rank: Event -> nat, bound: nat): nat {
    if queue == [] then 0 else Weight(queue[..|queue| - 1], rank, bound) + Pow(bound + 1, rank(queue[|queue| - 1]))
  }

  /** In the run from `s`, handling an event causes at most `bound` new events, each of a lower rank than the event. */
  ghost predicate Disciplined(cfg: Config, behave: Behaviour, s: State, rank: Event -> nat, bound: nat) {
    forall n: nat :: RoundAddsLittle(cfg, behave, s, n, rank, bound)
  }

  ghost predicate RoundAddsLittle(cfg: Config, behave: Behaviour, s: State, n: nat, rank: Event -> nat, bound: nat) {
    var t := Steps(cfg, behave, s, n);
    t.queue != [] ==> AddsLittle(t, Step(cfg, behave, t), rank, bound)
  }

  lemma LaterDisciplined(cfg: Config, behave: Behaviour, s: State, rank: Event -> nat, bound: nat)
    requires Disciplined(cfg, behave, s, rank, bound)
    ensures Disciplined(cfg, behave, Step(cfg, behave, s), rank, bound)
  {
    forall n: nat ensures RoundAddsLittle(cfg, behave, Step(cfg, behave, s), n, rank, bound) {
      assert RoundAddsLittle(cfg, behave, s, n + 1, rank, bound);
    }
  }

  ghost predicate AddsLittle(s: State, s': State, rank: Event -> nat, bound: nat)
    requires s.queue != []
  {
    exists more: seq<Event> ::
      && s'.queue == s.queue[1..] + more && |more| <= bound
      && (forall e | e in more :: rank(e) < rank(s.queue[0]))
  }

  lemma {:induction false} WeightOfAppend(a: seq<Event>, b: seq<Event>, rank: Event -> nat, bound: nat)
    ensures Weight(a + b, rank, bound) == Weight(a, rank, bound) + Weight(b, rank, bound)
  {
    if b == [] {
      assert a + b == a;
    } else {
      assert (a + b)[..|a + b| - 1] == a + b[..|b| - 1];
      WeightOfAppend(a, b[..|b| - 1], rank, bound);
    }
  }

  lemma TimesGrows(b: nat, p: nat)
    requires b > 0
    ensures p <= b * p
  {
  }

  lemma {:induction false} PowMonotone(b: nat, m: nat, n: nat)
    requires b > 0 && m <= n
    ensures 1 <= Pow(b, m) <= Pow(b, n)
  {
    if n > 0 {
      var k := if m < n then m else m - 1;
      PowMonotone(b, k, n - 1);
      TimesGrows(b, Pow(b, n - 1));
    }
  }

  lemma OneMoreTimes(k: nat, p: nat)
    ensures (k + 1) * p == k * p + p
  {
  }

  lemma MoreTimes(k: nat, n: nat, p: nat)
    requires k <= n
    ensures k * p <= n * p
  {
  }

  /** k events below rank r weigh at most k * (bound + 1) ^ (r - 1). */
  lemma {:induction false} WeightBelow(more: seq<Event>, rank: Event -> nat, bound: nat, r: nat)
    requires r > 0 && forall e | e in more :: rank(e) < r
    ensures Weight(more, rank, bound) <= |more| * Pow(bound + 1, r - 1)
  {
    if more != [] {
      var front, last := more[..|more| - 1], more[|more| - 1];
      assert last in more;
      WeightBelow(front, rank, bound, r);
      PowMonotone(bound + 1, rank(last), r - 1);
      OneMoreTimes(|front|, Pow(bound + 1, r - 1));
    }
  }

  lemma NoneBelowZero(more: seq<Event>, rank: Event -> nat)
    ensures more != [] ==> exists e | e in more :: rank(e) >= 0
  {
    if more != [] { assert more[0] in more; }
  }

  lemma NewWeight(more: seq<Event>, rank: Event -> nat, bound: nat, r: nat)
    requires |more| <= bound && forall e | e in more :: rank(e) < r
    ensures Weight(more, rank, bound) < Pow(bound + 1, r)
  {
    PowMonotone(bound + 1, r, r);
    if r == 0 {
      NoneBelowZero(more, rank);
    } else {
      WeightBelow(more, rank, bound, r);
      var p := Pow(bound + 1, r - 1);
      PowMonotone(bound + 1, r - 1, r - 1);
      MoreTimes(|more|, bound, p);
      OneMoreTimes(bound, p);
    }
  }

  lemma StepLosesWeight(cfg: Config, behave: Behaviour, s: State, rank: Event -> nat, bound: nat)
    requires Disciplined(cfg, behave, s, rank, bound) && s.queue != []
    ensures Weight(Step(cfg, behave, s).queue, rank, bound) < Weight(s.queue, rank, bound)
  {
    assert RoundAddsLittle(cfg, behave, s, 0, rank, bound);
    LittleIsLighter(s, Step(cfg, behave, s), rank, bound);
  }

  lemma LittleIsLighter(s: State, s': State, rank: Event -> nat, bound: nat)
    requires s.queue != [] && AddsLittle(s, s', rank, bound)
    ensures Weight(s'.queue, rank, bound) < Weight(s.queue, rank, bound)
  {
    var e, rest := s.queue[0], s.queue[1..];
    var more: seq<Event> :| s'.queue == rest + more && |more| <= bound && (forall x | x in more :: rank(x) < rank(e));
    NewWeight(more, rank, bound, rank(e));
    WeightOfAppend(rest, more, rank, bound);
    assert s.queue == [e] + rest;
    WeightOfAppend([e], rest, rank, bound);
    assert [e][..0] == [];
    assert Weight([e], rank, bound) == Weight([e][..0], rank, bound) + Pow(bound + 1, rank(e));
  }

  /** Under the discipline the queue is empty after at most Weight rounds, whatever the bound is. */
  lemma {:induction false} DrainTerminates(cfg: Config, behave: Behaviour, s: State, rank: Event -> nat, bound: nat)
      returns (n: nat)
    requires Disciplined(cfg, behave, s, rank, bound)
    ensures n <= Weight(s.queue, rank, bound) && Steps(cfg, behave, s, n).queue == []
    decreases Weight(s.queue, rank, bound)
  {
    if s.queue == [] {
      n := 0;
    } else {
      StepLosesWeight(cfg, behave, s, rank, bound);
      LaterDisciplined(cfg, behave, s, rank, bound);
      n := DrainTerminates(cfg, behave, Step(cfg, behave, s), rank, bound);
      n := n + 1;
    }
  }

  // ---------------------------------------------------------------------------------------------
  // The engine
  // ---------------------------------------------------------------------------------------------

  /** Identifiers come from one counter that starts at 1. */
  ghost predicate Registered(cfg: Config, next: nat) {
    next >= 1 && forall t :: IdsBelow(ListenersFor(cfg, t), next)
  }

  ghost predicate IdsBelow(ls: seq<Listener>, next: nat) {
    Distinct(ls) && forall i | 0 <= i < |ls| :: ls[i].id < next
  }

  lemma RegisteredAreDistinct(cfg: Config, next: nat)
    requires Registered(cfg, next)
    ensures DistinctIds(cfg)
  {
    forall t ensures Distinct(ListenersFor(cfg, t)) {
      assert IdsBelow(ListenersFor(cfg, t), next);
    }
  }

  /** Registration keeps the identifiers apart across the three lists. */
  lemma RegisteredOwnIds(cfg: Config, next: nat)
    requires Registered(cfg, next)
    ensures OwnIds(cfg)
  {
    forall t, list, i, l | InList(cfg, t, list, i, l) ensures l.id >= 1 {
      var p := ListIsAPlace(cfg, t, list, i, l);
      assert IdsBelow(ListenersFor(cfg, t), next);
    }
    forall t, list, i, l, list', i', l' | InList(cfg, t, list, i, l) && InList(cfg, t, list', i', l') && l.id == l'.id
      ensures list == list' && i == i'
    {
      var p := ListIsAPlace(cfg, t, list, i, l);
      var p' := ListIsAPlace(cfg, t, list', i', l');
      assert IdsBelow(ListenersFor(cfg, t), next);
    }
  }

  class EventEngine {
    const engine: nat
    const behave: Behaviour
    var timestamp: int
    var queue: seq<Event>
    var dispatching: bool
    var currentListenerId: nat
    var nextListenerId: nat
    var listenerDict: map<EventType, seq<Listener>>
    var senior: seq<Listener>
    var junior: seq<Listener>
    ghost var puts: seq<Event>
    var trace: seq<Delivery>   // not in the source: what the listeners have seen so far

    ghost function Cfg(): Config
      reads this
    {
      Config(engine, senior, listenerDict, junior)
    }

    ghost function Now(): State
      reads this
    {
      State(timestamp, queue, puts, trace)
    }

    /** Between two top-level calls: not dispatching, no listener running, nothing queued. */
    ghost predicate Idle()
      reads this
    {
      !dispatching && currentListenerId == 0 && queue == []
    }

    ghost predicate Valid()
      reads this
    {
      Registered(Cfg(), nextListenerId)
    }

    constructor (engine: nat, behave: Behaviour, now: int)
      ensures Valid() && Idle() && Cfg() == Config(engine, [], map[], []) && Now() == State(now, [], [], [])
      ensures this.behave == behave
    {
      this.engine, this.behave := engine, behave;
      timestamp, queue, dispatching, currentListenerId, nextListenerId := now, [], false, 0, 1;
      listenerDict, senior, junior := map[], [], [];
      puts, trace := [], [];
    }

    /** Fails while events are being dispatched. */
    method RegisterListener(eventType: EventType, ignoreSelf: bool) returns (ok: bool)
      requires Valid()
      modifies this
      ensures Valid() && ok == !old(dispatching) && Now() == old(Now()) && dispatching == old(dispatching)
        && currentListenerId == old(currentListenerId)
      ensures !ok ==> Cfg() == old(Cfg())
      ensures ok ==>
        var more := Typed(old(Cfg()), eventType) + [Listener(ignoreSelf, old(nextListenerId))];
        Cfg() == old(Cfg()).(typed := old(Cfg()).typed[eventType := more])
    {
      if dispatching { return false; }
      var info := Listener(ignoreSelf, nextListenerId);
      nextListenerId := nextListenerId + 1;
      var listeners := if eventType in listenerDict then listenerDict[eventType] else [];
      listenerDict := listenerDict[eventType := listeners + [info]];
      ok := true;
      RegisteredTyped(old(Cfg()), old(nextListenerId), eventType, info);
    }

    method RegisterGlobalListener(ignoreSelf: bool, isSenior: bool) returns (ok: bool)
      requires Valid()
      modifies this
      ensures Valid() && ok == !old(dispatching) && Now() == old(Now()) && dispatching == old(dispatching)
        && currentListenerId == old(currentListenerId)
      ensures !ok ==> Cfg() == old(Cfg())
      ensures ok && isSenior ==>
        Cfg() == old(Cfg()).(senior := old(senior) + [Listener(ignoreSelf, old(nextListenerId))])
      ensures ok && !isSenior ==>
        Cfg() == old(Cfg()).(junior := old(junior) + [Listener(ignoreSelf, old(nextListenerId))])
    {
      if dispatching { return false; }
      var info := Listener(ignoreSelf, nextListenerId);
      nextListenerId := nextListenerId + 1;
      if isSenior { senior := senior + [info]; } else { junior := junior + [info]; }
      ok := true;
      RegisteredGlobal(old(Cfg()), old(nextListenerId), info);
    }

    method UpdateClock(t: int)
      modifies this`timestamp
      ensures timestamp == Later(old(timestamp), t)
    {
      if t > timestamp { timestamp := t; }
    }

    /**
      put. A null event is refused. While dispatching, the event only joins the queue. Otherwise it is drained,
      which returns exactly if some number of rounds empties the queue; `rounds` is that number, and `given` lists
      everything put until then.
    */
    method Put(event: Option<Event>, ghost rounds: nat) returns (ok: bool, ghost given: seq<Event>)
      requires dispatching || Idle()
      requires !dispatching && event.Some? ==>
        Steps(Cfg(), behave, Enqueue(Cfg(), Now(), event.value, 0), rounds).queue == []
      modifies this
      ensures ok == event.Some? && Cfg() == old(Cfg()) && nextListenerId == old(nextListenerId)
      ensures dispatching == old(dispatching) && currentListenerId == old(currentListenerId)
      ensures !ok ==> Now() == old(Now())
      ensures ok && old(dispatching) ==> Now() == Enqueue(Cfg(), old(Now()), event.value, currentListenerId)
      ensures ok && !old(dispatching) ==>
        Now() == Steps(Cfg(), behave, Enqueue(Cfg(), old(Now()), event.value, 0), rounds)
      ensures !old(dispatching) ==> Idle()
      ensures ok && !old(dispatching) ==> puts == old(puts) + given && trace == old(trace) + Owed(Cfg(), given)
      ensures ok && !old(dispatching) ==> given != [] && given[0] == Stamp(Cfg(), event.value, old(timestamp), 0)
      decreases if dispatching then 0 else 3
    {
      given := [];
      if event.None? { return false, []; }
      var e := event.value;
      if e.source.None? { e := e.(source := Some(engine)); }
      var ts := e.timestamp;
      if ts == 0 {
        e := e.(timestamp := timestamp);
      } else if ts > timestamp {
        timestamp := ts;
      }
      e := e.(producer := currentListenerId);
      queue := queue + [e];
      puts := puts + [e];
      assert Now() == Enqueue(Cfg(), old(Now()), event.value, currentListenerId);
      if !dispatching {
        Drain(rounds);
        given := PutDeliversAll(Cfg(), behave, old(Now()), event.value, rounds);
      }
      ok := true;
    }

    method Drain(ghost rounds: nat)
      requires !dispatching && currentListenerId == 0
      requires Steps(Cfg(), behave, Now(), rounds).queue == []
      modifies this
      ensures Idle() && Cfg() == old(Cfg()) && nextListenerId == old(nextListenerId)
      ensures Now() == Steps(Cfg(), behave, old(Now()), rounds)
      decreases 2
    {
      dispatching := true;
      ghost var left := rounds;
      while queue != []
        invariant dispatching && currentListenerId == 0 && Cfg() == old(Cfg()) && nextListenerId == old(nextListenerId)
        invariant Steps(Cfg(), behave, Now(), left) == Steps(Cfg(), behave, old(Now()), rounds)
        decreases left
      {
        var event := queue[0];
        ghost var s := Now();
        queue := queue[1..];
        Dispatch(event);
        assert left > 0 && Now() == Step(Cfg(), behave, s);
        left := left - 1;
      }
      StepsFromEmpty(Cfg(), behave, Now(), left);
      dispatching := false;
    }

    method Dispatch(event: Event)
      requires dispatching && currentListenerId == 0
      modifies this
      ensures dispatching && currentListenerId == 0 && Cfg() == old(Cfg()) && nextListenerId == old(nextListenerId)
      ensures Now() == DeliverAll(Cfg(), behave, old(Now()), ListenersFor(Cfg(), event.eventType), event)
      decreases 1
    {
      var listeners := senior;
      if event.eventType in listenerDict {
        listeners := listeners + listenerDict[event.eventType];
      }
      listeners := listeners + junior;
      assert listeners == ListenersFor(Cfg(), event.eventType);
      for i := 0 to |listeners|
        invariant dispatching && currentListenerId == 0 && Cfg() == old(Cfg()) && nextListenerId == old(nextListenerId)
        invariant Now() == DeliverAll(Cfg(), behave, old(Now()), listeners[..i], event)
      {
        var info := listeners[i];
        assert listeners[..i + 1][..i] == listeners[..i];
        if info.ignoreSelf && event.producer == info.id { continue; }
        currentListenerId := info.id;
        CallListener(event);
        currentListenerId := 0;
      }
      assert listeners[..|listeners|] == listeners;
    }

    /** One call of a listener: the calls that it makes on the engine. */
    method CallListener(event: Event)
      requires dispatching
      modifies this
      ensures dispatching && currentListenerId == old(currentListenerId) && Cfg() == old(Cfg())
        && nextListenerId == old(nextListenerId)
      ensures Now() == Act(Cfg(), old(Now()).(trace := old(trace) + [Delivery(currentListenerId, event)]),
                           behave(currentListenerId, event, old(trace)), currentListenerId)
      decreases 1, 0
    {
      ghost var start := Now().(trace := trace + [Delivery(currentListenerId, event)]);
      var actions := behave(currentListenerId, event, trace);
      trace := trace + [Delivery(currentListenerId, event)];
      for i := 0 to |actions|
        invariant dispatching && currentListenerId == old(currentListenerId) && Cfg() == old(Cfg())
          && nextListenerId == old(nextListenerId)
        invariant Now() == Act(Cfg(), start, actions[..i], currentListenerId)
      {
        assert actions[..i + 1][..i] == actions[..i];
        match actions[i]
        case PutEvent(e) =>
          var _, _ := Put(Some(e), 0);
        case UpdateTimestamp(t) =>
          UpdateClock(t);
      }
      assert actions[..|actions|] == actions;
    }
  }

  lemma {:induction false} StepsFromEmpty(cfg: Config, behave: Behaviour, s: State, n: nat)
    requires s.queue == []
    ensures Steps(cfg, behave, s, n) == s
    decreases n
  {
    if n > 0 { StepsFromEmpty(cfg, behave, s, n - 1); }
  }

  lemma RegisteredTyped(cfg: Config, next: nat, t: EventType, l: Listener)
    requires Registered(cfg, next) && l.id == next
    ensures Registered(cfg.(typed := cfg.typed[t := Typed(cfg, t) + [l]]), next + 1)
  {
    var cfg' := cfg.(typed := cfg.typed[t := Typed(cfg, t) + [l]]);
    forall u ensures IdsBelow(ListenersFor(cfg', u), next + 1) {
      assert IdsBelow(ListenersFor(cfg, u), next);
      if u == t {
        InsertBelow(cfg.senior + Typed(cfg, t), cfg.junior, l, next);
        assert ListenersFor(cfg', u) == cfg.senior + Typed(cfg, t) + [l] + cfg.junior;
      } else {
        assert ListenersFor(cfg', u) == ListenersFor(cfg, u);
      }
    }
  }

  lemma RegisteredGlobal(cfg: Config, next: nat, l: Listener)
    requires Registered(cfg, next) && l.id == next
    ensures Registered(cfg.(senior := cfg.senior + [l]), next + 1)
    ensures Registered(cfg.(junior := cfg.junior + [l]), next + 1)
  {
    var a, b := cfg.(senior := cfg.senior + [l]), cfg.(junior := cfg.junior + [l]);
    forall t ensures IdsBelow(ListenersFor(a, t), next + 1) {
      assert IdsBelow(ListenersFor(cfg, t), next);
      assert ListenersFor(cfg, t) == cfg.senior + (Typed(cfg, t) + cfg.junior);
      InsertBelow(cfg.senior, Typed(cfg, t) + cfg.junior, l, next);
      assert ListenersFor(a, t) == cfg.senior + [l] + (Typed(cfg, t) + cfg.junior);
    }
    forall t ensures IdsBelow(ListenersFor(b, t), next + 1) {
      assert IdsBelow(ListenersFor(cfg, t), next);
      assert ListenersFor(cfg, t) == ListenersFor(cfg, t) + [];
      InsertBelow(ListenersFor(cfg, t), [], l, next);
      assert ListenersFor(b, t) == ListenersFor(cfg, t) + [l] + [];
    }
  }

  lemma InsertBelow(a: seq<Listener>, b: seq<Listener>, l: Listener, next: nat)
    requires next >= 1 && l.id == next && IdsBelow(a + b, next)
    ensures IdsBelow(a + [l] + b, next + 1)
  {
    var c := a + [l] + b;
    forall i | 0 <= i < |c| && i != |a| ensures 1 <= c[i].id < next {
      if i < |a| { assert c[i] == (a + b)[i]; } else { assert c[i] == (a + b)[i - 1]; }
    }
    forall i, j | 0 <= i < j < |c| ensures c[i].id != c[j].id {
      var i', j' := if i <= |a| then i else i - 1, if j <= |a| then j else j - 1;
      if i != |a| && j != |a| { assert c[i] == (a + b)[i'] && c[j] == (a + b)[j']; }
    }
  }
}
