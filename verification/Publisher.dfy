/** The event publisher: while corked it saves events for each subscriber, and when the last
    cork comes off it hands them over. Subscribers may publish events themselves. */
module Publisher {
  import opened Bytes

  /** A subscribed function, by identity. */
  type Function = nat

  /** A published event. `level` bounds the events published in reaction to it: they all
      have smaller levels, so that publishing comes to an end. */
  datatype Event = Event(state: string, data: int, level: nat)

  /** What a program using the publisher does: emit, or cork, do more, and uncork. */
  datatype Command = Emit(event: Event) | Corked(body: seq<Command>)

  /** One function receiving one event. */
  datatype Delivery = Delivery(fn: Function, event: Event)

  type Reaction = (Function, Event) -> seq<Command>

  /** What a function does when it is called; it may depend on all that was delivered
      before, and so on any state that functions keep. */
  type Handler = (Function, Event, seq<Delivery>) -> seq<Command>

  datatype Subscriptions = Subscriptions(
    dispatchers: map<string, seq<Function>>,
    listeners: map<string, seq<Function>>)
  {
    /** The functions an event goes to, as often as they are subscribed. */
    function For(state: string): seq<Function> {
      (if state in dispatchers then dispatchers[state] else [])
      + (if state in listeners then listeners[state] else [])
    }
  }

  // ---- what is owed ----

  function ToEach(fns: seq<Function>, e: Event): (r: seq<Delivery>)
    ensures |r| == |fns| && forall i | 0 <= i < |r| :: r[i] == Delivery(fns[i], e)
  {
    seq(|fns|, i requires 0 <= i < |fns| => Delivery(fns[i], e))
  }

  /** The deliveries of the events a program emits itself, in order of emission. */
  ghost function Direct(subs: Subscriptions, cmds: seq<Command>): seq<Delivery>
    decreases cmds
  {
    if cmds == [] then [] else
      (match cmds[0]
       case Emit(e) => ToEach(subs.For(e.state), e)
       case Corked(body) => Direct(subs, body))
      + Direct(subs, cmds[1..])
  }

  /** All events of the program have levels below `n`. */
  ghost predicate Below(cmds: seq<Command>, n: nat)
    decreases cmds
  {
    forall c | c in cmds ::
      match c
      case Emit(e) => e.level < n
      case Corked(body) => Below(body, n)
  }

  ghost predicate AllBelow(ds: seq<Delivery>, n: nat) {
    forall d | d in ds :: d.event.level < n
  }

  /** Every reaction to an event only publishes events of smaller levels. */
  ghost predicate Finite(react: Reaction) {
    forall f, e :: Below(react(f, e), e.level)
  }

  ghost predicate AlwaysFinite(handler: Handler) {
    forall f, e, past :: Below(handler(f, e, past), e.level)
  }

  lemma {:induction false} DirectBelow(subs: Subscriptions, cmds: seq<Command>, n: nat)
    requires Below(cmds, n)
    ensures AllBelow(Direct(subs, cmds), n)
    decreases cmds
  {
    if cmds != [] {
      assert cmds[0] in cmds;
      assert forall c | c in cmds[1..] :: c in cmds;
      if cmds[0].Corked? { DirectBelow(subs, cmds[0].body, n); }
      DirectBelow(subs, cmds[1..], n);
    }
  }

  /** Every delivery there will be because of `ds`: those, and those of the events that
      the functions publish in reaction, and so on. */
  ghost function Total(subs: Subscriptions, react: Reaction, ds: seq<Delivery>, n: nat): multiset<Delivery>
    requires Finite(react) && AllBelow(ds, n)
    decreases n, |ds|
  {
    if ds == [] then multiset{} else
      var d := ds[0];
      var cmds := react(d.fn, d.event);
      DirectBelow(subs, cmds, d.event.level);
      multiset{d} + Total(subs, react, Direct(subs, cmds), d.event.level) + Total(subs, react, ds[1..], n)
  }

  /** The events among `ds` that go to `f`, in order. */
  ghost function Received(ds: seq<Delivery>, f: Function): seq<Event> {
    if ds == [] then [] else
      (if ds[0].fn == f then [ds[0].event] else []) + Received(ds[1..], f)
  }

  ghost function Without(ds: seq<Delivery>, f: Function): seq<Delivery> {
    if ds == [] then [] else
      (if ds[0].fn == f then [] else [ds[0]]) + Without(ds[1..], f)
  }

  ghost function To(f: Function, events: seq<Event>): (r: seq<Delivery>)
    ensures |r| == |events| && forall i | 0 <= i < |r| :: r[i] == Delivery(f, events[i])
  {
    seq(|events|, i requires 0 <= i < |events| => Delivery(f, events[i]))
  }

  /** From `was` to `now` every function has received its part of `ds`, in order. */
  ghost predicate Extends(now: seq<Delivery>, was: seq<Delivery>, ds: seq<Delivery>) {
    forall f :: Received(now, f) == Received(was, f) + Received(ds, f)
  }

  lemma {:induction false} ReceivedConcat(a: seq<Delivery>, b: seq<Delivery>, f: Function)
    ensures Received(a + b, f) == Received(a, f) + Received(b, f)
  {
    hide Received;
    if a == [] {
      assert a + b == b;
      NothingReceived(f);
    } else {
      ReceivedConcat(a[1..], b, f);
      ReceivedCons(a[0], a[1..] + b, f);
      ReceivedCons(a[0], a[1..], f);
      Uncons(a);
      Associative([a[0]], a[1..], b);
      Associative(if a[0].fn == f then [a[0].event] else [], Received(a[1..], f), Received(b, f));
    }
  }

  lemma NothingReceived(f: Function)
    ensures Received([], f) == []
  {
  }

  lemma ReceivedCons(d: Delivery, ds: seq<Delivery>, f: Function)
    ensures Received([d] + ds, f) == (if d.fn == f then [d.event] else []) + Received(ds, f)
  {
    assert ([d] + ds)[1..] == ds;
  }

  lemma {:induction false} ReceivedTo(f: Function, events: seq<Event>, g: Function)
    ensures Received(To(f, events), g) == if f == g then events else []
  {
    if events != [] {
      ReceivedTo(f, events[1..], g);
      assert To(f, events)[1..] == To(f, events[1..]);
    }
  }

  lemma {:induction false} ReceivedWithout(ds: seq<Delivery>, f: Function, g: Function)
    ensures Received(Without(ds, f), g) == if f == g then [] else Received(ds, g)
  {
    if ds != [] {
      ReceivedWithout(ds[1..], f, g);
      ReceivedConcat(if ds[0].fn == f then [] else [ds[0]], Without(ds[1..], f), g);
      ReceivedConcat([ds[0]], ds[1..], g);
    }
  }

  /** What one delivery amounts to. */
  ghost function One(subs: Subscriptions, react: Reaction, d: Delivery): multiset<Delivery>
    requires Finite(react)
  {
    var cmds := react(d.fn, d.event);
    DirectBelow(subs, cmds, d.event.level);
    multiset{d} + Total(subs, react, Direct(subs, cmds), d.event.level)
  }

  lemma TotalCons(subs: Subscriptions, react: Reaction, d: Delivery, ds: seq<Delivery>, n: nat)
    requires Finite(react) && AllBelow(ds, n) && d.event.level < n
    ensures AllBelow([d] + ds, n)
    ensures Total(subs, react, [d] + ds, n) == One(subs, react, d) + Total(subs, react, ds, n)
  {
    assert ([d] + ds)[1..] == ds;
  }

  lemma TotalNil(subs: Subscriptions, react: Reaction, n: nat)
    requires Finite(react)
    ensures Total(subs, react, [], n) == multiset{}
  {
  }

  lemma Uncons(ds: seq<Delivery>)
    requires ds != []
    ensures ds == [ds[0]] + ds[1..]
  {
  }

  lemma {:induction false} TotalConcat(subs: Subscriptions, react: Reaction, a: seq<Delivery>, b: seq<Delivery>, n: nat)
    requires Finite(react) && AllBelow(a, n) && AllBelow(b, n)
    ensures AllBelow(a + b, n)
    ensures Total(subs, react, a + b, n) == Total(subs, react, a, n) + Total(subs, react, b, n)
  {
    hide Total, One;
    if a == [] {
      assert a + b == b;
      TotalNil(subs, react, n);
    } else {
      TotalConcat(subs, react, a[1..], b, n);
      Uncons(a);
      assert a + b == [a[0]] + (a[1..] + b);
      TotalCons(subs, react, a[0], a[1..], n);
      TotalCons(subs, react, a[0], a[1..] + b, n);
    }
  }

  lemma {:induction false} TotalBound(subs: Subscriptions, react: Reaction, ds: seq<Delivery>, m: nat, n: nat)
    requires Finite(react) && AllBelow(ds, m) && AllBelow(ds, n)
    ensures Total(subs, react, ds, m) == Total(subs, react, ds, n)
  {
    if ds != [] { TotalBound(subs, react, ds[1..], m, n); }
  }

  /** What is owed can be split by subscriber. */
  lemma {:induction false} TotalSplit(subs: Subscriptions, react: Reaction, ds: seq<Delivery>, f: Function, n: nat)
    requires Finite(react) && AllBelow(ds, n)
    ensures AllBelow(Without(ds, f), n) && AllBelow(To(f, Received(ds, f)), n)
    ensures Total(subs, react, ds, n) ==
            Total(subs, react, To(f, Received(ds, f)), n) + Total(subs, react, Without(ds, f), n)
  {
    hide Total, One;
    TotalNil(subs, react, n);
    if ds == [] {
      assert To(f, Received(ds, f)) == [];
    } else {
      var d, rest := ds[0], ds[1..];
      TotalSplit(subs, react, rest, f, n);
      Uncons(ds);
      TotalCons(subs, react, d, rest, n);
      if d.fn == f {
        assert To(f, Received(ds, f)) == [d] + To(f, Received(rest, f));
        assert Without(ds, f) == Without(rest, f);
        TotalCons(subs, react, d, To(f, Received(rest, f)), n);
      } else {
        assert Received(ds, f) == Received(rest, f);
        TotalCons(subs, react, d, Without(rest, f), n);
      }
    }
  }

  /** The deliveries called for by the reactions to `ds` themselves. */
  ghost function Reactions(subs: Subscriptions, react: Reaction, ds: seq<Delivery>): seq<Delivery> {
    if ds == [] then [] else
      Direct(subs, react(ds[0].fn, ds[0].event)) + Reactions(subs, react, ds[1..])
  }

  lemma {:induction false} ReactionsConcat(subs: Subscriptions, react: Reaction, a: seq<Delivery>, b: seq<Delivery>)
    ensures Reactions(subs, react, a + b) == Reactions(subs, react, a) + Reactions(subs, react, b)
  {
    if a == [] {
      assert a + b == b;
    } else {
      ReactionsConcat(subs, react, a[1..], b);
      assert (a + b)[1..] == a[1..] + b && (a + b)[0] == a[0];
      Associative(Direct(subs, react(a[0].fn, a[0].event)), Reactions(subs, react, a[1..]), Reactions(subs, react, b));
    }
  }

  /** Making the deliveries `ds` and saving what they lead to leaves just that owed. */
  lemma {:induction false} TotalUnfold(subs: Subscriptions, react: Reaction, ds: seq<Delivery>, n: nat, level: nat)
    requires Finite(react) && AllBelow(ds, n) && forall d | d in ds :: d.event.level <= level
    ensures AllBelow(Reactions(subs, react, ds), level)
    ensures Total(subs, react, ds, n) == multiset(ds) + Total(subs, react, Reactions(subs, react, ds), level)
  {
    hide Total;
    if ds == [] {
      TotalNil(subs, react, n);
      TotalNil(subs, react, level);
    } else {
      var d, rest := ds[0], ds[1..];
      var direct := Direct(subs, react(d.fn, d.event));
      TotalUnfold(subs, react, rest, n, level);
      Uncons(ds);
      TotalCons(subs, react, d, rest, n);
      DirectBelow(subs, react(d.fn, d.event), d.event.level);
      TotalBound(subs, react, direct, d.event.level, level);
      TotalConcat(subs, react, direct, Reactions(subs, react, rest), level);
      assert multiset([d] + rest) == multiset{d} + multiset(rest);
    }
  }

  // ---- what a program emits, and who gets it ----

  /** The events a program emits itself, whatever is corked. */
  function Emitted(cmds: seq<Command>): seq<Event>
    decreases cmds
  {
    if cmds == [] then [] else
      (match cmds[0] case Emit(e) => [e] case Corked(body) => Emitted(body)) + Emitted(cmds[1..])
  }

  /** The events among `es` whose state is one of `states`. */
  function Wanted(es: seq<Event>, states: set<string>): seq<Event> {
    if es == [] then [] else
      (if es[0].state in states then [es[0]] else []) + Wanted(es[1..], states)
  }

  lemma {:induction false} WantedConcat(a: seq<Event>, b: seq<Event>, states: set<string>)
    ensures Wanted(a + b, states) == Wanted(a, states) + Wanted(b, states)
  {
    if a == [] {
      assert a + b == b;
    } else {
      WantedConcat(a[1..], b, states);
      assert (a + b)[1..] == a[1..] + b && (a + b)[0] == a[0];
      Associative(if a[0].state in states then [a[0]] else [], Wanted(a[1..], states), Wanted(b, states));
    }
  }

  /** No list of subscribers names a function twice. */
  ghost predicate Distinct(fns: seq<Function>) {
    forall i, j | 0 <= i < j < |fns| :: fns[i] != fns[j]
  }

  ghost predicate AllDistinct(subscribed: map<string, seq<Function>>) {
    forall s | s in subscribed :: Distinct(subscribed[s])
  }

  /** The states at which `f` is subscribed, in one of the two ways. */
  ghost predicate SubscribedAt(subs: Subscriptions, f: Function, states: set<string>) {
    && AllDistinct(subs.dispatchers) && AllDistinct(subs.listeners)
    && (forall s :: s in states <==>
          (s in subs.dispatchers && f in subs.dispatchers[s]) || (s in subs.listeners && f in subs.listeners[s]))
    && (forall s | s in subs.dispatchers && s in subs.listeners ::
          !(f in subs.dispatchers[s] && f in subs.listeners[s]))
  }

  lemma {:induction false} ReceivedOnce(fns: seq<Function>, e: Event, f: Function)
    requires Distinct(fns)
    ensures Received(ToEach(fns, e), f) == if f in fns then [e] else []
  {
    if fns != [] {
      ReceivedOnce(fns[1..], e, f);
      assert ToEach(fns, e)[1..] == ToEach(fns[1..], e);
    }
  }

  lemma ReceivedOfOne(subs: Subscriptions, e: Event, f: Function, states: set<string>)
    requires SubscribedAt(subs, f, states)
    ensures Received(ToEach(subs.For(e.state), e), f) == if e.state in states then [e] else []
  {
    var ds := if e.state in subs.dispatchers then subs.dispatchers[e.state] else [];
    var ls := if e.state in subs.listeners then subs.listeners[e.state] else [];
    assert ToEach(subs.For(e.state), e) == ToEach(ds, e) + ToEach(ls, e);
    ReceivedConcat(ToEach(ds, e), ToEach(ls, e), f);
    ReceivedOnce(ds, e, f);
    ReceivedOnce(ls, e, f);
    assert e.state in states <==> f in ds || f in ls;
  }

  /** How often a function is subscribed at a state. */
  function Places(subscribed: map<string, seq<Function>>, state: string, f: Function): nat {
    if state in subscribed then multiset(subscribed[state])[f] else 0
  }

  lemma {:induction false} CountEach(fns: seq<Function>, e: Event, f: Function)
    ensures multiset(ToEach(fns, e))[Delivery(f, e)] == multiset(fns)[f]
  {
    if fns != [] {
      CountEach(fns[1..], e, f);
      assert fns == [fns[0]] + fns[1..];
      assert ToEach(fns, e) == [Delivery(fns[0], e)] + ToEach(fns[1..], e);
    }
  }

  /** An event calls for one delivery for every place that a function has among the
      dispatchers and among the listeners of its state. */
  lemma OneForEachPlace(subs: Subscriptions, e: Event, f: Function)
    ensures multiset(ToEach(subs.For(e.state), e))[Delivery(f, e)]
         == Places(subs.dispatchers, e.state, f) + Places(subs.listeners, e.state, f)
  {
    var ds := if e.state in subs.dispatchers then subs.dispatchers[e.state] else [];
    var ls := if e.state in subs.listeners then subs.listeners[e.state] else [];
    assert subs.For(e.state) == ds + ls;
    CountEach(ds + ls, e, f);
    assert multiset(ds + ls) == multiset(ds) + multiset(ls);
  }

  // ---- how functions are called ----

  /** One call of a function: a dispatcher gets a list of events, a listener one event. */
  datatype Made = Made(fn: Function, asDispatcher: bool, events: seq<Event>)

  function MadeEach(fns: seq<Function>, asDispatcher: bool, e: Event): (r: seq<Made>)
    ensures |r| == |fns| && forall i | 0 <= i < |r| :: r[i] == Made(fns[i], asDispatcher, [e])
  {
    seq(|fns|, i requires 0 <= i < |fns| => Made(fns[i], asDispatcher, [e]))
  }

  function MadeSingly(fn: Function, events: seq<Event>): (r: seq<Made>)
    ensures |r| == |events| && forall i | 0 <= i < |r| :: r[i] == Made(fn, false, [events[i]])
  {
    seq(|events|, i requires 0 <= i < |events| => Made(fn, false, [events[i]]))
  }

  /** The calls by which saved events are handed over: a dispatcher is called once with all
      of them, a listener once for each. */
  function HandOver(fn: Function, asDispatcher: bool, events: seq<Event>): seq<Made> {
    if asDispatcher then [Made(fn, true, events)] else MadeSingly(fn, events)
  }

  function CallsOf(calls: seq<Made>, f: Function): seq<Made> {
    if calls == [] then [] else (if calls[0].fn == f then [calls[0]] else []) + CallsOf(calls[1..], f)
  }

  lemma {:induction false} CallsOfConcat(a: seq<Made>, b: seq<Made>, f: Function)
    ensures CallsOf(a + b, f) == CallsOf(a, f) + CallsOf(b, f)
  {
    if a == [] {
      assert a + b == b;
    } else {
      CallsOfConcat(a[1..], b, f);
      assert (a + b)[1..] == a[1..] + b && (a + b)[0] == a[0];
      Associative(if a[0].fn == f then [a[0]] else [], CallsOf(a[1..], f), CallsOf(b, f));
    }
  }

  lemma {:induction false} CallsOfOne(calls: seq<Made>, fn: Function, f: Function)
    requires forall c | c in calls :: c.fn == fn
    ensures CallsOf(calls, f) == if f == fn then calls else []
  {
    if calls != [] {
      assert calls[0] in calls && forall c | c in calls[1..] :: c in calls;
      CallsOfOne(calls[1..], fn, f);
      assert [calls[0]] + calls[1..] == calls;
    }
  }

  /** A function's part of the deliveries called for is exactly the events it subscribed to,
      once each and in the order of emission, however the program corks and uncorks. */
  lemma {:induction false} ExactlyItsEvents(subs: Subscriptions, cmds: seq<Command>, f: Function, states: set<string>)
    requires SubscribedAt(subs, f, states)
    ensures Received(Direct(subs, cmds), f) == Wanted(Emitted(cmds), states)
    decreases cmds
  {
    hide SubscribedAt;
    if cmds != [] {
      ExactlyItsEvents(subs, cmds[1..], f, states);
      var rest, emitted := Direct(subs, cmds[1..]), Emitted(cmds[1..]);
      match cmds[0] {
        case Emit(e) =>
          ReceivedOfOne(subs, e, f, states);
          ReceivedConcat(ToEach(subs.For(e.state), e), rest, f);
          WantedConcat([e], emitted, states);
          assert [e][1..] == [];
        case Corked(body) =>
          ExactlyItsEvents(subs, body, f, states);
          ReceivedConcat(Direct(subs, body), rest, f);
          WantedConcat(Emitted(body), emitted, states);
      }
    }
  }

  // ---- the publisher ----

  class Publisher {
    var dispatchers: map<string, seq<Function>>
    var listeners: map<string, seq<Function>>
    var toEmit: map<Function, (bool, seq<Event>)>
    var corked: nat
    /** What the subscribed functions do when they are called. */
    const handler: Handler
    /** The same, for functions that keep no state. */
    ghost const react: Reaction
    /** The deliveries saved up, in order of emission. */
    ghost var pending: seq<Delivery>
    /** The deliveries made; they stand for the state of the functions called. */
    var log: seq<Delivery>
    /** The deliveries about to be made: the calls have begun, or what was saved is being
        handed over. */
    ghost var inHand: seq<Delivery>
    /** The deliveries that all events emitted so far call for, whoever emitted them. */
    ghost var owed: seq<Delivery>
    /** The calls made, in order. */
    ghost var calls: seq<Made>

    constructor (handler: Handler)
      requires AlwaysFinite(handler)
      ensures Valid() && corked == 0 && log == [] && pending == [] && inHand == [] && owed == [] && calls == []
      ensures this.handler == handler && dispatchers == map[] && listeners == map[]
    {
      this.handler := handler;
      react := (f: Function, e: Event) => handler(f, e, []);
      dispatchers, listeners, toEmit, corked := map[], map[], map[], 0;
      pending, log, inHand, owed, calls := [], [], [], [], [];
    }

    ghost predicate Regular() {
      AlwaysFinite(handler) && forall f, e :: react(f, e) == handler(f, e, [])
    }

    lemma HandledBelow(fn: Function, e: Event, past: seq<Delivery>)
      requires Regular()
      ensures Below(handler(fn, e, past), e.level)
    {
    }

    /** What a function does depends on the event alone. */
    ghost predicate Stateless() {
      forall f, e, past :: handler(f, e, past) == react(f, e)
    }

    /** Every delivery owed was made, is saved, or is about to be made. */
    static ghost predicate Balanced(log: seq<Delivery>, pending: seq<Delivery>, inHand: seq<Delivery>, owed: seq<Delivery>) {
      multiset(log) + multiset(pending) + multiset(inHand) == multiset(owed)
    }

    static lemma Deliver(log: seq<Delivery>, pending: seq<Delivery>, inHand: seq<Delivery>, owed: seq<Delivery>)
      requires Balanced(log, pending, inHand, owed) && inHand != []
      ensures Balanced(log + [inHand[0]], pending, inHand[1..], owed)
    {
      assert inHand == [inHand[0]] + inHand[1..];
    }

    static lemma TakeUp(log: seq<Delivery>, pending: seq<Delivery>, inHand: seq<Delivery>, owed: seq<Delivery>)
      requires Balanced(log, pending, inHand, owed)
      ensures Balanced(log, [], pending + inHand, owed)
    {
    }

    static lemma Owe(log: seq<Delivery>, pending: seq<Delivery>, inHand: seq<Delivery>, owed: seq<Delivery>, more: seq<Delivery>)
      requires Balanced(log, pending, inHand, owed)
      ensures Balanced(log, pending + more, inHand, owed + more)
      ensures Balanced(log, pending, more + inHand, owed + more)
    {
    }

    /** The order in which deliveries are taken up does not matter. */
    static lemma Reorder(log: seq<Delivery>, pending: seq<Delivery>, owed: seq<Delivery>, ds: seq<Delivery>,
                         one: seq<Delivery>, others: seq<Delivery>, rest: seq<Delivery>)
      requires Balanced(log, pending, ds + rest, owed) && multiset(ds) == multiset(one) + multiset(others)
      ensures Balanced(log, pending, one + (others + rest), owed)
    {
    }

    /** Exactly once: outside all corks and calls, the deliveries made are those that the
        events emitted called for, whatever the functions called have emitted themselves. */
    lemma ExactlyOnce()
      requires Valid() && corked == 0 && inHand == []
      ensures multiset(log) == multiset(owed)
    {
    }

    function Subs(): Subscriptions
      reads this`dispatchers, this`listeners
    {
      Subscriptions(dispatchers, listeners)
    }

    /** What is saved for each function is what is pending for it. */
    ghost predicate Saved(saved: map<Function, (bool, seq<Event>)>, ds: seq<Delivery>) {
      forall f :: if f in saved then saved[f].1 == Received(ds, f) else Received(ds, f) == []
    }

    ghost predicate Valid()
      reads this
    {
      && Finite(react) && Regular() && Saved(toEmit, pending) && Balanced(log, pending, inHand, owed)
      && AllDistinct(dispatchers) && AllDistinct(listeners)
      && (corked == 0 ==> pending == [] && toEmit == map[])
    }

    /** A program run by a publisher that is not corked, whose subscribers publish nothing in
        reaction: every function that is subscribed in one way receives the events of the
        states it subscribed to, once each and in order; nothing stays behind. */
    method RunQuietly(cmds: seq<Command>, ghost n: nat)
      requires Valid() && corked == 0 && Quiet() && Below(cmds, n)
      modifies this`toEmit, this`pending, this`corked, this`log, this`inHand, this`owed, this`calls
      ensures Valid() && corked == 0 && toEmit == map[]
      ensures forall f, states | SubscribedAt(Subs(), f, states) ::
                Received(log, f) == Received(old(log), f) + Wanted(Emitted(cmds), states)
    {
      hide Received, Total, Direct, SubscribedAt;
      Execute(cmds, n);
      forall f, states | SubscribedAt(Subs(), f, states)
        ensures Received(log, f) == Received(old(log), f) + Wanted(Emitted(cmds), states)
      {
        ExactlyItsEvents(Subs(), cmds, f, states);
      }
    }

    /** No function publishes anything in reaction to an event. */
    ghost predicate Quiet() {
      forall f, e, past :: handler(f, e, past) == []
    }

    method Subscribe(state: string, fn: Function, dispatcher: bool)
      requires Valid()
      modifies this`dispatchers, this`listeners
      ensures Valid()
      ensures var was := old(if dispatcher then dispatchers else listeners);
              var fns := if state in was then was[state] else [];
              var now := was[state := if fn in fns then fns else fns + [fn]];
              if dispatcher then dispatchers == now && listeners == old(listeners)
              else listeners == now && dispatchers == old(dispatchers)
    {
      var was := if dispatcher then dispatchers else listeners;
      var fns := if state in was then was[state] else [];
      if fn !in fns {
        fns := fns + [fn];
      }
      assert Distinct(fns);
      if dispatcher {
        dispatchers := dispatchers[state := fns];
      } else {
        listeners := listeners[state := fns];
      }
    }

    method Cork()
      modifies this`corked
      ensures corked == old(corked) + 1
    {
      corked := corked + 1;
    }

    /** Saves an event for some of its subscribers. */
    method Save(fns: seq<Function>, isDispatcher: bool, e: Event)
      requires Saved(toEmit, pending)
      modifies this`toEmit, this`pending
      ensures Saved(toEmit, pending)
      ensures pending == old(pending) + ToEach(fns, e)
      ensures forall f :: f in toEmit <==> f in old(toEmit) || f in fns
      ensures forall f | f in toEmit :: toEmit[f].0 == if f in old(toEmit) then old(toEmit)[f].0 else isDispatcher
    {
      hide Saved;
      for i := 0 to |fns|
        invariant Saved(toEmit, pending)
        invariant forall f :: f in toEmit <==> f in old(toEmit) || f in fns[..i]
        invariant forall f | f in toEmit ::
                    toEmit[f].0 == if f in old(toEmit) then old(toEmit)[f].0 else isDispatcher
        invariant pending == old(pending) + ToEach(fns, e)[..i]
      {
        SaveOne(fns[i], isDispatcher, e);
        TakeNext(ToEach(fns, e), i);
        TakeNext(fns, i);
      }
      assert ToEach(fns, e)[..|fns|] == ToEach(fns, e) && fns[..|fns|] == fns;
    }

    method SaveOne(fn: Function, isDispatcher: bool, e: Event)
      requires Saved(toEmit, pending)
      modifies this`toEmit, this`pending
      ensures Saved(toEmit, pending)
      ensures pending == old(pending) + [Delivery(fn, e)]
      ensures toEmit.Keys == old(toEmit).Keys + {fn}
      ensures forall f | f in toEmit :: toEmit[f].0 == if f in old(toEmit) then old(toEmit)[f].0 else isDispatcher
    {
      hide Received;
      var was := if fn in toEmit then toEmit[fn] else (isDispatcher, []);
      ghost var before, saved := pending, toEmit;
      pending := pending + [Delivery(fn, e)];
      toEmit := toEmit[fn := (was.0, was.1 + [e])];
      forall f ensures if f in toEmit then toEmit[f].1 == Received(pending, f) else Received(pending, f) == [] {
        ReceivedConcat(before, [Delivery(fn, e)], f);
        ReceivedSingle(Delivery(fn, e), f);
        assert if f in saved then saved[f].1 == Received(before, f) else Received(before, f) == [];
      }
    }

    static lemma ReceivedSingle(d: Delivery, f: Function)
      ensures Received([d], f) == if d.fn == f then [d.event] else []
    {
      assert [d][1..] == [];
    }

    /** A function for which nothing was saved before will be called as a dispatcher if it is
        one of `ds`; the others will be called as they would have been. */
    static ghost predicate FirstForm(was: map<Function, (bool, seq<Event>)>, now: map<Function, (bool, seq<Event>)>,
                                     ds: seq<Function>) {
      forall f | f in now :: now[f].0 == if f in was then was[f].0 else f in ds
    }

    method SaveForAll(ds: seq<Function>, ls: seq<Function>, e: Event)
      requires Saved(toEmit, pending)
      modifies this`toEmit, this`pending
      ensures Saved(toEmit, pending) && pending == old(pending) + (ToEach(ds, e) + ToEach(ls, e))
      ensures FirstForm(old(toEmit), toEmit, ds)
    {
      hide Saved;
      Save(ds, true, e);
      Save(ls, false, e);
      Associative(old(pending), ToEach(ds, e), ToEach(ls, e));
    }

    /** What a program whose own events call for the deliveries `ds` does: corked, they are
        added to those pending; uncorked, they are made, with all that follows from them. */
    ghost predicate Effect(wasCorked: nat, wasLog: seq<Delivery>, wasPending: seq<Delivery>,
                           ds: seq<Delivery>, n: nat)
      requires Finite(react)
      reads this
    {
      && AllBelow(ds, n) && corked == wasCorked
      && (wasCorked > 0 ==> log == wasLog && pending == wasPending + ds)
      && (wasCorked == 0 && Stateless() ==> multiset(log) == multiset(wasLog) + Total(Subs(), react, ds, n))
      && (wasCorked == 0 && Quiet() ==> Extends(log, wasLog, ds))
    }

    /** Corked, an event is saved for its subscribers; uncorked, they are called, and what
        they publish meanwhile is saved and handed over at the end. */
    method Emit(e: Event, ghost n: nat)
      requires Valid() && e.level < n
      modifies this`toEmit, this`pending, this`corked, this`log, this`inHand, this`owed, this`calls
      ensures Valid()
      ensures Effect(old(corked), old(log), old(pending), ToEach(Subs().For(e.state), e), n)
      ensures inHand == old(inHand) && old(log) <= log && old(calls) <= calls
      ensures old(owed) + ToEach(Subs().For(e.state), e) <= owed
      ensures corked > 0 ==> owed == old(owed) + ToEach(Subs().For(e.state), e)
      ensures var ds := if e.state in dispatchers then dispatchers[e.state] else [];
              var ls := if e.state in listeners then listeners[e.state] else [];
              if corked > 0 then
                calls == old(calls) && FirstForm(old(toEmit), toEmit, ds)
              else
                && old(log) + ToEach(ds, e) + ToEach(ls, e) <= log
                && old(calls) + MadeEach(ds, true, e) + MadeEach(ls, false, e) <= calls
      decreases n, 2
    {
      hide Total, Direct, Received, Saved, Finite, Regular, Balanced, Extends, Stateless, Quiet;
      var ds := if e.state in dispatchers then dispatchers[e.state] else [];
      var ls := if e.state in listeners then listeners[e.state] else [];
      ghost var each := ToEach(Subs().For(e.state), e);
      assert each == ToEach(ds, e) + ToEach(ls, e);
      Owe(log, pending, inHand, owed, each);
      owed := owed + each;
      if corked > 0 {
        SaveForAll(ds, ls, e);
        return;
      }
      ghost var rest := inHand;
      inHand := each + inHand;
      EmitNow(ds, ls, e, n, rest);
    }

    /** Calls the subscribers of an event at once. */
    method EmitNow(ds: seq<Function>, ls: seq<Function>, e: Event, ghost n: nat, ghost rest: seq<Delivery>)
      requires Valid() && corked == 0 && e.level < n && inHand == ToEach(ds + ls, e) + rest
      modifies this`toEmit, this`pending, this`corked, this`log, this`inHand, this`owed, this`calls
      ensures Valid() && corked == 0 && AllBelow(ToEach(ds + ls, e), n)
      ensures inHand == rest && old(owed) <= owed
      ensures Stateless() ==> multiset(log) == multiset(old(log)) + Total(Subs(), react, ToEach(ds + ls, e), n)
      ensures Quiet() ==> Extends(log, old(log), ToEach(ds + ls, e))
      ensures old(log) + ToEach(ds, e) + ToEach(ls, e) <= log
      ensures old(calls) + MadeEach(ds, true, e) + MadeEach(ls, false, e) <= calls
      decreases n, 1
    {
      hide Total, Direct, Received, Extends, Saved, Finite, Reactions, Regular, Balanced, Stateless;
      ghost var each, before := ToEach(ds + ls, e), log;
      assert each == ToEach(ds, e) + ToEach(ls, e);
      Associative(ToEach(ds, e), ToEach(ls, e), rest);
      Cork();
      NothingBelow(e.level);
      CallAll(ds, true, e, ToEach(ls, e) + rest);
      CallAll(ls, false, e, rest);
      AfterCalls(ds, ls, e, n);
      ghost var made, left := log, pending;
      assert Stateless() ==>
               left == Reactions(Subs(), react, ToEach(ds, e)) + Reactions(Subs(), react, ToEach(ls, e));
      assert made == before + each;
      assert multiset(made) == multiset(before) + multiset(each);
      Uncork(e.level);
      if Quiet() {
        QuietIsStateless();
        QuietReactions(ToEach(ds, e));
        QuietReactions(ToEach(ls, e));
        QuietMade(before, each, made);
      }
    }

    lemma NothingBelow(n: nat)
      ensures AllBelow([], n)
    {
    }

    lemma QuietIsSilent(fn: Function, e: Event, past: seq<Delivery>)
      ensures Quiet() ==> handler(fn, e, past) == []
    {
    }

    lemma QuietIsStateless()
      requires Valid() && Quiet()
      ensures Stateless()
    {
    }

    lemma AfterCalls(ds: seq<Function>, ls: seq<Function>, e: Event, n: nat)
      requires Finite(react) && e.level < n
      ensures var each := ToEach(ds + ls, e);
              var left := Reactions(Subs(), react, ToEach(ds, e)) + Reactions(Subs(), react, ToEach(ls, e));
              && left == Reactions(Subs(), react, each)
              && AllBelow(each, n) && AllBelow(left, e.level)
              && Total(Subs(), react, each, n) == multiset(each) + Total(Subs(), react, left, e.level)
    {
      var each := ToEach(ds + ls, e);
      assert each == ToEach(ds, e) + ToEach(ls, e);
      ReactionsConcat(Subs(), react, ToEach(ds, e), ToEach(ls, e));
      TotalUnfold(Subs(), react, each, n, e.level);
    }

    lemma QuietMade(before: seq<Delivery>, each: seq<Delivery>, made: seq<Delivery>)
      requires made == before + each && Extends(log, made, [])
      ensures Extends(log, before, each)
    {
      EndOfLog();
      MadeExactly(before, each);
    }

    lemma {:induction false} QuietReactions(ds: seq<Delivery>)
      requires Valid() && Quiet()
      ensures Reactions(Subs(), react, ds) == []
    {
      if ds != [] { QuietReactions(ds[1..]); }
    }

    /** Calls functions while corked: what they publish is saved. */
    method CallAll(fns: seq<Function>, ghost isDispatcher: bool, e: Event, ghost rest: seq<Delivery>)
      requires Valid() && corked > 0 && inHand == ToEach(fns, e) + rest
      modifies this`toEmit, this`pending, this`corked, this`log, this`inHand, this`owed, this`calls
      ensures Valid() && corked == old(corked)
      ensures log == old(log) + ToEach(fns, e) && calls == old(calls) + MadeEach(fns, isDispatcher, e)
      ensures inHand == rest && old(owed) <= owed
      ensures AllBelow(old(pending), e.level) ==> AllBelow(pending, e.level)
      ensures Stateless() ==> pending == old(pending) + Reactions(Subs(), react, ToEach(fns, e))
      decreases e.level, 5
    {
      hide Total, Direct, Received, Saved, Finite, Regular, Balanced, Stateless, Reactions;
      ghost var each, made := ToEach(fns, e), MadeEach(fns, isDispatcher, e);
      NoReactions();
      assert each[..0] == [] && old(pending) + [] == old(pending);
      for i := 0 to |fns|
        invariant Valid() && corked == old(corked)
        invariant log == old(log) + each[..i] && calls == old(calls) + made[..i]
        invariant inHand == each[i..] + rest && old(owed) <= owed
        invariant AllBelow(old(pending), e.level) ==> AllBelow(pending, e.level)
        invariant Stateless() ==> pending == old(pending) + Reactions(Subs(), react, each[..i])
      {
        NextInHand(each, i, rest);
        TakeNext(made, i);
        calls := calls + [Made(fns[i], isDispatcher, [e])];
        Call(fns[i], e);
        NextReaction(each, i, log);
        if Stateless() {
          Associative(old(pending), Reactions(Subs(), react, each[..i]), Direct(Subs(), react(fns[i], e)));
        }
      }
      assert each[..|fns|] == each && made[..|fns|] == made;
    }

    lemma NoReactions()
      ensures Reactions(Subs(), react, []) == [] && Direct(Subs(), []) == []
    {
    }

    lemma NextReaction(each: seq<Delivery>, i: nat, past: seq<Delivery>)
      requires i < |each| && Regular()
      ensures var d := each[i];
              && AllBelow(Direct(Subs(), handler(d.fn, d.event, past)), d.event.level)
              && (Stateless() ==> handler(d.fn, d.event, past) == react(d.fn, d.event))
              && Reactions(Subs(), react, each[..i + 1])
                 == Reactions(Subs(), react, each[..i]) + Direct(Subs(), react(d.fn, d.event))
    {
      var d := each[i];
      DirectBelow(Subs(), handler(d.fn, d.event, past), d.event.level);
      assert each[..i + 1] == each[..i] + [d] && [d][1..] == [];
      ReactionsConcat(Subs(), react, each[..i], [d]);
      assert Reactions(Subs(), react, [d]) == Direct(Subs(), react(d.fn, d.event)) + [];
    }

    /** A call that was made and what follows from it are what the call amounts to. */
    lemma CallMade(was: seq<Delivery>, d: Delivery, past: seq<Delivery>)
      requires Finite(react) && Regular()
      ensures AllBelow(Direct(Subs(), handler(d.fn, d.event, past)), d.event.level)
      ensures Stateless() ==>
                multiset(was + [d]) + Total(Subs(), react, Direct(Subs(), handler(d.fn, d.event, past)), d.event.level)
                == multiset(was) + One(Subs(), react, d)
    {
      hide Total, Direct;
      DirectBelow(Subs(), handler(d.fn, d.event, past), d.event.level);
      assert multiset(was + [d]) == multiset(was) + multiset{d};
    }

    static lemma NextInHand(each: seq<Delivery>, i: nat, rest: seq<Delivery>)
      requires i < |each|
      ensures each[..i + 1] == each[..i] + [each[i]]
      ensures each[i..] + rest != [] && (each[i..] + rest)[0] == each[i] && (each[i..] + rest)[1..] == each[i + 1..] + rest
    {
    }

    /** A subscribed function is called, and does what it does. */
    method Call(fn: Function, e: Event)
      requires Valid() && inHand != [] && inHand[0] == Delivery(fn, e)
      modifies this`toEmit, this`pending, this`corked, this`log, this`inHand, this`owed, this`calls
      ensures Valid() && corked == old(corked)
      ensures old(corked) > 0 ==>
                && log == old(log) + [Delivery(fn, e)]
                && pending == old(pending) + Direct(Subs(), handler(fn, e, log))
      ensures inHand == old(inHand)[1..] && old(owed) <= owed
      ensures old(corked) == 0 && Stateless() ==>
                multiset(log) == multiset(old(log)) + One(Subs(), react, Delivery(fn, e))
      ensures old(corked) == 0 && Quiet() ==> log == old(log) + [Delivery(fn, e)]
      ensures old(log) + [Delivery(fn, e)] <= log && old(calls) <= calls
      ensures corked > 0 || Quiet() ==> calls == old(calls)
      decreases e.level, 4
    {
      hide Total, Received, Saved, Finite, Regular, Balanced, Stateless, Direct, Below, One, Quiet, Extends, AllBelow;
      log := log + [Delivery(fn, e)];
      inHand := inHand[1..];
      Deliver(old(log), pending, old(inHand), owed);
      HandledBelow(fn, e, log);
      CallMade(old(log), Delivery(fn, e), log);
      QuietIsSilent(fn, e, log);
      Respond(handler(fn, e, log), e.level);
    }

    /** A function called publishes something, or nothing. */
    method Respond(cmds: seq<Command>, ghost n: nat)
      requires Valid() && Below(cmds, n)
      modifies this`toEmit, this`pending, this`corked, this`log, this`inHand, this`owed, this`calls
      ensures Valid() && inHand == old(inHand) && old(owed) <= owed
      ensures corked == old(corked) && AllBelow(Direct(Subs(), cmds), n)
      ensures corked > 0 ==> log == old(log) && pending == old(pending) + Direct(Subs(), cmds)
      ensures corked == 0 && Stateless() ==>
                multiset(log) == multiset(old(log)) + Total(Subs(), react, Direct(Subs(), cmds), n)
      ensures cmds == [] ==> log == old(log)
      ensures old(log) <= log && old(calls) <= calls && (corked > 0 || cmds == [] ==> calls == old(calls))
      decreases n, 3, cmds, 3
    {
      hide Total, Received, Saved, Finite, Regular, Balanced, Stateless, Direct, Below, Quiet, Extends;
      NoReactions();
      if cmds != [] {
        Execute(cmds, n);
      } else {
        TotalNil(Subs(), react, n);
        assert pending + [] == pending;
      }
    }

    /** Any program: emitting, corking and uncorking, nested in any way. */
    method Execute(cmds: seq<Command>, ghost n: nat)
      requires Valid() && Below(cmds, n)
      modifies this`toEmit, this`pending, this`corked, this`log, this`inHand, this`owed, this`calls
      ensures Valid()
      ensures Effect(old(corked), old(log), old(pending), Direct(Subs(), cmds), n)
      ensures inHand == old(inHand) && old(owed) <= owed
      ensures old(log) <= log && old(calls) <= calls && (corked > 0 ==> calls == old(calls))
      decreases n, 3, cmds, 1
    {
      hide Total, Received, Saved, Finite, Extends, Regular, Balanced, Stateless, Quiet;
      ghost var subs := Subs();
      DirectBelow(subs, cmds, n);
      if cmds == [] {
        TotalNil(subs, react, n);
        assert Direct(subs, cmds) == [];
        assert log + [] == log;
        MadeExactly(log, []);
        return;
      }
      assert forall c | c in cmds[1..] :: c in cmds;
      ghost var log0, pending0 := log, pending;
      ghost var first := ExecuteFirst(cmds, n);
      ghost var log1, pending1 := log, pending;
      Execute(cmds[1..], n);
      EffectTwice(old(corked), log0, pending0, log1, pending1, first, Direct(subs, cmds[1..]), n);
    }

    method ExecuteFirst(cmds: seq<Command>, ghost n: nat) returns (ghost first: seq<Delivery>)
      requires Valid() && cmds != [] && Below(cmds, n)
      modifies this`toEmit, this`pending, this`corked, this`log, this`inHand, this`owed, this`calls
      ensures Valid()
      ensures Direct(Subs(), cmds) == first + Direct(Subs(), cmds[1..])
      ensures Effect(old(corked), old(log), old(pending), first, n)
      ensures inHand == old(inHand) && old(owed) <= owed
      ensures old(log) <= log && old(calls) <= calls && (corked > 0 ==> calls == old(calls))
      decreases n, 3, cmds, 0
    {
      hide Total, Received, Saved, Finite, Extends, Regular, Balanced, Stateless, Quiet, Effect;
      assert cmds[0] in cmds;
      match cmds[0] {
        case Emit(e) =>
          first := ToEach(Subs().For(e.state), e);
          Emit(e, n);
        case Corked(body) =>
          first := Direct(Subs(), body);
          ExecuteCorked(body, n);
      }
    }

    method ExecuteCorked(body: seq<Command>, ghost n: nat)
      requires Valid() && Below(body, n)
      modifies this`toEmit, this`pending, this`corked, this`log, this`inHand, this`owed, this`calls
      ensures Valid()
      ensures Effect(old(corked), old(log), old(pending), Direct(Subs(), body), n)
      ensures inHand == old(inHand) && old(owed) <= owed
      ensures old(log) <= log && old(calls) <= calls && (corked > 0 ==> calls == old(calls))
      decreases n, 3, body, 2
    {
      hide Total, Direct, Received, Saved, Finite, Extends, Regular, Balanced, Stateless;
      DirectBelow(Subs(), body, n);
      Cork();
      Execute(body, n);
      assert old(pending) == [] ==> pending == Direct(Subs(), body);
      Uncork(n);
    }

    /** Takes one cork off; with the last one, hands everything over. */
    method Uncork(ghost n: nat)
      requires Valid() && (corked <= 1 ==> AllBelow(pending, n))
      modifies this`toEmit, this`pending, this`corked, this`log, this`inHand, this`owed, this`calls
      ensures Valid() && corked == if old(corked) > 0 then old(corked) - 1 else 0
      ensures corked > 0 ==> log == old(log) && pending == old(pending)
      ensures inHand == old(inHand) && old(owed) <= owed
      ensures corked == 0 && Stateless() ==>
                multiset(log) == multiset(old(log)) + Total(Subs(), react, old(pending), n)
      ensures corked == 0 && Quiet() ==> Extends(log, old(log), old(pending))
      ensures old(log) <= log && old(calls) <= calls && (corked > 0 ==> calls == old(calls))
      ensures corked == 0 && Quiet() ==> CalledFor(calls, old(calls), old(toEmit))
      decreases n, 1
    {
      hide Total, Direct, Received, Saved, Finite, Regular, Balanced, Stateless, Quiet, Extends, Handing, Calling, CalledFor, HandOver;
      if corked > 0 {
        corked := corked - 1;
      }
      if corked > 0 {
        return;
      }
      var saved := toEmit;
      ghost var ds := pending;
      TakeUp(log, pending, inHand, owed);
      toEmit, pending, inHand := map[], [], pending + inHand;
      NothingPending();
      ghost var subs := Subs();
      HandingBegins(log, ds);
      CallingBegins(calls, saved);
      while saved.Keys != {}
        invariant Valid() && corked == 0 && AllBelow(ds, n) && Saved(saved, ds)
        invariant inHand == ds + old(inHand) && old(owed) <= owed
        invariant Stateless() ==>
                    multiset(log) + Total(subs, react, ds, n)
                    == multiset(old(log)) + Total(subs, react, old(pending), n)
        invariant Quiet() ==> Handing(log, ds, old(log), old(pending))
        invariant old(log) <= log && old(calls) <= calls
        invariant Quiet() ==> Calling(calls, saved, old(calls), old(toEmit))
        decreases saved.Keys
      {
        var f :| f in saved;
        ghost var log0, calls0 := log, calls;
        TotalSplit(subs, react, ds, f, n);
        SavedWithout(saved, ds, f);
        SplitDeliveries(ds, f);
        Reorder(log, pending, owed, ds, To(f, saved[f].1), Without(ds, f), old(inHand));
        inHand := To(f, saved[f].1) + (Without(ds, f) + old(inHand));
        CallEach(f, saved[f].0, saved[f].1, n, Without(ds, f) + old(inHand));
        CalledOver(calls0, saved, old(calls), old(toEmit), f);
        if Handing(log0, ds, old(log), old(pending)) { HandedOver(log0, ds, old(log), old(pending), f); }
        ds := Without(ds, f);
        saved := saved - {f};
      }
      NothingSaved(saved, ds);
      TotalNil(subs, react, n);
      if Quiet() { HandingEnds(log, old(log), old(pending)); }
      CallingEnds(calls, saved, old(calls), old(toEmit));
      assert [] + old(inHand) == old(inHand);
      corked := 0;
    }

    /** Hands the events saved for one function over to it, in order. */
    method CallEach(fn: Function, isDispatcher: bool, events: seq<Event>, ghost n: nat, ghost rest: seq<Delivery>)
      requires Valid() && corked == 0 && AllBelow(To(fn, events), n) && inHand == To(fn, events) + rest
      modifies this`toEmit, this`pending, this`corked, this`log, this`inHand, this`owed, this`calls
      ensures Valid() && corked == 0
      ensures inHand == rest && old(owed) <= owed
      ensures Stateless() ==> multiset(log) == multiset(old(log)) + Total(Subs(), react, To(fn, events), n)
      ensures Quiet() ==> log == old(log) + To(fn, events)
      ensures old(log) <= log && old(calls) <= calls
      ensures Quiet() ==> calls == old(calls) + HandOver(fn, isDispatcher, events)
      decreases n, 0, 1
    {
      hide Total, Finite, Saved, Regular, Balanced, Stateless, Quiet, AllBelow;
      if isDispatcher {
        calls := calls + [Made(fn, true, events)];
      }
      TakeInTurn(fn, isDispatcher, events, n, rest);
    }

    /** A function takes events one after the other; a listener is called for each. */
    method TakeInTurn(fn: Function, isDispatcher: bool, events: seq<Event>, ghost n: nat, ghost rest: seq<Delivery>)
      requires Valid() && corked == 0 && AllBelow(To(fn, events), n) && inHand == To(fn, events) + rest
      modifies this`toEmit, this`pending, this`corked, this`log, this`inHand, this`owed, this`calls
      ensures Valid() && corked == 0
      ensures inHand == rest && old(owed) <= owed
      ensures Stateless() ==> multiset(log) == multiset(old(log)) + Total(Subs(), react, To(fn, events), n)
      ensures Quiet() ==> log == old(log) + To(fn, events)
      ensures old(log) <= log && old(calls) <= calls
      ensures Quiet() ==> calls == old(calls) + if isDispatcher then [] else MadeSingly(fn, events)
      decreases n, 0, 0
    {
      hide Total, Direct, Received, One, Saved, Finite, Regular, Balanced, Stateless, Quiet, AllBelow;
      ghost var all, subs := To(fn, events), Subs();
      NothingBelow(n);
      TotalNil(subs, react, n);
      assert all[..0] == [] && log + [] == log;
      ghost var singly := MadeSingly(fn, events);
      assert singly[..0] == [] && calls + [] == calls;
      for i := 0 to |events|
        invariant Valid() && corked == 0
        invariant AllBelow(all[..i], n)
        invariant inHand == all[i..] + rest && old(owed) <= owed
        invariant Stateless() ==> multiset(log) == multiset(old(log)) + Total(subs, react, all[..i], n)
        invariant Quiet() ==> log == old(log) + all[..i]
        invariant old(log) <= log && old(calls) <= calls
        invariant Quiet() ==> calls == if isDispatcher then old(calls) else old(calls) + singly[..i]
      {
        NextInHand(all, i, rest);
        NextTotal(subs, all, i, n);
        Associative(old(log), all[..i], [all[i]]);
        TakeNext(singly, i);
        Associative(old(calls), singly[..i], [singly[i]]);
        TakeOne(fn, isDispatcher, events[i]);
      }
      assert all[..|events|] == all && singly[..|events|] == singly;
    }

    /** What the functions with saved events will be called with. */
    static ghost function Owing(saved: map<Function, (bool, seq<Event>)>, f: Function): seq<Made> {
      if f in saved then HandOver(f, saved[f].0, saved[f].1) else []
    }

    /** Every function for which events were saved has been called for them, in its form. */
    static ghost predicate CalledFor(calls: seq<Made>, calls0: seq<Made>, saved0: map<Function, (bool, seq<Event>)>) {
      forall f :: CallsOf(calls, f) == CallsOf(calls0, f) + Owing(saved0, f)
    }

    static ghost predicate Calling(calls: seq<Made>, saved: map<Function, (bool, seq<Event>)>,
                                   calls0: seq<Made>, saved0: map<Function, (bool, seq<Event>)>) {
      forall f :: CallsOf(calls, f) + Owing(saved, f) == CallsOf(calls0, f) + Owing(saved0, f)
    }

    static lemma CallingBegins(calls: seq<Made>, saved: map<Function, (bool, seq<Event>)>)
      ensures Calling(calls, saved, calls, saved)
    {
    }

    static lemma CalledOver(calls: seq<Made>, saved: map<Function, (bool, seq<Event>)>,
                            calls0: seq<Made>, saved0: map<Function, (bool, seq<Event>)>, fn: Function)
      requires fn in saved
      ensures Calling(calls, saved, calls0, saved0) ==>
                Calling(calls + HandOver(fn, saved[fn].0, saved[fn].1), saved - {fn}, calls0, saved0)
    {
      hide CallsOf;
      var more := HandOver(fn, saved[fn].0, saved[fn].1);
      if Calling(calls, saved, calls0, saved0) {
        forall f ensures CallsOf(calls + more, f) + Owing(saved - {fn}, f) == CallsOf(calls0, f) + Owing(saved0, f) {
          assert CallsOf(calls, f) + Owing(saved, f) == CallsOf(calls0, f) + Owing(saved0, f);
          CallsOfConcat(calls, more, f);
          CallsOfOne(more, fn, f);
        }
      }
    }

    static lemma CallingEnds(calls: seq<Made>, saved: map<Function, (bool, seq<Event>)>,
                             calls0: seq<Made>, saved0: map<Function, (bool, seq<Event>)>)
      requires saved.Keys == {}
      ensures Calling(calls, saved, calls0, saved0) ==> CalledFor(calls, calls0, saved0)
    {
      if Calling(calls, saved, calls0, saved0) {
        forall f ensures CallsOf(calls, f) == CallsOf(calls0, f) + Owing(saved0, f) {
          assert CallsOf(calls, f) + Owing(saved, f) == CallsOf(calls0, f) + Owing(saved0, f);
          assert Owing(saved, f) == [];
        }
      }
    }

    method TakeOne(fn: Function, isDispatcher: bool, e: Event)
      requires Valid() && corked == 0 && inHand != [] && inHand[0] == Delivery(fn, e)
      modifies this`toEmit, this`pending, this`corked, this`log, this`inHand, this`owed, this`calls
      ensures Valid() && corked == 0 && inHand == old(inHand)[1..] && old(owed) <= owed
      ensures Stateless() ==> multiset(log) == multiset(old(log)) + One(Subs(), react, Delivery(fn, e))
      ensures Quiet() ==> log == old(log) + [Delivery(fn, e)]
      ensures old(log) <= log && old(calls) <= calls
      ensures Quiet() ==> calls == if isDispatcher then old(calls) else old(calls) + [Made(fn, false, [e])]
      decreases e.level, 5
    {
      hide Saved, Finite, Regular, Balanced, Stateless, Quiet, One;
      if !isDispatcher {
        calls := calls + [Made(fn, false, [e])];
      }
      Call(fn, e);
    }

    lemma NextTotal(subs: Subscriptions, all: seq<Delivery>, i: nat, n: nat)
      requires Finite(react) && AllBelow(all, n) && i < |all|
      ensures AllBelow(all[..i], n) && AllBelow(all[..i + 1], n) && all[i].event.level < n
      ensures Total(subs, react, all[..i + 1], n) == Total(subs, react, all[..i], n) + One(subs, react, all[i])
    {
      hide Total, One;
      assert all[i] in all;
      assert all[..i + 1] == all[..i] + [all[i]] && [all[i]] + [] == [all[i]];
      TotalNil(subs, react, n);
      TotalCons(subs, react, all[i], [], n);
      TotalConcat(subs, react, all[..i], [all[i]], n);
    }

    lemma NothingPending()
      ensures Saved(map[], [])
    {
    }

    lemma EndOfLog()
      ensures forall f :: Received([], f) == []
    {
    }

    lemma MadeExactly(before: seq<Delivery>, ds: seq<Delivery>)
      requires forall f :: Received(log, f) == Received(before + ds, f)
      ensures Extends(log, before, ds)
    {
      forall f ensures Received(log, f) == Received(before, f) + Received(ds, f) {
        ReceivedConcat(before, ds, f);
      }
    }

    lemma EffectTwice(wasCorked: nat, log0: seq<Delivery>, pending0: seq<Delivery>,
                      log1: seq<Delivery>, pending1: seq<Delivery>,
                      a: seq<Delivery>, b: seq<Delivery>, n: nat)
      requires Finite(react) && AllBelow(a, n)
      requires wasCorked > 0 ==> log1 == log0 && pending1 == pending0 + a
      requires wasCorked == 0 && Stateless() ==> multiset(log1) == multiset(log0) + Total(Subs(), react, a, n)
      requires wasCorked == 0 && Quiet() ==> Extends(log1, log0, a)
      requires Effect(wasCorked, log1, pending1, b, n)
      ensures Effect(wasCorked, log0, pending0, a + b, n)
    {
      hide Total, Direct, Received;
      TotalConcat(Subs(), react, a, b, n);
      forall f ensures Received(a + b, f) == Received(a, f) + Received(b, f) { ReceivedConcat(a, b, f); }
    }

    /** What is pending for one function and for the others is all that is pending. */
    static lemma {:induction false} SplitDeliveries(ds: seq<Delivery>, f: Function)
      ensures multiset(ds) == multiset(To(f, Received(ds, f))) + multiset(Without(ds, f))
    {
      hide Received, Without;
      if ds == [] {
        NothingSplit(f);
      } else {
        SplitDeliveries(ds[1..], f);
        SplitOne(ds, f);
        Counted(ds, To(f, Received(ds[1..], f)), Without(ds[1..], f));
      }
    }

    static lemma NothingSplit(f: Function)
      ensures To(f, Received([], f)) == [] && Without([], f) == []
    {
    }

    static lemma SplitOne(ds: seq<Delivery>, f: Function)
      requires ds != []
      ensures var a, b := To(f, Received(ds[1..], f)), Without(ds[1..], f);
              if ds[0].fn == f then To(f, Received(ds, f)) == [ds[0]] + a && Without(ds, f) == b
              else To(f, Received(ds, f)) == a && Without(ds, f) == [ds[0]] + b
    {
      assert [] + Received(ds[1..], f) == Received(ds[1..], f);
      assert [] + Without(ds[1..], f) == Without(ds[1..], f);
    }

    static lemma Counted(ds: seq<Delivery>, a: seq<Delivery>, b: seq<Delivery>)
      requires ds != [] && multiset(ds[1..]) == multiset(a) + multiset(b)
      ensures multiset(ds) == multiset([ds[0]] + a) + multiset(b) == multiset(a) + multiset([ds[0]] + b)
    {
      assert ds == [ds[0]] + ds[1..];
      assert multiset([ds[0]] + ds[1..]) == multiset{ds[0]} + multiset(ds[1..]);
      assert multiset([ds[0]] + a) == multiset{ds[0]} + multiset(a);
      assert multiset([ds[0]] + b) == multiset{ds[0]} + multiset(b);
    }

    lemma SavedWithout(saved: map<Function, (bool, seq<Event>)>, ds: seq<Delivery>, fn: Function)
      requires Saved(saved, ds) && fn in saved
      ensures Saved(saved - {fn}, Without(ds, fn)) && saved[fn].1 == Received(ds, fn)
    {
      hide Received, Without;
      assert if fn in saved then saved[fn].1 == Received(ds, fn) else Received(ds, fn) == [];
      forall f ensures
        if f in saved - {fn} then (saved - {fn})[f].1 == Received(Without(ds, fn), f)
        else Received(Without(ds, fn), f) == []
      {
        ReceivedWithout(ds, fn, f);
        assert if f in saved then saved[f].1 == Received(ds, f) else Received(ds, f) == [];
      }
    }

    /** What was delivered and what is still to be is what was delivered and pending. */
    static ghost predicate Handing(log: seq<Delivery>, ds: seq<Delivery>, log0: seq<Delivery>, ds0: seq<Delivery>) {
      forall f :: Received(log, f) + Received(ds, f) == Received(log0, f) + Received(ds0, f)
    }

    static lemma HandedOver(log: seq<Delivery>, ds: seq<Delivery>, log0: seq<Delivery>, ds0: seq<Delivery>, fn: Function)
      requires Handing(log, ds, log0, ds0)
      ensures Handing(log + To(fn, Received(ds, fn)), Without(ds, fn), log0, ds0)
    {
      hide Received, Without;
      var one := To(fn, Received(ds, fn));
      forall f ensures Received(log + one, f) + Received(Without(ds, fn), f) == Received(log0, f) + Received(ds0, f) {
        ReceivedConcat(log, one, f);
        ReceivedTo(fn, Received(ds, fn), f);
        ReceivedWithout(ds, fn, f);
      }
    }

    static lemma HandingBegins(log: seq<Delivery>, ds: seq<Delivery>)
      ensures Handing(log, ds, log, ds)
    {
    }

    static lemma HandingEnds(log: seq<Delivery>, log0: seq<Delivery>, ds0: seq<Delivery>)
      requires Handing(log, [], log0, ds0)
      ensures Extends(log, log0, ds0)
    {
      forall f ensures Received(log, f) == Received(log0, f) + Received(ds0, f) {
        assert Received(log, f) + Received([], f) == Received(log, f);
      }
    }

    lemma NothingSaved(saved: map<Function, (bool, seq<Event>)>, ds: seq<Delivery>)
      requires Saved(saved, ds) && saved.Keys == {}
      ensures ds == []
    {
      var f := if ds == [] then 0 else ds[0].fn;
      assert f !in saved;
      assert Received(ds, f) == [];
    }
  }
}
