/** A client of the message bus: what it sends before it is registered waits, what it sends
    afterwards is stamped with a number of its own, and answers find the caller. */
module BusClient {
  import opened Bytes

  datatype Kind = ConnectionRequest | MethodCall | Other

  const NO_MESSAGE_ID := "<no messageId>"

  /** The id of a stamped message. */
  function Id(sessionId: string, count: nat): string {
    sessionId + ":" + Decimal(count)
  }

  /** An id tells which session numbered the message, and which number it gave. */
  lemma {:induction false} IdInjective(s: string, c: nat, t: string, d: nat)
    requires Id(s, c) == Id(t, d)
    ensures s == t && c == d
  {
    var x, y, id := Decimal(c), Decimal(d), Id(s, c);
    assert id[|s|] == ':' && id[|t|] == ':';
    forall i | |s| < i < |id| ensures id[i] != ':' { assert id[i] == x[i - |s| - 1] && id[i] in x; }
    forall i | |t| < i < |id| ensures id[i] != ':' { assert id[i] == y[i - |t| - 1] && id[i] in y; }
    assert s == id[..|s|] == t;
    assert x == id[|s| + 1..] == y;
    DecimalRoundTrip(c);
    DecimalRoundTrip(d);
  }

  lemma IdsLookLikeThis()
    ensures Id("s", 7) == "s:7" && Id("", 10) == ":10"
  {
    assert Decimal(7) == "7";
    assert Decimal(1) == "1" && Decimal(10) == "10";
  }

  lemma IdIsNotMissing(s: string, c: nat)
    ensures Id(s, c) != NO_MESSAGE_ID
  {
    var id := Id(s, c);
    assert id[|id| - 1] in Decimal(c);
    assert NO_MESSAGE_ID[|NO_MESSAGE_ID| - 1] == '>';
  }

  /** A message to send; it is stamped in place. */
  class Message {
    const kind: Kind
    const text: string
    var messageId: string
    var sessionId: string
    /** The number it was stamped with; 0 as long as it is not. */
    ghost var number: nat

    constructor (kind: Kind, text: string)
      ensures this.kind == kind && this.text == text && New()
    {
      this.kind, this.text := kind, text;
      messageId, sessionId, number := NO_MESSAGE_ID, "<no sessionId>", 0;
    }

    ghost predicate New()
      reads this
    {
      messageId == NO_MESSAGE_ID && number == 0
    }

    ghost predicate Stamped()
      reads this
    {
      number > 0 && messageId == Id(sessionId, number)
    }
  }

  /** The messages of the application, as opposed to those that set up the connection. */
  ghost function Apps(ms: seq<Message>): seq<Message> {
    if ms == [] then [] else
      (if ms[0].kind == ConnectionRequest then [] else [ms[0]]) + Apps(ms[1..])
  }

  lemma {:induction false} AppsSnoc(ms: seq<Message>, m: Message)
    ensures Apps(ms + [m]) == Apps(ms) + if m.kind == ConnectionRequest then [] else [m]
  {
    if ms != [] {
      AppsSnoc(ms[1..], m);
      assert (ms + [m])[1..] == ms[1..] + [m];
    }
  }

  class Session {
    /** Empty before the client is registered. */
    var sessionId: string
    var count: nat
    var outMessages: seq<Message>
    /** What was handed to the message processor, in order. */
    var sent: seq<Message>
    /** The application's messages, in the order it sent them. */
    ghost var asked: seq<Message>
    ghost var all: set<Message>

    constructor ()
      ensures Valid() && sessionId == "" && count == 1 && sent == [] && asked == [] && all == {}
    {
      sessionId, count, outMessages, sent, asked, all := "", 1, [], [], [], {};
    }

    /** The session's state, with the messages in `waiting` still to be handed over. */
    ghost predicate ValidWith(waiting: seq<Message>)
      reads this`count, this`sent, this`asked, this`all, all
    {
      count >= 1 && Ordered(sent, waiting, asked, all) && Numbered(sent, waiting, all, count) && Increasing(sent, all)
    }

    /** Nothing is lost or reordered. */
    static ghost predicate Ordered(sent: seq<Message>, waiting: seq<Message>, asked: seq<Message>, all: set<Message>) {
      && (forall m | m in sent :: m in all) && (forall m | m in waiting :: m in all && m !in sent)
      && (forall i, j | 0 <= i < j < |waiting| :: waiting[i] != waiting[j])
      && Apps(sent) + waiting == asked
    }

    /** What was handed over is stamped, but for connection requests; what waits is not. */
    static ghost predicate Numbered(sent: seq<Message>, waiting: seq<Message>, all: set<Message>, count: nat)
      reads all
    {
      && (forall m | m in all :: (m.New() || m.Stamped()) && m.number < count)
      && (forall m | m in sent && m in all :: m.number > 0 || m.kind == ConnectionRequest)
      && (forall m | m in waiting && m in all :: m.number == 0 && m.kind != ConnectionRequest)
    }

    static ghost predicate Increasing(sent: seq<Message>, all: set<Message>)
      reads all
    {
      && (forall i | 0 <= i < |sent| :: sent[i] in all)
      && (forall i, j | 0 <= i < j < |sent| :: sent[j].number == 0 || sent[i].number < sent[j].number)
    }

    ghost predicate Valid()
      reads this, all
    {
      ValidWith(outMessages) && (sessionId != "" ==> outMessages == [])
    }

    /** What the send queue looks like at any time: the application's messages in the order
        they were sent, each with an id of its own, in increasing order; only connection
        requests have none. */
    lemma InOrderOnce()
      requires Valid()
      ensures Apps(sent) + outMessages == asked
      ensures forall m | m in sent :: m.Stamped() || m.kind == ConnectionRequest
      ensures forall i, j | 0 <= i < j < |sent| && sent[i].number > 0 && sent[j].number > 0 ::
                sent[i].number < sent[j].number && sent[i].messageId != sent[j].messageId
    {
      hide Id, Apps;
      forall i, j | 0 <= i < j < |sent| && sent[i].number > 0 && sent[j].number > 0
        ensures sent[i].number < sent[j].number && sent[i].messageId != sent[j].messageId
      {
        var a, b := sent[i], sent[j];
        if a.messageId == b.messageId { SameNumber(a, b); }
      }
    }

    static lemma SameNumber(a: Message, b: Message)
      requires a.Stamped() && b.Stamped() && a.messageId == b.messageId
      ensures a.number == b.number
    {
      var i, j: nat := a.number, b.number;
      var s, t :| a.messageId == Id(s, i) && b.messageId == Id(t, j);
      IdInjective(s, i, t, j);
    }

    method Stamp(m: Message)
      modifies this`count, m
      ensures count == old(count) + 1
      ensures m.messageId == Id(sessionId, old(count)) && m.sessionId == sessionId && m.number == old(count)
    {
      m.messageId, m.sessionId, m.number := Id(sessionId, count), sessionId, count;
      count := count + 1;
    }

    /** Stamps a message and hands it over, while those in `rest` wait. */
    method Pass(m: Message, ghost rest: seq<Message>)
      requires count >= 1 && m in all && m.New() && m !in sent && m !in rest
      requires Ordered(sent + [m], rest, asked, all) && Numbered(sent, rest, all, count) && Increasing(sent, all)
      modifies this`count, this`sent, m
      ensures ValidWith(rest) && count == old(count) + 1 && sent == old(sent) + [m]
      ensures m.Stamped() && m.sessionId == sessionId && m.number == old(count)
    {
      hide Apps, Id, Ordered;
      Stamp(m);
      sent := sent + [m];
    }

    static lemma FirstGoes(sent: seq<Message>, waiting: seq<Message>, asked: seq<Message>, all: set<Message>)
      requires Ordered(sent, waiting, asked, all) && waiting != []
      ensures waiting[0] in all && waiting[0] !in sent
      ensures forall m | m in waiting[1..] :: m in waiting && m in all && m != waiting[0]
      ensures waiting[0].kind != ConnectionRequest ==>
                Ordered(sent + [waiting[0]], waiting[1..], asked, all)
    {
      hide Apps;
      AppsSnoc(sent, waiting[0]);
      assert Apps(sent) + waiting == Apps(sent) + [waiting[0]] + waiting[1..];
    }

    static lemma AllWait(sent: seq<Message>, waiting: seq<Message>, asked: seq<Message>, all: set<Message>)
      requires Ordered(sent, waiting, asked, all)
      ensures forall i | 0 <= i < |waiting| :: waiting[i] in all
      ensures forall i, j | 0 <= i < j < |waiting| :: waiting[i] != waiting[j]
    {
    }

    /** A new message: it waits, or it is a connection request that goes out as it is. */
    static lemma OneMore(sent: seq<Message>, waiting: seq<Message>, asked: seq<Message>, all: set<Message>, m: Message)
      requires Ordered(sent, waiting, asked, all) && m !in all
      ensures m !in sent && m !in waiting
      ensures Ordered(sent, waiting + [m], asked + [m], all + {m})
      ensures m.kind == ConnectionRequest ==> Ordered(sent + [m], waiting, asked, all + {m})
      ensures waiting == [] ==> Ordered(sent + [m], [], asked + if m.kind == ConnectionRequest then [] else [m], all + {m})
    {
      hide Apps;
      AppsSnoc(sent, m);
      assert Apps(sent) + (waiting + [m]) == Apps(sent) + waiting + [m];
      if m.kind == ConnectionRequest { assert Apps(sent + [m]) == Apps(sent); }
    }

    method SendMessage(m: Message)
      requires Valid() && m !in all && m.New()
      modifies this`count, this`sent, this`outMessages, this`asked, this`all, m
      ensures Valid() && all == old(all) + {m}
      ensures asked == old(asked) + if m.kind == ConnectionRequest then [] else [m]
      ensures if sessionId == "" then
                && m.New() && count == old(count)
                && (if m.kind == ConnectionRequest then sent == old(sent) + [m] && outMessages == old(outMessages)
                    else sent == old(sent) && outMessages == old(outMessages) + [m])
              else
                && m.Stamped() && m.sessionId == sessionId && m.number == old(count)
                && count == old(count) + 1 && sent == old(sent) + [m] && outMessages == old(outMessages)
    {
      hide Apps, Id, Ordered, Numbered, Increasing;
      OneMore(sent, outMessages, asked, all, m);
      assert asked + [] == asked && [] + [m] == [m];
      NumberedOneMore(sent, outMessages, all, count, m);
      all := all + {m};
      if m.kind != ConnectionRequest {
        asked := asked + [m];
      }
      if sessionId == "" && m.kind != ConnectionRequest {
        outMessages := outMessages + [m];
      } else if sessionId != "" {
        Pass(m, []);
      } else {
        sent := sent + [m];
      }
    }

    static lemma NumberedOneMore(sent: seq<Message>, waiting: seq<Message>, all: set<Message>, count: nat, m: Message)
      requires Numbered(sent, waiting, all, count) && Increasing(sent, all) && count >= 1
      requires m !in all && m.New() && m !in sent && m !in waiting
      ensures Numbered(sent, waiting, all + {m}, count) && Increasing(sent, all + {m})
      ensures m.kind != ConnectionRequest ==> Numbered(sent, waiting + [m], all + {m}, count)
      ensures m.kind == ConnectionRequest ==> Numbered(sent + [m], waiting, all + {m}, count) && Increasing(sent + [m], all + {m})
    {
    }

    static lemma NumberedRest(sent: seq<Message>, waiting: seq<Message>, all: set<Message>, count: nat)
      requires Numbered(sent, waiting, all, count) && waiting != [] && waiting[0] in all
      ensures Numbered(sent, waiting[1..], all, count) && waiting[0].New() && waiting[0].kind != ConnectionRequest
    {
    }

    /** Registration: everything that waited is sent, in order. With an empty id and messages
        waiting, the source's loop would not end. */
    method Register(id: string)
      requires Valid() && (id != "" || outMessages == [])
      modifies this`sessionId, this`count, this`sent, this`outMessages, all
      ensures Valid() && sessionId == id && outMessages == []
      ensures sent == old(sent) + old(outMessages) && count == old(count) + |old(outMessages)|
      ensures forall i | 0 <= i < |old(outMessages)| ::
                old(outMessages)[i].Stamped() && old(outMessages)[i].number == old(count) + i
      ensures forall m | m in all ::
                m.messageId == old(m.messageId) || (m.Stamped() && m.number >= old(count))
    {
      hide Apps, Id, Ordered, Numbered, Increasing;
      sessionId := id;
      SendWaiting();
      outMessages := [];
    }

    method SendWaiting()
      requires ValidWith(outMessages)
      modifies this`count, this`sent, all
      ensures ValidWith([])
      ensures sent == old(sent) + outMessages && count == old(count) + |outMessages|
      ensures forall i | 0 <= i < |outMessages| ::
                outMessages[i].Stamped() && outMessages[i].number == old(count) + i
      ensures forall m | m in all ::
                m.messageId == old(m.messageId) || (m.Stamped() && m.number >= old(count))
    {
      hide Apps, Id, Ordered, Numbered, Increasing;
      var n := |outMessages|;
      AllWait(sent, outMessages, asked, all);
      assert outMessages[0..] == outMessages;
      for i := 0 to n
        invariant ValidWith(outMessages[i..])
        invariant sent == old(sent) + outMessages[..i] && count == old(count) + i
        invariant forall j | 0 <= j < i :: outMessages[j].Stamped() && outMessages[j].number == old(count) + j
        invariant forall m | m in all ::
                    m.messageId == old(m.messageId) || (m.Stamped() && m.number >= old(count))
      {
        NextWaits(outMessages, i);
        FirstGoes(sent, outMessages[i..], asked, all);
        NumberedRest(sent, outMessages[i..], all, count);
        Pass(outMessages[i], outMessages[i + 1..]);
      }
      assert outMessages[..n] == outMessages && outMessages[n..] == [];
    }

    static lemma NextWaits(waiting: seq<Message>, i: nat)
      requires i < |waiting|
      ensures waiting[i..] != [] && waiting[i..][0] == waiting[i] && waiting[i..][1..] == waiting[i + 1..]
      ensures waiting[..i + 1] == waiting[..i] + [waiting[i]]
    {
    }
  }

  // ---- calls and their answers ----

  /** A function given to receive an answer, by identity. */
  type Callback = nat

  /** A message received. */
  datatype Incoming =
    | Connected(sessionId: string)
    | Response(responseTo: string, final: bool, value: string)
    | Call(text: string)
    | Plain(text: string)

  /** What a callback does: it calls other methods, and then returns or raises. */
  datatype Reaction = Reaction(calls: seq<(string, Callback)>, raises: bool)

  datatype Handled = Handled(taker: Callback, message: Incoming)

  class Client {
    const session: Session
    const react: (Callback, Incoming) -> Reaction
    var callbacks: map<string, Callback>
    /** What no callback received: it goes to the dispatcher. */
    var messages: seq<Incoming>
    /** The calls handed to the local methods. */
    var localCalls: seq<Incoming>
    /** The calls made while registered, by message id. */
    ghost var made: map<string, Callback>
    /** The messages of the calls made before. */
    ghost var deferred: set<Message>
    /** The answers callbacks have dealt with. */
    ghost var handled: seq<Handled>

    constructor (react: (Callback, Incoming) -> Reaction)
      ensures Valid() && fresh(session) && session.sessionId == "" && this.react == react
      ensures callbacks == map[] && handled == [] && messages == [] && localCalls == []
    {
      this.react := react;
      session := new Session();
      callbacks, messages, localCalls, made, deferred, handled := map[], [], [], map[], {}, [];
    }

    /** `id` was given to a message, with a number below the present count. */
    static ghost predicate Given(id: string, count: nat) {
      exists s, c: nat :: c < count && id == Id(s, c)
    }

    static lemma NotGivenYet(s: string, count: nat)
      ensures !Given(Id(s, count), count) && Given(Id(s, count), count + 1) && Id(s, count) != NO_MESSAGE_ID
    {
      IdIsNotMissing(s, count);
      forall t, d: nat | d < count ensures Id(t, d) != Id(s, count) {
        if Id(t, d) == Id(s, count) { IdInjective(t, d, s, count); }
      }
    }

    /** Callbacks are those of the calls made while registered and not yet answered for
        good, and one for all the calls made before. */
    static ghost predicate Registry(callbacks: map<string, Callback>, made: map<string, Callback>, count: nat) {
      && (forall id | id in made :: Given(id, count) && id != NO_MESSAGE_ID)
      && (forall id | id in callbacks && id != NO_MESSAGE_ID :: id in made && callbacks[id] == made[id])
    }

    /** The calls made too early have no callback under the ids they are sent with. */
    static ghost predicate Deaf(made: map<string, Callback>, deferred: set<Message>, all: set<Message>)
      reads all
    {
      deferred <= all && forall m | m in deferred && m in all :: m.messageId !in made
    }

    /** An answer that was dealt with and is the last one. */
    ghost predicate Finished(h: Handled) {
      h.message.Response? && h.message.final && !react(h.taker, h.message).raises && h.message.responseTo != NO_MESSAGE_ID
    }

    ghost predicate Closed(handled: seq<Handled>, id: string) {
      exists h :: h in handled && Finished(h) && h.message.responseTo == id
    }

    /** Answers went to those who made the calls, and none came after the last one. */
    ghost predicate Once(handled: seq<Handled>, callbacks: map<string, Callback>, made: map<string, Callback>) {
      && (forall h | h in handled :: h.message.Response?)
      && (forall h | h in handled && h.message.responseTo != NO_MESSAGE_ID ::
            h.message.responseTo in made && made[h.message.responseTo] == h.taker)
      && (forall h | h in handled && Finished(h) :: h.message.responseTo !in callbacks)
      && (forall id | id in made :: id in callbacks || Closed(handled, id))
      && (forall i, j | 0 <= i < j < |handled| && Finished(handled[i]) ::
            handled[j].message.responseTo != handled[i].message.responseTo)
    }

    ghost predicate Valid()
      reads this, session, session.all
    {
      && session.Valid() && Registry(callbacks, made, session.count)
      && Deaf(made, deferred, session.all) && Once(handled, callbacks, made)
    }

    static lemma RegistryStep(callbacks: map<string, Callback>, made: map<string, Callback>, count: nat, id: string, callback: Callback)
      requires Registry(callbacks, made, count)
      ensures Registry(callbacks[NO_MESSAGE_ID := callback], made, count)
      ensures forall more: nat | more >= count :: Registry(callbacks, made, more)
      ensures id !in made && Given(id, count + 1) && id != NO_MESSAGE_ID ==>
                Registry(callbacks[id := callback], made[id := callback], count + 1)
    {
      forall more: nat, i | more >= count && i in made ensures Given(i, more) {
        var s, c: nat :| c < count && i == Id(s, c);
        assert c < more;
      }
    }

    lemma NotMade(id: string)
      requires Valid() && !Given(id, session.count)
      ensures id !in made && NO_MESSAGE_ID !in made
      ensures forall m | m in session.all :: m.messageId != id || id == NO_MESSAGE_ID
    {
      forall m | m in session.all ensures m.messageId != id || id == NO_MESSAGE_ID {
        if m.Stamped() { assert Given(m.messageId, session.count); }
      }
    }

    lemma OnceStep(id: string, callback: Callback)
      requires Once(handled, callbacks, made) && id !in made && id != NO_MESSAGE_ID
      ensures Once(handled, callbacks[id := callback], made[id := callback])
      ensures Once(handled, callbacks[NO_MESSAGE_ID := callback], made)
    {
    }

    /** What never changes: whose call it was, and that a call answered for good is. */
    twostate predicate Settled()
      reads this
    {
      forall id | id in old(made) ::
        && id in made && made[id] == old(made)[id]
        && (id !in old(callbacks) ==> id !in callbacks)
    }

    /** The messages of these calls. */
    static ghost predicate Asks(asked: seq<Message>, calls: seq<(string, Callback)>) {
      |asked| == |calls| && forall i | 0 <= i < |asked| :: asked[i].kind == MethodCall && asked[i].text == calls[i].0
    }

    /** Their callbacks: under the ids of the messages, once the client is registered. */
    ghost predicate Filed(asked: seq<Message>, calls: seq<(string, Callback)>)
      requires |asked| == |calls|
      reads this`made, this`deferred, session`sessionId, asked
    {
      forall i | 0 <= i < |asked| ::
        if session.sessionId == "" then asked[i] in deferred
        else asked[i].messageId in made && made[asked[i].messageId] == calls[i].1
    }

    /** Calls a method of another client. */
    method CallRemoteMethod(text: string, callback: Callback) returns (m: Message)
      requires Valid()
      modifies this`callbacks, this`made, this`deferred
      modifies session`count, session`sent, session`outMessages, session`asked, session`all
      ensures Valid() && Settled() && fresh(m) && m.kind == MethodCall && m.text == text
      ensures session.asked == old(session.asked) + [m]
      ensures session.all == old(session.all) + {m}
      ensures if session.sessionId == "" then
                && callbacks == old(callbacks)[NO_MESSAGE_ID := callback]
                && made == old(made) && deferred == old(deferred) + {m}
              else
                && m.messageId !in old(made) && m.messageId != NO_MESSAGE_ID
                && callbacks == old(callbacks)[m.messageId := callback]
                && made == old(made)[m.messageId := callback] && deferred == old(deferred)
    {
      hide Registry, Once, Id, Given, Session.Valid;
      m := new Message(MethodCall, text);
      NotGivenYet(session.sessionId, session.count);
      RegistryStep(callbacks, made, session.count, Id(session.sessionId, session.count), callback);
      NotMade(Id(session.sessionId, session.count));
      OnceStep(Id(session.sessionId, session.count), callback);
      session.SendMessage(m);
      callbacks := callbacks[m.messageId := callback];
      if session.sessionId == "" {
        deferred := deferred + {m};
      } else {
        made := made[m.messageId := callback];
      }
    }

    /** A message comes in: a registration, a call, an answer, or anything else. */
    method HandleMessage(m: Incoming) returns (ghost asked: seq<Message>)
      requires Valid() && (m.Connected? ==> m.sessionId != "" || session.outMessages == [])
      modifies this`callbacks, this`made, this`deferred, this`handled, this`messages, this`localCalls
      modifies session, session.all
      ensures Valid() && Settled() && old(session.all) <= session.all
      ensures session.asked == old(session.asked) + asked
      ensures if m.Response? && m.responseTo in old(callbacks) then
                var calls := react(old(callbacks)[m.responseTo], m).calls;
                Asks(asked, calls) && Filed(asked, calls)
              else asked == []
      ensures m.Connected? ==>
                && session.sessionId == m.sessionId && session.outMessages == []
                && session.sent == old(session.sent) + old(session.outMessages)
                && callbacks == old(callbacks) && handled == old(handled) && messages == old(messages) + [m]
      ensures !m.Connected? ==> session.sessionId == old(session.sessionId)
      ensures m.Response? && m.responseTo in old(callbacks) ==>
                && handled == old(handled) + [Handled(old(callbacks)[m.responseTo], m)]
                && messages == old(messages)
                && (m.responseTo in callbacks <==> !m.final || react(old(callbacks)[m.responseTo], m).raises)
      ensures localCalls == if m.Call? then old(localCalls) + [m] else old(localCalls)
      ensures m.Call? ==> messages == old(messages) && handled == old(handled) && callbacks == old(callbacks)
      ensures m.Plain? || (m.Response? && m.responseTo !in old(callbacks)) ==>
                && messages == old(messages) + [m] && handled == old(handled) && callbacks == old(callbacks)
    {
      hide Registry, Once, Id, Given, Session.Valid, Deaf, Closed;
      asked := [];
      if m.Connected? {
        Register(m.sessionId);
        messages := messages + [m];
      } else if m.Call? {
        localCalls := localCalls + [m];
      } else if m.Response? && m.responseTo in callbacks {
        asked := Take(m);
      } else {
        messages := messages + [m];
      }
    }

    method Register(id: string)
      requires Valid() && (id != "" || session.outMessages == [])
      modifies session`sessionId, session`count, session`sent, session`outMessages, session.all
      ensures Valid() && session.sessionId == id && session.outMessages == []
      ensures session.sent == old(session.sent) + old(session.outMessages)
      ensures session.all == old(session.all)
    {
      hide Registry, Once, Id, Closed, Session.ValidWith;
      RegistryStep(callbacks, made, session.count, "", 0);
      LateIds(callbacks, made, session.count);
      session.Register(id);
    }

    static lemma LateIds(callbacks: map<string, Callback>, made: map<string, Callback>, count: nat)
      requires Registry(callbacks, made, count)
      ensures forall s, n: nat | n >= count :: Id(s, n) !in made
    {
      forall s, n: nat | n >= count ensures Id(s, n) !in made {
        if Id(s, n) in made {
          var t, c: nat :| c < count && Id(s, n) == Id(t, c);
          IdInjective(s, n, t, c);
        }
      }
    }

    /** An answer is given to the callback of its call, which makes calls of its own. */
    method Take(m: Incoming) returns (ghost asked: seq<Message>)
      requires Valid() && m.Response? && m.responseTo in callbacks
      modifies this`callbacks, this`made, this`deferred, this`handled
      modifies session`count, session`sent, session`outMessages, session`asked, session`all
      ensures Valid() && Settled() && old(session.all) <= session.all
      ensures handled == old(handled) + [Handled(old(callbacks)[m.responseTo], m)]
      ensures var calls := react(old(callbacks)[m.responseTo], m).calls;
              session.asked == old(session.asked) + asked && Asks(asked, calls) && Filed(asked, calls)
      ensures m.responseTo in callbacks <==> !m.final || react(old(callbacks)[m.responseTo], m).raises
    {
      hide Registry, Once, Id, Given, Session.Valid, Deaf, Closed;
      var callback := callbacks[m.responseTo];
      var reaction := react(callback, m);
      InMade(m.responseTo);
      asked := MakeCalls(reaction.calls);
      Dealt(Handled(callback, m));
      handled := handled + [Handled(callback, m)];
      if m.final && !reaction.raises {
        callbacks := callbacks - {m.responseTo};
      }
    }

    /** The calls that a callback makes, one after the other. */
    method MakeCalls(calls: seq<(string, Callback)>) returns (ghost asked: seq<Message>)
      requires Valid()
      modifies this`callbacks, this`made, this`deferred
      modifies session`count, session`sent, session`outMessages, session`asked, session`all
      ensures Valid() && Settled() && old(session.all) <= session.all
      ensures session.asked == old(session.asked) + asked && Asks(asked, calls) && Filed(asked, calls)
      ensures forall id | id in old(callbacks) ::
                id in callbacks && (id in old(made) && id != NO_MESSAGE_ID ==> callbacks[id] == old(callbacks)[id])
    {
      hide Registry, Once, Id, Given, Session.Valid, Deaf, Closed;
      asked := [];
      for i := 0 to |calls|
        invariant Valid() && Settled() && old(session.all) <= session.all
        invariant session.asked == old(session.asked) + asked
        invariant Asks(asked, calls[..i]) && Filed(asked, calls[..i])
        invariant forall id | id in old(callbacks) ::
                    id in callbacks && (id in old(made) && id != NO_MESSAGE_ID ==> callbacks[id] == old(callbacks)[id])
      {
        var sent := CallRemoteMethod(calls[i].0, calls[i].1);
        asked := asked + [sent];
      }
      assert calls[..|calls|] == calls;
    }

    lemma InMade(id: string)
      requires Valid() && id in callbacks
      ensures id != NO_MESSAGE_ID ==> id in made
    {
    }

    lemma Dealt(h: Handled)
      requires Valid() && h.message.Response? && h.message.responseTo in callbacks
      requires h.message.responseTo != NO_MESSAGE_ID ==> callbacks[h.message.responseTo] == h.taker
      ensures var now := if h.message.final && !react(h.taker, h.message).raises then callbacks - {h.message.responseTo} else callbacks;
              Registry(now, made, session.count) && Once(handled + [h], now, made)
    {
    }

    /** Exactly the calls made while registered can still be answered, until the last answer. */
    lemma WhoHears(m: Message)
      requires Valid() && m in session.all && m.Stamped()
      ensures m.messageId in callbacks <==> m.messageId in made && !Closed(handled, m.messageId)
      ensures m in deferred ==> m.messageId !in callbacks
    {
      IdIsNotMissing(m.sessionId, m.number);
    }

    /** A callback that always raises keeps its entry for ever. */
    lemma RaisingStays(id: string)
      requires Valid() && id in made && forall m :: react(made[id], m).raises
      ensures id in callbacks && callbacks[id] == made[id]
    {
    }
  }
}
