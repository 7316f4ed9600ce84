/** The message processor of a bus connection, and what two of them achieve over a socket:
    every message queued at one end is handed out at the other, once and in order,
    however the bytes are cut and the calls interleaved. */
module MessageBus {
  import opened Wrappers
  import opened Bytes
  import opened Headers
  import opened FrameParts
  import opened Envelopes
  import opened Progress

  datatype Message = Message(headers: HeaderMap, payload: string)

  /** Builds the received message; its headers become attributes, which must be strings. */
  function ExtractMessage(h: HeaderMap, payload: string): Result<Message, ReadError> {
    if "messageType" !in h then Err(NoMessageType)
    else if exists k :: k in h && h[k].Many? then Err(ListHeader)
    else Ok(Message(h, payload))
  }

  /** A message is built exactly when it has a type and no header came twice; it keeps
      headers and payload as they are. */
  lemma ExtractedExactly(h: HeaderMap, payload: string)
    ensures ExtractMessage(h, payload).Ok? <==> "messageType" in h.Keys && forall k | k in h :: |Items(h[k])| == 1 && h[k].One?
    ensures ExtractMessage(h, payload).Ok? ==> ExtractMessage(h, payload).value == Message(h, payload)
    ensures "messageType" !in h ==> ExtractMessage(h, payload) == Err(NoMessageType)
  {
  }

  /** `s` is a whole frame, from which `m` is extracted. */
  ghost predicate HandsOut(s: string, m: Result<Message, ReadError>) {
    exists l, h, payload :: IsFrame(s, l, h, payload) && m == ExtractMessage(h, payload)
  }

  class MessageProcessor {
    /** The contents of the queued envelopes. */
    var messageQueue: seq<Message>
    var partialReadEnvelope: Envelope?
    var partialWriteEnvelope: EnvelopeWriter?

    constructor ()
      ensures Valid() && messageQueue == []
      ensures partialReadEnvelope == null && partialWriteEnvelope == null
    {
      messageQueue := [];
      partialReadEnvelope, partialWriteEnvelope := null, null;
    }

    ghost function ReadSide(): set<object>
      reads this`partialReadEnvelope
    {
      if partialReadEnvelope == null then {} else partialReadEnvelope.Repr()
    }

    ghost function WriteSide(): set<object>
      reads this`partialWriteEnvelope
    {
      if partialWriteEnvelope == null then {} else
        {partialWriteEnvelope} + partialWriteEnvelope.envelope.Repr()
    }

    ghost predicate Valid()
      reads this, ReadSide(), WriteSide()
    {
      && ReadSide() !! WriteSide()
      && (forall m | m in messageQueue :: Frameable(m.headers, m.payload))
      && (partialReadEnvelope != null ==> partialReadEnvelope.Valid() && !partialReadEnvelope.Idle())
      && (partialWriteEnvelope != null ==>
            && partialWriteEnvelope.Valid() && partialWriteEnvelope.Fits()
            && partialWriteEnvelope.Supplied() && !partialWriteEnvelope.done
            && partialWriteEnvelope.Remaining() != "")
    }

    /** The bytes of the message being sent that the socket has not yet accepted. */
    ghost function Unsent(): string
      requires Valid()
      reads this, ReadSide(), WriteSide()
    {
      if partialWriteEnvelope == null then "" else partialWriteEnvelope.Remaining()
    }

    /** What is left of the message to be sent next. */
    ghost function First(): string
      requires Valid()
      reads this, ReadSide(), WriteSide()
    {
      if partialWriteEnvelope != null then partialWriteEnvelope.Remaining()
      else if messageQueue == [] then "" else WireOne(messageQueue[0])
    }

    /** How many bytes the reader asks for next. */
    ghost function Wants(): int
      requires Valid()
      reads this, ReadSide(), WriteSide()
    {
      if partialReadEnvelope == null then LEAD_SIZE else partialReadEnvelope.Want()
    }

    /** All the bytes queued that the socket has not yet accepted. */
    ghost function Pending(): string
      requires Valid()
      reads this, ReadSide(), WriteSide()
    {
      Unsent() + Wire(messageQueue)
    }

    /** The bytes received that belong to no message handed out so far. */
    ghost function Received(): string
      reads this, ReadSide()
    {
      if partialReadEnvelope == null then "" else partialReadEnvelope.consumed
    }

    /** The message being read has announced no payload, and its headers are complete. */
    predicate StuckWithoutPayload()
      reads this, ReadSide()
    {
      && partialReadEnvelope != null && partialReadEnvelope.AwaitsPayload()
      && partialReadEnvelope.lead.msgPayloadSize == 0
    }

    predicate HasData()
      reads this
    {
      messageQueue != [] || partialWriteEnvelope != null
    }

    method SendMessage(m: Message)
      requires Valid() && Frameable(m.headers, m.payload)
      modifies this`messageQueue
      ensures Valid() && messageQueue == old(messageQueue) + [m]
      ensures Unsent() == old(Unsent()) && Received() == old(Received())
    {
      hide Print, Pow256, EnvelopeWriter.Remaining, EnvelopeWriter.Fits, EnvelopeWriter.Valid;
      hide EnvelopeWriter.Supplied, Envelope.Valid;
      messageQueue := messageQueue + [m];
    }

    lemma NothingPending()
      requires Valid()
      ensures Pending() == "" <==> !HasData()
      ensures First() == "" <==> !HasData()
    {
      if messageQueue != [] {
        assert Frameable(messageQueue[0].headers, messageQueue[0].payload);
        assert |WireOne(messageQueue[0])| > 0;
      }
    }

    /** One read from the socket; gives a message when its last byte is in. */
    method ProcessData(socket: Channel)
      returns (r: Result<Option<Message>, ReadError>, ghost chunk: string)
      requires Valid() && socket !in ReadSide() + WriteSide() && socket.bytes != ""
      modifies this`partialReadEnvelope, ReadSide(), socket
      ensures fresh(ReadSide() - old(ReadSide()))
      ensures old(socket.bytes) == chunk + socket.bytes && socket.room == old(socket.room)
      ensures |chunk| <= old(Wants()) && (old(Wants()) > 0 ==> chunk != "")
      ensures old(Wants()) == 0 && r == Ok(None) ==> partialReadEnvelope != null && partialReadEnvelope.AwaitsPayload()
      ensures messageQueue == old(messageQueue) && partialWriteEnvelope == old(partialWriteEnvelope)
      ensures r.Ok? ==> Valid() && Unsent() == old(Unsent())
      ensures r == Ok(None) ==>
                && partialReadEnvelope != null
                && partialReadEnvelope.Valid() && !partialReadEnvelope.Idle()
                && partialReadEnvelope.consumed == Received() == old(Received()) + chunk
      ensures r.Ok? && r.value.Some? ==>
                Received() == "" && HandsOut(old(Received()) + chunk, Ok(r.value.value))
      ensures r.Err? ==>
                || FrameError(old(Received()) + chunk, r.error)
                || HandsOut(old(Received()) + chunk, Err(r.error))
      ensures old(StuckWithoutPayload()) ==> r == Err(EmptyPayload)
    {
      hide Print, Pow256, Wire, EnvelopeWriter.Remaining, EnvelopeWriter.Fits, EnvelopeWriter.Valid;
      hide EnvelopeWriter.Supplied, ExtractMessage, IsFrame, FrameError;
      hide Envelope.ReadingLead, Envelope.ReadingHeader, Envelope.ReadingPayload;
      var e := partialReadEnvelope;
      if e == null {
        e := new Envelope();
      }
      ghost var before := e.consumed;
      var done;
      done, chunk := e.ThawFromStream(socket);
      if done.Err? {
        return Err(done.error), chunk;
      }
      if !done.value {
        partialReadEnvelope := e;
        return Ok(None), chunk;
      }
      partialReadEnvelope := null;
      var m := ExtractMessage(e.header.headers, e.payloadStream.value);
      assert HandsOut(before + chunk, m);
      if m.Err? {
        return Err(m.error), chunk;
      }
      return Ok(Some(m.value)), chunk;
    }

    /** Moves bytes of at most one message to the socket, in the order of the queue: as many
        as the socket takes. */
    method SendData(socket: Channel) returns (ghost sent: string)
      requires Valid() && socket !in ReadSide() + WriteSide()
      modifies this`messageQueue, this`partialWriteEnvelope, WriteSide(), socket
      ensures Valid() && fresh(WriteSide() - old(WriteSide()))
      ensures partialReadEnvelope == old(partialReadEnvelope) && Received() == old(Received())
      ensures socket.bytes == old(socket.bytes) + sent
      ensures old(Pending()) == sent + Pending()
      ensures |sent| == Min(old(socket.room), |old(First())|) && socket.room == old(socket.room) - |sent|
    {
      hide Print, Pow256, Wire, EnvelopeWriter.Remaining, EnvelopeWriter.Fits, EnvelopeWriter.Valid;
      hide EnvelopeWriter.Supplied, Envelope.Valid;
      sent := "";
      if partialWriteEnvelope == null {
        if messageQueue == [] {
          return;
        }
        StartWriting();
      }
      assert Pending() == old(Pending());
      ghost var rest := Wire(messageQueue);
      var finished;
      finished, sent := partialWriteEnvelope.Call(socket);
      Associative(sent, partialWriteEnvelope.Remaining(), rest);
      if finished {
        partialWriteEnvelope := null;
      }
    }

    /** Takes the first message of the queue. */
    method StartWriting()
      requires Valid() && partialWriteEnvelope == null && messageQueue != []
      modifies this`messageQueue, this`partialWriteEnvelope
      ensures Valid() && partialWriteEnvelope != null && fresh(WriteSide())
      ensures Pending() == old(Pending()) && Received() == old(Received()) && First() == old(First())
    {
      hide Print, Pow256, EnvelopeWriter.Remaining, EnvelopeWriter.Fits, EnvelopeWriter.Valid;
      hide EnvelopeWriter.Supplied, Envelope.Valid, Frame;
      var m := messageQueue[0];
      assert Frameable(m.headers, m.payload);
      messageQueue := messageQueue[1..];
      partialWriteEnvelope := NewWriter(m);
    }
  }

  method NewWriter(m: Message) returns (w: EnvelopeWriter)
    requires Frameable(m.headers, m.payload)
    ensures fresh(w) && fresh(w.envelope.Repr())
    ensures w.Valid() && w.Fits() && w.Supplied() && !w.done
    ensures w.Remaining() == Frame(m.headers, m.payload) && w.Remaining() != ""
  {
    hide Print;
    var e := new Envelope();
    e.header.headers := m.headers;
    e.payloadStream := Some(m.payload);
    e.lead.msgPayloadSize := |m.payload|;
    w := new EnvelopeWriter(e);
    assert w.Payload() == m.payload;
  }

  /** The bytes of a sequence of messages. */
  ghost function Wire(ms: seq<Message>): string {
    if ms == [] then "" else WireOne(ms[0]) + Wire(ms[1..])
  }

  ghost function WireOne(m: Message): string {
    if Frameable(m.headers, m.payload) then Frame(m.headers, m.payload) else ""
  }

  lemma {:induction false} WireSnoc(ms: seq<Message>, m: Message)
    requires Frameable(m.headers, m.payload)
    ensures Wire(ms + [m]) == Wire(ms) + Frame(m.headers, m.payload)
  {
    hide Frame, Frameable;
    assert WireOne(m) == Frame(m.headers, m.payload);
    if ms == [] {
      assert ms + [m] == [m] && [m][1..] == [];
    } else {
      WireSnoc(ms[1..], m);
      assert (ms + [m])[1..] == ms[1..] + [m] && (ms + [m])[0] == ms[0];
      Associative(WireOne(ms[0]), Wire(ms[1..]), Frame(m.headers, m.payload));
    }
  }

  // ---- a frame, received in pieces ----

  /** What the receiver can be sent: every header occurs once, the message type among
      them; values have no newline, and the payload is not empty. */
  ghost predicate Sendable(m: Message) {
    && Printable(m.headers) && "messageType" in m.headers
    && (forall k | k in m.headers :: m.headers[k].One?)
    && Frameable(m.headers, m.payload) && m.payload != ""
  }

  /** What is handed out for `m`: the same payload, header values without leading blanks. */
  ghost function AsReceived(m: Message): Message {
    Message(Normalise(m.headers), m.payload)
  }

  lemma ReceivedUnchanged(m: Message)
    requires Sendable(m)
    ensures AsReceived(m) == m <==> forall k | k in m.headers :: NormalForm(m.headers[k])
  {
    RoundTripExact(m.headers);
    PrintThenRead(m.headers);
  }

  lemma ExtractReceived(m: Message)
    requires Sendable(m)
    ensures ExtractMessage(Normalise(m.headers), m.payload) == Ok(AsReceived(m))
  {
    hide NormalValue, Printable, Frameable;
    var n := Normalise(m.headers);
    forall k | k in m.headers ensures k in n && n[k].One? {
      NormalOfOne(m.headers[k]);
    }
  }

  lemma NormalOfOne(v: Value)
    requires v.One?
    ensures Items(v) != [] && NormalValue(v).One?
  {
    SortStringsSorts(Items(v));
  }

  /** `s` and `f` are prefixes of one and the same stream of bytes. */
  ghost predicate Agree(s: string, f: string) {
    s[..Min(|s|, |f|)] == f[..Min(|s|, |f|)]
  }

  lemma PrefixesAgree(s: string, x: string, f: string, y: string)
    requires s + x == f + y
    ensures Agree(s, f)
  {
    var n := Min(|s|, |f|);
    assert s[..n] == (s + x)[..n];
    assert f[..n] == (f + y)[..n];
  }

  ghost function LeadOf(m: Message): Lead {
    Lead(1, |Print(m.headers)|, |m.payload|)
  }

  lemma AgreeingLead(m: Message, s: string)
    requires Sendable(m)
    requires Agree(s, Frame(m.headers, m.payload)) && |s| >= LEAD_SIZE
    ensures LeadIs(s, LeadOf(m))
  {
    hide Print, FrameParts.ThawLead;
    var f := Frame(m.headers, m.payload);
    var n := Min(|s|, |f|);
    LeadRoundTrip(LeadOf(m));
    assert s[..LEAD_SIZE] == s[..n][..LEAD_SIZE] == f[..n][..LEAD_SIZE] == f[..LEAD_SIZE];
    assert f[..LEAD_SIZE] == FreezeLead(LeadOf(m));
  }

  lemma AgreeingBlock(m: Message, s: string, to: nat)
    requires Sendable(m) && Agree(s, Frame(m.headers, m.payload))
    requires LEAD_SIZE <= to <= |s| && to <= LEAD_SIZE + |Print(m.headers)|
    ensures s[LEAD_SIZE..to] == Print(m.headers)[..to - LEAD_SIZE]
  {
    hide Print, FreezeLead;
    var f := Frame(m.headers, m.payload);
    var n := Min(|s|, |f|);
    assert s[LEAD_SIZE..to] == s[..n][LEAD_SIZE..to] == f[..n][LEAD_SIZE..to] == f[LEAD_SIZE..to];
    var block := Print(m.headers);
    assert f[LEAD_SIZE..to] == block[..to - LEAD_SIZE];
  }

  /** No prefix of a block that can be read makes the reader fail. */
  lemma NoBlockError(block: string, n: nat, e: ReadError)
    requires n <= |block| && ReadBlock(block).Ok?
    ensures !BlockError(block[..n], |block|, e)
  {
    var a, b := block[..n], block[n..];
    assert block == a + b;
    LinesConcat(a, b);
    ReadLinesConcat(map[], Lines(a), Lines(Tail(a) + b));
    if n == |block| { assert a == block; }
  }

  /** The bytes of a message never make the reader fail. */
  lemma NoFrameError(m: Message, s: string, e: ReadError)
    requires Sendable(m) && Agree(s, Frame(m.headers, m.payload))
    ensures !FrameError(s, e)
  {
    hide Print, Frame, FreezeLead, FrameParts.ThawLead, ReadBlock, Normalise, BlockError;
    if |s| >= LEAD_SIZE {
      AgreeingLead(m, s);
      var block := Print(m.headers);
      PrintThenRead(m.headers);
      var to := Min(LEAD_SIZE + |block|, |s|);
      AgreeingBlock(m, s, to);
      NoBlockError(block, to - LEAD_SIZE, e);
    }
  }

  /** A complete frame among the bytes of `m` is the frame of `m`, and reads as `m`. */
  lemma WholeFrame(m: Message, s: string, l: Lead, h: HeaderMap, payload: string)
    requires Sendable(m) && Agree(s, Frame(m.headers, m.payload))
    requires IsFrame(s, l, h, payload)
    ensures s == Frame(m.headers, m.payload)
    ensures ExtractMessage(h, payload) == Ok(AsReceived(m))
  {
    hide Print, FrameParts.ThawLead, FreezeLead, ReadBlock, Normalise, ExtractMessage;
    var f := Frame(m.headers, m.payload);
    AgreeingLead(m, s);
    assert |s| == |f|;
    assert s == s[..|s|] == f[..|f|] == f;
    var block := Print(m.headers);
    AgreeingBlock(m, s, LEAD_SIZE + |block|);
    assert block[..|block|] == block;
    PrintThenRead(m.headers);
    assert f[LEAD_SIZE + |block|..] == m.payload;
    ExtractReceived(m);
  }

  /** An envelope still reading among the bytes of `m` does not have them all. */
  lemma UnfinishedFrame(m: Message, e: Envelope)
    requires Sendable(m) && e.Valid() && !e.Idle()
    requires Agree(e.consumed, Frame(m.headers, m.payload))
    ensures |e.consumed| < |Frame(m.headers, m.payload)|
  {
    hide Print, FrameParts.ThawLead, FreezeLead, ReadBlock, PHeader.Valid;
    if |e.consumed| >= LEAD_SIZE {
      AgreeingLead(m, e.consumed);
    }
  }

  /** So it asks for more. */
  lemma AsksForMore(m: Message, e: Envelope)
    requires Sendable(m) && e.Valid() && !e.Idle()
    requires Agree(e.consumed, Frame(m.headers, m.payload))
    ensures e.Want() > 0
  {
    hide Print, FrameParts.ThawLead, FreezeLead, ReadBlock, PHeader.Valid;
    TypeComesFirst(m.headers);
    if |e.consumed| >= LEAD_SIZE {
      AgreeingLead(m, e.consumed);
    }
  }

  /** A message without a payload cannot be received: its frame makes the reader fail, and
      never counts as a whole message. */
  lemma EmptyPayloadFails(h: HeaderMap)
    requires Frameable(h, "")
    ensures FrameError(Frame(h, ""), EmptyPayload)
    ensures forall l, got, payload :: !IsFrame(Frame(h, ""), l, got, payload)
  {
    hide Print, FrameParts.ThawLead, FreezeLead, ReadBlock, BlockError;
    var l := Lead(1, |Print(h)|, 0);
    LeadRoundTrip(l);
    CutConcat(FreezeLead(l), Print(h) + "");
    Associative(FreezeLead(l), Print(h), "");
    assert LeadIs(Frame(h, ""), l);
  }

  /** A reader that has got all of such a frame is at its payload, so that its next call
      raises; only a frame without any header takes one call more. */
  lemma EmptyPayloadIsNext(h: HeaderMap, e: Envelope)
    requires Frameable(h, "") && e.Valid() && !e.Idle() && e.consumed == Frame(h, "")
    ensures e.lead.msgPayloadSize == 0
    ensures Print(h) != "" ==> e.AwaitsPayload()
  {
    hide Print, FrameParts.ThawLead, FreezeLead, ReadBlock, PHeader.Valid;
    var l := Lead(1, |Print(h)|, 0);
    LeadRoundTrip(l);
    CutConcat(FreezeLead(l), Print(h) + "");
    Associative(FreezeLead(l), Print(h), "");
    assert LeadIs(Frame(h, ""), l);
  }

  // ---- the connection ----

  /** A sending and a receiving processor, and the socket between them. */
  class Link {
    const sender: MessageProcessor
    const receiver: MessageProcessor
    const socket: Channel
    /** Every message queued so far. */
    ghost var sent: seq<Message>
    /** Every message handed out so far. */
    ghost var delivered: seq<Message>

    constructor ()
      ensures Valid() && sent == [] && delivered == []
      ensures fresh(sender) && fresh(receiver) && fresh(socket)
    {
      sender := new MessageProcessor();
      receiver := new MessageProcessor();
      socket := new Channel();
      sent, delivered := [], [];
    }

    ghost function Ends(): set<object> {
      {sender, receiver, socket}
    }

    ghost function Parts(): set<object>
      reads sender`partialWriteEnvelope, receiver`partialReadEnvelope
    {
      sender.WriteSide() + receiver.ReadSide()
    }

    /** The processors and the socket share nothing. */
    ghost predicate Separate()
      reads sender, receiver, socket
    {
      && sender != receiver && this !in Parts()
      && sender.partialReadEnvelope == null && receiver.partialWriteEnvelope == null
      && sender.WriteSide() !! receiver.ReadSide()
      && Ends() !! Parts()
    }

    /** What was handed out is what was queued first, in order; what is on its way is
        exactly the bytes of the others. */
    ghost predicate Valid()
      reads this, Ends(), Parts()
    {
      && Separate() && sender.Valid() && receiver.Valid()
      && InOrder(sent, delivered)
      && OnTheWay(sent[|delivered|..], receiver.Received(), socket.bytes, sender.Pending())
    }

    /** Nothing is queued, half sent, or in the socket. */
    ghost predicate Drained()
      reads sender, socket
    {
      !sender.HasData() && socket.bytes == ""
    }

    /** The bytes still to be written. */
    ghost function Backlog(): nat
      requires Valid()
      reads this, Ends(), Parts()
    {
      |sender.Pending()|
    }

    /** The bytes still to be read. */
    ghost function Unread(): nat
      requires Valid()
      reads this, Ends(), Parts()
    {
      Backlog() + |socket.bytes|
    }

    ghost function ToDo(): Left
      requires Valid()
      reads this, Ends(), Parts()
    {
      Left(Backlog(), Unread())
    }

    lemma NothingUnread()
      requires Valid()
      ensures Unread() == 0 <==> Drained()
    {
      hide MessageProcessor.Valid, MessageProcessor.Pending, MessageProcessor.First, OnTheWay, InOrder;
      sender.NothingPending();
    }

    method SendMessage(m: Message)
      requires Valid() && Sendable(m)
      modifies sender`messageQueue, this`sent
      ensures Valid() && sent == old(sent) + [m]
      ensures Backlog() == old(Backlog()) + |WireOne(m)| && socket.bytes == old(socket.bytes)
      ensures Parts() == old(Parts())
    {
      hide Print, Frame, Printable, IsFrame, AsReceived, Wire, OnTheWay, FrameError, HandsOut;
      hide MessageProcessor.Valid, MessageProcessor.Received, MessageProcessor.Unsent;
      ghost var due := sent[|delivered|..];
      ghost var unsent, queue := sender.Unsent(), sender.messageQueue;
      sender.SendMessage(m);
      sent := sent + [m];
      assert sent[|delivered|..] == due + [m];
      assert sender.ReadSide() == {} && receiver.WriteSide() == {};
      assert sender.Valid();
      assert receiver.Valid();
      QueueStep(due, m, receiver.Received(), socket.bytes, unsent, queue);
      assert Separate();
      assert sender.Valid() && receiver.Valid();
      assert InOrder(sent, delivered);
      assert OnTheWay(sent[|delivered|..], receiver.Received(), socket.bytes, sender.Pending());
    }

    /** Writes once, to a socket that takes so many bytes. */
    method SendData(room: nat)
      requires Valid()
      modifies sender, sender.WriteSide(), socket
      ensures Valid() && fresh(Parts() - old(Parts()))
      ensures Unread() == old(Unread())
      ensures |socket.bytes| == old(|socket.bytes|) + Min(room, old(|sender.First()|))
      ensures room > 0 && old(Backlog()) > 0 ==> Backlog() < old(Backlog())
    {
      hide Print, Frame, Frameable, Sendable, Printable, AsReceived, Wire, OnTheWay, FrameError, HandsOut;
      hide MessageProcessor.Valid, MessageProcessor.Received, MessageProcessor.Unsent, MessageProcessor.Pending;
      hide MessageProcessor.First, MessageProcessor.Wants;
      ghost var due, received, moving := sent[|delivered|..], receiver.Received(), socket.bytes;
      sender.NothingPending();
      assert sender.ReadSide() == {} && socket !in sender.WriteSide();
      socket.room := room;
      assert sender.Valid() && sender.Pending() == old(sender.Pending()) && sender.First() == old(sender.First());
      ghost var bytes := sender.SendData(socket);
      assert receiver.WriteSide() == {};
      assert receiver.Valid();
      SendStep(due, received, moving, bytes, sender.Pending());
      assert Separate();
      assert sender.Valid() && receiver.Valid();
      assert InOrder(sent, delivered);
      assert OnTheWay(sent[|delivered|..], receiver.Received(), socket.bytes, sender.Pending());
    }

    /** Reads once, if the socket is readable. */
    method ProcessData() returns (m: Option<Message>)
      requires Valid()
      modifies this`delivered, receiver, receiver.ReadSide(), socket
      ensures Valid() && fresh(Parts() - old(Parts()))
      ensures Backlog() == old(Backlog())
      ensures if old(socket.bytes) == "" then socket.bytes == "" else |socket.bytes| < |old(socket.bytes)|
      ensures delivered == if m.Some? then old(delivered) + [m.value] else old(delivered)
    {
      hide Print, Frame, Frameable, Sendable, Printable, AsReceived, Wire, OnTheWay, FrameError, HandsOut;
      hide MessageProcessor.Valid, MessageProcessor.Received, MessageProcessor.Unsent, MessageProcessor.Pending;
      if socket.bytes == "" {
        return None;
      }
      ghost var due, received, pending := sent[|delivered|..], receiver.Received(), sender.Pending();
      WantsMore();
      var r;
      ghost var chunk;
      r, chunk := receiver.ProcessData(socket);
      ReadAgrees(due, received, chunk, socket.bytes, pending);
      if r.Err? {
        ReadNeverFails(due[0], received + chunk, r.error);
        assert false;
      }
      m := r.value;
      assert sender.ReadSide() == {} && receiver.WriteSide() == {};
      assert sender.Valid() && receiver.Valid();
      assert sender.Pending() == pending;
      if m.Some? {
        HandOutStep(due, received + chunk, socket.bytes, pending, m.value);
        delivered := delivered + [m.value];
        assert sent[|delivered|..] == due[1..];
      } else {
        UnfinishedFrame(due[0], receiver.partialReadEnvelope);
        KeepStep(due, received + chunk, socket.bytes, pending);
      }
    }

    /** The reader asks for more as long as a message is due. */
    lemma WantsMore()
      requires Valid() && socket.bytes != ""
      ensures receiver.Wants() > 0
    {
      hide Print, Frame, Frameable, Printable, AsReceived, Wire, FrameError, HandsOut, Envelope.Valid, Envelope.Want;
      var due, received := sent[|delivered|..], receiver.Received();
      assert "" + socket.bytes == socket.bytes;
      ReadAgrees(due, received, "", socket.bytes, sender.Pending());
      assert received + "" == received;
      if receiver.partialReadEnvelope != null { AsksForMore(due[0], receiver.partialReadEnvelope); }
    }

    /** Any run: messages queued, writes and reads in any order, each moving any number of
        bytes. What comes out is what went in, in order; all of it once nothing is left; and
        what is left is bounded by what the schedule did about it. */
    method Run(schedule: seq<Action>) returns (received: seq<Message>)
      requires Valid()
      requires forall a | a in schedule && a.Queue? :: Sendable(a.message)
      modifies this, Ends(), Parts()
      ensures Valid() && sent == old(sent) + QueuedBy(schedule)
      ensures delivered == old(delivered) + received
      ensures |delivered| <= |sent| && forall i | 0 <= i < |delivered| :: delivered[i] == AsReceived(sent[i])
      ensures Drained() ==> |delivered| == |sent|
      ensures Within(ToDo(), AtMost(Acts(schedule), old(ToDo())))
      ensures AtMost(Acts(schedule), old(ToDo())).unread == 0 ==> |delivered| == |sent|
    {
      hide Print, Frame, Frameable, Sendable, Printable, AsReceived, Wire, OnTheWay, FrameError, HandsOut, WireOne;
      hide MessageProcessor.Valid, MessageProcessor.Received, MessageProcessor.Unsent, MessageProcessor.Pending;
      hide InOrder, Separate, Drained, QueuedBy, Parts, Acts, ActOf, AtMost, Bound, Moves;
      received := [];
      ghost var left := ToDo();
      NothingQueued();
      ActsSnoc([], Read);
      AtMostSnoc([], Take, left);
      assert schedule[..0] == [] && sent + [] == sent;
      for i := 0 to |schedule|
        invariant Valid() && forall o | o in Parts() :: o in old(Parts()) || fresh(o)
        invariant sent == old(sent) + QueuedBy(schedule[..i])
        invariant delivered == old(delivered) + received
        invariant Within(ToDo(), AtMost(Acts(schedule[..i]), left))
      {
        QueuedBySnoc(schedule[..i], schedule[i]);
        ActsSnoc(schedule[..i], schedule[i]);
        AtMostSnoc(Acts(schedule[..i]), ActOf(schedule[i]), left);
        ghost var was := ToDo();
        TakeNext(schedule, i);
        assert schedule[i] in schedule;
        var more := Perform(schedule[i]);
        Associative(old(delivered), received, more);
        Associative(old(sent), QueuedBy(schedule[..i]), if schedule[i].Queue? then [schedule[i].message] else []);
        StaysWithin(ActOf(schedule[i]), was, ToDo(), AtMost(Acts(schedule[..i]), left));
        received := received + more;
      }
      assert schedule[..|schedule|] == schedule;
      NothingUnread();
      AllDelivered();
      FirstInOrder();
    }

    method Perform(a: Action) returns (received: seq<Message>)
      requires Valid() && (a.Queue? ==> Sendable(a.message))
      modifies this, Ends(), Parts()
      ensures Valid() && forall o | o in Parts() :: o in old(Parts()) || fresh(o)
      ensures sent == old(sent) + if a.Queue? then [a.message] else []
      ensures delivered == old(delivered) + received
      ensures Moves(ActOf(a), old(ToDo()), ToDo())
    {
      hide Print, Frame, Frameable, Sendable, Printable, AsReceived, Wire, OnTheWay, FrameError, HandsOut, InOrder, WireOne;
      hide MessageProcessor.Valid, MessageProcessor.Received, MessageProcessor.Unsent, MessageProcessor.Pending;
      received := [];
      match a
      case Queue(m) =>
        SendMessage(m);
      case Write(room) =>
        SendData(room);
      case Read =>
        var m := ProcessData();
        if m.Some? { received := [m.value]; }
    }

    lemma FirstInOrder()
      requires Valid()
      ensures |delivered| <= |sent| && forall i | 0 <= i < |delivered| :: delivered[i] == AsReceived(sent[i])
    {
    }

    /** When nothing is on its way, everything was delivered. */
    lemma AllDelivered()
      requires Valid()
      ensures Drained() ==> |delivered| == |sent|
    {
      hide Print, Frame, Frameable, Sendable, Printable, AsReceived, Wire, OnTheWay;
      if Drained() {
        sender.NothingPending();
        NothingLeft(sent[|delivered|..], receiver.Received());
      }
    }
  }

  datatype Action = Queue(message: Message) | Write(room: nat) | Read

  /** What the actions of a schedule do about what is left: a write counts if the socket takes
      something. */
  ghost function Acts(schedule: seq<Action>): (r: seq<Act>)
    ensures |r| == |schedule|
  {
    seq(|schedule|, i requires 0 <= i < |schedule| => ActOf(schedule[i]))
  }

  ghost function ActOf(a: Action): Act {
    match a
    case Queue(m) => Add(|WireOne(m)|, |WireOne(m)|)
    case Write(room) => if room == 0 then Wait else Progress.Write
    case Read => Take
  }

  /** With as many writes as there are bytes to write, to a socket that takes something each
      time, and then as many reads as there are bytes to read, nothing is left. */
  lemma EnoughActions(writes: seq<Action>, takes: seq<Action>, left: Left)
    requires (forall a | a in writes :: a.Write? && a.room > 0) && forall a | a in takes :: a.Read?
    requires |writes| >= left.backlog && |takes| >= left.unread
    ensures AtMost(Acts(writes + takes), left) == Left(0, 0)
  {
    assert Acts(writes + takes) == Acts(writes) + Acts(takes);
    forall i | 0 <= i < |writes| ensures Acts(writes)[i].Write? { assert writes[i] in writes; }
    forall i | 0 <= i < |takes| ensures Acts(takes)[i].Take? { assert takes[i] in takes; }
    EnoughIsEnough(Acts(writes), Acts(takes), left);
  }

  lemma ActsSnoc(schedule: seq<Action>, a: Action)
    ensures Acts(schedule + [a]) == Acts(schedule) + [ActOf(a)] && Acts([]) == []
  {
  }

  ghost function QueuedBy(schedule: seq<Action>): seq<Message> {
    if schedule == [] then [] else
      (if schedule[0].Queue? then [schedule[0].message] else []) + QueuedBy(schedule[1..])
  }

  lemma NothingQueued()
    ensures QueuedBy([]) == []
  {
  }

  lemma {:induction false} QueuedBySnoc(schedule: seq<Action>, a: Action)
    ensures QueuedBy(schedule + [a]) == QueuedBy(schedule) + if a.Queue? then [a.message] else []
  {
    if schedule == [] {
      assert schedule + [a] == [a];
    } else {
      QueuedBySnoc(schedule[1..], a);
      assert (schedule + [a])[1..] == schedule[1..] + [a];
    }
  }

  /** The messages handed out are those queued first, once each and in order. */
  ghost predicate InOrder(sent: seq<Message>, delivered: seq<Message>) {
    && |delivered| <= |sent|
    && (forall i | 0 <= i < |sent| :: Sendable(sent[i]))
    && (forall i | 0 <= i < |delivered| :: delivered[i] == AsReceived(sent[i]))
  }

  /** The bytes of the messages `due` are spread over the receiver, the socket and the
      sender, and the receiver does not have all those of the first. */
  ghost predicate OnTheWay(due: seq<Message>, received: string, moving: string, pending: string) {
    && received + moving + pending == Wire(due)
    && (due != [] && Frameable(due[0].headers, due[0].payload) ==>
          |received| < |Frame(due[0].headers, due[0].payload)|)
  }

  lemma QueueStep(due: seq<Message>, m: Message, received: string, moving: string,
                  unsent: string, queue: seq<Message>)
    requires Sendable(m) && OnTheWay(due, received, moving, unsent + Wire(queue))
    ensures OnTheWay(due + [m], received, moving, unsent + Wire(queue + [m]))
    ensures |unsent + Wire(queue + [m])| == |unsent + Wire(queue)| + |WireOne(m)|
  {
    hide Print, Printable;
    assert Frameable(m.headers, m.payload);
    WireSnoc(due, m);
    WireSnoc(queue, m);
    var f := Frame(m.headers, m.payload);
    Associative(unsent, Wire(queue), f);
    Associative(received + moving, unsent + Wire(queue), f);
    if due == [] {
      assert received == "";
      assert |f| > 0;
    }
  }

  lemma SendStep(due: seq<Message>, received: string, moving: string, sent: string, pending: string)
    requires OnTheWay(due, received, moving, sent + pending)
    ensures OnTheWay(due, received, moving + sent, pending)
  {
    hide Wire, Frame;
    Associative(received + moving, sent, pending);
    Associative(received, moving, sent);
  }

  /** A receiver that can read has bytes of the first message that is due. */
  lemma ReadAgrees(due: seq<Message>, received: string, chunk: string, moving: string, pending: string)
    requires OnTheWay(due, received, chunk + moving, pending) && chunk + moving != ""
    requires forall i | 0 <= i < |due| :: Sendable(due[i])
    ensures due != [] && Sendable(due[0]) && Agree(received + chunk, Frame(due[0].headers, due[0].payload))
    ensures received + chunk + (moving + pending) == Frame(due[0].headers, due[0].payload) + Wire(due[1..])
  {
    hide Frame, Frameable, Printable, Agree;
    Associative(received, chunk, moving);
    Associative(received + chunk, moving, pending);
    PrefixesAgree(received + chunk, moving + pending,
                  Frame(due[0].headers, due[0].payload), Wire(due[1..]));
  }

  lemma ReadNeverFails(m: Message, s: string, e: ReadError)
    requires Sendable(m) && Agree(s, Frame(m.headers, m.payload))
    ensures !FrameError(s, e) && !HandsOut(s, Err(e))
  {
    hide Frame, Frameable, Printable, Agree, IsFrame, FrameError, ExtractMessage, Normalise, Sendable;
    NoFrameError(m, s, e);
    forall l, h, payload | IsFrame(s, l, h, payload) ensures ExtractMessage(h, payload).Ok? {
      WholeFrame(m, s, l, h, payload);
    }
  }

  lemma HandOutStep(due: seq<Message>, s: string, moving: string, pending: string, m: Message)
    requires due != [] && Sendable(due[0]) && forall i | 0 <= i < |due| :: Sendable(due[i])
    requires Agree(s, Frame(due[0].headers, due[0].payload)) && HandsOut(s, Ok(m))
    requires s + (moving + pending) == Frame(due[0].headers, due[0].payload) + Wire(due[1..])
    ensures m == AsReceived(due[0])
    ensures OnTheWay(due[1..], "", moving, pending)
  {
    hide Print, Printable, Agree, IsFrame, ExtractMessage, Normalise, Wire, FreezeLead;
    var l, h, payload :| IsFrame(s, l, h, payload) && Ok(m) == ExtractMessage(h, payload);
    WholeFrame(due[0], s, l, h, payload);
    assert (s + (moving + pending))[|s|..] == moving + pending;
    assert (s + Wire(due[1..]))[|s|..] == Wire(due[1..]);
    assert "" + moving == moving;
    if due[1..] != [] {
      var next := due[1];
      assert |Frame(next.headers, next.payload)| > 0;
    }
  }

  lemma KeepStep(due: seq<Message>, s: string, moving: string, pending: string)
    requires due != [] && Sendable(due[0]) && forall i | 0 <= i < |due| :: Sendable(due[i])
    requires s + (moving + pending) == Frame(due[0].headers, due[0].payload) + Wire(due[1..])
    requires |s| < |Frame(due[0].headers, due[0].payload)|
    ensures OnTheWay(due, s, moving, pending)
  {
    hide Print, Printable, Frame;
    Associative(s, moving, pending);
  }

  /** When nothing is queued, half sent or in the socket, nothing is due. */
  lemma NothingLeft(due: seq<Message>, received: string)
    requires OnTheWay(due, received, "", "") && forall i | 0 <= i < |due| :: Sendable(due[i])
    ensures due == []
  {
    hide Frame, Frameable, Printable;
    assert received + "" + "" == received;
  }
}
