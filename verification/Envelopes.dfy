/** Envelopes: a message on its way through a socket, in either direction. */
module Envelopes {
  import opened Wrappers
  import opened Bytes
  import opened Headers
  import opened FrameParts

  /** The bytes of one message on the wire. */
  function Frame(h: HeaderMap, payload: string): (s: string)
    requires Frameable(h, payload)
    ensures |s| == LEAD_SIZE + |Print(h)| + |payload|
  {
    FreezeLead(Lead(1, |Print(h)|, |payload|)) + Print(h) + payload
  }

  /** Both sizes fit the 32-bit fields of the lead. */
  predicate Frameable(h: HeaderMap, payload: string) {
    |Print(h)| < Pow256(4) && |payload| < Pow256(4)
  }

  function Min(a: nat, b: nat): nat {
    if a < b then a else b
  }

  /** The size of the header block that a lead announces. */
  ghost predicate LeadIs(s: string, l: Lead) {
    |s| >= LEAD_SIZE && ThawLead(s[..LEAD_SIZE]) == Ok(l)
  }

  /** `s` is one whole frame, read at once: its headers and its payload. */
  ghost predicate IsFrame(s: string, l: Lead, h: HeaderMap, payload: string) {
    && LeadIs(s, l)
    && |s| == LEAD_SIZE + l.headerSize + l.payloadSize
    && payload != ""
    && payload == s[LEAD_SIZE + l.headerSize..]
    && ReadBlock(s[LEAD_SIZE..LEAD_SIZE + l.headerSize]) == Ok(h)
  }

  /** The bytes `s` make the reader fail with `e`. */
  ghost predicate FrameError(s: string, e: ReadError) {
    |s| >= LEAD_SIZE &&
    var r := ThawLead(s[..LEAD_SIZE]);
    if r.Err? then r.error == e else
      var hs := r.value.headerSize;
      || BlockError(s[LEAD_SIZE..Min(LEAD_SIZE + hs, |s|)], hs, e)
      || (|s| >= LEAD_SIZE + hs && r.value.payloadSize == 0 && e == EmptyPayload)
  }

  lemma EmptyBlock()
    ensures ReadBlock("") == Ok(map[])
  {
  }

  class Envelope {
    const lead: PLead
    const header: PHeader
    var payloadStream: Option<string>
    var incLead: Option<bool>
    var incHeader: Option<bool>
    var incPayload: Option<bool>
    /** The bytes of the current message received so far. */
    ghost var consumed: string

    constructor ()
      ensures fresh(lead) && fresh(header)
      ensures Idle() && Valid() && consumed == ""
      ensures lead.View() == Lead(1, 0, 0) && header.headers == map[] && payloadStream == None
    {
      lead := new PLead();
      header := new PHeader();
      payloadStream, incLead, incHeader, incPayload := None, None, None, None;
      consumed := "";
    }

    ghost function Repr(): set<object> {
      {this, lead, header}
    }

    predicate Idle()
      reads this
    {
      incLead == None && incHeader == None && incPayload == None
    }

    /** Lead and header block are complete. */
    predicate AwaitsPayload()
      reads this
    {
      incLead == Some(false) && incHeader == Some(false)
    }

    ghost predicate ReadingLead()
      reads this, lead, header
    {
      && incLead == Some(true) && incHeader == Some(true)
      && consumed == lead.Pending() && |consumed| < LEAD_SIZE
      && header.buf == None && header.headers == map[]
      && payloadStream == Some("")
    }

    ghost predicate ReadingHeader()
      reads this, lead, header
    {
      && incLead == Some(false) && incHeader == Some(true)
      && lead.Pending() == "" && LeadIs(consumed, lead.View())
      && header.Valid()
      && header.Before() == consumed[LEAD_SIZE..]
      && (header.buf == None <==> |consumed| == LEAD_SIZE)
      && (header.buf == None ==> header.headers == map[])
      && |consumed| <= LEAD_SIZE + lead.msgHeaderSize
      && (lead.msgHeaderSize > 0 ==> |consumed| < LEAD_SIZE + lead.msgHeaderSize)
      && payloadStream == Some("")
    }

    ghost predicate ReadingPayload()
      reads this, lead, header
    {
      && incLead == Some(false) && incHeader == Some(false)
      && lead.Pending() == "" && LeadIs(consumed, lead.View())
      && |consumed| >= LEAD_SIZE + lead.msgHeaderSize
      && ReadBlock(consumed[LEAD_SIZE..LEAD_SIZE + lead.msgHeaderSize]) == Ok(header.headers)
      && payloadStream == Some(consumed[LEAD_SIZE + lead.msgHeaderSize..])
      && (payloadStream.value == "" || |payloadStream.value| < lead.msgPayloadSize)
    }

    ghost predicate Valid()
      reads this, lead, header
    {
      if Idle() then
        consumed == "" && lead.Pending() == "" && header.buf == None && header.headers == map[]
      else
        incPayload == Some(true) && (ReadingLead() || ReadingHeader() || ReadingPayload())
    }

    /** How many bytes the next call asks the socket for. */
    ghost function Want(): int
      requires Valid()
      reads this, lead, header
    {
      if Idle() || incLead.value then LEAD_SIZE - |consumed|
      else if incHeader.value then LEAD_SIZE + lead.msgHeaderSize - |consumed|
      else lead.msgPayloadSize - |payloadStream.value|
    }

    method ThawLead(stream: Channel) returns (r: Result<bool, ReadError>, ghost chunk: string)
      requires ReadingLead() && stream.bytes != ""
      modifies this`incLead, this`consumed, lead, stream
      ensures old(stream.bytes) == chunk + stream.bytes && stream.room == old(stream.room)
      ensures chunk != "" && |chunk| <= LEAD_SIZE - |old(consumed)|
      ensures consumed == old(consumed) + chunk
      ensures r.Ok? ==> ReadingLead() || ReadingHeader()
      ensures r.Err? ==> FrameError(consumed, r.error)
    {
      hide FrameParts.ThawLead, ReadBlock, ReadLines, Lines, Tail, BlockError;
      r, chunk := lead.ThawFromStream(stream);
      consumed := consumed + chunk;
      if r.Ok? {
        incLead := Some(!r.value);
      }
      assert |consumed| == LEAD_SIZE ==> consumed[..LEAD_SIZE] == consumed;
    }

    method ThawHeader(stream: Channel) returns (r: Result<bool, ReadError>, ghost chunk: string)
      requires ReadingHeader() && incPayload == Some(true)
      requires Want() > 0 ==> stream.bytes != ""
      modifies this`incHeader, this`consumed, header, stream
      ensures old(stream.bytes) == chunk + stream.bytes && stream.room == old(stream.room)
      ensures |chunk| <= old(Want()) && (old(Want()) > 0 ==> chunk != "")
      ensures consumed == old(consumed) + chunk
      ensures r.Ok? ==> ReadingHeader() || ReadingPayload()
      ensures old(Want()) == 0 ==> r == Ok(true) && ReadingPayload()
      ensures r.Err? ==> FrameError(consumed, r.error)
    {
      hide FrameParts.ThawLead, ReadBlock, ReadLines, Lines, Tail, BlockError;
      assert ReadBlock("") == Ok(map[]) by { EmptyBlock(); }
      header.frozenSize := lead.msgHeaderSize;
      r, chunk := header.ThawFromStream(stream);
      ghost var before := consumed;
      consumed := consumed + chunk;
      assert consumed[..LEAD_SIZE] == before[..LEAD_SIZE];
      assert consumed[LEAD_SIZE..] == before[LEAD_SIZE..] + chunk;
      assert consumed[LEAD_SIZE..|consumed|] == consumed[LEAD_SIZE..];
      if r.Ok? {
        incHeader := Some(!r.value);
        if r.value {
          assert consumed[LEAD_SIZE + lead.msgHeaderSize..] == "";
          assert ReadingPayload();
        } else {
          assert ReadingHeader();
        }
      }
    }

    method ThawPayload(stream: Channel) returns (r: Result<bool, ReadError>, ghost chunk: string)
      requires ReadingPayload() && incPayload == Some(true)
      requires Want() > 0 ==> stream.bytes != ""
      modifies this`incPayload, this`payloadStream, this`consumed, stream
      ensures old(stream.bytes) == chunk + stream.bytes && stream.room == old(stream.room)
      ensures |chunk| <= old(Want()) && (old(Want()) > 0 ==> chunk != "")
      ensures consumed == old(consumed) + chunk
      ensures r == Ok(false) ==> incPayload == Some(true) && ReadingPayload()
      ensures r == Ok(true) ==>
                payloadStream.Some? && IsFrame(consumed, lead.View(), header.headers, payloadStream.value)
      ensures r.Err? <==> old(lead.msgPayloadSize) == 0
      ensures r.Err? ==> r.error == EmptyPayload && FrameError(consumed, r.error)
    {
      hide FrameParts.ThawLead, ReadBlock, ReadLines, Lines, Tail, BlockError;
      ghost var body := LEAD_SIZE + lead.msgHeaderSize;
      var toRead := lead.msgPayloadSize - |payloadStream.value|;
      if toRead <= 0 {
        assert consumed + "" == consumed;
        return Err(EmptyPayload), "";
      }
      var data := stream.Recv(toRead);
      chunk := data;
      ghost var before := consumed;
      consumed := consumed + data;
      assert consumed[..LEAD_SIZE] == before[..LEAD_SIZE];
      assert consumed[LEAD_SIZE..body] == before[LEAD_SIZE..body];
      assert consumed[body..] == before[body..] + data;
      payloadStream := Some(payloadStream.value + data);
      incPayload := Some(|data| < toRead);
      r := Ok(!incPayload.value);
    }

    /** One non-blocking step of reading: at most one receive. True when the message is
        complete; what it then holds is what reading its frame at once gives. */
    method ThawFromStream(stream: Channel) returns (r: Result<bool, ReadError>, ghost chunk: string)
      requires Valid()
      requires Want() > 0 ==> stream.bytes != ""
      modifies this, lead, header, stream
      ensures old(stream.bytes) == chunk + stream.bytes && stream.room == old(stream.room)
      ensures |chunk| <= old(Want()) && (old(Want()) > 0 ==> chunk != "")
      ensures consumed == old(consumed) + chunk
      ensures r == Ok(false) ==> Valid() && !Idle() && (old(Want()) == 0 ==> AwaitsPayload())
      ensures r == Ok(true) ==>
                Idle() && payloadStream.Some? && IsFrame(consumed, lead.View(), header.headers, payloadStream.value)
      ensures r.Err? ==> FrameError(consumed, r.error)
      ensures old(AwaitsPayload()) && old(lead.msgPayloadSize) == 0 ==> r == Err(EmptyPayload)
    {
      hide FrameParts.ThawLead, ReadBlock, ReadLines, Lines, Tail, BlockError;
      if Idle() {
        incLead, incHeader, incPayload := Some(true), Some(true), Some(true);
        payloadStream := Some("");
      }
      if incLead.value {
        r, chunk := ThawLead(stream);
        if r.Ok? { r := Ok(false); }
      } else if incHeader.value {
        r, chunk := ThawHeader(stream);
        if r.Ok? { r := Ok(false); }
      } else {
        r, chunk := ThawPayload(stream);
        if r == Ok(true) {
          incLead, incHeader, incPayload := None, None, None;
        }
      }
    }
  }

  class EnvelopeWriter {
    const envelope: Envelope
    var leadWritten: bool
    var headerWritten: bool
    var lead: Option<string>
    var header: Option<string>
    var buf: Option<string>
    var bytesRead: nat
    var bytesWritten: nat
    /** The writer has reported that the message is out. */
    ghost var done: bool

    constructor (e: Envelope)
      ensures envelope == e && Valid() && !done && header == None
    {
      envelope := e;
      leadWritten, headerWritten, lead, header, buf := false, false, None, None, None;
      bytesRead, bytesWritten, done := 0, 0, false;
    }

    /** The part of the payload stream that belongs to the message. */
    ghost function Payload(): string
      reads envelope, envelope.lead
    {
      if envelope.payloadStream == None then ""
      else envelope.payloadStream.value[..Min(envelope.lead.msgPayloadSize, |envelope.payloadStream.value|)]
    }

    /** The stream holds the whole payload that the lead announces. */
    ghost predicate Supplied()
      reads envelope, envelope.lead
    {
      envelope.payloadStream.Some? ==> |Payload()| == envelope.lead.msgPayloadSize
    }

    ghost predicate Fits()
      reads envelope, envelope.lead, envelope.header
    {
      envelope.lead.View().(headerSize := |Print(envelope.header.headers)|).Fits()
    }

    ghost predicate Valid()
      reads this, envelope, envelope.lead
    {
      && (header.Some? <==> lead.Some?)
      && (header.None? ==> !leadWritten && !headerWritten)
      && (headerWritten ==> leadWritten)
      && (buf.Some? ==>
            && headerWritten && envelope.payloadStream.Some?
            && bytesWritten <= bytesRead <= |Payload()|
            && buf.value == Payload()[bytesWritten..bytesRead]
            && (buf.value != "" ==> bytesRead == |Payload()|))
    }

    /** The bytes the socket has still to accept. */
    ghost function Remaining(): string
      requires Valid() && Fits()
      reads this, envelope, envelope.lead, envelope.header
    {
      if done then "" else HeadLeft() + PayloadLeft()
    }

    /** What is left of the lead and of the header block. */
    ghost function HeadLeft(): string
      requires Valid() && Fits()
      reads this, envelope, envelope.lead, envelope.header
    {
      if header.None? then
        FreezeLead(envelope.lead.View().(headerSize := |Print(envelope.header.headers)|))
        + Print(envelope.header.headers)
      else
        (if leadWritten then "" else lead.value) + (if headerWritten then "" else header.value)
    }

    ghost function PayloadLeft(): string
      requires Valid()
      reads this, envelope, envelope.lead
    {
      if buf.None? then Payload() else Payload()[bytesWritten..]
    }

    /** Freezes the header block first, for the lead records its size. */
    method FreezeHead()
      requires Valid() && Fits() && header.None?
      modifies this`header, this`lead, envelope.lead
      ensures Valid() && Fits() && header.Some? && HeadLeft() == old(HeadLeft())
      ensures PayloadLeft() == old(PayloadLeft()) && Payload() == old(Payload())
      ensures envelope.lead.msgPayloadSize == old(envelope.lead.msgPayloadSize)
      ensures envelope.lead.msgProtocol == old(envelope.lead.msgProtocol)
    {
      var block := envelope.header.Freeze();
      envelope.lead.msgHeaderSize := |block|;
      var s := envelope.lead.Freeze();
      header, lead := Some(block), Some(s);
    }

    /** Offers one part of the head; gives what is left of it. */
    static method Offer(part: string, stream: Channel) returns (left: string, ghost sent: string)
      modifies stream
      ensures stream.bytes == old(stream.bytes) + sent && |sent| + stream.room == old(stream.room)
      ensures part == sent + left && (left != "" ==> stream.room == 0)
    {
      var rc := stream.Send(part);
      sent, left := part[..rc], part[rc..];
    }

    /** Offers the lead, and once it is out the header block. */
    method SendHead(stream: Channel) returns (finished: bool, ghost sent: string)
      requires Valid() && Fits() && header.Some?
      modifies this`lead, this`header, this`leadWritten, this`headerWritten, stream
      ensures Valid() && header.Some? && PayloadLeft() == old(PayloadLeft())
      ensures stream.bytes == old(stream.bytes) + sent && |sent| + stream.room == old(stream.room)
      ensures old(HeadLeft()) == sent + HeadLeft() && (!finished ==> stream.room == 0)
      ensures finished == headerWritten == (HeadLeft() == "")
    {
      hide Print, FreezeLead, Pow256, Payload, Fits;
      sent := "";
      if !leadWritten {
        var left, now := Offer(lead.value, stream);
        Associative(now, left, header.value);
        sent := now;
        lead := Some(left);
        if left != "" {
          return false, sent;
        }
        leadWritten := true;
      }
      if !headerWritten {
        var left, now := Offer(header.value, stream);
        Associative(sent, now, left);
        Associative(old(stream.bytes), sent, now);
        sent := sent + now;
        header := Some(left);
        if left != "" {
          return false, sent;
        }
        headerWritten := true;
      }
      return true, sent;
    }

    /** Reads what is left of the payload, when nothing read before is still waiting. */
    method FillBuffer()
      requires Valid() && buf.Some?
      modifies this`buf, this`bytesRead
      ensures Valid() && buf.Some? && PayloadLeft() == old(PayloadLeft())
      ensures buf.value == "" ==> bytesWritten == |Payload()|
    {
      if buf.value == "" {
        var content := envelope.payloadStream.value;
        var end := Min(envelope.lead.msgPayloadSize, |content|);
        buf := Some(content[bytesRead..end]);
        bytesRead := end;
      }
    }

    /** Offers the payload, in pieces as long as the stream gives. */
    method SendPayload(stream: Channel) returns (finished: bool, ghost sent: string)
      requires Valid() && Fits() && headerWritten && envelope.payloadStream.Some?
      modifies this`buf, this`bytesRead, this`bytesWritten, stream
      ensures Valid() && HeadLeft() == old(HeadLeft())
      ensures stream.bytes == old(stream.bytes) + sent && |sent| + stream.room == old(stream.room)
      ensures (!finished && Supplied() ==> stream.room == 0) && (finished ==> buf.None?)
      ensures !finished ==> old(PayloadLeft()) == sent + PayloadLeft()
      ensures finished ==> old(PayloadLeft()) == sent
      ensures finished <==> old(PayloadLeft()) == sent && Supplied()
    {
      hide Print, FreezeLead, Pow256, Fits;
      sent := "";
      var payloadSize := envelope.lead.msgPayloadSize;
      if buf.None? {
        bytesRead, bytesWritten, buf := 0, 0, Some("");
        assert Payload()[0..0] == "" && Payload()[0..] == Payload();
      }
      if bytesWritten < payloadSize {
        FillBuffer();
        if buf.value == "" {
          return false, sent;
        }
        sent := OfferBuffer(stream);
      }
      if bytesWritten == payloadSize {
        buf := None;
        return true, sent;
      }
      return false, sent;
    }

    /** Offers what was read of the payload. */
    method OfferBuffer(stream: Channel) returns (ghost sent: string)
      requires Valid() && buf.Some?
      modifies this`buf, this`bytesWritten, stream
      ensures Valid() && buf.Some? && bytesRead == old(bytesRead)
      ensures stream.bytes == old(stream.bytes) + sent && |sent| + stream.room == old(stream.room)
      ensures old(PayloadLeft()) == sent + PayloadLeft() && (buf.value != "" ==> stream.room == 0)
    {
      hide Payload;
      ghost var p, b, e := Payload(), bytesWritten, bytesRead;
      var left, now := Offer(buf.value, stream);
      sent := now;
      bytesWritten := bytesWritten + (|buf.value| - |left|);
      buf := Some(left);
      TakeSlice(p, b, e, now, left);
    }

    /** Offers the socket what it has not yet accepted of the lead, then of the header
        block, then of the payload. What the socket has accepted over any sequence of
        calls is a prefix of the frame, and each call adds as much as the socket takes; the
        result is true exactly when it is all of it. */
    method Call(stream: Channel) returns (finished: bool, ghost sent: string)
      requires Valid() && Fits() && !done
      modifies this, envelope.lead, stream
      ensures Valid() && Fits() && finished == done && Supplied() == old(Supplied())
      ensures envelope.lead.msgPayloadSize == old(envelope.lead.msgPayloadSize)
      ensures envelope.lead.msgProtocol == old(envelope.lead.msgProtocol)
      ensures stream.bytes == old(stream.bytes) + sent
      ensures |sent| + stream.room == old(stream.room)
      ensures !finished && Supplied() ==> stream.room == 0
      ensures old(Remaining()) == sent + Remaining()
      ensures finished <==> Remaining() == "" && Supplied()
    {
      hide Print, FreezeLead, Pow256, HeadLeft, PayloadLeft, Payload, Fits;
      if header.None? {
        FreezeHead();
      }
      finished, sent := SendHead(stream);
      if !finished {
        return;
      }
      if envelope.payloadStream.None? {
        NoPayload();
        done := true;
        return;
      }
      ghost var tail;
      finished, tail := SendPayload(stream);
      sent := sent + tail;
      done := finished;
    }

    lemma NoPayload()
      requires Valid() && envelope.payloadStream.None?
      ensures PayloadLeft() == ""
    {
    }
  }

  lemma TakeSlice(p: string, b: nat, e: nat, now: string, left: string)
    requires b <= e <= |p| && p[b..e] == now + left
    ensures left == p[b + |now|..e] && p[b..] == now + p[b + |now|..]
  {
    assert left == (now + left)[|now|..];
    assert p[b..] == p[b..e] + p[e..];
  }

  /** A frame: the lead with protocol 1 and both sizes, the header block, the payload. */
  lemma FrameLayout(h: HeaderMap, payload: string)
    requires Frameable(h, payload)
    ensures var s, n := Frame(h, payload), 32 + |Print(h)|;
            && |s| == n + |payload|
            && ThawLead(s[..32]) == Ok(Lead(1, |Print(h)|, |payload|))
            && s[32..n] == Print(h) && s[n..] == payload
  {
    hide Print, FrameParts.ThawLead, FreezeLead;
    var l := Lead(1, |Print(h)|, |payload|);
    LeadRoundTrip(l);
    Associative(FreezeLead(l), Print(h), payload);
    CutConcat(FreezeLead(l), Print(h) + payload);
  }
}
