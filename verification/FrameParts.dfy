/** The framing of bus messages: a 32-byte lead, a text header block and a payload. Writer
    and reader are resumable: a call moves as many bytes as the socket takes or gives,
    and the object remembers where it stopped. */
module FrameParts {
  import opened Wrappers
  import opened Bytes
  import opened Headers

  /** One direction of a connected socket: the bytes accepted and not yet received, and how
      many more the socket takes at present. */
  class Channel {
    var bytes: string
    var room: nat

    constructor ()
      ensures bytes == "" && room == 0
    {
      bytes, room := "", 0;
    }

    /** A non-blocking send accepts as much of the data as there is room for. */
    method Send(data: string) returns (rc: nat)
      modifies this
      ensures rc == if old(room) < |data| then old(room) else |data|
      ensures rc <= |data| && bytes == old(bytes) + data[..rc] && room == old(room) - rc
    {
      rc := if room < |data| then room else |data|;
      bytes, room := bytes + data[..rc], room - rc;
    }

    /** A receive on a readable socket gives at least one byte, and at most `n`. */
    method Recv(n: nat) returns (data: string)
      requires n > 0 && bytes != ""
      modifies this
      ensures 0 < |data| <= n && old(bytes) == data + bytes && room == old(room)
    {
      var k: nat :| 0 < k <= n && k <= |bytes|;
      data := bytes[..k];
      bytes := bytes[k..];
    }
  }

  // ---- the lead ----

  const LEAD_SIZE := 32

  const MAGIC := "\U{be}\U{eb}\U{ab}\U{ba}\U{4}\0\0\0\0\0\0\0\0"

  datatype Lead = Lead(protocol: nat, headerSize: nat, payloadSize: nat) {
    predicate Fits() {
      protocol < Pow256(2) && headerSize < Pow256(4) && payloadSize < Pow256(4)
    }
  }

  /** A frozen stream set: for each field its tag, the length of its value, and the value. */
  function FreezeFields(l: Lead): (s: string)
    requires l.Fits()
    ensures |s| == 19
  {
    "\0" + BigEndian(2, 2) + BigEndian(l.protocol, 2)
    + "\U{5}" + BigEndian(4, 2) + BigEndian(l.headerSize, 4)
    + "\U{6}" + BigEndian(4, 2) + BigEndian(l.payloadSize, 4)
  }

  function FreezeLead(l: Lead): (s: string)
    requires l.Fits()
    ensures |s| == LEAD_SIZE
  {
    MAGIC + FreezeFields(l)
  }

  function ThawLead(s: string): Result<Lead, ReadError>
    requires |s| == LEAD_SIZE
  {
    if s[..13] != MAGIC then Err(BadMagic) else
      var b := s[13..];
      var l := Lead(FromBigEndian(b[3..5]), FromBigEndian(b[8..12]), FromBigEndian(b[15..19]));
      if l.Fits() && FreezeFields(l) == b then Ok(l) else Err(BadLead)
  }

  lemma LeadRoundTrip(l: Lead)
    requires l.Fits()
    ensures ThawLead(FreezeLead(l)) == Ok(l)
  {
    hide BigEndian, FromBigEndian, Pow256;
    var s := FreezeLead(l);
    var b := FreezeFields(l);
    assert s[..13] == MAGIC && s[13..] == b;
    assert b[3..5] == BigEndian(l.protocol, 2);
    assert b[8..12] == BigEndian(l.headerSize, 4);
    assert b[15..19] == BigEndian(l.payloadSize, 4);
    BigEndianRoundTrip(l.protocol, 2);
    BigEndianRoundTrip(l.headerSize, 4);
    BigEndianRoundTrip(l.payloadSize, 4);
  }

  class PLead {
    var msgProtocol: nat
    var msgHeaderSize: nat
    var msgPayloadSize: nat
    var incomplete: Option<string>

    constructor ()
      ensures View() == Lead(1, 0, 0) && Pending() == ""
    {
      msgProtocol, msgHeaderSize, msgPayloadSize := 1, 0, 0;
      incomplete := None;
    }

    function View(): Lead
      reads this
    {
      Lead(msgProtocol, msgHeaderSize, msgPayloadSize)
    }

    /** The bytes of an unfinished lead. */
    function Pending(): string
      reads this
    {
      if incomplete.Some? then incomplete.value else ""
    }

    method Freeze() returns (s: string)
      requires View().Fits()
      ensures s == FreezeLead(View())
    {
      s := FreezeLead(View());
    }

    method ThawFromStream(stream: Channel) returns (r: Result<bool, ReadError>, ghost chunk: string)
      requires |Pending()| < LEAD_SIZE && stream.bytes != ""
      modifies this, stream
      ensures old(stream.bytes) == chunk + stream.bytes && stream.room == old(stream.room)
      ensures 0 < |chunk| <= LEAD_SIZE - |old(Pending())|
      ensures var all := old(Pending()) + chunk;
              if |all| < LEAD_SIZE then
                r == Ok(false) && Pending() == all && View() == old(View())
              else match ThawLead(all)
                case Err(e) => r == Err(e)
                case Ok(l) => r == Ok(true) && Pending() == "" && View() == l
    {
      var data := Pending();
      var more := stream.Recv(LEAD_SIZE - |data|);
      chunk := more;
      data := data + more;
      if |data| != LEAD_SIZE {
        incomplete := Some(data);
        return Ok(false), chunk;
      }
      incomplete := None;
      match ThawLead(data)
      case Err(e) =>
        r := Err(e);
      case Ok(l) =>
        msgProtocol, msgHeaderSize, msgPayloadSize := l.protocol, l.headerSize, l.payloadSize;
        r := Ok(true);
    }
  }

  // ---- the header block ----

  class PHeader {
    var headers: HeaderMap
    var buf: Option<seq<string>>
    var bytesRead: nat
    var frozenSize: nat
    /** The bytes of the current block received so far. */
    ghost var consumed: string

    constructor ()
      ensures headers == map[] && buf == None && Valid()
    {
      headers, buf, bytesRead, frozenSize, consumed := map[], None, 0, 0, "";
    }

    /** In the middle of a block: the pieces kept are its unfinished line, and the headers
        are those of its complete lines. */
    ghost predicate Valid()
      reads this
    {
      buf.Some? ==>
        && bytesRead == |consumed|
        && Join(buf.value) == Tail(consumed)
        && (buf.value == [] <==> Tail(consumed) == "")
        && ReadLines(map[], Lines(consumed)) == Ok(headers)
    }

    static lemma NothingPrinted(h: HeaderMap, key: string)
      ensures PrintItems(key, []) == "" && PrintKeys(h, []) == ""
    {
    }

    /** One line for each item of a header. */
    static method FreezeItems(key: string, items: seq<string>) returns (s: string)
      ensures s == PrintItems(key, items)
    {
      hide PrintItems;
      s := "";
      assert PrintItems(key, items[..0]) == "" by { NothingPrinted(map[], key); }
      for j := 0 to |items|
        invariant s == PrintItems(key, items[..j])
      {
        s := s + key + ": " + items[j] + "\n";
        PrintItemsSnoc(key, items[..j], items[j]);
        TakeNext(items, j);
      }
      assert items[..|items|] == items;
    }

    /** Prints the headers: keys in their fixed order, the items of a list sorted. */
    method Freeze() returns (s: string)
      ensures s == Print(headers)
    {
      hide PrintKeys, PrintItems, SortStrings, SortKeys;
      s := "";
      var h := headers;
      var keys := SortKeys(h.Keys);
      assert PrintKeys(h, keys[..0]) == "" by { NothingPrinted(h, ""); }
      for i := 0 to |keys|
        invariant s == PrintKeys(h, keys[..i])
      {
        var more := FreezeItems(keys[i], SortStrings(Items(h[keys[i]])));
        s := s + more;
        PrintKeysSnoc(h, keys[..i], keys[i]);
        TakeNext(keys, i);
      }
      assert keys[..|keys|] == keys;
    }

    method ReadLine(line: string) returns (r: Result<(), ReadError>)
      modifies `headers
      ensures match Headers.ReadLine(old(headers), line)
              case Ok(h) => r == Ok(()) && headers == h
              case Err(e) => r == Err(e) && headers == old(headers)
    {
      match Headers.ReadLine(headers, line)
      case Ok(h) =>
        headers := h;
        r := Ok(());
      case Err(e) =>
        r := Err(e);
    }

    /** Reads every line that `data` completes, and returns the pieces of the unfinished
        one; `all` is the block so far, `data` included. */
    method TakeLines(kept: seq<string>, more: string, ghost all: string)
      returns (r: Result<seq<string>, ReadError>)
      requires '\n' !in Join(kept) && (kept == [] <==> Join(kept) == "")
      requires Reading(all, headers, Join(kept) + more)
      modifies `headers
      ensures r.Err? ==> ReadLines(map[], Lines(all)) == Err(r.error)
      ensures r.Ok? ==> ReadLines(map[], Lines(all)) == Ok(headers)
      ensures r.Ok? ==> Join(r.value) == Tail(all) && (r.value == [] <==> Tail(all) == "")
    {
      hide Find, Reading, ReadLines, Lines, Tail;
      var pieces, data := kept, more;
      var idx := Find(data, '\n');
      while idx < |data|
        invariant idx == Find(data, '\n')
        invariant '\n' !in Join(pieces) && (pieces == [] <==> Join(pieces) == "")
        invariant Reading(all, headers, Join(pieces) + data)
        decreases |data|
      {
        var line := Join(pieces + [data[..idx]]);
        JoinSnoc(pieces, data[..idx]);
        TakeLine(all, headers, Join(pieces), data);
        pieces := [];
        var ok := ReadLine(line);
        if ok.Err? {
          return Err(ok.error);
        }
        data := data[idx + 1..];
        idx := Find(data, '\n');
        assert Join(pieces) + data == data;
      }
      StopReading(all, headers, Join(pieces) + data);
      if data != "" {
        JoinSnoc(pieces, data);
        pieces := pieces + [data];
      } else {
        assert Join(pieces) + data == Join(pieces);
      }
      return Ok(pieces);
    }

    /** What was consumed before this call: nothing when a new block starts. */
    ghost function Before(): string
      reads this
    {
      if buf.None? then "" else consumed
    }

    /** Takes one piece of the block. However the block is cut, the headers are in the end
        those of reading it at once, and an error is the error of reading it at once. */
    method ThawFromStream(stream: Channel) returns (r: Result<bool, ReadError>, ghost chunk: string)
      requires Valid() && |Before()| <= frozenSize
      requires frozenSize > 0 ==> |Before()| < frozenSize && stream.bytes != ""
      modifies this, stream
      ensures frozenSize == old(frozenSize)
      ensures old(stream.bytes) == chunk + stream.bytes && stream.room == old(stream.room)
      ensures frozenSize == 0 ==> chunk == "" && r == Ok(true) && headers == old(headers) && buf == old(buf)
      ensures frozenSize > 0 ==> 0 < |chunk| <= frozenSize - |old(Before())|
      ensures frozenSize > 0 ==> consumed == old(Before()) + chunk
      ensures frozenSize > 0 && r == Ok(false) ==> Valid() && buf.Some? && |consumed| < frozenSize
      ensures frozenSize > 0 && r == Ok(true) ==>
                buf.None? && |consumed| == frozenSize && ReadBlock(consumed) == Ok(headers)
      ensures r.Err? ==> BlockError(consumed, frozenSize, r.error)
    {
      chunk := "";
      if frozenSize == 0 {
        return Ok(true), chunk;
      }
      if buf.None? {
        buf := Some([]);
        bytesRead := 0;
        headers := map[];
        consumed := "";
      }
      var data := stream.Recv(frozenSize - bytesRead);
      chunk := data;
      ResumeReading(consumed, headers, data);
      consumed := consumed + data;
      bytesRead := bytesRead + |data|;
      var pieces := TakeLines(buf.value, data, consumed);
      if pieces.Err? {
        return Err(pieces.error), chunk;
      }
      buf := Some(pieces.value);
      if bytesRead == frozenSize {
        if pieces.value != [] {
          return Err(UnfinishedLine), chunk;
        }
        buf := None;
        bytesRead := 0;
        return Ok(true), chunk;
      }
      return Ok(false), chunk;
    }
  }

  /** The first `|part|` bytes of a block of the given size make the reader fail. */
  ghost predicate BlockError(part: string, size: nat, e: ReadError) {
    || ReadLines(map[], Lines(part)) == Err(e)
    || (|part| == size && ReadBlock(part) == Err(e))
  }

  /** Reading `all` from scratch is the same as reading `rest` into the headers `h`. */
  ghost predicate Reading(all: string, h: HeaderMap, rest: string) {
    ReadLines(map[], Lines(all)) == ReadLines(h, Lines(rest)) && Tail(all) == Tail(rest)
  }

  lemma ResumeReading(all: string, h: HeaderMap, data: string)
    requires ReadLines(map[], Lines(all)) == Ok(h)
    ensures Reading(all + data, h, Tail(all) + data) && '\n' !in Tail(all)
  {
    LinesConcat(all, data);
    ReadLinesConcat(map[], Lines(all), Lines(Tail(all) + data));
  }

  lemma TakeLine(all: string, h: HeaderMap, kept: string, data: string)
    requires Reading(all, h, kept + data) && '\n' !in kept && '\n' in data
    ensures var i := Find(data, '\n');
            var r := Headers.ReadLine(h, kept + data[..i]);
            if r.Ok? then Reading(all, r.value, data[i + 1..])
            else ReadLines(map[], Lines(all)) == Err(r.error)
  {
    var i := Find(data, '\n');
    var line, rest := kept + data[..i], data[i + 1..];
    CutAt(kept, data, i);
    OneLine(line, rest);
    ReadLinesCons(h, line, Lines(rest));
  }

  lemma CutAt(kept: string, data: string, i: nat)
    requires i < |data| && data[i] == '\n'
    ensures kept + data == kept + data[..i] + "\n" + data[i + 1..]
  {
  }

  lemma ReadLinesCons(h: HeaderMap, line: string, lines: seq<string>)
    ensures ReadLines(h, [line] + lines) == ThenRead(Headers.ReadLine(h, line), lines)
  {
    var ls := [line] + lines;
    assert ls[0] == line && ls[1..] == lines;
  }

  lemma StopReading(all: string, h: HeaderMap, rest: string)
    requires Reading(all, h, rest) && '\n' !in rest
    ensures ReadLines(map[], Lines(all)) == Ok(h) && Tail(all) == rest
    ensures ReadBlock(all) == if rest == "" then Ok(h) else Err(UnfinishedLine)
  {
  }

  // ---- what the lead looks like on the wire ----

  /** The 32 bytes of a lead: thirteen fixed ones; then the protocol, the size of the header
      block and the size of the payload, each after its tag and its length, the most
      significant byte first. */
  lemma LeadLayout(l: Lead)
    requires l.Fits()
    ensures var s := FreezeLead(l);
            && |s| == 32
            && s[..13] == "\U{be}\U{eb}\U{ab}\U{ba}\U{4}\0\0\0\0\0\0\0\0"
            && s[13..16] == "\0\0\U{2}" && s[16..18] == BigEndian(l.protocol, 2)
            && s[18..21] == "\U{5}\0\U{4}" && s[21..25] == BigEndian(l.headerSize, 4)
            && s[25..28] == "\U{6}\0\U{4}" && s[28..32] == BigEndian(l.payloadSize, 4)
  {
    hide BigEndian;
    ShortLengths();
  }

  lemma FitsExactly(l: Lead)
    ensures l.Fits() <==> l.protocol < 0x1_0000 && l.headerSize < 0x1_0000_0000 && l.payloadSize < 0x1_0000_0000
  {
    assert Pow256(0) == 1 && Pow256(1) == 0x100 && Pow256(2) == 0x1_0000;
    assert Pow256(3) == 0x100_0000 && Pow256(4) == 0x1_0000_0000;
  }

  lemma ShortLengths()
    ensures BigEndian(2, 2) == "\0\U{2}" && BigEndian(4, 2) == "\0\U{4}"
  {
    assert Pow256(1) == 256 && Pow256(0) == 1;
    assert BigEndian(2, 1) == "\U{2}" && BigEndian(4, 1) == "\U{4}";
  }

  /** A lead is read exactly when it is one that can be printed; else it raises. */
  lemma ThawedExactly(s: string, l: Lead)
    requires |s| == 32
    ensures ThawLead(s) == Ok(l) <==> l.Fits() && FreezeLead(l) == s
    ensures s[..13] != MAGIC <==> ThawLead(s) == Err(BadMagic)
  {
    hide BigEndian, FromBigEndian, Pow256, FreezeFields;
    if l.Fits() && FreezeLead(l) == s { LeadRoundTrip(l); }
    assert s == s[..13] + s[13..];
  }
}
