/** Texts sent through a pipe, each after its length; reads and writes may be short. */
module Pipes {
  import opened Wrappers
  import opened Bytes
  import opened Progress

  /** The size of a packed length: an unsigned `long`, least significant byte first. */
  const LENGTH_SIZE := 8

  /** Its length fits the packed form; packing a longer one raises an error. */
  ghost predicate Fits(text: string) {
    |text| < Pow256(LENGTH_SIZE)
  }

  function Frame(text: string): string
    requires Fits(text)
  {
    LittleEndian(|text|, LENGTH_SIZE) + text
  }

  function Frames(texts: seq<string>): string
    requires AllFit(texts)
  {
    if texts == [] then "" else
      assert texts[0] in texts && forall t | t in texts[1..] :: t in texts;
      Frame(texts[0]) + Frames(texts[1..])
  }

  ghost predicate AllFit(texts: seq<string>) {
    forall t | t in texts :: Fits(t)
  }

  /** On the wire: eight bytes of length, the least significant first, then the text; a text
      fits if its length needs no more. */
  lemma FrameLayout(text: string)
    ensures Fits(text) <==> |text| < 0x1_0000_0000_0000_0000
    ensures Fits(text) ==>
              |Frame(text)| == 8 + |text| && Frame(text)[8..] == text && FromLittleEndian(Frame(text)[..8]) == |text|
  {
    hide LittleEndian, FromLittleEndian;
    EightBytes();
    if Fits(text) {
      LittleEndianRoundTrip(|text|, 8);
      CutConcat(LittleEndian(|text|, 8), text);
    }
  }

  lemma EightBytes()
    ensures Pow256(8) == 0x1_0000_0000_0000_0000
  {
    assert Pow256(2) == 0x1_0000;
    assert Pow256(4) == 0x1_0000_0000;
    assert Pow256(6) == 0x1_0000_0000_0000;
  }

  lemma {:induction false} FramesSnoc(texts: seq<string>, t: string)
    requires AllFit(texts) && Fits(t)
    ensures AllFit(texts + [t]) && Frames(texts + [t]) == Frames(texts) + Frame(t)
  {
    hide Frame, Fits;
    if texts == [] {
      assert texts + [t] == [t] && Frames([t][1..]) == "";
    } else {
      assert forall x | x in texts[1..] :: x in texts;
      FramesSnoc(texts[1..], t);
      assert (texts + [t])[1..] == texts[1..] + [t] && (texts + [t])[0] == texts[0];
      assert AllFit(texts + [t]) && texts[0] in texts;
      Associative(Frame(texts[0]), Frames(texts[1..]), Frame(t));
    }
  }

  lemma FramesLong(texts: seq<string>)
    requires AllFit(texts)
    ensures |Frames(texts)| >= if texts == [] then 0 else LENGTH_SIZE
  {
  }

  class Pipe {
    var bytes: string
    /** The writing end is closed. */
    var closed: bool

    constructor ()
      ensures bytes == "" && !closed
    {
      bytes, closed := "", false;
    }

    /** A blocking write accepts at least one byte. */
    method Write(data: string) returns (rc: nat)
      requires data != ""
      modifies this`bytes
      ensures 0 < rc <= |data| && bytes == old(bytes) + data[..rc]
    {
      rc :| 0 < rc <= |data|;
      bytes := bytes + data[..rc];
    }

    /** A read gives at least one byte, and none only at the end of the file. */
    method Read(n: nat) returns (data: string)
      requires n > 0 && (bytes != "" || closed)
      modifies this`bytes
      ensures |data| <= n && old(bytes) == data + bytes && (data == "" <==> old(bytes) == "")
    {
      if bytes == "" {
        return "";
      }
      var k: nat :| 0 < k <= n && k <= |bytes|;
      data := bytes[..k];
      bytes := bytes[k..];
    }
  }

  class PipeReader {
    const pipe: Pipe
    var open: bool
    /** What is missing of the text being read; `None` while its length is being read. */
    var length: Option<nat>
    var buf: seq<string>
    var sizeNeeded: nat
    var sizeBuf: seq<string>

    constructor (pipe: Pipe)
      ensures this.pipe == pipe && open && length == None && buf == sizeBuf == [] && sizeNeeded == LENGTH_SIZE
    {
      this.pipe, open, length, buf, sizeNeeded, sizeBuf := pipe, true, None, [], LENGTH_SIZE, [];
    }

    /** The reader is on its way through the frames of `texts`; what is neither read nor in
        the pipe is still to come, as `later`. */
    ghost predicate Reads(texts: seq<string>, later: string)
      reads this, pipe
    {
      AllFit(texts) &&
      match length
      case None =>
        && Join(sizeBuf) + pipe.bytes + later == Frames(texts)
        && sizeNeeded > 0 && |Join(sizeBuf)| + sizeNeeded == LENGTH_SIZE
        && buf == []
      case Some(missing) =>
        && texts != [] && Join(buf) + pipe.bytes + later == texts[0] + Frames(texts[1..])
        && |Join(buf)| + missing == |texts[0]| && (missing == 0 ==> buf == [])
        && sizeBuf == [] && sizeNeeded == LENGTH_SIZE
    }

    /** A call will not block. */
    ghost predicate Ready()
      reads this, pipe
    {
      pipe.bytes != "" || pipe.closed || length == Some(0) || !open
    }

    method HandleRead(ghost texts: seq<string>, ghost later: string) returns (r: Option<string>)
      requires Reads(texts, later) && Ready()
      modifies this, pipe`bytes
      ensures if r.Some? then texts != [] && r.value == texts[0] && Reads(texts[1..], later)
              else Reads(texts, later)
      ensures old(open) && old(length) == Some(0) ==> r == Some("") && pipe.bytes == old(pipe.bytes)
      ensures old(open && pipe.bytes != "" && length != Some(0)) ==> |pipe.bytes| < |old(pipe.bytes)|
      ensures open <==> old(open && (pipe.bytes != "" || length == Some(0)))
      ensures |pipe.bytes| <= |old(pipe.bytes)|
    {
      hide Frames, AllFit;
      if !open {
        return None;
      }
      if length.Some? {
        r := ReadText(texts, later);
      } else {
        ReadLength(texts, later);
        r := None;
      }
    }

    method ReadText(ghost texts: seq<string>, ghost later: string) returns (r: Option<string>)
      requires Reads(texts, later) && Ready() && open && length.Some?
      modifies this, pipe`bytes
      ensures if r.Some? then texts != [] && r.value == texts[0] && Reads(texts[1..], later)
              else Reads(texts, later)
      ensures old(length) == Some(0) ==> r == Some("") && pipe.bytes == old(pipe.bytes)
      ensures old(pipe.bytes != "" && length != Some(0)) ==> |pipe.bytes| < |old(pipe.bytes)|
      ensures open <==> old(pipe.bytes != "" || length == Some(0))
      ensures |pipe.bytes| <= |old(pipe.bytes)|
    {
      hide Frames;
      if length.value > 0 {
        var newStr := pipe.Read(length.value);
        if newStr == "" {
          open := false;
          return None;
        }
        JoinSnoc(buf, newStr);
        length := Some(length.value - |newStr|);
        buf := buf + [newStr];
        assert Join(buf) + pipe.bytes + later == texts[0] + Frames(texts[1..]);
        if length.value > 0 {
          return None;
        }
      }
      length := None;
      r := Some(Join(buf));
      buf := [];
      WholeText(r.value, pipe.bytes + later, texts);
      assert "" + pipe.bytes + later == pipe.bytes + later;
    }

    method ReadLength(ghost texts: seq<string>, ghost later: string)
      requires Reads(texts, later) && Ready() && open && length.None?
      modifies this, pipe`bytes
      ensures Reads(texts, later)
      ensures if old(pipe.bytes) != "" then open && |pipe.bytes| < |old(pipe.bytes)| else !open && pipe.bytes == ""
    {
      hide Frames, AllFit;
      var sizeChars := pipe.Read(sizeNeeded);
      if sizeChars == "" {
        open := false;
        return;
      }
      JoinSnoc(sizeBuf, sizeChars);
      sizeBuf := sizeBuf + [sizeChars];
      assert Join(sizeBuf) + pipe.bytes + later == Frames(texts);
      if |sizeChars| < sizeNeeded {
        sizeNeeded := sizeNeeded - |sizeChars|;
      } else {
        var size := Join(sizeBuf);
        WholeLength(size, pipe.bytes + later, texts);
        sizeBuf := [];
        sizeNeeded := LENGTH_SIZE;
        length := Some(FromLittleEndian(size));
        assert "" + pipe.bytes + later == pipe.bytes + later;
      }
    }

    static lemma WholeText(text: string, rest: string, texts: seq<string>)
      requires texts != [] && AllFit(texts) && text + rest == texts[0] + Frames(texts[1..]) && |text| == |texts[0]|
      ensures text == texts[0] && rest == Frames(texts[1..]) && AllFit(texts[1..])
    {
      assert text == (text + rest)[..|text|];
      assert rest == (text + rest)[|text|..];
    }

    static lemma WholeLength(size: string, rest: string, texts: seq<string>)
      requires AllFit(texts) && size + rest == Frames(texts) && |size| == LENGTH_SIZE
      ensures texts != [] && FromLittleEndian(size) == |texts[0]| && rest == texts[0] + Frames(texts[1..])
    {
      hide Pow256, LittleEndian, FromLittleEndian;
      assert texts != [] && texts[0] in texts;
      var packed := LittleEndian(|texts[0]|, LENGTH_SIZE);
      LittleEndianRoundTrip(|texts[0]|, LENGTH_SIZE);
      Associative(packed, texts[0], Frames(texts[1..]));
      CutConcat(packed, texts[0] + Frames(texts[1..]));
      CutConcat(size, rest);
    }

    /** When nothing is left to read, every text was returned, except an empty one whose
        length was read last: that takes one more call. */
    lemma NothingLeft(texts: seq<string>)
      requires Reads(texts, "") && pipe.bytes == ""
      ensures if length == Some(0) then texts == [""] else texts == [] && length == None
    {
      FramesLong(texts);
      if length.Some? {
        assert AllFit(texts[1..]);
        FramesLong(texts[1..]);
        assert |Join(buf)| == |texts[0]| + |Frames(texts[1..])|;
      }
    }
  }

  class PipeWriter {
    const pipe: Pipe
    var open: bool
    var buf: seq<string>

    constructor (pipe: Pipe)
      ensures this.pipe == pipe && open && buf == []
    {
      this.pipe, open, buf := pipe, true, [];
    }

    ghost predicate Valid()
      reads this
    {
      forall i | 0 <= i < |buf| :: buf[i] != ""
    }

    /** Extending the list with a string adds its characters one by one. */
    method Send(text: string)
      requires Valid() && Fits(text)
      modifies this`buf
      ensures Valid() && Join(buf) == old(Join(buf)) + Frame(text)
    {
      var data := Frame(text);
      for i := 0 to |data|
        invariant Valid() && Join(buf) == old(Join(buf)) + data[..i]
      {
        JoinSnoc(buf, [data[i]]);
        buf := buf + [[data[i]]];
        assert data[..i + 1] == data[..i] + [data[i]];
      }
      assert data[..|data|] == data;
    }

    method HandleWrite()
      requires Valid() && open
      modifies this`buf, pipe`bytes
      ensures Valid() && pipe.bytes + Join(buf) == old(pipe.bytes + Join(buf))
      ensures if old(buf) == [] then buf == [] else |Join(buf)| < |old(Join(buf))|
    {
      if buf != [] {
        var rc := pipe.Write(buf[0]);
        if rc < |buf[0]| {
          buf := [buf[0][rc..]] + buf[1..];
          assert buf[1..] == old(buf)[1..];
        } else {
          buf := buf[1..];
        }
        assert old(buf)[0] == old(buf)[0][..rc] + old(buf)[0][rc..];
      }
    }

    method Close()
      modifies this`open, pipe`closed
      ensures !open && pipe.closed
    {
      open := false;
      pipe.closed := true;
    }
  }

  /** One more text is on its way. */
  lemma MoreFrames(front: string, bytes: string, later: string, texts: seq<string>, t: string)
    requires AllFit(texts) && Fits(t) && front + bytes + later == Frames(texts)
    ensures AllFit(texts + [t]) && front + bytes + (later + Frame(t)) == Frames(texts + [t])
  {
    hide Frames, Frame, AllFit, Fits;
    FramesSnoc(texts, t);
    Associative(front + bytes, later, Frame(t));
  }

  lemma MoreText(front: string, bytes: string, later: string, texts: seq<string>, t: string)
    requires texts != [] && AllFit(texts[1..]) && Fits(t) && front + bytes + later == texts[0] + Frames(texts[1..])
    ensures var more := texts + [t];
            && more[0] == texts[0] && AllFit(more[1..])
            && front + bytes + (later + Frame(t)) == more[0] + Frames(more[1..])
  {
    hide Frames, Frame, AllFit, Fits;
    FramesSnoc(texts[1..], t);
    assert (texts + [t])[1..] == texts[1..] + [t];
    Associative(front + bytes, later, Frame(t));
    Associative(texts[0], Frames(texts[1..]), Frame(t));
  }

  datatype Action = Send(text: string) | Write | Read | Close

  /** What the actions of a schedule do about what is left. */
  ghost function Acts(schedule: seq<Action>): (r: seq<Act>)
    ensures |r| == |schedule|
  {
    seq(|schedule|, i requires 0 <= i < |schedule| => ActOf(schedule[i]))
  }

  ghost function ActOf(a: Action): Act {
    match a
    case Send(text) => Add(|text| + 8, |text| + 10)
    case Write => Progress.Write
    case Read => Take
    case Close => Wait
  }

  lemma ActsSnoc(schedule: seq<Action>, a: Action)
    ensures Acts(schedule + [a]) == Acts(schedule) + [ActOf(a)] && Acts([]) == []
  {
  }

  /** As many writes as there are bytes to write, and then as many reads as there is to read,
      leave nothing. */
  lemma EnoughActions(writes: seq<Action>, takes: seq<Action>, left: Left)
    requires (forall a | a in writes :: a.Write?) && forall a | a in takes :: a.Read?
    requires |writes| >= left.backlog && |takes| >= left.unread
    ensures AtMost(Acts(writes + takes), left) == Left(0, 0)
  {
    assert Acts(writes + takes) == Acts(writes) + Acts(takes);
    forall i | 0 <= i < |writes| ensures Acts(writes)[i].Write? { assert writes[i] in writes; }
    forall i | 0 <= i < |takes| ensures Acts(takes)[i].Take? { assert takes[i] in takes; }
    EnoughIsEnough(Acts(writes), Acts(takes), left);
  }

  /** The texts a schedule sends. */
  ghost function Sent(schedule: seq<Action>): seq<string> {
    if schedule == [] then [] else
      Sent(schedule[..|schedule| - 1])
      + if schedule[|schedule| - 1].Send? then [schedule[|schedule| - 1].text] else []
  }

  /** A writer and a reader at the two ends of a pipe. */
  class Line {
    const pipe: Pipe
    const writer: PipeWriter
    const reader: PipeReader
    ghost var sent: seq<string>
    ghost var given: seq<string>

    constructor ()
      ensures Valid() && sent == [] && given == [] && fresh(pipe) && fresh(writer) && fresh(reader)
    {
      var p := new Pipe();
      pipe := p;
      writer := new PipeWriter(p);
      reader := new PipeReader(p);
      sent, given := [], [];
    }

    /** What the reader has returned is what was sent first; the rest is in its buffers, in
        the pipe and in the writer's buffer. */
    ghost predicate Valid()
      reads this, pipe, writer, reader
    {
      && writer.pipe == pipe && reader.pipe == pipe && writer.Valid()
      && given <= sent && reader.Reads(sent[|given|..], Join(writer.buf))
      && (pipe.closed <==> !writer.open) && (writer.open ==> reader.open)
    }

    /** What is left to be written; and what is left to be read, where returning a text
        counts, too, as long as there is anything to read. */
    ghost function ToDo(): Left
      requires Valid()
      reads this, pipe, writer, reader
    {
      var bytes := |Join(writer.buf)| + |pipe.bytes|;
      Left(|Join(writer.buf)|, if bytes == 0 then 0 else bytes + (|sent| - |given|))
    }

    method SendText(text: string)
      requires Valid() && Fits(text)
      modifies this`sent, writer`buf
      ensures Valid() && sent == old(sent) + [text] && given == old(given)
      ensures writer.open == old(writer.open)
      ensures Moves(ActOf(Action.Send(text)), old(ToDo()), ToDo())
    {
      hide Frames, Frame, AllFit, Fits;
      WaitsForText();
      FrameLayout(text);
      ghost var todo, later := sent[|given|..], Join(writer.buf);
      if reader.length.None? {
        MoreFrames(Join(reader.sizeBuf), pipe.bytes, later, todo, text);
      } else {
        RestFits(todo);
        MoreText(Join(reader.buf), pipe.bytes, later, todo, text);
      }
      SnocFits(todo, text);
      writer.Send(text);
      sent := sent + [text];
      assert sent[|given|..] == todo + [text];
    }

    static lemma RestFits(texts: seq<string>)
      requires AllFit(texts)
      ensures texts != [] ==> AllFit(texts[1..])
    {
    }

    static lemma SnocFits(texts: seq<string>, t: string)
      requires AllFit(texts) && Fits(t)
      ensures AllFit(texts + [t])
    {
    }

    method Write()
      requires Valid() && writer.open
      modifies writer`buf, pipe`bytes
      ensures Valid() && Moves(Progress.Write, old(ToDo()), ToDo())
    {
      hide Frames, AllFit;
      ghost var front := if reader.length.None? then Join(reader.sizeBuf) else Join(reader.buf);
      ghost var bytes, later := pipe.bytes, Join(writer.buf);
      WaitsForText();
      writer.HandleWrite();
      assert |pipe.bytes + Join(writer.buf)| == |bytes + later|;
      assert front + bytes + later == front + (bytes + later);
      assert front + pipe.bytes + Join(writer.buf) == front + (pipe.bytes + Join(writer.buf));
    }

    method Read() returns (r: Option<string>)
      requires Valid() && reader.Ready()
      modifies this`given, reader, pipe`bytes
      ensures Valid() && given == old(given) + if r.Some? then [r.value] else []
      ensures old(writer.open) ==> Moves(Take, old(ToDo()), ToDo())
    {
      hide Frames, AllFit;
      WaitsForText();
      r := reader.HandleRead(sent[|given|..], Join(writer.buf));
      if r.Some? {
        given := given + [r.value];
        assert sent[|old(given)|..][1..] == sent[|given|..];
      }
    }

    /** With nothing in the writer's buffer or in the pipe, at most an empty text is due. */
    lemma WaitsForText()
      requires Valid()
      ensures Join(writer.buf) == "" && pipe.bytes == "" ==> (reader.length == Some(0) <==> |sent| > |given|)
      ensures Join(writer.buf) == "" && pipe.bytes == "" ==> |sent| - |given| <= 1
      ensures writer.buf != [] <==> Join(writer.buf) != ""
    {
      hide Frames, AllFit, PipeReader.Reads;
      if Join(writer.buf) == "" && pipe.bytes == "" { reader.NothingLeft(sent[|given|..]); }
      if writer.buf != [] { assert writer.buf[0] != "" && Join(writer.buf) == writer.buf[0] + Join(writer.buf[1..]); }
    }

    /** Nothing is buffered or in the pipe, nor an empty text's length just read. */
    ghost predicate Drained()
      reads pipe, writer, reader
    {
      writer.buf == [] && pipe.bytes == "" && reader.length != Some(0)
    }

    /** Any order of sends, writes and reads, a read being tried only when there is something
        to see, and the writer closing whenever it likes: what was read is what was sent
        first, and all of it once nothing is on the way. As long as nobody closes, what is
        left is bounded by what the schedule did about it. */
    method Run(schedule: seq<Action>) returns (texts: seq<string>)
      requires Valid() && forall a | a in schedule && a.Send? :: Fits(a.text)
      modifies this, writer, reader, pipe
      ensures Valid() && sent == old(sent) + Sent(schedule) && given == old(given) + texts
      ensures given <= sent
      ensures Drained() ==> given == sent
      ensures old(writer.open) && (forall a | a in schedule :: !a.Close?) ==>
                && writer.open && Within(ToDo(), AtMost(Acts(schedule), old(ToDo())))
                && (AtMost(Acts(schedule), old(ToDo())).unread == 0 ==> given == sent || given + [""] == sent)
    {
      hide Frames, AllFit, PipeReader.Reads, Fits, Acts, ActOf, AtMost, Bound, Moves;
      texts := [];
      ghost var left, stays := ToDo(), writer.open && forall a | a in schedule :: !a.Close?;
      ActsSnoc([], Action.Read);
      AtMostSnoc([], Take, left);
      for i := 0 to |schedule|
        invariant Valid() && sent == old(sent) + Sent(schedule[..i]) && given == old(given) + texts
        invariant stays ==> writer.open && Within(ToDo(), AtMost(Acts(schedule[..i]), left))
      {
        assert schedule[..i + 1][..i] == schedule[..i];
        ghost var was, seen := ToDo(), AtMost(Acts(schedule[..i]), left);
        TakeNext(schedule, i);
        ActsSnoc(schedule[..i], schedule[i]);
        AtMostSnoc(Acts(schedule[..i]), ActOf(schedule[i]), left);
        assert schedule[i] in schedule;
        var more := Perform(schedule[i]);
        Associative(old(given), texts, more);
        texts := texts + more;
        if stays { StaysWithin(ActOf(schedule[i]), was, ToDo(), seen); }
      }
      assert schedule[..|schedule|] == schedule;
      AllGiven();
    }

    /** One action; a read is tried only when there is something to see. */
    method Perform(a: Action) returns (texts: seq<string>)
      requires Valid() && (a.Send? ==> Fits(a.text))
      modifies this, writer, reader, pipe
      ensures Valid() && sent == old(sent) + if a.Send? then [a.text] else []
      ensures given == old(given) + texts
      ensures old(writer.open) && !a.Close? ==> writer.open && Moves(ActOf(a), old(ToDo()), ToDo())
      ensures a.Close? ==> !writer.open && pipe.closed
    {
      hide Frames, AllFit, PipeReader.Reads, Fits;
      texts := [];
      match a
      case Send(text) =>
        SendText(text);
      case Write =>
        if writer.open && writer.buf != [] {
          Write();
        } else {
          WaitsForText();
        }
      case Read =>
        if reader.open && (pipe.bytes != "" || pipe.closed) {
          var r := Read();
          if r.Some? { texts := [r.value]; }
        }
      case Close =>
        Close();
    }

    lemma AllGiven()
      requires Valid()
      ensures Drained() ==> given == sent
      ensures writer.open && ToDo().unread == 0 ==> given == sent || given + [""] == sent
    {
      hide Frames, AllFit, PipeReader.Reads;
      if Join(writer.buf) == "" && pipe.bytes == "" {
        reader.NothingLeft(sent[|given|..]);
        assert sent == given + sent[|given|..];
      }
    }

    method Close()
      requires Valid()
      modifies writer`open, pipe`closed
      ensures Valid() && !writer.open && pipe.closed
    {
      writer.Close();
    }
  }
}
