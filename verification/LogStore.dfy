/** The log of one trove's build: a plain file to follow while it is written, a compressed
    one to keep, and clients that poll with the mark the last poll returned. Every file
    operation is one step; polls and writes interleave in any way. */
module LogStore {
  import opened Wrappers
  import opened Bytes

  /** Where the writer is. */
  datatype Writer =
    | Idle
    | Created
    | Copying(done: nat)
    | Open
    | HalfWritten(data: string)
    | PlainClosed
    | GzClosed

  /** Where a poll is. A file opened stays readable after it is unlinked. */
  datatype Poll =
    | Resting
    | NoPlain
    | HoldsPlain(file: nat)
    | HoldsGz
    | Raised

  /** `plains` are the contents of all the plain files there ever were; the newest is the
      one the path names, when it names one. `gz` is what the compressed file holds, and
      `buffered` what is yet to be flushed to it. `log` is all that was ever written;
      `got` and `mark` are what the client has read, from `start` on. */
  datatype State = State(
    writer: Writer, plains: seq<string>, named: bool, gz: Option<string>, buffered: string, log: string,
    poll: Poll, mark: int, start: nat, got: string)
  {
    ghost predicate HasPlain() { named && plains != [] }

    function Plain(): string
      requires plains != []
    {
      plains[|plains| - 1]
    }

    function WithPlain(text: string): State
      requires plains != []
    {
      this.(plains := plains[|plains| - 1 := text])
    }

    function Gz(): string {
      if gz.Some? then gz.value else ""
    }
  }

  datatype Step =
    | CreatePlain
    | LookForGz
    | CopyChunk(size: nat)
    | OpenGz
    | WritePlain(data: string)
    | WriteGz
    | FlushGz(size: nat)
    | ClosePlain
    | CloseGz
    | Unlink
    | TryPlain
    | TryGz
    | Read
    | ReadTorn        // the compressed file is being extended, and its end is no whole block
    | PollAgain

  /** What `seek` and `read` give on a plain file: the data, and the position afterwards. */
  function ReadPlain(content: string, mark: int): (string, nat) {
    var pos := if mark >= 0 then mark else if |content| + mark > 0 then |content| + mark else 0;
    if pos <= |content| then (content[pos..], |content|) else ("", pos)
  }

  /** A compressed file is read up to the mark, and no further than its end; seeking from
      the end is refused. */
  function ReadGz(content: string, mark: int): Option<(string, nat)> {
    if mark < 0 then None
    else if mark <= |content| then Some((content[mark..], |content|))
    else Some(("", |content|))
  }

  /** The client takes what a poll returned. */
  function Took(s: State, r: (string, nat), begin: nat): State {
    s.(poll := Resting, got := s.got + r.0, mark := r.1, start := if s.mark < 0 then begin else s.start)
  }

  ghost predicate Next(s: State, step: Step, t: State) {
    match step
    // -- opening the log for writing
    case CreatePlain =>
      && s.writer == Idle
      && t == (if s.HasPlain() then s else s.(plains := s.plains + [""], named := true)).(writer := Created)
    case LookForGz =>
      && s.writer == Created && s.plains != []
      && t == s.(writer := if s.gz.Some? && s.Plain() == "" then Copying(0) else Copying(|s.Gz()|))
    case CopyChunk(size) =>
      && s.writer.Copying? && s.plains != [] && 0 < size && s.writer.done + size <= |s.Gz()|
      && t == s.WithPlain(s.Plain() + s.Gz()[s.writer.done..s.writer.done + size])
               .(writer := Copying(s.writer.done + size))
    case OpenGz =>
      && s.writer == Copying(|s.Gz()|)
      && t == s.(gz := Some(s.Gz()), writer := Open)
    // -- writing
    case WritePlain(data) =>
      && s.writer == Open && s.plains != []
      && t == s.WithPlain(s.Plain() + data).(log := s.log + data, writer := HalfWritten(data))
    case WriteGz =>
      && s.writer.HalfWritten?
      && t == s.(buffered := s.buffered + s.writer.data, writer := Open)
    case FlushGz(size) =>
      && s.gz.Some? && size <= |s.buffered|
      && t == s.(gz := Some(s.gz.value + s.buffered[..size]), buffered := s.buffered[size..])
    // -- closing
    case ClosePlain =>
      && s.writer == Open
      && t == s.(writer := PlainClosed)
    case CloseGz =>
      && s.writer == PlainClosed
      && t == s.(gz := Some(s.Gz() + s.buffered), buffered := "", writer := GzClosed)
    case Unlink =>
      && s.writer == GzClosed
      && t == s.(named := false, writer := Idle)
    // -- polling
    case TryPlain =>
      && s.poll == Resting
      && t == s.(poll := if s.HasPlain() then HoldsPlain(|s.plains| - 1) else NoPlain)
    case TryGz =>
      && s.poll == NoPlain
      && t == if s.gz.Some? then s.(poll := HoldsGz) else Took(s, ("", 0), 0)
    case ReadTorn =>
      && s.poll == HoldsGz && s.writer != Idle
      && t == s.(poll := Raised)
    case PollAgain =>
      && s.poll == Raised
      && t == s.(poll := Resting)
    case Read =>
      match s.poll
      case HoldsPlain(i) =>
        && i < |s.plains|
        && var r := ReadPlain(s.plains[i], s.mark);
           t == Took(s, r, if |r.0| <= |s.plains[i]| then |s.plains[i]| - |r.0| else 0)
      case HoldsGz =>
        var r := ReadGz(s.Gz(), s.mark);
        t == if r.Some? then Took(s, r.value, 0) else s.(poll := Raised)
      case _ => false
  }

  predicate Polls(step: Step) {
    step.TryPlain? || step.TryGz? || step.Read? || step.ReadTorn? || step.PollAgain?
  }

  ghost predicate Prefix(a: string, b: string) {
    |a| <= |b| && a == b[..|a|]
  }

  /** The two files, as far as the writer got. */
  ghost predicate FilesInv(s: State) {
    && (s.writer == Idle <==> !s.named) && (s.named ==> s.plains != [])
    && (forall i | 0 <= i < |s.plains| :: Prefix(s.plains[i], s.log))
    && (match s.writer
        case Idle => s.Gz() == s.log && s.buffered == ""
        case Created => s.Gz() == s.log && s.buffered == "" && s.Plain() == ""
        case Copying(done) => s.Gz() == s.log && s.buffered == "" && done <= |s.log| && s.Plain() == s.log[..done]
        case Open => s.gz.Some? && s.gz.value + s.buffered == s.log && s.Plain() == s.log
        case HalfWritten(data) => s.gz.Some? && s.gz.value + s.buffered + data == s.log && s.Plain() == s.log
        case PlainClosed => s.gz.Some? && s.gz.value + s.buffered == s.log && s.Plain() == s.log
        case GzClosed => s.gz.Some? && s.gz.value == s.log && s.buffered == "" && s.Plain() == s.log)
  }

  /** What the client has is the log from `start` to its mark. */
  ghost predicate ClientInv(s: State) {
    && (if s.mark < 0 then s.got == ""
        else s.start <= s.mark <= |s.log| && s.got == s.log[s.start..s.mark])
    && (s.poll.HoldsPlain? ==> s.poll.file < |s.plains|)
    && (s.poll == NoPlain || s.poll == HoldsGz ==> s.mark <= |s.Gz()|)
    && (s.poll == HoldsGz ==> s.gz.Some?)
  }

  ghost predicate Inv(s: State) {
    FilesInv(s) && ClientInv(s)
  }

  /** The writer only adds: to the log, to each file; and the client sees none of it. */
  lemma WriterOnlyAdds(s: State, step: Step, t: State)
    requires FilesInv(s) && Next(s, step, t) && !Polls(step)
    ensures Prefix(s.log, t.log) && Prefix(s.Gz(), t.Gz()) && (s.gz.Some? ==> t.gz.Some?)
    ensures |s.plains| <= |t.plains|
    ensures t.poll == s.poll && t.mark == s.mark && t.start == s.start && t.got == s.got
  {
  }

  lemma CopyFiles(s: State, size: nat, t: State)
    requires FilesInv(s) && Next(s, CopyChunk(size), t)
    ensures FilesInv(t)
  {
    var done := s.writer.done;
    assert s.log[..done] + s.log[done..done + size] == s.log[..done + size];
    assert t.Plain() == s.log[..done + size];
  }

  lemma WriteFiles(s: State, data: string, t: State)
    requires FilesInv(s) && Next(s, WritePlain(data), t)
    ensures FilesInv(t)
  {
    assert t.Plain() == t.log;
    assert forall i | 0 <= i < |s.plains| :: Prefix(s.plains[i], t.log);
  }

  lemma WriteGzFiles(s: State, t: State)
    requires FilesInv(s) && Next(s, WriteGz, t)
    ensures FilesInv(t)
  {
    Associative(s.gz.value, s.buffered, s.writer.data);
    assert t.Plain() == s.Plain();
  }

  lemma FlushGzFiles(s: State, size: nat, t: State)
    requires FilesInv(s) && Next(s, FlushGz(size), t)
    ensures FilesInv(t)
  {
    var a, b := s.buffered[..size], s.buffered[size..];
    assert s.buffered == a + b;
    Associative(s.gz.value, a, b);
    assert t.gz.value + t.buffered == s.gz.value + s.buffered;
    assert t.named ==> t.Plain() == s.Plain();
    if s.buffered == "" { assert t.gz.value == s.gz.value && t.buffered == ""; }
  }

  lemma CloseGzFiles(s: State, t: State)
    requires FilesInv(s) && Next(s, CloseGz, t)
    ensures FilesInv(t)
  {
    assert t.Plain() == s.Plain();
  }

  lemma NextFiles(s: State, step: Step, t: State)
    requires FilesInv(s) && Next(s, step, t)
    ensures FilesInv(t)
  {
    hide Next, FilesInv;
    match step
    case CopyChunk(size) => CopyFiles(s, size, t);
    case WritePlain(data) => WriteFiles(s, data, t);
    case WriteGz => WriteGzFiles(s, t);
    case FlushGz(size) => FlushGzFiles(s, size, t);
    case CloseGz => CloseGzFiles(s, t);
    case _ => if Polls(step) { PollFiles(s, step, t); } else { OtherFiles(s, step, t); }
  }

  /** A poll leaves the files alone. */
  lemma PollFiles(s: State, step: Step, t: State)
    requires FilesInv(s) && Next(s, step, t) && Polls(step)
    ensures FilesInv(t)
  {
    assert t.writer == s.writer && t.plains == s.plains && t.named == s.named && t.gz == s.gz
           && t.buffered == s.buffered && t.log == s.log;
  }

  lemma OtherFiles(s: State, step: Step, t: State)
    requires FilesInv(s) && Next(s, step, t)
    requires step.CreatePlain? || step.LookForGz? || step.OpenGz? || step.ClosePlain? || step.Unlink?
    ensures FilesInv(t)
  {
  }

  lemma PrefixSlices(c: string, log: string, start: nat, mark: nat)
    requires Prefix(c, log) && start <= mark <= |c|
    ensures log[start..mark] + c[mark..] == log[start..|c|]
  {
  }

  lemma NextClient(s: State, step: Step, t: State)
    requires FilesInv(s) && ClientInv(s) && Next(s, step, t)
    ensures ClientInv(t)
  {
    hide FilesInv;
    if Polls(step) {
      PollClient(s, step, t);
    } else {
      WriterOnlyAdds(s, step, t);
    }
  }

  lemma PollClient(s: State, step: Step, t: State)
    requires FilesInv(s) && ClientInv(s) && Next(s, step, t) && Polls(step)
    ensures ClientInv(t)
  {
    hide ReadPlain, ReadGz, Took;
    if step.Read? {
      if s.poll.HoldsPlain? { PlainRead(s, t); } else { GzRead(s, t); }
    } else if step.TryGz? {
      GzTried(s, t);
    } else {
      assert t.log == s.log && t.got == s.got && t.mark == s.mark && t.start == s.start;
      if step.TryPlain? { PlainTried(s); }
    }
  }

  lemma PlainTried(s: State)
    requires FilesInv(s) && ClientInv(s)
    ensures !s.HasPlain() ==> s.mark <= |s.Gz()|
  {
  }

  lemma GzTried(s: State, t: State)
    requires FilesInv(s) && ClientInv(s) && Next(s, TryGz, t)
    ensures ClientInv(t)
  {
  }

  lemma PlainRead(s: State, t: State)
    requires FilesInv(s) && ClientInv(s) && s.poll.HoldsPlain? && Next(s, Read, t)
    ensures ClientInv(t)
  {
    var c := s.plains[s.poll.file];
    assert Prefix(c, s.log);
    ReadTakes(s, c, t);
  }

  lemma GzRead(s: State, t: State)
    requires FilesInv(s) && ClientInv(s) && s.poll.HoldsGz? && Next(s, Read, t)
    ensures ClientInv(t)
  {
    assert Prefix(s.Gz(), s.log);
    if s.mark >= 0 { PrefixSlices(s.Gz(), s.log, s.start, s.mark); }
  }

  lemma ReadTakes(s: State, c: string, t: State)
    requires Prefix(c, s.log) && ClientInv(s)
    requires var r := ReadPlain(c, s.mark);
             t == Took(s, r, if |r.0| <= |c| then |c| - |r.0| else 0)
    ensures ClientInv(t)
  {
    if 0 <= s.mark <= |c| { PrefixSlices(c, s.log, s.start, s.mark); }
  }

  lemma NextInv(s: State, step: Step, t: State)
    requires Inv(s) && Next(s, step, t)
    ensures Inv(t)
  {
    hide FilesInv, ClientInv, Next;
    NextFiles(s, step, t);
    NextClient(s, step, t);
  }

  // ---- whole runs ----

  /** No log yet; a client about to poll, from the beginning or from so far before the end. */
  ghost predicate Init(s: State) {
    && s.writer == Idle && s.plains == [] && !s.named && s.gz == None && s.buffered == "" && s.log == ""
    && s.poll == Resting && s.mark <= 0 && s.start == 0 && s.got == ""
  }

  ghost predicate Run(states: seq<State>, steps: seq<Step>) {
    && |states| == |steps| + 1 && Init(states[0])
    && forall i | 0 <= i < |steps| :: Next(states[i], steps[i], states[i + 1])
  }

  /** All that was written, one write after the other. */
  function Written(steps: seq<Step>): string {
    if steps == [] then "" else
      var last := steps[|steps| - 1];
      Written(steps[..|steps| - 1]) + if last.WritePlain? then last.data else ""
  }

  lemma LogGrows(s: State, step: Step, t: State)
    requires Next(s, step, t)
    ensures t.log == s.log + if step.WritePlain? then step.data else ""
    ensures s.mark >= 0 ==> t.start == s.start && t.mark >= 0
  {
    assert s.log + "" == s.log;
  }

  lemma {:induction false} RunInv(states: seq<State>, steps: seq<Step>)
    requires Run(states, steps)
    ensures Inv(states[|steps|]) && states[|steps|].log == Written(steps)
    ensures states[0].mark == 0 ==> states[|steps|].mark >= 0 && states[|steps|].start == 0
    decreases |steps|
  {
    hide Next, ClientInv, FilesInv;
    var n := |steps|;
    if n == 0 {
      InitInv(states[0]);
    } else {
      RunInv(states[..n], steps[..n - 1]);
      NextInv(states[n - 1], steps[n - 1], states[n]);
      LogGrows(states[n - 1], steps[n - 1], states[n]);
    }
  }

  lemma InitInv(s: State)
    requires Init(s)
    ensures Inv(s)
  {
  }

  /** A client that polls from mark 0 with every mark it is given has, at any time, exactly
      the beginning of what was written: nothing is skipped and nothing comes twice, even
      when files come and go between and during its polls. */
  lemma NoGapNoRepeat(states: seq<State>, steps: seq<Step>)
    requires Run(states, steps) && states[0].mark == 0
    ensures var s := states[|steps|];
            0 <= s.mark <= |Written(steps)| && s.got == Written(steps)[..s.mark]
  {
    RunInv(states, steps);
  }

  /** Between writes the plain file holds all that was written, and so does the compressed
      file with what is buffered for it; between sessions the compressed file does alone. */
  lemma BothHoldTheLog(states: seq<State>, steps: seq<Step>)
    requires Run(states, steps)
    ensures var s := states[|steps|];
            && (s.writer == Open ==>
                  s.HasPlain() && s.Plain() == Written(steps) && s.gz.Some? && s.gz.value + s.buffered == Written(steps))
            && (s.writer == Idle ==> !s.HasPlain() && s.Gz() == Written(steps))
  {
    RunInv(states, steps);
  }

  /** A poll between sessions brings the client up to date: after it, it has everything. */
  lemma PollCatchesUp(s: State, a: State, b: State, c: State)
    requires Inv(s) && s.writer == Idle && s.gz.Some? && s.poll == Resting && s.mark >= 0
    requires Next(s, TryPlain, a) && Next(a, TryGz, b) && Next(b, Read, c)
    ensures c.poll == Resting && c.mark == |s.log| && c.got == s.log[s.start..]
  {
    hide FilesInv;
    assert !s.named && s.Gz() == s.log by { FilesAtRest(s); }
    PrefixSlices(s.log, s.log, s.start, s.mark);
  }

  lemma FilesAtRest(s: State)
    requires FilesInv(s) && s.writer == Idle
    ensures !s.named && s.Gz() == s.log
  {
  }

  /** A poll counted from the end fails exactly when it finds only the compressed file. */
  lemma FromTheEnd(s: State, t: State)
    requires Inv(s) && s.mark < 0 && (s.poll.HoldsPlain? || s.poll.HoldsGz?) && Next(s, Read, t)
    ensures t.poll == Raised <==> s.poll == HoldsGz
    ensures s.poll.HoldsPlain? ==>
              var c := s.plains[s.poll.file];
              t.mark == |c| && t.got == c[t.start..] && t.start == if |c| + s.mark > 0 then |c| + s.mark else 0
  {
  }

  // ---- following a build that runs ----

  /** A read at a mark within the file gives all the rest of it. */
  lemma ReadGivesAll(s: State, t: State)
    requires Inv(s) && Next(s, Read, t) && s.mark >= 0
    requires s.poll.HoldsPlain? ==> s.mark <= |s.plains[s.poll.file]|
    ensures var c := if s.poll.HoldsPlain? then s.plains[s.poll.file] else s.Gz();
            t.poll == Resting && t.mark == |c| && t.got == s.log[s.start..t.mark] && Prefix(c, s.log)
  {
    var c := if s.poll.HoldsPlain? then s.plains[s.poll.file] else s.Gz();
    assert Prefix(c, s.log);
    PrefixSlices(c, s.log, s.start, s.mark);
  }

  /** A session is past opening, and has not ended. */
  predicate Running(writer: Writer) {
    writer.Open? || writer.HalfWritten? || writer.PlainClosed? || writer.GzClosed?
  }

  lemma NewestIsLog(s: State)
    requires FilesInv(s) && Running(s.writer)
    ensures s.HasPlain() && s.plains[|s.plains| - 1] == s.log
  {
  }

  /** While a session runs the plain file stays the newest. */
  lemma SameFile(s: State, step: Step, t: State)
    requires Next(s, step, t) && Running(s.writer) && Running(t.writer)
    ensures |t.plains| == |s.plains|
    ensures !Polls(step) ==> t.poll == s.poll && t.mark == s.mark && t.start == s.start
  {
  }

  lemma RunPart(states: seq<State>, steps: seq<Step>, n: nat)
    requires Run(states, steps) && n <= |steps|
    ensures Run(states[..n + 1], steps[..n]) && states[..n + 1][n] == states[n]
  {
  }

  lemma {:induction false} PollStaysOpen(states: seq<State>, steps: seq<Step>, m: nat, n: nat)
    requires Run(states, steps) && m < n < |states| && steps[m] == TryPlain
    requires forall i | m <= i <= n :: Running(states[i].writer)
    requires forall i | m < i < n :: !Polls(steps[i])
    ensures states[n].poll.HoldsPlain? && states[n].poll.file + 1 == |states[n].plains|
    ensures states[n].mark == states[m].mark && states[n].start == states[m].start
  {
    hide FilesInv, ClientInv;
    if n == m + 1 {
      RunPart(states, steps, m);
      RunInv(states[..m + 1], steps[..m]);
      NewestIsLog(states[m]);
    } else {
      PollStaysOpen(states, steps, m, n - 1);
      SameFile(states[n - 1], steps[n - 1], states[n]);
    }
  }

  /** A poll of a build that runs, whatever the writer does meanwhile, leaves the client with
      everything that was written before its read. */
  lemma PollFollows(states: seq<State>, steps: seq<Step>, m: nat, n: nat)
    requires Run(states, steps) && m < n < |steps| && steps[m] == TryPlain && steps[n] == Read
    requires states[m].mark >= 0
    requires forall i | m <= i <= n :: Running(states[i].writer)
    requires forall i | m < i < n :: !Polls(steps[i])
    ensures var t, written := states[n + 1], Written(steps[..n]);
            t.poll == Resting && t.mark == |written| && t.start <= |written| && t.got == written[t.start..]
  {
    hide FilesInv, ClientInv, Next;
    PollStaysOpen(states, steps, m, n);
    RunPart(states, steps, n);
    RunInv(states[..n + 1], steps[..n]);
    var s := states[n];
    NewestIsLog(s);
    MarkWithin(s);
    ReadGivesAll(s, states[n + 1]);
    ReadKeepsStart(s, states[n + 1]);
    assert s.log[s.start..|s.log|] == s.log[s.start..];
  }

  lemma MarkWithin(s: State)
    requires ClientInv(s) && s.mark >= 0
    ensures s.start <= s.mark <= |s.log|
  {
  }

  lemma ReadKeepsStart(s: State, t: State)
    requires Next(s, Read, t) && s.mark >= 0 && t.poll == Resting
    ensures t.start == s.start
  {
  }

  // ---- a session that runs through ----

  ghost predicate Leads(s: State, steps: seq<Step>, t: State)
    decreases |steps|
  {
    if steps == [] then s == t else exists u :: Next(s, steps[0], u) && Leads(u, steps[1..], t)
  }

  lemma LeadsFirst(s: State, step: Step, u: State, rest: seq<Step>, t: State)
    requires Next(s, step, u) && Leads(u, rest, t)
    ensures Leads(s, [step] + rest, t)
  {
    assert ([step] + rest)[1..] == rest;
  }

  /** From between sessions one that writes `data` can be run; the log is that much longer
      then, and the compressed file holds all of it. */
  lemma SessionRuns(s: State, data: string) returns (steps: seq<Step>, t: State)
    requires Inv(s) && s.writer == Idle
    ensures Leads(s, steps, t) && Inv(t)
    ensures t.writer == Idle && t.log == s.log + data && t.gz == Some(t.log) && !t.HasPlain()
  {
    hide FilesInv, ClientInv, Next, Leads;
    var s1 := Opening(s);
    var s2 := Filled(s1);
    var rest;
    rest, t := Session(s2, data);
    if |s1.Gz()| > 0 {
      LeadsFirst(s1, CopyChunk(|s1.Gz()|), s2, rest, t);
      rest := [CopyChunk(|s1.Gz()|)] + rest;
    }
    var s0 := AfterCreation(s);
    LeadsFirst(s0, LookForGz, s1, rest, t);
    LeadsFirst(s, CreatePlain, s0, [LookForGz] + rest, t);
    steps := [CreatePlain] + ([LookForGz] + rest);
  }

  ghost function AfterCreation(s: State): State {
    s.(plains := s.plains + [""], named := true, writer := Created)
  }

  lemma Opening(s: State) returns (t: State)
    requires Inv(s) && s.writer == Idle
    ensures Next(s, CreatePlain, AfterCreation(s)) && Next(AfterCreation(s), LookForGz, t)
    ensures Inv(t) && t.writer == Copying(0) && t.log == s.log && t.plains != [] && t.Plain() == ""
  {
    NextInv(s, CreatePlain, AfterCreation(s));
    t := AfterCreation(s).(writer := Copying(0));
    NextInv(AfterCreation(s), LookForGz, t);
  }

  lemma Filled(s: State) returns (t: State)
    requires Inv(s) && s.writer == Copying(0) && s.plains != [] && s.Plain() == ""
    ensures |s.Gz()| > 0 ==> Next(s, CopyChunk(|s.Gz()|), t)
    ensures |s.Gz()| == 0 ==> t == s
    ensures Inv(t) && t.writer == Copying(|t.Gz()|) && t.log == s.log
  {
    if |s.Gz()| == 0 {
      t := s;
    } else {
      t := s.WithPlain(s.Plain() + s.Gz()[0..0 + |s.Gz()|]).(writer := Copying(0 + |s.Gz()|));
      NextInv(s, CopyChunk(|s.Gz()|), t);
    }
  }

  lemma Session(s: State, data: string) returns (steps: seq<Step>, t: State)
    requires Inv(s) && s.writer == Copying(|s.Gz()|)
    ensures Leads(s, steps, t) && Inv(t)
    ensures t.writer == Idle && t.log == s.log + data && t.gz == Some(t.log) && !t.HasPlain()
  {
    hide ClientInv, Leads;
    var s1 := s.(gz := Some(s.Gz()), writer := Open);
    NextInv(s, OpenGz, s1);
    var s3 := WrittenBoth(s1, data);
    var s2 := s1.WithPlain(s1.Plain() + data).(log := s1.log + data, writer := HalfWritten(data));
    var rest;
    rest, t := Closes(s3);
    LeadsFirst(s2, WriteGz, s3, rest, t);
    LeadsFirst(s1, WritePlain(data), s2, [WriteGz] + rest, t);
    LeadsFirst(s, OpenGz, s1, [WritePlain(data)] + ([WriteGz] + rest), t);
    steps := [OpenGz] + ([WritePlain(data)] + ([WriteGz] + rest));
  }

  lemma WrittenBoth(s: State, data: string) returns (t: State)
    requires Inv(s) && s.writer == Open
    ensures s.plains != []
    ensures var u := s.WithPlain(s.Plain() + data).(log := s.log + data, writer := HalfWritten(data));
            Next(s, WritePlain(data), u) && Next(u, WriteGz, t)
    ensures Inv(t) && t.writer == Open && t.log == s.log + data
  {
    var u := s.WithPlain(s.Plain() + data).(log := s.log + data, writer := HalfWritten(data));
    NextInv(s, WritePlain(data), u);
    t := u.(buffered := u.buffered + data, writer := Open);
    NextInv(u, WriteGz, t);
  }

  lemma Closes(s: State) returns (steps: seq<Step>, t: State)
    requires Inv(s) && s.writer == Open
    ensures Leads(s, steps, t) && Inv(t)
    ensures t.writer == Idle && t.log == s.log && t.gz == Some(t.log) && !t.HasPlain()
  {
    hide ClientInv, Leads;
    var s1 := s.(writer := PlainClosed);
    NextInv(s, ClosePlain, s1);
    var s2 := s1.(gz := Some(s1.Gz() + s1.buffered), buffered := "", writer := GzClosed);
    NextInv(s1, CloseGz, s2);
    t := s2.(named := false, writer := Idle);
    NextInv(s2, Unlink, t);
    assert Leads(t, [], t) by { LeadsNowhere(t); }
    LeadsFirst(s2, Unlink, t, [], t);
    LeadsFirst(s1, CloseGz, s2, [Unlink] + [], t);
    LeadsFirst(s, ClosePlain, s1, [CloseGz] + ([Unlink] + []), t);
    steps := [ClosePlain] + ([CloseGz] + ([Unlink] + []));
  }

  lemma LeadsNowhere(t: State)
    ensures Leads(t, [], t)
  {
  }

  /** A poll that finds neither file gives nothing, and begins at the beginning next time. */
  lemma NoLogYet(s: State, t: State)
    requires Inv(s) && s.poll == NoPlain && s.gz.None? && Next(s, TryGz, t)
    ensures t.poll == Resting && t.mark == 0 && t.got == s.got && t.start == (if s.mark < 0 then 0 else s.start)
    ensures t.log == s.log && t.plains == s.plains && t.writer == s.writer && t.gz == s.gz
  {
  }

  /** A poll raises only over a compressed file: one that is being extended, or one that it
      should read from its end. It is then made again, with the same mark. */
  lemma RaisesExactly(s: State, step: Step, t: State)
    requires Next(s, step, t)
    ensures t.poll == Raised && s.poll != Raised ==>
              s.poll == HoldsGz && (s.writer != Idle || s.mark < 0) && t.mark == s.mark && t.got == s.got
    ensures s.poll == Raised && t.poll != Raised ==>
              t.poll == Resting && t == s.(poll := Resting)
    ensures step.TryPlain? ==> s.poll == Resting
  {
  }

  /** A poll can always be made: of the plain file if there is one, else of the compressed
      one, if there is one. It changes nothing but what the client has. */
  lemma PollRuns(s: State) returns (steps: seq<Step>, t: State)
    requires Inv(s) && s.poll == Resting && s.mark >= 0
    requires s.HasPlain() ==> s.mark <= |s.Plain()|
    ensures Leads(s, steps, t) && forall i | 0 <= i < |steps| :: Polls(steps[i])
    ensures t.poll == Resting && t == s.(mark := t.mark, got := t.got)
    ensures t.mark == if s.HasPlain() then |s.Plain()| else |s.Gz()|
    ensures t.got == s.log[s.start..t.mark]
  {
    hide FilesInv, ClientInv, Leads;
    var u := s.(poll := if s.HasPlain() then HoldsPlain(|s.plains| - 1) else NoPlain);
    assert Next(s, TryPlain, u);
    NextInv(s, TryPlain, u);
    var rest;
    if s.HasPlain() {
      rest, t := ReadOnce(u);
    } else if s.gz.Some? {
      var v := u.(poll := HoldsGz);
      assert Next(u, TryGz, v);
      NextInv(u, TryGz, v);
      rest, t := ReadOnce(v);
      LeadsFirst(u, TryGz, v, rest, t);
      rest := [TryGz] + rest;
    } else {
      rest, t := FindNothing(u);
    }
    LeadsFirst(s, TryPlain, u, rest, t);
    steps := [TryPlain] + rest;
  }

  lemma ReadOnce(s: State) returns (steps: seq<Step>, t: State)
    requires Inv(s) && s.mark >= 0 && (s.poll.HoldsPlain? || s.poll == HoldsGz)
    requires s.poll.HoldsPlain? ==> s.poll.file < |s.plains| && s.mark <= |s.plains[s.poll.file]|
    ensures Leads(s, steps, t) && steps == [Read] && t == s.(poll := Resting, mark := t.mark, got := t.got)
    ensures t.mark == |if s.poll.HoldsPlain? then s.plains[s.poll.file] else s.Gz()|
    ensures t.got == s.log[s.start..t.mark]
  {
    var c := if s.poll.HoldsPlain? then s.plains[s.poll.file] else s.Gz();
    t := s.(poll := Resting, mark := |c|, got := s.got + c[s.mark..]);
    assert Next(s, Read, t);
    ReadGivesAll(s, t);
    LeadsNowhere(t);
    LeadsFirst(s, Read, t, [], t);
    steps := [Read];
  }

  lemma FindNothing(s: State) returns (steps: seq<Step>, t: State)
    requires Inv(s) && s.mark >= 0 && s.poll == NoPlain && s.gz.None?
    ensures Leads(s, steps, t) && steps == [TryGz] && t == s.(poll := Resting) && s.mark == 0
    ensures s.got == s.log[s.start..s.mark]
  {
    t := Took(s, ("", 0), 0);
    assert t.got == s.got;
    LeadsNowhere(t);
    LeadsFirst(s, TryGz, t, [], t);
    steps := [TryGz];
  }
}
