/** How far writing and reading have come over a connection, whatever moves through it: bounds
    on what is left after any schedule of actions. */
module Progress {
  import opened Bytes

  /** How much is left to be written, and how much to be read. */
  datatype Left = Left(backlog: nat, unread: nat)

  /** An action adds so much at most to what is left, writes some of it, reads some of it, or does nothing. */
  datatype Act = Add(backlog: nat, unread: nat) | Write | Take | Wait

  /** What one action does about what is left. */
  ghost predicate Moves(a: Act, was: Left, now: Left) {
    match a
    case Add(backlog, unread) => now.backlog <= was.backlog + backlog && now.unread <= was.unread + unread
    case Write =>
      now.unread == was.unread && now.backlog <= was.backlog && (was.backlog > 0 ==> now.backlog < was.backlog)
    case Take =>
      now.backlog == was.backlog && now.unread <= was.unread
      && (was.backlog == 0 && was.unread > 0 ==> now.unread < was.unread)
    case Wait => now == was
  }

  /** What is left at most after a schedule. */
  ghost function AtMost(schedule: seq<Act>, left: Left): Left {
    if schedule == [] then left else
      Bound(schedule[|schedule| - 1], AtMost(schedule[..|schedule| - 1], left))
  }

  /** A write counts for one byte at least, and so does a read once all is written. */
  ghost function Bound(a: Act, left: Left): Left {
    match a
    case Add(backlog, unread) => Left(left.backlog + backlog, left.unread + unread)
    case Write => if left.backlog == 0 then left else Left(left.backlog - 1, left.unread)
    case Take => if left.backlog > 0 || left.unread == 0 then left else Left(0, left.unread - 1)
    case Wait => left
  }

  ghost predicate Within(left: Left, bound: Left) {
    left.backlog <= bound.backlog && left.unread <= bound.unread
  }

  lemma AtMostSnoc(schedule: seq<Act>, a: Act, left: Left)
    ensures AtMost(schedule + [a], left) == Bound(a, AtMost(schedule, left))
    ensures AtMost([], left) == left
  {
    assert (schedule + [a])[..|schedule|] == schedule;
  }

  lemma StaysWithin(a: Act, was: Left, now: Left, bound: Left)
    requires Moves(a, was, now) && Within(was, bound)
    ensures Within(now, Bound(a, bound))
  {
  }

  /** As many writes as there is to write, and then as many reads as there is to read, leave
      nothing. */
  lemma EnoughIsEnough(writes: seq<Act>, takes: seq<Act>, left: Left)
    requires (forall a | a in writes :: a.Write?) && (forall a | a in takes :: a.Take?)
    requires |writes| >= left.backlog && |takes| >= left.unread
    ensures AtMost(writes + takes, left) == Left(0, 0)
  {
    EnoughWrites(writes, left);
    EnoughTakes(writes, takes, left);
  }

  lemma {:induction false} EnoughWrites(writes: seq<Act>, left: Left)
    requires forall a | a in writes :: a.Write?
    ensures AtMost(writes, left) == Left(if |writes| < left.backlog then left.backlog - |writes| else 0, left.unread)
  {
    if writes != [] {
      var n := |writes| - 1;
      assert writes[n] in writes;
      EnoughWrites(writes[..n], left);
    }
  }

  lemma {:induction false} EnoughTakes(writes: seq<Act>, takes: seq<Act>, left: Left)
    requires AtMost(writes, left).backlog == 0 && AtMost(writes, left).unread <= left.unread
    requires forall a | a in takes :: a.Take?
    ensures AtMost(writes + takes, left).backlog == 0
    ensures AtMost(writes + takes, left).unread <= if |takes| < left.unread then left.unread - |takes| else 0
  {
    hide AtMost;
    if takes == [] {
      assert writes + takes == writes;
    } else {
      var n := |takes| - 1;
      assert takes[n] in takes;
      EnoughTakes(writes, takes[..n], left);
      TakeNext(takes, n);
      assert takes[..n + 1] == takes;
      Associative(writes, takes[..n], [takes[n]]);
      AtMostSnoc(writes + takes[..n], takes[n], left);
    }
  }
}
