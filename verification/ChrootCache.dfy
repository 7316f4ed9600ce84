/** A directory-based chroot cache, one fingerprint: processes store, restore and remove
    the cached root concurrently, each under the lock file of the cached path. */
module ChrootCache {
  import opened Wrappers
  import L = Locking

  type Process = L.Process
  type Content = nat

  /** The cached path. Copying a root in and removing one are not atomic: in between, the
      path holds neither nothing nor a whole root. */
  datatype Dir = Absent | Partial | Full(content: Content)

  datatype Operation = Store(root: Content) | Restore | Remove

  /** `store` does not wait for the lock; `restore` shares it. */
  function RequestFor(op: Operation): L.Request {
    match op
    case Store(_) => L.Request(false, L.Exclusive)
    case Restore => L.Request(true, L.Shared)
    case Remove => L.Request(true, L.Exclusive)
  }

  /** Where a process is in its operation. */
  datatype Work =
    | Idle
    | Asking(op: Operation)          // in acquire
    | Entered(op: Operation)         // acquire has returned True
    | CopyingIn(root: Content)
    | CopyingOut(seen: Dir)          // `seen`: the path when the copy began
    | Removing
    | Done                           // about to release
    | Releasing

  datatype State = State(
    lock: L.State,
    work: map<Process, Work>,
    dir: Dir,
    stored: set<Content>,            // the roots whose copying in has ended
    restored: seq<Dir>)              // what the copies out have read

  datatype Step =
    | Begin(op: Operation)
    | Locking(step: L.Step)          // a step of acquire or release
    | Enter
    | GiveUp                         // store finds the lock busy
    | Skip                           // nothing to store, restore or remove
    | BeginCopyIn
    | EndCopyIn
    | BeginCopyOut
    | EndCopyOut
    | BeginRemove
    | EndRemove
    | Release
    | Finish

  ghost predicate Init(s: State) {
    && L.Init(s.lock) && s.work.Keys == s.lock.phase.Keys
    && (forall p | p in s.work :: s.work[p] == Idle)
    && s.dir == Absent && s.stored == {} && s.restored == []
  }

  /** The process moves on; neither the lock nor the path changes. */
  ghost predicate Moves(s: State, s': State, p: Process, next: Work) {
    s' == s.(work := s.work[p := next])
  }

  ghost predicate Next(s: State, s': State, p: Process, step: Step) {
    p in s.work && p in s.lock.phase &&
    var now, phase := s.work[p], s.lock.phase[p];
    match step
    case Begin(op) =>
      now == Idle && L.Next(s.lock, s'.lock, p, L.Acquire(RequestFor(op)))
      && s' == s.(lock := s'.lock, work := s.work[p := Asking(op)])
    case Locking(l) =>
      && ((now.Asking? && (l.Open? || l.Lock? || l.Busy? || l.Check? || l.Abandon?))
          || (now.Releasing? && (l.Unlink? || l.Close?)))
      && L.Next(s.lock, s'.lock, p, l) && s' == s.(lock := s'.lock)
    case Enter =>
      now.Asking? && phase.Holding? && Moves(s, s', p, Entered(now.op))
    case GiveUp =>
      now.Asking? && phase.Refused? && Moves(s, s', p, Idle)
    case Skip =>
      now.Entered? && (now.op.Store? <==> s.dir != Absent) && Moves(s, s', p, Done)
    case BeginCopyIn =>
      now.Entered? && now.op.Store? && s.dir == Absent
      && s' == s.(dir := Partial, work := s.work[p := CopyingIn(now.op.root)])
    case EndCopyIn =>
      now.CopyingIn?
      && s' == s.(dir := Full(now.root), stored := s.stored + {now.root}, work := s.work[p := Done])
    case BeginCopyOut =>
      now == Entered(Restore) && s.dir != Absent && Moves(s, s', p, CopyingOut(s.dir))
    case EndCopyOut =>
      now.CopyingOut? && s' == s.(restored := s.restored + [s.dir], work := s.work[p := Done])
    case BeginRemove =>
      now == Entered(Remove) && s.dir != Absent
      && s' == s.(dir := Partial, work := s.work[p := Removing])
    case EndRemove =>
      now.Removing? && s' == s.(dir := Absent, work := s.work[p := Done])
    case Release =>
      now.Done? && L.Next(s.lock, s'.lock, p, L.Escalate)
      && s' == s.(lock := s'.lock, work := s.work[p := Releasing])
    case Finish =>
      now.Releasing? && phase.Idle? && Moves(s, s', p, Idle)
  }

  /** The process uses the path exclusively. */
  predicate Writing(w: Work) {
    w.CopyingIn? || w.Removing?
  }

  /** What the lock protocol guarantees at each point of an operation. */
  ghost predicate LockHeld(w: Work, phase: L.Phase) {
    match w
    case Idle => phase.Idle? || phase.Refused?
    case Asking(op) =>
      (phase.Ready? || phase.Opened? || phase.Locked? || phase.Failed? ==> phase.req == RequestFor(op))
      && (phase.Holding? ==> phase.mode == RequestFor(op).mode)
      && (phase.Refused? ==> op.Store?)
      && !phase.Unlinking? && !phase.Closing?
    case Entered(op) => phase.Holding? && phase.mode == RequestFor(op).mode
    case CopyingIn(_) => phase.Holding? && phase.mode == L.Exclusive
    case CopyingOut(_) => phase.Holding? && phase.mode == L.Shared
    case Removing => phase.Holding? && phase.mode == L.Exclusive
    case Done => phase.Holding?
    case Releasing => phase.Unlinking? || phase.Closing? || phase.Idle?
  }

  ghost predicate Inv(s: State) {
    && L.Inv(s.lock) && s.work.Keys == s.lock.phase.Keys
    && (forall p | p in s.work :: LockHeld(s.work[p], s.lock.phase[p]))
    // half a root is there only while one process copies it in or removes it
    && (s.dir == Partial ==> exists p :: p in s.work && Writing(s.work[p]))
    && (forall p | p in s.work && Writing(s.work[p]) :: s.dir == Partial)
    // a copy out reads the whole root it began with
    && (forall p | p in s.work && s.work[p].CopyingOut? :: s.work[p].seen == s.dir && s.dir.Full?)
    && (s.dir.Full? ==> s.dir.content in s.stored)
    && (forall d | d in s.restored :: d.Full? && d.content in s.stored)
  }

  lemma InitInv(s: State)
    requires Init(s)
    ensures Inv(s)
  {
    L.InitInv(s.lock);
  }

  /** A process that holds the lock exclusively is the only one past `acquire`. */
  lemma ExclusiveIsAlone(s: State, p: Process, q: Process)
    requires L.Inv(s.lock) && s.work.Keys == s.lock.phase.Keys
    requires p != q && p in s.work && q in s.work
    requires LockHeld(s.work[p], s.lock.phase[p]) && LockHeld(s.work[q], s.lock.phase[q])
    requires s.lock.phase[p].Holding? && s.lock.phase[p].mode == L.Exclusive
    ensures !s.lock.phase[q].Holding?
  {
    if s.lock.phase[q].Holding? { L.HoldersShare(s.lock, p, q); }
  }

  lemma NextKeepsLockInv(s: State, s': State, p: Process, step: Step)
    requires Inv(s) && Next(s, s', p, step)
    ensures L.Inv(s'.lock)
  {
    hide L.Inv, L.Next, LockHeld;
    if step.Begin? {
      L.NextInv(s.lock, s'.lock, p, L.Acquire(RequestFor(step.op)));
    } else if step.Locking? {
      L.NextInv(s.lock, s'.lock, p, step.step);
    } else if step.Release? {
      L.NextInv(s.lock, s'.lock, p, L.Escalate);
    }
  }

  lemma OwnLockHeld(s: State, s': State, p: Process, step: Step)
    requires Inv(s) && Next(s, s', p, step)
    ensures p in s'.work && p in s'.lock.phase && LockHeld(s'.work[p], s'.lock.phase[p])
  {
    hide L.Inv, L.Grantable, L.Unused;
    assert LockHeld(s.work[p], s.lock.phase[p]);
  }

  lemma NextKeepsLockHeld(s: State, s': State, p: Process, step: Step)
    requires Inv(s) && Next(s, s', p, step)
    ensures s'.work.Keys == s'.lock.phase.Keys
    ensures forall q | q in s'.work :: LockHeld(s'.work[q], s'.lock.phase[q])
  {
    hide L.Inv, L.Next, LockHeld;
    OwnLockHeld(s, s', p, step);
    if step.Begin? {
      L.OthersStay(s.lock, s'.lock, p, L.Acquire(RequestFor(step.op)));
    } else if step.Locking? {
      L.OthersStay(s.lock, s'.lock, p, step.step);
    } else if step.Release? {
      L.OthersStay(s.lock, s'.lock, p, L.Escalate);
    }
    forall q | q in s'.work && q != p ensures LockHeld(s'.work[q], s'.lock.phase[q]) {
      assert s'.work[q] == s.work[q] && s'.lock.phase[q] == s.lock.phase[q];
    }
  }

  /** While one process changes the path, no other uses it. */
  lemma WriterIsAlone(s: State, s': State, p: Process, step: Step)
    requires Inv(s) && Next(s, s', p, step)
    requires step.BeginCopyIn? || step.BeginRemove? || step.EndCopyIn? || step.EndRemove?
    ensures forall q | q in s.work && q != p :: !Active(s.work[q])
  {
    hide L.Inv, L.Next;
    assert LockHeld(s.work[p], s.lock.phase[p]);
    forall q | q in s.work && q != p ensures !Active(s.work[q]) {
      ExclusiveIsAlone(s, p, q);
      assert LockHeld(s.work[q], s.lock.phase[q]);
    }
  }

  /** A process that shares the lock finds no half root. */
  lemma ReaderSeesWhole(s: State, p: Process)
    requires Inv(s) && p in s.work && s.work[p] == Entered(Restore)
    ensures s.dir != Partial
  {
    hide L.Inv;
    assert LockHeld(s.work[p], s.lock.phase[p]);
    forall q | q in s.work ensures !Writing(s.work[q]) {
      assert LockHeld(s.work[q], s.lock.phase[q]);
      if Writing(s.work[q]) { ExclusiveIsAlone(s, q, p); }
    }
  }

  lemma NextKeepsPath(s: State, s': State, p: Process, step: Step)
    requires Inv(s) && Next(s, s', p, step)
    ensures s'.dir == Partial ==> exists q :: q in s'.work && Writing(s'.work[q])
    ensures forall q | q in s'.work && Writing(s'.work[q]) :: s'.dir == Partial
    ensures forall q | q in s'.work && s'.work[q].CopyingOut? :: s'.work[q].seen == s'.dir && s'.dir.Full?
    ensures s'.dir.Full? ==> s'.dir.content in s'.stored
    ensures forall d | d in s'.restored :: d.Full? && d.content in s'.stored
  {
    hide L.Inv, L.Next, LockHeld;
    if step.BeginCopyIn? || step.BeginRemove? || step.EndCopyIn? || step.EndRemove? {
      WriterIsAlone(s, s', p, step);
      assert p in s'.work && (step.BeginCopyIn? || step.BeginRemove? ==> Writing(s'.work[p]));
    } else {
      if step.BeginCopyOut? { ReaderSeesWhole(s, p); }
      if s.dir == Partial {
        var q :| q in s.work && Writing(s.work[q]);
        assert q in s'.work && Writing(s'.work[q]);
      }
    }
  }

  /** Every step of every process keeps the invariant. */
  lemma NextInv(s: State, s': State, p: Process, step: Step)
    requires Inv(s) && Next(s, s', p, step)
    ensures Inv(s')
  {
    hide L.Inv, L.Next, LockHeld, Next;
    NextKeepsLockInv(s, s', p, step);
    NextKeepsLockHeld(s, s', p, step);
    NextKeepsPath(s, s', p, step);
  }

  ghost predicate Moved(s: State, s': State) {
    exists p, step :: Next(s, s', p, step)
  }

  ghost predicate Run(states: seq<State>) {
    && states != [] && Init(states[0])
    && forall n | 0 < n < |states| :: Moved(states[n - 1], states[n])
  }

  lemma {:induction false} RunInv(states: seq<State>, n: nat)
    requires Run(states) && n < |states|
    ensures Inv(states[n])
  {
    if n == 0 {
      InitInv(states[0]);
    } else {
      RunInv(states, n - 1);
      var p, step :| Next(states[n - 1], states[n], p, step);
      NextInv(states[n - 1], states[n], p, step);
    }
  }

  predicate Active(w: Work) {
    Writing(w) || w.CopyingOut?
  }

  /** In every run, a removal or a copy into the cache overlaps with no other removal and
      no other copy; only copies out overlap with each other. */
  lemma NoOverlap(states: seq<State>, n: nat, p: Process, q: Process)
    requires Run(states) && n < |states|
    requires p != q && p in states[n].work && q in states[n].work
    requires Active(states[n].work[p]) && Active(states[n].work[q])
    ensures states[n].work[p].CopyingOut? && states[n].work[q].CopyingOut?
  {
    var s := states[n];
    RunInv(states, n);
    assert LockHeld(s.work[p], s.lock.phase[p]) && LockHeld(s.work[q], s.lock.phase[q]);
    if Writing(s.work[p]) {
      ExclusiveIsAlone(s, p, q);
    } else if Writing(s.work[q]) {
      ExclusiveIsAlone(s, q, p);
    }
  }

  /** In every run, each restore has read a whole root that a store had finished. */
  lemma RestoresAreWhole(states: seq<State>, n: nat, k: nat)
    requires Run(states) && n < |states| && k < |states[n].restored|
    ensures states[n].restored[k].Full? && states[n].restored[k].content in states[n].stored
  {
    RunInv(states, n);
    assert states[n].restored[k] in states[n].restored;
  }

  // ---- one operation with nobody else about ----

  /** No other process is in an operation. */
  ghost predicate Lone(s: State, p: Process) {
    p in s.work && forall q | q in s.work && q != p :: s.work[q] == Idle
  }

  /** What an operation that began with `dir` on the path comes to: a store fills an empty
      path and leaves a filled one, a restore reads what is there, a removal empties it. */
  ghost predicate Outcome(s0: State, op: Operation, s: State) {
    match op
    case Store(root) =>
      s.restored == s0.restored
      && (if s0.dir == Absent then s.dir == Full(root) && s.stored == s0.stored + {root}
          else s.dir == s0.dir && s.stored == s0.stored)
    case Restore =>
      s.dir == s0.dir && s.stored == s0.stored
      && s.restored == s0.restored + if s0.dir == Absent then [] else [s0.dir]
    case Remove =>
      s.dir == Absent && s.stored == s0.stored && s.restored == s0.restored
  }

  ghost predicate Untouched(s0: State, s: State) {
    s.dir == s0.dir && s.stored == s0.stored && s.restored == s0.restored
  }

  /** How far a lone operation has come. */
  ghost predicate Halfway(s0: State, op: Operation, s: State, p: Process) {
    && p in s.work && p in s.lock.phase
    && match s.work[p]
       case Idle => Outcome(s0, op, s)
       case Asking(o) => o == op && Untouched(s0, s) && Unhindered(s.lock, p)
       case Entered(o) => o == op && Untouched(s0, s)
       case CopyingIn(root) =>
         op == Store(root) && s0.dir == Absent && s.stored == s0.stored && s.restored == s0.restored
       case CopyingOut(_) => op == Restore && s0.dir != Absent && Untouched(s0, s)
       case Removing => op == Remove && s.stored == s0.stored && s.restored == s0.restored
       case Done => Outcome(s0, op, s)
       case Releasing => Outcome(s0, op, s)
  }

  /** No other process has a lock, and the attempt is on the file that the path names. */
  ghost predicate Unhindered(s: L.State, p: Process) {
    && p in s.phase && (forall k | k in s.locks :: k.0 == p)
    && match s.phase[p]
       case Ready(_, _) => true
       case Opened(_, _, i) => s.path == Some(i)
       case Locked(_, i) => s.path == Some(i)
       case Holding(_, _) => true
       case _ => false
  }

  lemma StaysUnhindered(s: L.State, s': L.State, p: Process, step: L.Step)
    requires L.Next(s, s', p, step) && Unhindered(s, p)
    requires step.Open? || step.Lock? || step.Busy? || step.Check? || step.Abandon?
    ensures Unhindered(s', p)
  {
  }

  /** With nobody else about, only a process that has begun an operation has a lock. */
  lemma NobodyHinders(s: State, p: Process)
    requires Inv(s) && Lone(s, p) && s.work[p] == Idle
    ensures s.lock.locks == map[]
  {
    forall q | q in s.work ensures s.lock.phase[q].Open() == None {
      assert LockHeld(s.work[q], s.lock.phase[q]);
    }
    assert s.lock.locks.Keys == {};
  }

  lemma LoneBegins(s: State, s': State, p: Process, op: Operation)
    requires Inv(s) && Lone(s, p) && s.work[p] == Idle && Next(s, s', p, Begin(op))
    ensures Halfway(s, op, s', p)
  {
    hide L.Inv, Inv;
    NobodyHinders(s, p);
  }

  lemma LoneStep(s0: State, op: Operation, s: State, s': State, p: Process, step: Step)
    requires Halfway(s0, op, s, p) && Next(s, s', p, step) && !step.Begin?
    ensures Halfway(s0, op, s', p)
  {
    hide L.Next, Unhindered;
    NotRefused(s.lock, p);
    if step.Locking? {
      L.OthersStay(s.lock, s'.lock, p, step.step);
      if s.work[p].Asking? { StaysUnhindered(s.lock, s'.lock, p, step.step); }
    } else if step.Release? {
      L.OthersStay(s.lock, s'.lock, p, L.Escalate);
    }
  }

  lemma NotRefused(s: L.State, p: Process)
    ensures Unhindered(s, p) ==> !s.phase[p].Refused?
  {
  }

  /** These are steps of one process. */
  ghost predicate Chain(states: seq<State>, steps: seq<Step>, p: Process) {
    |states| == |steps| + 1 && forall i | 0 <= i < |steps| :: Next(states[i], states[i + 1], p, steps[i])
  }

  /** One process runs from `states[0]` on, and begins one operation, at first. */
  ghost predicate LoneRun(states: seq<State>, steps: seq<Step>, p: Process, op: Operation) {
    && Chain(states, steps, p) && steps != [] && steps[0] == Begin(op)
    && forall i | 0 < i < |steps| :: !steps[i].Begin?
  }

  lemma {:induction false} LoneHalfway(states: seq<State>, steps: seq<Step>, p: Process, op: Operation, n: nat)
    requires LoneRun(states, steps, p, op) && 0 < n < |states|
    requires Inv(states[0]) && Lone(states[0], p) && states[0].work[p] == Idle
    ensures Halfway(states[0], op, states[n], p)
  {
    hide Inv, Next, Lone, Halfway;
    if n == 1 {
      LoneBegins(states[0], states[1], p, op);
    } else {
      LoneHalfway(states, steps, p, op, n - 1);
      LoneStep(states[0], op, states[n - 1], states[n], p, steps[n - 1]);
    }
  }

  /** An operation alone, whichever way it runs, ends with its outcome. */
  lemma LoneOperation(states: seq<State>, steps: seq<Step>, p: Process, op: Operation)
    requires states != [] && Inv(states[0]) && Lone(states[0], p) && states[0].work[p] == Idle
    requires LoneRun(states, steps, p, op)
    requires p in states[|steps|].work && states[|steps|].work[p] == Idle
    ensures Outcome(states[0], op, states[|steps|])
  {
    hide Inv, Next, Lone;
    LoneHalfway(states, steps, p, op, |steps|);
  }

  // ---- and it can run through ----

  lemma ChainOn(a: seq<State>, x: seq<Step>, b: seq<State>, y: seq<Step>, p: Process)
    requires Chain(a, x, p) && Chain(b, y, p) && a[|x|] == b[0]
    ensures Chain(a + b[1..], x + y, p) && (a + b[1..])[|x + y|] == b[|y|]
    ensures (a + b[1..])[0] == a[0]
  {
    hide Next;
    var c, z := a + b[1..], x + y;
    forall i | 0 <= i < |z| ensures Next(c[i], c[i + 1], p, z[i]) {
      if i >= |x| {
        assert c[i] == b[i - |x|] && c[i + 1] == b[i - |x| + 1];
        assert Next(b[i - |x|], b[i - |x| + 1], p, y[i - |x|]);
      }
    }
  }

  /** The process has the lock, and nobody else has any. */
  ghost function WithLock(s: State, p: Process, op: Operation, i: L.Inode, w: Work): State
    requires p in s.lock.phase
  {
    var mode := RequestFor(op).mode;
    s.(lock := L.State(Some(i), map[(p, i) := mode], s.lock.phase[p := L.Holding(mode, i)]), work := s.work[p := w])
  }

  lemma LoneEnters(s: State, p: Process, op: Operation) returns (states: seq<State>, steps: seq<Step>, i: L.Inode)
    requires p in s.work && p in s.lock.phase && s.work[p] == Idle && s.lock.locks == map[]
    requires s.lock.phase[p].Idle? || s.lock.phase[p].Refused?
    ensures Chain(states, steps, p) && states[0] == s
    ensures steps != [] && steps[0] == Begin(op) && forall k | 0 < k < |steps| :: !steps[k].Begin?
    ensures states[|steps|] == WithLock(s, p, op, i, Entered(op))
  {
    hide L.Next;
    var work := s.work[p := Asking(op)];
    var lock1, lock2, lock3, lock4;
    i, lock1, lock2, lock3, lock4 := Attempt(s.lock, p, RequestFor(op));
    var s1 := s.(lock := lock1, work := work);
    var s2 := s.(lock := lock2, work := work);
    var s3 := s.(lock := lock3, work := work);
    var s4 := WithLock(s, p, op, i, Asking(op));
    var s5 := WithLock(s, p, op, i, Entered(op));
    assert Next(s, s1, p, Begin(op));
    assert Next(s1, s2, p, Locking(L.Open(i)));
    assert Next(s2, s3, p, Locking(L.Lock));
    assert Next(s3, s4, p, Locking(L.Check));
    assert Next(s4, s5, p, Enter);
    states := [s, s1, s2, s3, s4, s5];
    steps := [Begin(op), Locking(L.Open(i)), Locking(L.Lock), Locking(L.Check), Enter];
  }

  /** The four steps of an attempt that meets no other lock. */
  lemma Attempt(s: L.State, p: Process, req: L.Request)
    returns (i: L.Inode, s1: L.State, s2: L.State, s3: L.State, s4: L.State)
    requires p in s.phase && s.locks == map[] && (s.phase[p].Idle? || s.phase[p].Refused?)
    ensures L.Next(s, s1, p, L.Acquire(req)) && L.Next(s1, s2, p, L.Open(i))
    ensures L.Next(s2, s3, p, L.Lock) && L.Next(s3, s4, p, L.Check)
    ensures s4 == L.State(Some(i), map[(p, i) := req.mode], s.phase[p := L.Holding(req.mode, i)])
    ensures p in s1.phase && p in s2.phase && p in s3.phase
  {
    if s.path.Some? { i := s.path.value; } else { i := L.UnusedExists(s); }
    s1 := s.(phase := s.phase[p := L.Ready(req, false)]);
    s2 := L.State(Some(i), map[], s.phase[p := L.Opened(req, false, i)]);
    s3 := L.State(Some(i), map[(p, i) := req.mode], s.phase[p := L.Locked(req, i)]);
    s4 := L.State(Some(i), map[(p, i) := req.mode], s.phase[p := L.Holding(req.mode, i)]);
  }

  /** The three steps of a release that meets no other lock. */
  lemma Departure(s: L.State, p: Process, i: L.Inode, mode: L.Mode) returns (s1: L.State, s2: L.State, s3: L.State)
    requires p in s.phase && s == L.State(Some(i), map[(p, i) := mode], s.phase)
    requires s.phase[p] == L.Holding(mode, i)
    ensures L.Next(s, s1, p, L.Escalate) && L.Next(s1, s2, p, L.Unlink) && L.Next(s2, s3, p, L.Close)
    ensures s3 == L.State(None, map[], s.phase[p := L.Idle]) && p in s1.phase && p in s2.phase
  {
    s1 := L.State(Some(i), map[(p, i) := L.Exclusive], s.phase[p := L.Unlinking(i)]);
    s2 := L.State(None, s1.locks, s.phase[p := L.Closing(i)]);
    s3 := L.State(None, map[], s.phase[p := L.Idle]);
  }

  lemma LoneWorks(s: State, p: Process, op: Operation) returns (states: seq<State>, steps: seq<Step>)
    requires p in s.work && p in s.lock.phase && s.work[p] == Entered(op) && s.dir != Partial
    ensures Chain(states, steps, p) && states[0] == s && forall k | 0 <= k < |steps| :: !steps[k].Begin?
    ensures var t := states[|steps|]; t.lock == s.lock && t.work == s.work[p := Done]
  {
    var t := s.(work := s.work[p := Done]);
    match op
    case Store(root) =>
      if s.dir == Absent {
        var u := s.(dir := Partial, work := s.work[p := CopyingIn(root)]);
        var v := t.(dir := Full(root), stored := s.stored + {root});
        assert Next(s, u, p, BeginCopyIn) && Next(u, v, p, EndCopyIn);
        states, steps := [s, u, v], [BeginCopyIn, EndCopyIn];
      } else {
        states, steps := [s, t], [Skip];
      }
    case Restore =>
      if s.dir == Absent {
        states, steps := [s, t], [Skip];
      } else {
        var u := s.(work := s.work[p := CopyingOut(s.dir)]);
        var v := t.(restored := s.restored + [s.dir]);
        assert Next(s, u, p, BeginCopyOut) && Next(u, v, p, EndCopyOut);
        states, steps := [s, u, v], [BeginCopyOut, EndCopyOut];
      }
    case Remove =>
      if s.dir == Absent {
        states, steps := [s, t], [Skip];
      } else {
        var u := s.(dir := Partial, work := s.work[p := Removing]);
        var v := t.(dir := Absent);
        assert Next(s, u, p, BeginRemove) && Next(u, v, p, EndRemove);
        states, steps := [s, u, v], [BeginRemove, EndRemove];
      }
  }

  lemma LoneLeaves(s: State, p: Process, i: L.Inode, mode: L.Mode) returns (states: seq<State>, steps: seq<Step>)
    requires p in s.work && p in s.lock.phase && s.work[p] == Done
    requires s.lock.phase[p] == L.Holding(mode, i) && s.lock.path == Some(i) && s.lock.locks == map[(p, i) := mode]
    ensures Chain(states, steps, p) && states[0] == s && forall k | 0 <= k < |steps| :: !steps[k].Begin?
    ensures var t := states[|steps|]; p in t.work && t.work[p] == Idle && t.lock.path == None && t.lock.locks == map[]
  {
    hide L.Next;
    var lock1, lock2, lock3 := Departure(s.lock, p, i, mode);
    var s1 := s.(lock := lock1, work := s.work[p := Releasing]);
    var s2 := s1.(lock := lock2);
    var s3 := s1.(lock := lock3);
    var s4 := s3.(work := s.work[p := Idle]);
    assert Next(s, s1, p, Release);
    assert Next(s1, s2, p, Locking(L.Unlink));
    assert Next(s2, s3, p, Locking(L.Close));
    assert Next(s3, s4, p, Finish);
    states, steps := [s, s1, s2, s3, s4], [Release, Locking(L.Unlink), Locking(L.Close), Finish];
  }

  lemma NothingHalf(s: State, p: Process)
    requires Inv(s) && Lone(s, p) && s.work[p] == Idle
    ensures s.dir != Partial && p in s.lock.phase && (s.lock.phase[p].Idle? || s.lock.phase[p].Refused?)
  {
    assert LockHeld(s.work[p], s.lock.phase[p]);
  }

  /** An operation alone can run through: it gets its lock at the first attempt, comes to its
      outcome, and leaves no lock file behind. */
  lemma LoneCompletes(s: State, p: Process, op: Operation) returns (states: seq<State>, steps: seq<Step>)
    requires Inv(s) && Lone(s, p) && s.work[p] == Idle
    ensures LoneRun(states, steps, p, op) && states[0] == s
    ensures var t := states[|steps|];
            p in t.work && t.work[p] == Idle && Outcome(s, op, t) && t.lock.path == None && t.lock.locks == map[]
  {
    hide Inv, Next, L.Inv, Outcome;
    NobodyHinders(s, p);
    NothingHalf(s, p);
    var i;
    states, steps, i := LoneEnters(s, p, op);
    var entered := WithLock(s, p, op, i, Entered(op));
    var b, y := LoneWorks(entered, p, op);
    var c, z := LoneLeaves(b[|y|], p, i, RequestFor(op).mode);
    ChainOn(states, steps, b, y, p);
    ChainOn(states + b[1..], steps + y, c, z, p);
    states, steps := states + b[1..] + c[1..], steps + y + z;
    LoneOperation(states, steps, p, op);
  }

  // ---- two operations that meet ----

  /** In every run only a store gives up; restores and removals wait for the lock. */
  lemma OnlyStoresGiveUp(states: seq<State>, n: nat, p: Process, s': State)
    requires Run(states) && n < |states| && Next(states[n], s', p, GiveUp)
    ensures states[n].work[p].op.Store?
  {
    RunInv(states, n);
    assert LockHeld(states[n].work[p], states[n].lock.phase[p]);
  }

  /** A store that finds the lock taken gives up, in three steps, and has changed nothing. */
  lemma BusyStoreGivesUp(s: State, p: Process, root: Content) returns (states: seq<State>, steps: seq<Step>)
    requires Inv(s) && p in s.work && s.work[p] == Asking(Store(root))
    requires p in s.lock.phase && s.lock.phase[p].Opened? && !s.lock.phase[p].blocking
    requires !L.Grantable(s.lock, p, s.lock.phase[p].inode, L.Exclusive)
    ensures Chain(states, steps, p) && states[0] == s && |steps| == 3
    ensures var t := states[|steps|];
            p in t.work && t.work[p] == Idle && Untouched(s, t) && t.lock.path == s.lock.path
  {
    assert LockHeld(s.work[p], s.lock.phase[p]);
    var lock1, lock2 := Refusal(s.lock, p);
    var s1, s2 := s.(lock := lock1), s.(lock := lock2);
    var s3 := s2.(work := s.work[p := Idle]);
    assert Next(s, s1, p, Locking(L.Busy));
    assert Next(s1, s2, p, Locking(L.Abandon));
    assert Next(s2, s3, p, GiveUp);
    states, steps := [s, s1, s2, s3], [Locking(L.Busy), Locking(L.Abandon), GiveUp];
  }

  lemma Refusal(s: L.State, p: Process) returns (s1: L.State, s2: L.State)
    requires p in s.phase && s.phase[p].Opened? && !s.phase[p].blocking && !s.phase[p].req.wait
    requires !L.Grantable(s, p, s.phase[p].inode, s.phase[p].req.mode)
    ensures L.Next(s, s1, p, L.Busy) && L.Next(s1, s2, p, L.Abandon)
    ensures p in s1.phase && p in s2.phase && s2.phase[p].Refused? && s2.path == s.path
  {
    var now := s.phase[p];
    s1 := s.(phase := s.phase[p := L.Failed(now.req, now.inode)]);
    s2 := L.State(s.path, s.locks - {(p, now.inode)}, s.phase[p := L.Refused]);
  }

  /** A restore can join another one that is copying out. */
  lemma RestoresOverlap(s: State, p: Process, q: Process) returns (states: seq<State>, steps: seq<Step>)
    requires Inv(s) && p in s.work && s.work[p] == Asking(Restore)
    requires p in s.lock.phase && s.lock.phase[p].Opened?
    requires q in s.work && q != p && s.work[q].CopyingOut?
    requires s.lock.path == Some(s.lock.phase[p].inode)
    ensures Chain(states, steps, p) && states[0] == s
    ensures var t := states[|steps|];
            p in t.work && q in t.work && t.work[p].CopyingOut? && t.work[q].CopyingOut? && Untouched(s, t)
  {
    hide L.Inv, L.Next;
    assert LockHeld(s.work[p], s.lock.phase[p]) && LockHeld(s.work[q], s.lock.phase[q]);
    var lock1, lock2 := Sharing(s.lock, p, q);
    var s1, s2 := s.(lock := lock1), s.(lock := lock2);
    var s3 := s2.(work := s.work[p := Entered(Restore)]);
    var s4 := s2.(work := s.work[p := CopyingOut(s.dir)]);
    assert Next(s, s1, p, Locking(L.Lock));
    assert Next(s1, s2, p, Locking(L.Check));
    assert Next(s2, s3, p, Enter);
    assert Next(s3, s4, p, BeginCopyOut);
    states, steps := [s, s1, s2, s3, s4], [Locking(L.Lock), Locking(L.Check), Enter, BeginCopyOut];
  }

  lemma Sharing(s: L.State, p: Process, q: Process) returns (s1: L.State, s2: L.State)
    requires L.Inv(s) && p in s.phase && q in s.phase && p != q
    requires s.phase[p].Opened? && s.phase[p].req.mode == L.Shared && s.path == Some(s.phase[p].inode)
    requires s.phase[q].Holding? && s.phase[q].mode == L.Shared
    ensures L.Next(s, s1, p, L.Lock) && L.Next(s1, s2, p, L.Check)
    ensures p in s1.phase && s2.phase == s.phase[p := L.Holding(L.Shared, s.phase[p].inode)]
  {
    var now := s.phase[p];
    L.AllShare(s, q);
    s1 := L.State(s.path, s.locks[(p, now.inode) := L.Shared], s.phase[p := L.Locked(now.req, now.inode)]);
    s2 := s1.(phase := s.phase[p := L.Holding(L.Shared, now.inode)]);
  }

  // ---- where the stored roots come from ----

  lemma StoredStep(s: State, s': State, c: Content)
    requires Moved(s, s') && c in s'.stored
    ensures c in s.stored || exists p :: p in s.work && s.work[p] == CopyingIn(c)
  {
    var p, step :| Next(s, s', p, step);
    assert step.EndCopyIn? ==> p in s.work && s.work[p].CopyingIn?;
  }

  /** In every run, a root that counts as stored was copied in by some process before. */
  lemma {:induction false} StoredWereCopiedIn(states: seq<State>, n: nat, c: Content) returns (m: nat, p: Process)
    requires Run(states) && n < |states| && c in states[n].stored
    ensures m < n && p in states[m].work && states[m].work[p] == CopyingIn(c)
  {
    hide Next, Moved;
    assert n > 0;
    assert Moved(states[n - 1], states[n]);
    StoredStep(states[n - 1], states[n], c);
    if c in states[n - 1].stored {
      m, p := StoredWereCopiedIn(states, n - 1, c);
    } else {
      m := n - 1;
      p :| p in states[m].work && states[m].work[p] == CopyingIn(c);
    }
  }
}
