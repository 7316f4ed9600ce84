/** The lock-file protocol: any number of processes open, lock, check, escalate and unlink
    one path, each in atomic steps. The lock file is deleted and created again while other
    processes still have the old one open. Locks are the advisory record locks of fcntl()
    in the System Interfaces volume of POSIX.1-2017: owned by a process and an inode, and
    given up when the process closes the file. */
module Locking {
  import opened Wrappers

  type Process = nat
  type Inode = nat

  datatype Mode = Shared | Exclusive

  /** What the caller of `acquire` asked for. */
  datatype Request = Request(wait: bool, mode: Mode)

  /** Where a process is in `acquire` or `release`. */
  datatype Phase =
    | Idle
    | Ready(req: Request, blocking: bool)                  // about to open the path
    | Opened(req: Request, blocking: bool, inode: Inode)   // about to lock the open file
    | Locked(req: Request, inode: Inode)                   // about to compare it with the path
    | Failed(req: Request, inode: Inode)                   // about to close it, lock or no lock
    | Refused                                              // acquire has returned False
    | Holding(mode: Mode, inode: Inode)                    // acquire has returned True
    | Unlinking(inode: Inode)                              // escalated, about to unlink
    | Closing(inode: Inode)                                // about to close, released
  {
    /** The inode the process has open. */
    function Open(): Option<Inode> {
      match this
      case Opened(_, _, i) => Some(i)
      case Locked(_, i) => Some(i)
      case Failed(_, i) => Some(i)
      case Holding(_, i) => Some(i)
      case Unlinking(i) => Some(i)
      case Closing(i) => Some(i)
      case _ => None
    }
  }

  datatype State = State(
    path: Option<Inode>,                     // what the path names
    locks: map<(Process, Inode), Mode>,
    phase: map<Process, Phase>)

  /** The system grants `p` a lock on `i`, giving up the one it has there. */
  ghost predicate Grantable(s: State, p: Process, i: Inode, mode: Mode) {
    forall q | q != p && (q, i) in s.locks :: mode == Shared && s.locks[(q, i)] == Shared
  }

  /** No directory entry and no open file refers to inode `i`, so it can be allocated. */
  ghost predicate Unused(s: State, i: Inode) {
    s.path != Some(i) && forall p | p in s.phase :: s.phase[p].Open() != Some(i)
  }

  /** Nobody has begun. A lock file may be there, left over by a process that died. */
  ghost predicate Init(s: State) {
    s.locks == map[] && forall p | p in s.phase :: s.phase[p] == Idle
  }

  // ---- the steps of one process ----

  datatype Step =
    | Acquire(req: Request)   // the call
    | Open(inode: Inode)      // open the path, creating it if it is not there
    | Lock                    // the lock is granted
    | Busy                    // a non-blocking lock is refused
    | Check                   // compare the locked file with the path
    | Abandon                 // close after a failed attempt; try again or return False
    | Escalate                // release: try to make the lock exclusive
    | Unlink
    | Close

  ghost predicate At(s: State, s': State, p: Process, next: Phase) {
    p in s.phase && s'.phase == s.phase[p := next]
  }

  /** What a process does after a failed attempt: `acquire(wait=True)` tries again, and
      blocks from then on. */
  function Again(req: Request): Phase {
    if req.wait then Ready(req, true) else Refused
  }

  ghost predicate Next(s: State, s': State, p: Process, step: Step) {
    p in s.phase &&
    var now := s.phase[p];
    match step
    case Acquire(req) =>
      (now == Idle || now == Refused) && At(s, s', p, Ready(req, false))
      && s'.path == s.path && s'.locks == s.locks
    case Open(i) =>
      now.Ready? && At(s, s', p, Opened(now.req, now.blocking, i))
      && (s.path == Some(i) || (s.path == None && Unused(s, i)))
      && s'.path == Some(i) && s'.locks == s.locks
    case Lock =>
      now.Opened? && Grantable(s, p, now.inode, now.req.mode)
      && At(s, s', p, Locked(now.req, now.inode))
      && s'.path == s.path && s'.locks == s.locks[(p, now.inode) := now.req.mode]
    case Busy =>
      now.Opened? && !now.blocking && !Grantable(s, p, now.inode, now.req.mode)
      && At(s, s', p, Failed(now.req, now.inode))
      && s'.path == s.path && s'.locks == s.locks
    case Check =>
      now.Locked? && s'.path == s.path && s'.locks == s.locks
      && At(s, s', p, if s.path == Some(now.inode) then Holding(now.req.mode, now.inode)
                      else Failed(now.req, now.inode))
    case Abandon =>
      now.Failed? && At(s, s', p, Again(now.req))
      && s'.path == s.path && s'.locks == s.locks - {(p, now.inode)}
    case Escalate =>
      now.Holding? && s'.path == s.path
      && if Grantable(s, p, now.inode, Exclusive) then
           At(s, s', p, Unlinking(now.inode)) && s'.locks == s.locks[(p, now.inode) := Exclusive]
         else
           At(s, s', p, Closing(now.inode)) && s'.locks == s.locks
    case Unlink =>
      now.Unlinking? && At(s, s', p, Closing(now.inode))
      && s.path.Some? && s'.path == None && s'.locks == s.locks
    case Close =>
      now.Closing? && At(s, s', p, Idle)
      && s'.path == s.path && s'.locks == s.locks - {(p, now.inode)}
  }

  lemma OthersStay(s: State, s': State, p: Process, step: Step)
    requires Next(s, s', p, step)
    ensures s'.phase.Keys == s.phase.Keys
    ensures forall q | q in s.phase && q != p :: s'.phase[q] == s.phase[q]
  {
  }

  // ---- the invariant ----

  /** The lock that a process in this phase has. */
  ghost predicate LockMatches(s: State, p: Process)
    requires p in s.phase
  {
    match s.phase[p]
    case Locked(req, i) => (p, i) in s.locks && s.locks[(p, i)] == req.mode
    case Holding(mode, i) => (p, i) in s.locks && s.locks[(p, i)] == mode
    case Unlinking(i) => (p, i) in s.locks && s.locks[(p, i)] == Exclusive
    case Closing(i) => (p, i) in s.locks
    case _ => true
  }

  /** `p` relies on the path naming the inode it has locked. */
  ghost predicate Relies(s: State, p: Process, i: Inode) {
    p in s.phase &&
    ((s.phase[p].Holding? && s.phase[p].inode == i) || s.phase[p] == Unlinking(i))
  }

  ghost predicate Inv(s: State) {
    // a lock belongs to a process that has the inode open
    && (forall k | k in s.locks ::
          k.0 in s.phase && s.phase[k.0].Open() == Some(k.1) && !s.phase[k.0].Opened?)
    && (forall p | p in s.phase :: LockMatches(s, p))
    // the locks granted on an inode are compatible
    && (forall k, l | k in s.locks && l in s.locks && k.0 != l.0 && k.1 == l.1 ::
          s.locks[k] == Shared && s.locks[l] == Shared)
    // the path still names what the holders have locked
    && (forall p: Process, i: Inode | Relies(s, p, i) :: s.path == Some(i))
  }

  lemma InitInv(s: State)
    requires Init(s)
    ensures Inv(s)
  {
  }

  lemma UnlinkIsAlone(s: State, p: Process, q: Process, i: Inode)
    requires Inv(s) && p in s.phase && s.phase[p].Unlinking? && q != p
    ensures !Relies(s, q, i)
  {
    assert LockMatches(s, p) && Relies(s, p, s.phase[p].inode);
    assert q in s.phase ==> LockMatches(s, q);
  }

  lemma NextKeepsReliance(s: State, s': State, p: Process, step: Step)
    requires Inv(s) && Next(s, s', p, step)
    ensures forall q: Process, i: Inode | Relies(s', q, i) :: s'.path == Some(i)
  {
    forall q: Process, i: Inode | Relies(s', q, i) ensures s'.path == Some(i) {
      if q != p {
        assert Relies(s, q, i);
        if step.Unlink? { UnlinkIsAlone(s, p, q, i); }
      } else if step.Escalate? {
        assert Relies(s, p, i);
      }
    }
  }

  lemma NextKeepsLocks(s: State, s': State, p: Process, step: Step)
    requires Inv(s) && Next(s, s', p, step)
    ensures forall q | q in s'.phase :: LockMatches(s', q)
  {
    assert LockMatches(s, p);
    forall q | q in s'.phase ensures LockMatches(s', q) {
      assert LockMatches(s, q);
    }
  }

  lemma NextKeepsCompatible(s: State, s': State, p: Process, step: Step)
    requires Inv(s) && Next(s, s', p, step)
    ensures forall k, l | k in s'.locks && l in s'.locks && k.0 != l.0 && k.1 == l.1 ::
              s'.locks[k] == Shared && s'.locks[l] == Shared
  {
    forall k, l | k in s'.locks && l in s'.locks && k.0 != l.0 && k.1 == l.1
      ensures s'.locks[k] == Shared && s'.locks[l] == Shared
    {
      if step.Lock? || step.Escalate? {
        assert k.0 != p ==> k in s.locks && s'.locks[k] == s.locks[k];
        assert l.0 != p ==> l in s.locks && s'.locks[l] == s.locks[l];
      }
    }
  }

  /** Every step of every process keeps the invariant. */
  lemma NextInv(s: State, s': State, p: Process, step: Step)
    requires Inv(s) && Next(s, s', p, step)
    ensures Inv(s')
  {
    NextKeepsReliance(s, s', p, step);
    NextKeepsLocks(s, s', p, step);
    NextKeepsCompatible(s, s', p, step);
    assert LockMatches(s, p);
  }

  // ---- whole runs ----

  ghost predicate Moved(s: State, s': State) {
    exists p, step :: Next(s, s', p, step)
  }

  /** A run: every state follows from the one before by one step of one process. */
  ghost predicate Run(states: seq<State>) {
    && states != [] && Init(states[0])
    && forall n | 0 < n < |states| ::
         Moved(states[n - 1], states[n])
  }

  lemma {:induction false} RunInv(states: seq<State>, n: nat)
    requires Run(states) && n < |states|
    ensures Inv(states[n])
  {
    if n == 0 {
      InitInv(states[0]);
    } else {
      RunInv(states, n - 1);
      var p, step :| Next(states[n - 1], states[n], p, step);
      NextInv(states[n - 1], states[n], p, step);
    }
  }

  lemma HoldersShare(s: State, p: Process, q: Process)
    requires Inv(s) && p != q && p in s.phase && q in s.phase
    requires s.phase[p].Holding? && s.phase[q].Holding?
    ensures s.phase[p].mode == Shared && s.phase[q].mode == Shared
    ensures s.path == Some(s.phase[p].inode) == Some(s.phase[q].inode)
  {
    var i, j := s.phase[p].inode, s.phase[q].inode;
    assert Relies(s, p, i) && Relies(s, q, j);
    assert LockMatches(s, p) && LockMatches(s, q);
    assert (p, i) in s.locks && (q, j) in s.locks;
  }

  /** While one process shares the lock, every lock on the file is shared. */
  lemma AllShare(s: State, q: Process)
    requires Inv(s) && q in s.phase && s.phase[q].Holding? && s.phase[q].mode == Shared
    ensures s.path == Some(s.phase[q].inode)
    ensures forall p | (p, s.phase[q].inode) in s.locks :: s.locks[(p, s.phase[q].inode)] == Shared
  {
    assert LockMatches(s, q) && Relies(s, q, s.phase[q].inode);
  }

  /** At no point of any run do two processes hold the lock, unless both share it; and
      while one holds it, the path names the inode it has locked. */
  lemma MutualExclusion(states: seq<State>, n: nat, p: Process, q: Process)
    requires Run(states) && n < |states|
    requires p in states[n].phase && q in states[n].phase
    requires states[n].phase[p].Holding? && states[n].phase[q].Holding?
    ensures p != q ==> states[n].phase[p].mode == Shared && states[n].phase[q].mode == Shared
    ensures states[n].path == Some(states[n].phase[p].inode)
  {
    var s := states[n];
    RunInv(states, n);
    assert Relies(s, p, s.phase[p].inode);
    if p != q { HoldersShare(s, p, q); }
  }

  /** A release that gets to unlink removes the file it has locked, and no process holds
      the lock then. In particular the unlink cannot fail for want of a file. */
  lemma UnlinkIsSafe(states: seq<State>, n: nat, p: Process)
    requires Run(states) && n < |states|
    requires p in states[n].phase && states[n].phase[p].Unlinking?
    ensures states[n].path == Some(states[n].phase[p].inode)
    ensures forall q | q in states[n].phase :: !states[n].phase[q].Holding?
    ensures forall q | q in states[n].phase && q != p :: !states[n].phase[q].Unlinking?
  {
    var s := states[n];
    RunInv(states, n);
    assert Relies(s, p, s.phase[p].inode);
    forall q | q in s.phase && q != p
      ensures !s.phase[q].Holding? && !s.phase[q].Unlinking?
    {
      if s.phase[q].Holding? || s.phase[q].Unlinking? {
        assert Relies(s, q, s.phase[q].inode);
        UnlinkIsAlone(s, p, q, s.phase[q].inode);
      }
    }
  }

  /** The process can take a step. */
  ghost predicate Enabled(s: State, p: Process) {
    exists s', step :: Next(s, s', p, step)
  }

  /** No deadlock: a process that cannot move waits for a lock that it cannot be granted,
      and all processes that have locks can move. */
  lemma BlockedByMovers(states: seq<State>, n: nat, p: Process)
    requires Run(states) && n < |states| && p in states[n].phase
    requires !Enabled(states[n], p)
    ensures states[n].phase[p].Opened? && states[n].phase[p].blocking
    ensures !Grantable(states[n], p, states[n].phase[p].inode, states[n].phase[p].req.mode)
    ensures forall k | k in states[n].locks :: Enabled(states[n], k.0)
  {
    var s := states[n];
    RunInv(states, n);
    if !(s.phase[p].Opened? && s.phase[p].blocking) {
      Moves(s, p);
    } else if Grantable(s, p, s.phase[p].inode, s.phase[p].req.mode) {
      GrantedMoves(s, p);
    }
    forall k | k in s.locks ensures Enabled(s, k.0) { Moves(s, k.0); }
  }

  lemma GrantedMoves(s: State, p: Process)
    requires p in s.phase && s.phase[p].Opened?
    requires Grantable(s, p, s.phase[p].inode, s.phase[p].req.mode)
    ensures Enabled(s, p)
  {
    var now := s.phase[p];
    var s' := State(s.path, s.locks[(p, now.inode) := now.req.mode],
                    s.phase[p := Locked(now.req, now.inode)]);
    assert Next(s, s', p, Lock);
  }

  lemma UnusedExists(s: State) returns (i: Inode)
    requires s.path == None
    ensures Unused(s, i)
  {
    i := FreshInode(s, s.phase.Keys);
  }

  lemma {:induction false} FreshInode(s: State, ps: set<Process>) returns (i: Inode)
    requires ps <= s.phase.Keys
    ensures forall p, j | p in ps && s.phase[p].Open() == Some(j) :: j < i
  {
    i := 0;
    if ps != {} {
      var p :| p in ps;
      i := FreshInode(s, ps - {p});
      if s.phase[p].Open().Some? && s.phase[p].Open().value >= i {
        i := s.phase[p].Open().value + 1;
      }
    }
  }

  /** Every process that is not waiting for a lock can take a step. */
  lemma Moves(s: State, p: Process)
    requires Inv(s) && p in s.phase && !(s.phase[p].Opened? && s.phase[p].blocking)
    ensures Enabled(s, p)
  {
    var now := s.phase[p];
    match now
    case Idle =>
      var req := Request(false, Shared);
      assert Next(s, s.(phase := s.phase[p := Ready(req, false)]), p, Acquire(req));
    case Refused =>
      var req := Request(false, Shared);
      assert Next(s, s.(phase := s.phase[p := Ready(req, false)]), p, Acquire(req));
    case Ready(req, blocking) =>
      var i;
      if s.path.Some? { i := s.path.value; } else { i := UnusedExists(s); }
      assert Next(s, State(Some(i), s.locks, s.phase[p := Opened(req, blocking, i)]), p, Open(i));
    case Opened(req, blocking, i) =>
      if Grantable(s, p, i, req.mode) {
        GrantedMoves(s, p);
      } else {
        assert Next(s, s.(phase := s.phase[p := Failed(req, i)]), p, Busy);
      }
    case Locked(req, i) =>
      var next := if s.path == Some(i) then Holding(req.mode, i) else Failed(req, i);
      assert Next(s, s.(phase := s.phase[p := next]), p, Check);
    case Failed(req, i) =>
      assert Next(s, State(s.path, s.locks - {(p, i)}, s.phase[p := Again(req)]), p, Abandon);
    case Holding(mode, i) =>
      if Grantable(s, p, i, Exclusive) {
        assert Next(s, State(s.path, s.locks[(p, i) := Exclusive], s.phase[p := Unlinking(i)]), p, Escalate);
      } else {
        assert Next(s, s.(phase := s.phase[p := Closing(i)]), p, Escalate);
      }
    case Unlinking(i) =>
      assert Relies(s, p, i);
      assert Next(s, State(None, s.locks, s.phase[p := Closing(i)]), p, Unlink);
    case Closing(i) =>
      assert Next(s, State(s.path, s.locks - {(p, i)}, s.phase[p := Idle]), p, Close);
  }

  // ---- a waiting process can always still succeed ----

  /** How many steps of its own a process that has a lock is away from giving it up. */
  function StepsToGiveUp(phase: Phase): nat {
    match phase
    case Locked(_, _) => 4
    case Holding(_, _) => 3
    case Unlinking(_) => 2
    case Closing(_) => 1
    case Failed(_, _) => 1
    case _ => 0
  }

  ghost predicate HasLock(s: State, q: Process) {
    exists i :: (q, i) in s.locks
  }

  /** A process that has a lock can take a step towards giving it up, which concerns no
      other process. */
  lemma StepToGiveUp(s: State, q: Process) returns (s': State)
    requires Inv(s) && HasLock(s, q)
    ensures Inv(s') && Moved(s, s') && q in s.phase && s'.phase.Keys == s.phase.Keys
    ensures StepsToGiveUp(s'.phase[q]) < StepsToGiveUp(s.phase[q])
    ensures forall r | r in s.phase && r != q :: s'.phase[r] == s.phase[r]
    ensures s'.locks.Keys <= s.locks.Keys && forall k | k in s.locks && k.0 != q :: k in s'.locks
    ensures s'.phase[q].Open().None? ==> !HasLock(s', q)
  {
    var j :| (q, j) in s.locks;
    var step;
    s', step := GiveUpStep(s, q, j);
    NextInv(s, s', q, step);
    assert forall k | k in s'.locks :: k.0 in s'.phase && s'.phase[k.0].Open() == Some(k.1);
  }

  lemma GiveUpStep(s: State, q: Process, i: Inode) returns (s': State, step: Step)
    requires Inv(s) && (q, i) in s.locks
    ensures q in s.phase && s.phase[q].Open() == Some(i) && Next(s, s', q, step)
    ensures s'.phase.Keys == s.phase.Keys
    ensures StepsToGiveUp(s'.phase[q]) < StepsToGiveUp(s.phase[q])
    ensures forall r | r in s.phase && r != q :: s'.phase[r] == s.phase[r]
    ensures s'.locks.Keys <= s.locks.Keys && forall k | k in s.locks && k.0 != q :: k in s'.locks
  {
    assert LockMatches(s, q);
    var now := s.phase[q];
    match now
    case Locked(req, _) =>
      var next := if s.path == Some(i) then Holding(req.mode, i) else Failed(req, i);
      s', step := s.(phase := s.phase[q := next]), Check;
    case Holding(mode, _) =>
      if Grantable(s, q, i, Exclusive) {
        s', step := State(s.path, s.locks[(q, i) := Exclusive], s.phase[q := Unlinking(i)]), Escalate;
      } else {
        s', step := s.(phase := s.phase[q := Closing(i)]), Escalate;
      }
    case Unlinking(_) =>
      assert Relies(s, q, i);
      s', step := State(None, s.locks, s.phase[q := Closing(i)]), Unlink;
    case Closing(_) =>
      s', step := State(s.path, s.locks - {(q, i)}, s.phase[q := Idle]), Close;
    case Failed(req, _) =>
      s', step := State(s.path, s.locks - {(q, i)}, s.phase[q := Again(req)]), Abandon;
  }

  /** A run from one state to another. */
  ghost predicate Leads(t: seq<State>, from: State, to: State) {
    && t != [] && t[0] == from && t[|t| - 1] == to
    && forall n | 0 < n < |t| :: Moved(t[n - 1], t[n])
  }

  lemma LeadsOn(t: seq<State>, u: seq<State>, a: State, b: State, c: State)
    requires Leads(t, a, b) && Leads(u, b, c)
    ensures Leads(t + u[1..], a, c)
  {
    var v := t + u[1..];
    forall n | 0 < n < |v| ensures Moved(v[n - 1], v[n]) {
      if n >= |t| { assert Moved(u[n - |t|], u[n - |t| + 1]); }
    }
  }

  lemma LeadsOneStep(s: State, s': State)
    requires Moved(s, s')
    ensures Leads([s, s'], s, s')
  {
  }

  /** From every state the other processes can run until none of them has a lock. */
  lemma {:induction false} OthersCanGiveUp(s: State, p: Process, q: Process) returns (t: seq<State>, s': State)
    requires Inv(s) && p in s.phase && q != p && HasLock(s, q)
    ensures Leads(t, s, s') && Inv(s') && p in s'.phase && s'.phase[p] == s.phase[p] && !HasLock(s', q)
    ensures s'.locks.Keys <= s.locks.Keys && forall k | k in s.locks && k.0 != q :: k in s'.locks
    decreases if q in s.phase then StepsToGiveUp(s.phase[q]) else 0
  {
    hide Inv, Next, Moved;
    var s1 := StepToGiveUp(s, q);
    LeadsOneStep(s, s1);
    if HasLock(s1, q) {
      var u;
      u, s' := OthersCanGiveUp(s1, p, q);
      t := [s, s1] + u[1..];
      LeadsOn([s, s1], u, s, s1, s');
    } else {
      t, s' := [s, s1], s1;
    }
  }

  lemma {:induction false} OthersCanAllGiveUp(s: State, p: Process) returns (t: seq<State>, s': State)
    requires Inv(s) && p in s.phase
    ensures Leads(t, s, s') && Inv(s') && p in s'.phase && s'.phase[p] == s.phase[p]
    ensures forall k | k in s'.locks :: k.0 == p
    decreases |s.locks.Keys|
  {
    hide Inv, Next, Moved;
    if k :| k in s.locks && k.0 != p {
      assert HasLock(s, k.0);
      var u, s1 := OthersCanGiveUp(s, p, k.0);
      assert k !in s1.locks;
      assert s1.locks.Keys < s.locks.Keys;
      Fewer(s1.locks.Keys, s.locks.Keys);
      var v;
      v, s' := OthersCanAllGiveUp(s1, p);
      LeadsOn(u, v, s, s1, s');
      t := u + v[1..];
    } else {
      t, s' := [s], s;
    }
  }

  lemma {:induction false} Fewer(a: set<(Process, Inode)>, b: set<(Process, Inode)>)
    requires a < b
    ensures |a| < |b|
  {
    assert b == a + (b - a);
  }

  /** The process is waiting in `acquire(wait=True)`. */
  predicate Waits(phase: Phase) {
    (phase.Ready? || phase.Opened? || phase.Locked? || phase.Failed?) && phase.req.wait
  }

  /** From every state, and so at any point of any run, a process that waits for its lock
      can still get it: there is a continuation in which `acquire` returns True. */
  lemma WaiterCanSucceed(s: State, p: Process) returns (t: seq<State>, s': State)
    requires Inv(s) && p in s.phase && Waits(s.phase[p])
    ensures Leads(t, s, s') && Inv(s')
    ensures p in s'.phase && s'.phase[p].Holding? && s'.phase[p].mode == s.phase[p].req.mode
  {
    hide Inv, Moved;
    var s1;
    t, s1 := OthersCanAllGiveUp(s, p);
    var u;
    u, s' := FreeToLock(s1, p);
    LeadsOn(t, u, s, s1, s');
    t := t + u[1..];
  }

  /** With no lock of another process in the way, its own steps lead to the lock. */
  lemma FreeToLock(s: State, p: Process) returns (t: seq<State>, s': State)
    requires Inv(s) && p in s.phase && Waits(s.phase[p])
    requires forall k | k in s.locks :: k.0 == p
    ensures Leads(t, s, s') && Inv(s')
    ensures p in s'.phase && s'.phase[p].Holding? && s'.phase[p].mode == s.phase[p].req.mode
  {
    hide Inv, Next, Moved;
    match s.phase[p]
    case Ready(_, _) =>
      t, s' := ReadyToLock(s, p);
    case Failed(_, _) =>
      t, s' := FailedToLock(s, p);
    case Opened(_, _, _) =>
      t, s' := LockAndCheck(s, p);
      if s'.phase[p].Failed? { t, s' := ThenLock(t, s, s', p); }
    case Locked(_, _) =>
      t, s' := CheckLock(s, p);
      if s'.phase[p].Failed? { t, s' := ThenLock(t, s, s', p); }
  }

  lemma ThenLock(t: seq<State>, s: State, s1: State, p: Process) returns (u: seq<State>, s': State)
    requires Leads(t, s, s1) && Inv(s1) && p in s1.phase && s1.phase[p].Failed? && s1.phase[p].req.wait
    requires forall k | k in s1.locks :: k.0 == p
    ensures Leads(u, s, s') && Inv(s')
    ensures p in s'.phase && s'.phase[p].Holding? && s'.phase[p].mode == s1.phase[p].req.mode
  {
    hide Inv, Next, Moved;
    var v;
    v, s' := FailedToLock(s1, p);
    LeadsOn(t, v, s, s1, s');
    u := t + v[1..];
  }

  lemma FailedToLock(s: State, p: Process) returns (t: seq<State>, s': State)
    requires Inv(s) && p in s.phase && s.phase[p].Failed? && s.phase[p].req.wait
    requires forall k | k in s.locks :: k.0 == p
    ensures Leads(t, s, s') && Inv(s')
    ensures p in s'.phase && s'.phase[p].Holding? && s'.phase[p].mode == s.phase[p].req.mode
  {
    hide Inv;
    var req, i := s.phase[p].req, s.phase[p].inode;
    var s1 := State(s.path, s.locks - {(p, i)}, s.phase[p := Ready(req, true)]);
    assert Next(s, s1, p, Abandon);
    NextInv(s, s1, p, Abandon);
    LeadsOneStep(s, s1);
    var u;
    u, s' := ReadyToLock(s1, p);
    LeadsOn([s, s1], u, s, s1, s');
    t := [s, s1] + u[1..];
  }

  lemma ReadyToLock(s: State, p: Process) returns (t: seq<State>, s': State)
    requires Inv(s) && p in s.phase && s.phase[p].Ready?
    requires forall k | k in s.locks :: k.0 == p
    ensures Leads(t, s, s') && Inv(s')
    ensures p in s'.phase && s'.phase[p].Holding? && s'.phase[p].mode == s.phase[p].req.mode
  {
    hide Inv;
    var req, blocking := s.phase[p].req, s.phase[p].blocking;
    var i;
    if s.path.Some? { i := s.path.value; } else { i := UnusedExists(s); }
    var s1 := State(Some(i), s.locks, s.phase[p := Opened(req, blocking, i)]);
    assert Next(s, s1, p, Open(i));
    NextInv(s, s1, p, Open(i));
    LeadsOneStep(s, s1);
    var u;
    u, s' := LockAndCheck(s1, p);
    LeadsOn([s, s1], u, s, s1, s');
    t := [s, s1] + u[1..];
  }

  lemma CheckLock(s: State, p: Process) returns (t: seq<State>, s': State)
    requires Inv(s) && p in s.phase && s.phase[p].Locked?
    requires forall k | k in s.locks :: k.0 == p
    ensures Leads(t, s, s') && Inv(s') && p in s'.phase && s'.path == s.path
    ensures var now := s.phase[p];
            s'.phase[p] == if s.path == Some(now.inode) then Holding(now.req.mode, now.inode) else Failed(now.req, now.inode)
    ensures forall k | k in s'.locks :: k.0 == p
  {
    hide Inv;
    var req, i := s.phase[p].req, s.phase[p].inode;
    s' := s.(phase := s.phase[p := if s.path == Some(i) then Holding(req.mode, i) else Failed(req, i)]);
    assert Next(s, s', p, Check);
    NextInv(s, s', p, Check);
    LeadsOneStep(s, s');
    t := [s, s'];
  }

  lemma LockAndCheck(s: State, p: Process) returns (t: seq<State>, s': State)
    requires Inv(s) && p in s.phase && s.phase[p].Opened?
    requires forall k | k in s.locks :: k.0 == p
    ensures Leads(t, s, s') && Inv(s') && p in s'.phase && s'.path == s.path
    ensures var now := s.phase[p];
            s'.phase[p] == if s.path == Some(now.inode) then Holding(now.req.mode, now.inode) else Failed(now.req, now.inode)
    ensures forall k | k in s'.locks :: k.0 == p
  {
    hide Inv;
    var req, i := s.phase[p].req, s.phase[p].inode;
    var s1 := State(s.path, s.locks[(p, i) := req.mode], s.phase[p := Locked(req, i)]);
    assert Next(s, s1, p, Lock);
    NextInv(s, s1, p, Lock);
    LeadsOneStep(s, s1);
    var u;
    u, s' := CheckLock(s1, p);
    LeadsOn([s, s1], u, s, s1, s');
    t := [s, s1] + u[1..];
  }

  /** `acquire(wait=True)` never returns False: only an attempt that does not wait is refused. */
  lemma WaitingIsNotRefused(s: State, s': State, p: Process, q: Process, step: Step)
    requires Next(s, s', p, step) && q in s.phase && s.phase[q] != Refused
    requires s'.phase[q] == Refused
    ensures q == p && step.Abandon? && !s.phase[q].req.wait
  {
  }

  /** A process that asks while no other process is busy gets the lock in three steps,
      whether or not an old lock file is still there; its release then removes the file. */
  lemma AloneSucceeds(s: State, p: Process) returns (t: seq<State>)
    requires Inv(s) && p in s.phase && s.phase[p].Ready?
    requires forall q | q in s.phase && q != p :: s.phase[q].Open() == None
    ensures |t| == 7 && t[0] == s
    ensures forall n | 0 < n < |t| :: Moved(t[n - 1], t[n])
    ensures p in t[3].phase && t[3].phase[p].Holding? && t[3].phase[p].mode == s.phase[p].req.mode
    ensures t[6].path == None && t[6].locks == map[] && t[6].phase == s.phase[p := Idle]
  {
    hide Inv, Next, Moved;
    var a, i := AloneAcquires(s, p);
    var b := AloneReleases(s, a[3], p, i);
    t := a + b[1..];
    forall n | 0 < n < |t| ensures Moved(t[n - 1], t[n]) {
      if n >= 4 { assert Moved(b[n - 4], b[n - 3]); }
    }
  }

  lemma AloneAcquires(s: State, p: Process) returns (t: seq<State>, i: Inode)
    requires Inv(s) && p in s.phase && s.phase[p].Ready?
    requires forall q | q in s.phase && q != p :: s.phase[q].Open() == None
    ensures |t| == 4 && t[0] == s
    ensures forall n | 0 < n < |t| :: Moved(t[n - 1], t[n])
    ensures var req := s.phase[p].req;
            t[3] == State(Some(i), map[(p, i) := req.mode], s.phase[p := Holding(req.mode, i)])
  {
    var req, blocking := s.phase[p].req, s.phase[p].blocking;
    if s.path.Some? { i := s.path.value; } else { i := UnusedExists(s); }
    assert forall k | k in s.locks :: k.0 != p;
    assert s.locks == map[];
    var s1 := State(Some(i), s.locks, s.phase[p := Opened(req, blocking, i)]);
    var s2 := State(Some(i), s.locks[(p, i) := req.mode], s.phase[p := Locked(req, i)]);
    var s3 := State(Some(i), s2.locks, s.phase[p := Holding(req.mode, i)]);
    assert Next(s, s1, p, Open(i));
    assert Next(s1, s2, p, Lock);
    assert Next(s2, s3, p, Check);
    t := [s, s1, s2, s3];
  }

  lemma AloneReleases(s: State, s3: State, p: Process, i: Inode) returns (t: seq<State>)
    requires p in s.phase
    requires exists mode :: s3 == State(Some(i), map[(p, i) := mode], s.phase[p := Holding(mode, i)])
    ensures |t| == 4 && t[0] == s3
    ensures forall n | 0 < n < |t| :: Moved(t[n - 1], t[n])
    ensures t[3] == State(None, map[], s.phase[p := Idle])
  {
    var s4 := State(Some(i), s3.locks[(p, i) := Exclusive], s.phase[p := Unlinking(i)]);
    var s5 := State(None, s4.locks, s.phase[p := Closing(i)]);
    var s6 := State(None, s5.locks - {(p, i)}, s.phase[p := Idle]);
    assert Next(s3, s4, p, Escalate);
    assert Next(s4, s5, p, Unlink);
    assert Next(s5, s6, p, Close);
    t := [s3, s4, s5, s6];
  }

  // ---- why an attempt fails, and how often ----

  /** The next step of the attempt fails: it does not block, and another process has a lock
      that conflicts; or the path no longer names the file that was locked. */
  ghost predicate Cause(s: State, p: Process) {
    && p in s.phase
    && var now := s.phase[p];
       || (now.Opened? && !now.blocking
           && exists q :: q != p && (q, now.inode) in s.locks
                          && (now.req.mode == Exclusive || s.locks[(q, now.inode)] == Exclusive))
       || (now.Locked? && s.path != Some(now.inode))
  }

  /** The attempt has failed, or `acquire` has returned False. */
  predicate Gone(phase: Phase) {
    phase.Failed? || phase.Refused?
  }

  lemma FailsForCause(s: State, s': State, p: Process)
    requires Moved(s, s') && p in s.phase && p in s'.phase && Gone(s'.phase[p])
    ensures Gone(s.phase[p]) || Cause(s, p)
  {
    var q, step :| Next(s, s', q, step);
    assert q != p ==> s'.phase[p] == s.phase[p];
    assert step.Busy? || step.Check? || step.Abandon? || q != p;
  }

  /** In every run, an attempt that has failed or was refused has met its cause, and has done
      nothing else since. */
  lemma {:induction false} RefusedForCause(states: seq<State>, n: nat, p: Process) returns (m: nat)
    requires Run(states) && n < |states| && p in states[n].phase && Gone(states[n].phase[p])
    ensures m < n && Cause(states[m], p)
    ensures forall i | m < i <= n :: p in states[i].phase && Gone(states[i].phase[p])
  {
    hide Next, Moved, Cause;
    assert n > 0;
    assert Moved(states[n - 1], states[n]);
    SamePhases(states[n - 1], states[n]);
    FailsForCause(states[n - 1], states[n], p);
    if Gone(states[n - 1].phase[p]) {
      m := RefusedForCause(states, n - 1, p);
    } else {
      m := n - 1;
    }
  }

  lemma SamePhases(s: State, s': State)
    requires Moved(s, s')
    ensures s'.phase.Keys == s.phase.Keys
  {
  }

  /** The attempt gives up at once when the lock is not free. */
  predicate Impatient(phase: Phase) {
    (phase.Ready? || phase.Opened?) && !phase.blocking
  }

  lemma StaysPatient(s: State, s': State, p: Process)
    requires Moved(s, s') && p in s.phase && p in s'.phase
    requires Waits(s.phase[p]) && Waits(s'.phase[p]) && !Impatient(s.phase[p])
    ensures !Impatient(s'.phase[p])
  {
    var q, step :| Next(s, s', q, step);
    assert q != p ==> s'.phase[p] == s.phase[p];
  }

  /** A waiting process that has failed once blocks from then on until it has the lock. */
  lemma {:induction false} WaitsAfterFailing(states: seq<State>, m: nat, n: nat, p: Process)
    requires Run(states) && m <= n < |states|
    requires forall i | m <= i <= n :: p in states[i].phase && Waits(states[i].phase[p])
    requires states[m].phase[p].Failed?
    ensures !Impatient(states[n].phase[p])
  {
    hide Next, Moved;
    if m < n {
      WaitsAfterFailing(states, m, n - 1, p);
      StaysPatient(states[n - 1], states[n], p);
    }
  }

  /** The next attempt, or this one, blocks. */
  predicate Patient(phase: Phase) {
    (phase.Ready? || phase.Opened?) && phase.blocking
  }

  lemma BecomesPatient(s: State, s': State, p: Process)
    requires Moved(s, s') && p in s.phase && p in s'.phase && Patient(s'.phase[p])
    ensures (Patient(s.phase[p]) && s'.phase[p].req == s.phase[p].req)
            || (s.phase[p].Failed? && s.phase[p].req.wait && s'.phase[p].req == s.phase[p].req)
  {
    var q, step :| Next(s, s', q, step);
    assert q != p ==> s'.phase[p] == s.phase[p];
  }

  /** In every run, only a process that waits and has failed before blocks. */
  lemma {:induction false} BlocksAfterFailing(states: seq<State>, n: nat, p: Process) returns (m: nat)
    requires Run(states) && n < |states| && p in states[n].phase && Patient(states[n].phase[p])
    ensures m < n && p in states[m].phase && states[m].phase[p].Failed? && states[n].phase[p].req.wait
    ensures states[m].phase[p].req == states[n].phase[p].req
  {
    hide Next, Moved;
    assert n > 0;
    assert Moved(states[n - 1], states[n]);
    SamePhases(states[n - 1], states[n]);
    BecomesPatient(states[n - 1], states[n], p);
    if Patient(states[n - 1].phase[p]) {
      m := BlocksAfterFailing(states, n - 1, p);
    } else {
      m := n - 1;
    }
  }

  /** A process is blocked exactly when its attempt blocks and the lock is not to be had. */
  lemma BlockedExactly(s: State, p: Process)
    requires Inv(s) && p in s.phase
    ensures !Enabled(s, p) <==>
              s.phase[p].Opened? && s.phase[p].blocking && !Grantable(s, p, s.phase[p].inode, s.phase[p].req.mode)
  {
    hide Inv;
    var now := s.phase[p];
    if now.Opened? && now.blocking {
      if Grantable(s, p, now.inode, now.req.mode) { GrantedMoves(s, p); }
    } else {
      Moves(s, p);
    }
  }

  /** Opening gives the file that the path names; or else a new one, which nobody has open
      and nobody has a lock on, and which the path names from then on. */
  lemma OpensThePath(s: State, s': State, p: Process, i: Inode)
    requires Inv(s) && Next(s, s', p, Open(i))
    ensures s'.path == Some(i) && (s.path.Some? ==> s.path == Some(i))
    ensures s.path.None? ==> forall q | q in s.phase :: s.phase[q].Open() != Some(i) && (q, i) !in s.locks
  {
  }
}
