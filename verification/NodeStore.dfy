/** Counting the job slots that are free on the build nodes. */
module NodeStore {
  import opened Wrappers

  type Job = nat

  datatype JobState = Init | Queued | Started | Build | Done

  datatype Node = Node(slots: nat, active: bool)

  /** A chroot on a node; it belongs to a trove, if any. */
  datatype Chroot = Chroot(nodeName: string, trove: Option<nat>, active: bool)

  /** The tables: nodes by name, chroots, the job of each trove, the state of each job. */
  datatype Tables = Tables(
    nodes: map<string, Node>, chroots: seq<Chroot>, jobOf: map<nat, Job>, jobs: map<Job, JobState>)
  {
    function Current(): set<Job> {
      set j | j in jobs && (jobs[j] == Build || jobs[j] == Started)
    }

    function ActiveNodes(): set<string> {
      set n | n in nodes && nodes[n].active
    }

    function Slots(name: string): nat {
      if name in nodes then nodes[name].slots else 0
    }

    /** The job an active chroot on an active node works for; `None` when its row does not
        make it through the joins. */
    function JobOfRow(c: Chroot): Option<Job> {
      if c.active && c.nodeName in nodes && nodes[c.nodeName].active && c.trove.Some? && c.trove.value in jobOf
      then Some(jobOf[c.trove.value]) else None
    }

    function CountRows(rows: seq<Chroot>, j: Job): nat {
      if rows == [] then 0 else
        CountRows(rows[..|rows| - 1], j) + if JobOfRow(rows[|rows| - 1]) == Some(j) then 1 else 0
    }

    /** How many chroots a job has at work. */
    function Chroots(j: Job): nat {
      CountRows(chroots, j)
    }

    /** What a job takes up: a slot for each of its chroots, and at least one. */
    function Needs(j: Job): nat {
      if Chroots(j) == 0 then 1 else Chroots(j)
    }

    /** What a job with chroots at work is counted for if it is not a current one. */
    function Excess(j: Job): nat {
      if Chroots(j) == 0 then 0 else Chroots(j) - 1
    }

    /** The slots of the active nodes, but at least one. */
    ghost function TotalSlots(): nat {
      var sum := Sum(ActiveNodes(), Slots);
      if sum < 1 then 1 else sum
    }

    /** The jobs with chroots at work; `counts` are their numbers. */
    ghost predicate IsGrouped(counts: map<Job, nat>) {
      && (forall j | j in counts :: counts[j] == Chroots(j) > 0)
      && (forall j | Chroots(j) > 0 :: j in counts)
    }

    /** What the current jobs take up. */
    ghost function Used(): nat {
      Sum(Current(), Needs)
    }

    /** What is counted on top of that, for jobs that are not current ones. */
    ghost function StrayExcess(counts: map<Job, nat>): nat {
      Sum(counts.Keys - Current(), Excess)
    }
  }

  ghost function Sum<T(!new)>(keys: set<T>, f: T -> nat): nat {
    if keys == {} then 0 else
      var k :| k in keys;
      f(k) + Sum(keys - {k}, f)
  }

  lemma {:induction false} SumWithout<T(!new)>(keys: set<T>, k: T, f: T -> nat)
    requires k in keys
    ensures Sum(keys, f) == f(k) + Sum(keys - {k}, f)
    decreases |keys|
  {
    var first :| first in keys && Sum(keys, f) == f(first) + Sum(keys - {first}, f);
    if first != k {
      SumWithout(keys - {first}, k, f);
      SumWithout(keys - {k}, first, f);
      assert keys - {first} - {k} == keys - {k} - {first};
    }
  }

  lemma {:induction false} SumSplit<T(!new)>(keys: set<T>, part: set<T>, f: T -> nat)
    requires part <= keys
    ensures Sum(keys, f) == Sum(part, f) + Sum(keys - part, f)
    decreases |part|
  {
    if part == {} {
      assert keys - part == keys;
    } else {
      var k :| k in part;
      SumSplit(keys - {k}, part - {k}, f);
      SumWithout(keys, k, f);
      SumWithout(part, k, f);
      assert keys - {k} - (part - {k}) == keys - part;
    }
  }

  lemma {:induction false} SumSame<T(!new)>(keys: set<T>, f: T -> nat, g: T -> nat)
    requires forall k | k in keys :: f(k) == g(k)
    ensures Sum(keys, f) == Sum(keys, g)
    decreases |keys|
  {
    if keys != {} {
      var k :| k in keys;
      SumWithout(keys, k, f);
      SumWithout(keys, k, g);
      SumSame(keys - {k}, f, g);
    }
  }

  lemma {:induction false} SumOneMore<T(!new)>(keys: set<T>, f: T -> nat, g: T -> nat)
    requires forall k | k in keys :: f(k) == g(k) + 1
    ensures Sum(keys, f) == Sum(keys, g) + |keys|
    decreases |keys|
  {
    if keys != {} {
      var k :| k in keys;
      SumWithout(keys, k, f);
      SumWithout(keys, k, g);
      SumOneMore(keys - {k}, f, g);
    }
  }

  lemma {:induction false} SumOnes<T(!new)>(keys: set<T>, f: T -> nat)
    requires forall k | k in keys :: f(k) == 1
    ensures Sum(keys, f) == |keys|
    decreases |keys|
  {
    if keys != {} {
      var k :| k in keys;
      SumWithout(keys, k, f);
      SumOnes(keys - {k}, f);
    }
  }

  lemma {:induction false} SumIsZero<T(!new)>(keys: set<T>, f: T -> nat)
    ensures Sum(keys, f) == 0 <==> forall k | k in keys :: f(k) == 0
    decreases |keys|
  {
    if keys != {} {
      var k :| k in keys;
      SumWithout(keys, k, f);
      SumIsZero(keys - {k}, f);
    }
  }

  function Max(a: int, b: int): (r: int)
    ensures r >= a && r >= b && (r == a || r == b)
  {
    if a < b then b else a
  }

  lemma Cardinals(a: set<Job>, b: set<Job>)
    ensures |a| == |a * b| + |a - b| && |b| == |a * b| + |b - a|
  {
    assert a == a * b + (a - b) && b == a * b + (b - a);
  }

  /** Counting the chroots of all jobs and one for each current job without any is what the
      current jobs take up, and what the others have beyond one. */
  lemma UsedIs(t: Tables, counts: map<Job, nat>)
    requires t.IsGrouped(counts)
    ensures Sum(counts.Keys, t.Chroots) + |t.Current()| - |counts| == t.Used() + t.StrayExcess(counts)
  {
    hide Sum, Tables.CountRows, Tables.Current;
    var seen, current := counts.Keys, t.Current();
    var both, stray, idle := seen * current, seen - current, current - seen;
    assert seen - both == stray && current - both == idle;
    Cardinals(seen, current);
    SumSplit(seen, both, t.Chroots);
    SumSplit(current, both, t.Needs);
    SumSame(both, t.Needs, t.Chroots);
    SumOneMore(stray, t.Chroots, t.Excess);
    SumOnes(idle, t.Needs);
  }

  /** The current jobs are those that have been started and those that build. */
  lemma CurrentJobs(t: Tables)
    ensures t.Current() == set j | j in t.jobs && (t.jobs[j].Build? || t.jobs[j].Started?)
  {
  }

  /** A current job takes up at least one slot. */
  lemma UsedBound(t: Tables)
    ensures t.Used() >= |t.Current()|
  {
    SumAtLeast(t, t.Current());
  }

  lemma {:induction false} SumAtLeast(t: Tables, keys: set<Job>)
    ensures Sum(keys, t.Needs) >= |keys|
    decreases |keys|
  {
    if keys != {} {
      var k :| k in keys;
      SumWithout(keys, k, t.Needs);
      SumAtLeast(t, keys - {k});
    }
  }

  method GetSlotCount(t: Tables) returns (total: nat)
    ensures total == t.TotalSlots() == Max(Sum(t.ActiveNodes(), t.Slots), 1)
  {
    var todo := t.ActiveNodes();
    total := 0;
    while todo != {}
      invariant todo <= t.ActiveNodes()
      invariant total + Sum(todo, t.Slots) == Sum(t.ActiveNodes(), t.Slots)
    {
      var n :| n in todo;
      SumWithout(todo, n, t.Slots);
      total := total + t.nodes[n].slots;
      todo := todo - {n};
    }
    if total < 1 {
      total := 1;
    }
  }

  /** The rows of the join, grouped by job and counted. */
  method GroupByJob(t: Tables) returns (counts: map<Job, nat>)
    ensures t.IsGrouped(counts)
  {
    counts := map[];
    for i := 0 to |t.chroots|
      invariant forall j | j in counts :: counts[j] == t.CountRows(t.chroots[..i], j) > 0
      invariant forall j | t.CountRows(t.chroots[..i], j) > 0 :: j in counts
    {
      var job := t.JobOfRow(t.chroots[i]);
      assert t.chroots[..i + 1][..i] == t.chroots[..i];
      if job.Some? {
        counts := counts[job.value := 1 + if job.value in counts then counts[job.value] else 0];
      }
    }
    assert t.chroots[..|t.chroots|] == t.chroots;
  }

  /** The number of free slots: the slots there are, less what the current jobs take up and
      what other jobs have at work beyond one chroot each. */
  method GetEmptySlots(t: Tables) returns (free: nat, ghost stray: nat)
    ensures free == Max(t.TotalSlots() - t.Used() - stray, 0)
    ensures exists counts :: t.IsGrouped(counts) && stray == t.StrayExcess(counts)
    ensures free <= Max(t.TotalSlots() - |set j | j in t.jobs && (t.jobs[j].Build? || t.jobs[j].Started?)|, 0)
  {
    hide Tables.TotalSlots, Tables.Used, Tables.StrayExcess, Tables.Current;
    var totalSlots := GetSlotCount(t);
    var currentJobs := |t.Current()|;
    ghost var grouped := GroupByJob(t);
    UsedIs(t, grouped);
    UsedBound(t);
    CurrentJobs(t);
    stray := t.StrayExcess(grouped);
    if totalSlots < currentJobs {
      return 0, stray;
    }
    var counts := GroupByJob(t);
    var slots, jobsSeen := 0, 0;
    var todo := counts.Keys;
    while todo != {}
      invariant todo <= counts.Keys && jobsSeen + |todo| == |counts|
      invariant slots + Sum(todo, t.Chroots) == Sum(counts.Keys, t.Chroots)
    {
      var j :| j in todo;
      SumWithout(todo, j, t.Chroots);
      jobsSeen := jobsSeen + 1;
      slots := slots + counts[j];
      todo := todo - {j};
    }
    UsedIs(t, counts);
    stray := t.StrayExcess(counts);
    free := Max(totalSlots - (slots + currentJobs - jobsSeen), 0);
  }

  /** The count is what the current jobs leave free exactly when no other job has more than
      one chroot at work, or there is nothing left anyway. */
  lemma CountIsRight(t: Tables, counts: map<Job, nat>)
    requires t.IsGrouped(counts)
    ensures Max(t.TotalSlots() - t.Used() - t.StrayExcess(counts), 0) == Max(t.TotalSlots() - t.Used(), 0)
            <==> (forall j | j !in t.Current() :: t.Chroots(j) <= 1) || t.TotalSlots() <= t.Used()
  {
    hide Sum, Tables.CountRows, Tables.Current, Tables.TotalSlots, Tables.Used;
    var stray, current := counts.Keys - t.Current(), t.Current();
    SumIsZero(stray, t.Excess);
    forall j | j !in current && (forall k | k in stray :: t.Excess(k) == 0) ensures t.Chroots(j) <= 1 {
      assert j in stray ==> t.Excess(j) == 0;
    }
    assert (forall j | j !in current :: t.Chroots(j) <= 1) ==> forall k | k in stray :: t.Excess(k) == 0;
  }

  // ---- what each row of the tables adds ----

  /** One node more: its slots, if it is active. */
  lemma NodeAdds(t: Tables, name: string, node: Node)
    requires name !in t.nodes
    ensures var u := t.(nodes := t.nodes[name := node]);
            Sum(u.ActiveNodes(), u.Slots) == Sum(t.ActiveNodes(), t.Slots) + if node.active then node.slots else 0
  {
    hide Sum;
    var u := t.(nodes := t.nodes[name := node]);
    SumSame(t.ActiveNodes(), t.Slots, u.Slots);
    if node.active {
      SumWithout(u.ActiveNodes(), name, u.Slots);
      assert u.ActiveNodes() - {name} == t.ActiveNodes();
    } else {
      assert u.ActiveNodes() == t.ActiveNodes();
    }
  }

  /** One job more: one slot, or one for each of its chroots, if it was started or builds. */
  lemma JobAdds(t: Tables, j: Job, state: JobState)
    requires j !in t.jobs
    ensures var u := t.(jobs := t.jobs[j := state]);
            u.Used() == t.Used() + if state.Started? || state.Build? then Max(t.Chroots(j), 1) else 0
  {
    hide Sum;
    var u := t.(jobs := t.jobs[j := state]);
    SameRows(t, u, t.chroots);
    SumSame(t.Current(), t.Needs, u.Needs);
    if state.Started? || state.Build? {
      SumWithout(u.Current(), j, u.Needs);
      assert u.Current() - {j} == t.Current();
    } else {
      assert u.Current() == t.Current();
    }
  }

  lemma {:induction false} SameRows(t: Tables, u: Tables, rows: seq<Chroot>)
    requires t.nodes == u.nodes && t.jobOf == u.jobOf
    ensures forall j :: t.CountRows(rows, j) == u.CountRows(rows, j)
    decreases |rows|
  {
    if rows != [] {
      SameRows(t, u, rows[..|rows| - 1]);
    }
  }

  /** One chroot more: one for the job of its trove, if it and its node are active. */
  lemma ChrootAdds(t: Tables, c: Chroot, j: Job)
    ensures t.(chroots := t.chroots + [c]).Chroots(j) == t.Chroots(j) +
            if c.active && c.nodeName in t.nodes && t.nodes[c.nodeName].active
               && c.trove.Some? && c.trove.value in t.jobOf && t.jobOf[c.trove.value] == j then 1 else 0
  {
    var u := t.(chroots := t.chroots + [c]);
    assert u.chroots[..|u.chroots| - 1] == t.chroots;
    assert u.JobOfRow(c) == t.JobOfRow(c);
    SameRows(t, u, t.chroots);
  }

  lemma NoChroots(t: Tables, j: Job)
    requires t.chroots == []
    ensures t.Chroots(j) == 0 && t.Needs(j) == 1
  {
  }
}
