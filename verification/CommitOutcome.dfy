/** What a commit comes to, told from the troves alone: which of them stand, how far each is
    placed, and which keys it loses to troves that are committed already. The table that the
    commit builds is shown to hold exactly that. */
module CommitOutcome {
  import opened Wrappers
  import opened Commit

  // ---- the outcome, without a table ----

  /** The trove is to be committed. */
  ghost predicate Local(t: Trove, repos: string) {
    t.built != [] && Uncommitted(t, repos)
  }

  /** The trove is committed already: its binaries are on one branch of another repository. */
  ghost predicate Elsewhere(t: Trove, repos: string) {
    && t.built != [] && Host(t.built[0].version) != repos
    && forall j | 0 <= j < |t.built| ::
         t.built[j].version.branch == t.built[0].version.branch && !IsSource(t.built[j].name)
  }

  ghost predicate WellFormed(troves: seq<Trove>, repos: string) {
    forall i | 0 <= i < |troves| ::
      troves[i].built == [] || Local(troves[i], repos) || Elsewhere(troves[i], repos)
  }

  /** A binary that is committed already is at `k`. */
  ghost predicate TakenBy(t: Trove, repos: string, k: Key) {
    Elsewhere(t, repos) && At(t.built, k)
  }

  ghost predicate At(built: seq<Binary>, k: Key) {
    exists j :: 0 <= j < |built| && k == CommittedKey(built[j])
  }

  /** One of the troves from `m` up to `n` takes `k` for a committed binary. */
  ghost predicate Taken(troves: seq<Trove>, repos: string, k: Key, m: nat, n: nat) {
    exists c :: m <= c < n && c < |troves| && TakenBy(troves[c], repos, k)
  }

  /** Trove `i` is placed as far as binary `j`, unless it gives way: none of its binaries so
      far was taken before. */
  ghost predicate InReach(troves: seq<Trove>, repos: string, i: nat, j: nat) {
    && i < |troves| && j < |troves[i].built|
    && forall l: nat | l <= j :: !Taken(troves, repos, KeyOf(troves[i].built[l]), 0, i)
  }

  /** At its binary `l`, trove `n` wants a key of the earlier trove `o`. */
  ghost predicate Meets(troves: seq<Trove>, repos: string, n: nat, l: nat, o: nat) {
    && InReach(troves, repos, n, l) && o < n && Local(troves[n], repos) && Local(troves[o], repos)
    && exists j: nat :: InReach(troves, repos, o, j) && KeyOf(troves[o].built[j]) == KeyOf(troves[n].built[l])
  }

  /** Trove `n` meets at its binary `l` one of the troves in `up` that is not later. */
  ghost predicate Yields(troves: seq<Trove>, repos: string, up: set<nat>, n: nat, l: nat) {
    exists o | o in up :: Meets(troves, repos, n, l, o) && troves[o].version.rank <= troves[n].version.rank
  }

  ghost predicate NeverYields(troves: seq<Trove>, repos: string, up: set<nat>, n: nat) {
    forall l: nat :: !Yields(troves, repos, up, n, l)
  }

  /** Trove `n` meets the later trove `i`, and has not had to yield by then. */
  ghost predicate Overrides(troves: seq<Trove>, repos: string, up: set<nat>, n: nat, i: nat) {
    exists l: nat ::
      && Meets(troves, repos, n, l, i) && troves[i].version.rank > troves[n].version.rank
      && forall m: nat | m <= l :: !Yields(troves, repos, up, n, m)
  }

  /** The troves that stand among the first `n`: a trove to be committed stands unless it
      yields to one that does, and until a later one overrides it. */
  ghost function Standing(troves: seq<Trove>, repos: string, n: nat): set<nat>
    requires n <= |troves|
  {
    if n == 0 then {} else
      var up := Standing(troves, repos, n - 1);
      (set i | i in up && !Overrides(troves, repos, up, n - 1, i))
      + (if Local(troves[n - 1], repos) && NeverYields(troves, repos, up, n - 1) then {n - 1} else {})
  }

  ghost predicate Stands(troves: seq<Trove>, repos: string, i: nat, n: nat) {
    n <= |troves| && i in Standing(troves, repos, n)
  }

  /** Trove `n` gives way at its binary `l` to a trove that stands and is not later. */
  ghost predicate GivesWay(troves: seq<Trove>, repos: string, n: nat, l: nat) {
    n < |troves| && Yields(troves, repos, Standing(troves, repos, n), n, l)
  }

  /** Trove `n` takes the place of the later trove `i`. */
  ghost predicate Displaces(troves: seq<Trove>, repos: string, n: nat, i: nat) {
    n < |troves| && Overrides(troves, repos, Standing(troves, repos, n), n, i)
  }

  /** After `n` troves, binary `j` of trove `i` has its place. */
  ghost predicate Holds(troves: seq<Trove>, repos: string, n: nat, i: nat, j: nat) {
    && Stands(troves, repos, i, n) && InReach(troves, repos, i, j)
    && !Taken(troves, repos, KeyOf(troves[i].built[j]), i + 1, n)
  }

  // ---- the table ----

  /** The binary entries are those of the outcome, and one at every key taken. */
  ghost predicate Describes(e: map<Key, Entry>, troves: seq<Trove>, repos: string, n: nat) {
    && (forall k | k in e && !IsSource(k.name) :: Accounted(e, troves, repos, n, k))
    && (forall i: nat, j: nat | Holds(troves, repos, n, i, j) :: Entered(e, troves, i, j))
    && (forall k | Taken(troves, repos, k, 0, n) :: k in e && e[k].trove < n && Elsewhere(troves[e[k].trove], repos))
  }

  /** The entry at `k` is a place held, or a committed binary's. */
  ghost predicate Accounted(e: map<Key, Entry>, troves: seq<Trove>, repos: string, n: nat, k: Key) {
    && k in e && e[k].trove < n <= |troves|
    && var o := e[k].trove;
       if Local(troves[o], repos) then
         exists j: nat :: Holds(troves, repos, n, o, j) && k == KeyOf(troves[o].built[j])
       else
         Elsewhere(troves[o], repos) && Taken(troves, repos, k, 0, n)
         && troves[o].built[0].version.branch == k.branch == e[k].version.branch
  }

  // ---- placing one trove ----

  ghost predicate Own(troves: seq<Trove>, n: nat, j: nat, k: Key) {
    n < |troves| && exists l: nat :: l < j && l < |troves[n].built| && k == KeyOf(troves[n].built[l])
  }

  /** One of the first `j` binaries of trove `n` finds its key at trove `o`. */
  ghost predicate Gone(e0: map<Key, Entry>, troves: seq<Trove>, n: nat, j: nat, o: nat) {
    n < |troves| && exists l: nat :: l < j && Found(e0, troves, n, l, o)
  }

  ghost predicate Found(e0: map<Key, Entry>, troves: seq<Trove>, n: nat, l: nat, o: nat) {
    && n < |troves| && l < |troves[n].built|
    && KeyOf(troves[n].built[l]) in e0 && e0[KeyOf(troves[n].built[l])].trove == o
  }

  /** What stays of the table `e0` when the first `j` binaries of trove `n` are placed. */
  ghost predicate Remains(e0: map<Key, Entry>, e: map<Key, Entry>, troves: seq<Trove>, n: nat, j: nat, k: Key) {
    && (k in e <==> k in e0 && !Gone(e0, troves, n, j, e0[k].trove))
    && (k in e ==> e[k] == e0[k])
  }

  /** The first `j` binaries of trove `n` have been placed on the table `e0`. */
  ghost predicate Progress(e0: map<Key, Entry>, e: map<Key, Entry>, troves: seq<Trove>, n: nat, j: nat) {
    && n < |troves| && j <= |troves[n].built|
    && (forall l: nat | l < j :: !Stops(e0, troves, n, l) && Entered(e, troves, n, l))
    && (forall k: Key | !IsSource(k.name) && !Own(troves, n, j, k) :: Remains(e0, e, troves, n, j, k))
  }

  /** The first `j` binaries of trove `n` were placed, and taken out again. */
  ghost predicate Backed(e0: map<Key, Entry>, e: map<Key, Entry>, troves: seq<Trove>, n: nat, j: nat) {
    && n < |troves| && j <= |troves[n].built|
    && (forall l: nat | l < j :: !Stops(e0, troves, n, l))
    && (forall k: Key | !IsSource(k.name) :: Remains(e0, e, troves, n, j, k))
  }

  /** What is known of a table's binary entries before trove `n` is placed. */
  ghost predicate Sound(e: map<Key, Entry>, troves: seq<Trove>, repos: string, n: nat) {
    forall k | k in e && !IsSource(k.name) ::
      && e[k].trove < n && e[k].trove < |troves|
      && if Local(troves[e[k].trove], repos) then Own(troves, e[k].trove, |troves[e[k].trove].built|, k)
         else IsCommitted(troves, e[k].trove, k.branch)
  }

  lemma LocalIsNotCommitted(troves: seq<Trove>, repos: string, o: nat, k: Key)
    requires o < |troves| && Local(troves[o], repos) && Own(troves, o, |troves[o].built|, k)
    ensures !IsCommitted(troves, o, k.branch) && Parent(troves[o].built[0].version.branch) == k.branch
  {
    assert |Parent(troves[o].built[0].version.branch)| < |troves[o].built[0].version.branch|;
  }

  lemma Target(troves: seq<Trove>, repos: string, n: nat, j: nat)
    requires n < |troves| && Local(troves[n], repos) && j < |troves[n].built|
    ensures KeyOf(troves[n].built[j]).branch == Parent(troves[n].built[0].version.branch)
    ensures !IsSource(KeyOf(troves[n].built[j]).name)
  {
  }

  /** The key is as it was, or the one who had it has lost it already. */
  lemma StopsAsBefore(e0: map<Key, Entry>, e: map<Key, Entry>, troves: seq<Trove>, repos: string, n: nat, j: nat)
    requires Progress(e0, e, troves, n, j) && n < |troves| && j < |troves[n].built| && Local(troves[n], repos)
    ensures Stops(e, troves, n, j) <==> Stops(e0, troves, n, j)
    ensures var k := KeyOf(troves[n].built[j]);
            !Own(troves, n, j, k) && Remains(e0, e, troves, n, j, k)
  {
    var k := KeyOf(troves[n].built[j]);
    Target(troves, repos, n, j);
    assert !Own(troves, n, j, k);
    assert Remains(e0, e, troves, n, j, k);
    if k in e0 && Gone(e0, troves, n, j, e0[k].trove) {
      var l: nat :| l < j && Found(e0, troves, n, l, e0[k].trove);
      Target(troves, repos, n, l);
      assert !Stops(e0, troves, n, l);
    }
  }

  /** Discarding a trove that has lost takes out all its binary entries. */
  lemma DiscardLoser(e: map<Key, Entry>, troves: seq<Trove>, repos: string, o: nat, target: Branch)
    requires o < |troves| && Local(troves[o], repos) && target == Parent(troves[o].built[0].version.branch)
    requires forall k | k in e && !IsSource(k.name) && e[k].trove == o :: Own(troves, o, |troves[o].built|, k)
    ensures var rest := Discard(e, o, troves[o].built, target);
            && (forall k: Key | !IsSource(k.name) :: k in rest <==> k in e && e[k].trove != o)
            && (forall k | k in rest :: k in e && rest[k] == e[k])
  {
    var built := troves[o].built;
    DiscardKeeps(e, o, built, target);
    forall k: Key | k in e && e[k].trove == o && !IsSource(k.name)
      ensures exists j | 0 <= j < |built| :: k == Key(built[j].name, target, built[j].flavor)
    {
      assert Own(troves, o, |built|, k);
      var j: nat :| j < |built| && k == KeyOf(built[j]);
    }
  }

  lemma LosersOwn(e0: map<Key, Entry>, e: map<Key, Entry>, troves: seq<Trove>, repos: string, n: nat, j: nat, o: nat)
    requires Sound(e0, troves, repos, n) && Progress(e0, e, troves, n, j)
    requires o < |troves| && Local(troves[o], repos) && o < n
    ensures forall k | k in e && !IsSource(k.name) && e[k].trove == o :: Own(troves, o, |troves[o].built|, k)
  {
    OwnEntered(e0, e, troves, n, j);
    forall k | k in e && !IsSource(k.name) && e[k].trove == o ensures Own(troves, o, |troves[o].built|, k) {
      assert Remains(e0, e, troves, n, j, k);
    }
  }

  lemma OwnEntered(e0: map<Key, Entry>, e: map<Key, Entry>, troves: seq<Trove>, n: nat, j: nat)
    requires Progress(e0, e, troves, n, j)
    ensures forall k | Own(troves, n, j, k) :: k in e && e[k].trove == n
  {
    forall k | Own(troves, n, j, k) ensures k in e && e[k].trove == n {
      var l: nat :| l < j && l < |troves[n].built| && k == KeyOf(troves[n].built[l]);
      assert Entered(e, troves, n, l);
    }
  }

  /** The next binary enters, and the trove it meets loses everything. */
  lemma OneFurther(e0: map<Key, Entry>, e: map<Key, Entry>, troves: seq<Trove>, repos: string, n: nat, j: nat)
    requires Sound(e0, troves, repos, n) && Progress(e0, e, troves, n, j)
    requires n < |troves| && Local(troves[n], repos) && j < |troves[n].built| && !Stops(e0, troves, n, j)
    ensures !Stops(e, troves, n, j)
    ensures var b := troves[n].built[j];
            Progress(e0, Rest(e, troves, n, j) + map[KeyOf(b) := Entry(n, b.version)], troves, n, j + 1)
  {
    hide Stops, Uncommitted, Discard, Progress, Sound;
    var b := troves[n].built[j];
    var k := KeyOf(b);
    StopsAsBefore(e0, e, troves, repos, n, j);
    Target(troves, repos, n, j);
    var rest := Rest(e, troves, n, j);
    if k in e {
      var o := e[k].trove;
      RivalIsLocal(e0, troves, repos, n, j);
      PassedRival(e0, troves, n, j);
      LosersOwn(e0, e, troves, repos, n, j, o);
      DiscardLoser(e, troves, repos, o, Parent(b.version.branch));
      EnteredNext(e0, e, rest, troves, repos, n, j, o);
    } else {
      EnteredNext(e0, e, rest, troves, repos, n, j, n);
    }
  }

  lemma PassedRival(e: map<Key, Entry>, troves: seq<Trove>, n: nat, j: nat)
    requires n < |troves| && j < |troves[n].built| && !Stops(e, troves, n, j)
    ensures var b := troves[n].built[j];
            KeyOf(b) in e ==>
              var o := e[KeyOf(b)].trove;
              && !IsCommitted(troves, o, Parent(b.version.branch))
              && o < |troves| && troves[o].version.rank > troves[n].version.rank
  {
  }

  lemma RivalIsLocal(e0: map<Key, Entry>, troves: seq<Trove>, repos: string, n: nat, j: nat)
    requires Sound(e0, troves, repos, n)
    requires n < |troves| && Local(troves[n], repos) && j < |troves[n].built|
    ensures var b := troves[n].built[j];
            KeyOf(b) in e0 ==>
              var o := e0[KeyOf(b)].trove;
              && o < n && (Local(troves[o], repos) <==> !IsCommitted(troves, o, Parent(b.version.branch)))
              && (Local(troves[o], repos) ==> Parent(troves[o].built[0].version.branch) == Parent(b.version.branch))
  {
    var b := troves[n].built[j];
    Target(troves, repos, n, j);
    if KeyOf(b) in e0 && Local(troves[e0[KeyOf(b)].trove], repos) {
      LocalIsNotCommitted(troves, repos, e0[KeyOf(b)].trove, KeyOf(b));
    }
  }

  /** `o` is the trove discarded; `n` itself stands for none. */
  lemma EnteredNext(e0: map<Key, Entry>, e: map<Key, Entry>, rest: map<Key, Entry>, troves: seq<Trove>, repos: string,
                    n: nat, j: nat, o: nat)
    requires Progress(e0, e, troves, n, j) && Sound(e0, troves, repos, n)
    requires n < |troves| && Local(troves[n], repos) && j < |troves[n].built| && !Stops(e0, troves, n, j)
    requires var k := KeyOf(troves[n].built[j]);
             if k in e then o == e[k].trove && o < n else o == n
    requires forall k: Key | !IsSource(k.name) :: k in rest <==> k in e && (o < n ==> e[k].trove != o)
    requires forall k | k in rest :: k in e && rest[k] == e[k]
    ensures var b := troves[n].built[j];
            Progress(e0, rest + map[KeyOf(b) := Entry(n, b.version)], troves, n, j + 1)
  {
    hide Stops, Sound, Uncommitted, Remains, Own;
    var b := troves[n].built[j];
    var e' := rest + map[KeyOf(b) := Entry(n, b.version)];
    StopsAsBefore(e0, e, troves, repos, n, j);
    forall l: nat | l < j + 1 ensures !Stops(e0, troves, n, l) && Entered(e', troves, n, l) {
      if l < j {
        assert Entered(e, troves, n, l);
        Target(troves, repos, n, l);
      }
    }
    forall k: Key | !IsSource(k.name) && !Own(troves, n, j + 1, k) ensures Remains(e0, e', troves, n, j + 1, k) {
      NotOwn(troves, n, j, k);
      RemainsNext(e0, e, rest, troves, n, j, o, k);
    }
  }

  lemma RemainsNext(e0: map<Key, Entry>, e: map<Key, Entry>, rest: map<Key, Entry>, troves: seq<Trove>,
                    n: nat, j: nat, o: nat, k: Key)
    requires n < |troves| && j < |troves[n].built| && k != KeyOf(troves[n].built[j])
    requires Remains(e0, e, troves, n, j, k) && Remains(e0, e, troves, n, j, KeyOf(troves[n].built[j]))
    requires var k0 := KeyOf(troves[n].built[j]);
             if k0 in e then o == e[k0].trove && o < n else o == n
    requires k in rest <==> k in e && (o < n ==> e[k].trove != o)
    requires k in rest ==> rest[k] == e[k]
    ensures var b := troves[n].built[j];
            Remains(e0, rest + map[KeyOf(b) := Entry(n, b.version)], troves, n, j + 1, k)
  {
    hide Gone;
    if k in e0 { GoneNext(e0, troves, n, j, e0[k].trove); }
    KeyGone(e0, e, troves, n, j, k);
  }

  lemma NotOwn(troves: seq<Trove>, n: nat, j: nat, k: Key)
    requires n < |troves| && j < |troves[n].built| && !Own(troves, n, j + 1, k)
    ensures !Own(troves, n, j, k) && k != KeyOf(troves[n].built[j])
  {
  }

  /** A trove whose key is gone already holds no other key. */
  lemma KeyGone(e0: map<Key, Entry>, e: map<Key, Entry>, troves: seq<Trove>, n: nat, j: nat, k: Key)
    requires n < |troves| && j < |troves[n].built| && Remains(e0, e, troves, n, j, KeyOf(troves[n].built[j]))
    ensures var k0 := KeyOf(troves[n].built[j]);
            k0 !in e && k in e0 && Found(e0, troves, n, j, e0[k].trove) ==> Gone(e0, troves, n, j, e0[k].trove)
  {
  }

  lemma GoneNext(e0: map<Key, Entry>, troves: seq<Trove>, n: nat, j: nat, o: nat)
    requires n < |troves| && j < |troves[n].built|
    ensures Gone(e0, troves, n, j + 1, o) <==> Gone(e0, troves, n, j, o) || Found(e0, troves, n, j, o)
  {
  }

  /** What placing trove `n` comes to, from the table before it. */
  ghost predicate End(e0: map<Key, Entry>, r: map<Key, Entry>, troves: seq<Trove>, n: nat) {
    n < |troves| &&
    ((Progress(e0, r, troves, n, |troves[n].built|))
     || (exists m: nat :: StopsFirst(e0, troves, n, m)
           && if MeetsCommitted(e0, troves, n, m) then Progress(e0, r, troves, n, m) else Backed(e0, r, troves, n, m)))
  }

  /** A trove that gives way takes back what it placed. */
  lemma TakesBack(e0: map<Key, Entry>, e: map<Key, Entry>, troves: seq<Trove>, repos: string, n: nat, j: nat)
    requires Sound(e0, troves, repos, n) && Progress(e0, e, troves, n, j)
    requires n < |troves| && Local(troves[n], repos) && j < |troves[n].built|
    ensures Backed(e0, Discard(e, n, troves[n].built, Parent(troves[n].built[j].version.branch)), troves, n, j)
  {
    hide Stops, Uncommitted;
    Target(troves, repos, n, j);
    OwnEntered(e0, e, troves, n, j);
    forall k | k in e && !IsSource(k.name) && e[k].trove == n ensures Own(troves, n, |troves[n].built|, k) {
      assert Own(troves, n, j, k) || Remains(e0, e, troves, n, j, k);
      OwnMore(troves, n, j, k);
    }
    DiscardLoser(e, troves, repos, n, Parent(troves[n].built[j].version.branch));
    var r := Discard(e, n, troves[n].built, Parent(troves[n].built[j].version.branch));
    forall k: Key | !IsSource(k.name) ensures Remains(e0, r, troves, n, j, k) {
      if Own(troves, n, j, k) {
        OwnIsGone(e0, troves, n, j, k);
      } else {
        assert Remains(e0, e, troves, n, j, k);
      }
    }
  }

  lemma OwnMore(troves: seq<Trove>, n: nat, j: nat, k: Key)
    requires n < |troves| && Own(troves, n, j, k)
    ensures Own(troves, n, |troves[n].built|, k)
  {
  }

  lemma OwnIsGone(e0: map<Key, Entry>, troves: seq<Trove>, n: nat, j: nat, k: Key)
    requires Own(troves, n, j, k)
    ensures k in e0 ==> Gone(e0, troves, n, j, e0[k].trove)
  {
    var l: nat :| l < j && l < |troves[n].built| && k == KeyOf(troves[n].built[l]);
    assert k in e0 ==> Found(e0, troves, n, l, e0[k].trove);
  }

  lemma {:induction false} PlacedOnTable(e0: map<Key, Entry>, t: Table, troves: seq<Trove>, repos: string, n: nat, j: nat)
    requires Sound(e0, troves, repos, n) && Progress(e0, t.entries, troves, n, j)
    requires n < |troves| && Local(troves[n], repos)
    ensures End(e0, PlaceBinaries(t, troves, n, j).entries, troves, n)
    decreases |troves[n].built| - j
  {
    hide Uncommitted, Discard, Progress, Backed, Sound, Stops;
    var e := t.entries;
    Bounds(e0, e, troves, n, j);
    if j < |troves[n].built| {
      var b := troves[n].built[j];
      StopsAsBefore(e0, e, troves, repos, n, j);
      if Stops(e0, troves, n, j) {
        assert StopsFirst(e0, troves, n, j);
        TakesBack(e0, e, troves, repos, n, j);
        Stopped(t, troves, n, j);
      } else {
        OneFurther(e0, e, troves, repos, n, j);
        var t' := t.(entries := Rest(e, troves, n, j) + map[KeyOf(b) := Entry(n, b.version)],
                     branchMap := t.branchMap[b.version.branch := Parent(b.version.branch)]);
        PlacedOnTable(e0, t', troves, repos, n, j + 1);
        NotStopped(t, troves, n, j);
      }
    }
  }

  lemma Bounds(e0: map<Key, Entry>, e: map<Key, Entry>, troves: seq<Trove>, n: nat, j: nat)
    requires Progress(e0, e, troves, n, j)
    ensures n < |troves| && j <= |troves[n].built| && forall l: nat | l < j :: !Stops(e0, troves, n, l)
  {
  }

  // ---- the table holds the outcome ----

  lemma DescribedIsSound(e: map<Key, Entry>, troves: seq<Trove>, repos: string, n: nat)
    requires Describes(e, troves, repos, n) && n <= |troves|
    ensures Sound(e, troves, repos, n)
  {
    forall k | k in e && !IsSource(k.name)
      ensures && e[k].trove < n
              && if Local(troves[e[k].trove], repos) then Own(troves, e[k].trove, |troves[e[k].trove].built|, k)
                 else IsCommitted(troves, e[k].trove, k.branch)
    {
      assert Accounted(e, troves, repos, n, k);
    }
  }

  /** Finding a key at a local trove is meeting a trove that stands. */
  lemma FoundIsMet(e: map<Key, Entry>, troves: seq<Trove>, repos: string, n: nat, l: nat, o: nat)
    requires Describes(e, troves, repos, n) && n < |troves| && Local(troves[n], repos)
    requires InReach(troves, repos, n, l)
    ensures Meets(troves, repos, n, l, o) && Stands(troves, repos, o, n) <==>
            Found(e, troves, n, l, o) && o < n && Local(troves[o], repos)
    ensures KeyOf(troves[n].built[l]) in e ==>
              e[KeyOf(troves[n].built[l])].trove < n && Local(troves[e[KeyOf(troves[n].built[l])].trove], repos)
  {
    hide Stands, Local, Elsewhere, TakenBy;
    var k := KeyOf(troves[n].built[l]);
    assert !Taken(troves, repos, k, 0, n);
    assert !IsSource(k.name) by { IsLocal(troves, repos, n, l); }
    if k in e { assert Accounted(e, troves, repos, n, k); }
    if Meets(troves, repos, n, l, o) && Stands(troves, repos, o, n) {
      var j: nat :| InReach(troves, repos, o, j) && KeyOf(troves[o].built[j]) == k;
      assert !Taken(troves, repos, k, o + 1, n);
      assert Holds(troves, repos, n, o, j);
      assert Entered(e, troves, o, j);
    }
    if Found(e, troves, n, l, o) && o < n && Local(troves[o], repos) {
      var j: nat :| Holds(troves, repos, n, o, j) && k == KeyOf(troves[o].built[j]);
    }
  }

  lemma IsLocal(troves: seq<Trove>, repos: string, n: nat, l: nat)
    requires n < |troves| && l < |troves[n].built| && Local(troves[n], repos)
    ensures !IsSource(KeyOf(troves[n].built[l]).name)
  {
  }

  /** The binaries that are not stopped are within reach, and give way to nobody. */
  lemma PassedInReach(e: map<Key, Entry>, troves: seq<Trove>, repos: string, n: nat, m: nat)
    requires Describes(e, troves, repos, n) && n < |troves| && Local(troves[n], repos) && m <= |troves[n].built|
    requires forall l: nat | l < m :: !Stops(e, troves, n, l)
    ensures forall l: nat | l < m :: InReach(troves, repos, n, l) && !GivesWay(troves, repos, n, l)
  {
    hide Standing, Stops;
    DescribedIsSound(e, troves, repos, n);
    forall l: nat | l < m ensures !Taken(troves, repos, KeyOf(troves[n].built[l]), 0, n) {
      PassedRival(e, troves, n, l);
      RivalIsLocal(e, troves, repos, n, l);
    }
    forall l: nat | l < m ensures InReach(troves, repos, n, l) && !GivesWay(troves, repos, n, l) {
      PassedRival(e, troves, n, l);
      forall o | o in Standing(troves, repos, n) && Meets(troves, repos, n, l, o)
        ensures troves[o].version.rank > troves[n].version.rank
      {
        assert Stands(troves, repos, o, n);
        FoundIsMet(e, troves, repos, n, l, o);
      }
    }
  }

  /** Being displaced by trove `n` is having had a key that it found. */
  lemma GoneIsDisplaced(e: map<Key, Entry>, troves: seq<Trove>, repos: string, n: nat, m: nat, i: nat)
    requires Describes(e, troves, repos, n) && n < |troves| && Local(troves[n], repos) && m <= |troves[n].built|
    requires forall l: nat | l < m :: !Stops(e, troves, n, l)
    requires m < |troves[n].built| ==> !InReach(troves, repos, n, m) || GivesWay(troves, repos, n, m)
    requires i < n && Stands(troves, repos, i, n)
    ensures Displaces(troves, repos, n, i) <==> Gone(e, troves, n, m, i)
  {
    hide Stands, Stops, Standing, Yields, Describes, Local;
    PassedInReach(e, troves, repos, n, m);
    if Gone(e, troves, n, m, i) {
      var l: nat :| l < m && Found(e, troves, n, l, i);
      StandingIsLocal(troves, repos, i, n);
      FoundIsMet(e, troves, repos, n, l, i);
      PassedRival(e, troves, n, l);
      forall m: nat | m <= l ensures !Yields(troves, repos, Standing(troves, repos, n), n, m) {
        assert !GivesWay(troves, repos, n, m);
      }
    }
    if Displaces(troves, repos, n, i) {
      var l: nat :| Meets(troves, repos, n, l, i) && troves[i].version.rank > troves[n].version.rank
                    && forall m: nat | m <= l :: !Yields(troves, repos, Standing(troves, repos, n), n, m);
      FoundIsMet(e, troves, repos, n, l, i);
      ReachDown(troves, repos, n, l);
      assert l < m;
    }
  }

  lemma {:induction false} StandingIsLocal(troves: seq<Trove>, repos: string, i: nat, n: nat)
    requires Stands(troves, repos, i, n)
    ensures i < n <= |troves| && Local(troves[i], repos)
  {
    hide Overrides, NeverYields, Local;
    if i in Standing(troves, repos, n - 1) { StandingIsLocal(troves, repos, i, n - 1); }
  }

  lemma ReachDown(troves: seq<Trove>, repos: string, n: nat, l: nat)
    requires InReach(troves, repos, n, l)
    ensures forall m: nat | m <= l :: InReach(troves, repos, n, m)
  {
  }

  lemma StandsNext(troves: seq<Trove>, repos: string, i: nat, n: nat)
    requires i < n < |troves|
    ensures Stands(troves, repos, i, n + 1) <==> Stands(troves, repos, i, n) && !Displaces(troves, repos, n, i)
  {
  }

  lemma StandsAtFirst(troves: seq<Trove>, repos: string, n: nat)
    requires n < |troves| && Local(troves[n], repos)
    ensures Stands(troves, repos, n, n + 1) <==> forall l: nat :: !GivesWay(troves, repos, n, l)
  {
    hide Yields, Meets;
    if n in Standing(troves, repos, n) {
      assert Stands(troves, repos, n, n);
      StandingIsLocal(troves, repos, n, n);
    }
    if forall l: nat :: !GivesWay(troves, repos, n, l) {
      forall l: nat ensures !Yields(troves, repos, Standing(troves, repos, n), n, l) {
        assert !GivesWay(troves, repos, n, l);
      }
    }
  }

  lemma TakenNext(troves: seq<Trove>, repos: string, k: Key, m: nat, n: nat)
    requires n < |troves| && m <= n
    ensures Taken(troves, repos, k, m, n + 1) <==> Taken(troves, repos, k, m, n) || TakenBy(troves[n], repos, k)
    ensures Local(troves[n], repos) ==> !TakenBy(troves[n], repos, k)
  {
  }

  /** The entries of the earlier troves, after `m` binaries of trove `n`. */
  lemma OthersDescribed(e: map<Key, Entry>, r: map<Key, Entry>, troves: seq<Trove>, repos: string, n: nat, m: nat, k: Key)
    requires Describes(e, troves, repos, n) && n < |troves| && Local(troves[n], repos) && m <= |troves[n].built|
    requires forall l: nat | l < m :: !Stops(e, troves, n, l)
    requires m < |troves[n].built| ==> !InReach(troves, repos, n, m) || GivesWay(troves, repos, n, m)
    requires Remains(e, r, troves, n, m, k) && k in r && !IsSource(k.name)
    ensures Accounted(r, troves, repos, n + 1, k)
  {
    hide Stands, Stops, GivesWay, Local, Elsewhere, Meets, Displaces, InReach, Gone, Taken;
    assert Accounted(e, troves, repos, n, k);
    var o := e[k].trove;
    TakenNext(troves, repos, k, 0, n);
    if Local(troves[o], repos) {
      var j: nat :| Holds(troves, repos, n, o, j) && k == KeyOf(troves[o].built[j]);
      GoneIsDisplaced(e, troves, repos, n, m, o);
      StandsNext(troves, repos, o, n);
      TakenNext(troves, repos, k, o + 1, n);
      assert Holds(troves, repos, n + 1, o, j);
    }
  }

  /** An earlier trove that still stands still has its places. */
  lemma OthersHold(e: map<Key, Entry>, r: map<Key, Entry>, troves: seq<Trove>, repos: string, n: nat, m: nat, i: nat, j: nat)
    requires Describes(e, troves, repos, n) && n < |troves| && Local(troves[n], repos) && m <= |troves[n].built|
    requires forall l: nat | l < m :: !Stops(e, troves, n, l)
    requires m < |troves[n].built| ==> !InReach(troves, repos, n, m) || GivesWay(troves, repos, n, m)
    requires i < n && Holds(troves, repos, n + 1, i, j)
    requires var k := KeyOf(troves[i].built[j]);
             !IsSource(k.name) ==> Own(troves, n, m, k) || Remains(e, r, troves, n, m, k)
    ensures Entered(r, troves, i, j) && !Own(troves, n, m, KeyOf(troves[i].built[j]))
  {
    hide Stands, Stops, GivesWay, Local, Elsewhere, Meets, Displaces, Taken, Own, Gone;
    var k := KeyOf(troves[i].built[j]);
    StandsNext(troves, repos, i, n);
    TakenNext(troves, repos, k, i + 1, n);
    assert Holds(troves, repos, n, i, j);
    assert Entered(e, troves, i, j);
    GoneIsDisplaced(e, troves, repos, n, m, i);
    StandingIsLocal(troves, repos, i, n);
    IsLocal(troves, repos, i, j);
    if Own(troves, n, m, k) { OwnIsGone(e, troves, n, m, k); }
  }

  lemma CommittedStay(e: map<Key, Entry>, r: map<Key, Entry>, troves: seq<Trove>, repos: string, n: nat, m: nat, k: Key)
    requires Describes(e, troves, repos, n) && n < |troves| && Local(troves[n], repos) && m <= |troves[n].built|
    requires forall l: nat | l < m :: !Stops(e, troves, n, l)
    requires Taken(troves, repos, k, 0, n)
    requires !IsSource(k.name) ==> Own(troves, n, m, k) || Remains(e, r, troves, n, m, k)
    ensures k in r && r[k] == e[k] && !Own(troves, n, m, k)
  {
    hide Stands, Stops, GivesWay, Meets, Displaces, Holds, Local, Elsewhere, Taken, Accounted, Describes;
    PassedInReach(e, troves, repos, n, m);
    TakenIsBinary(troves, repos, k, n);
    TakenEntry(e, troves, repos, n, k);
    forall l: nat | l < m ensures k != KeyOf(troves[n].built[l]) {
      assert InReach(troves, repos, n, l);
    }
    assert !Own(troves, n, m, k);
    if Gone(e, troves, n, m, e[k].trove) {
      var l: nat :| l < m && Found(e, troves, n, l, e[k].trove);
      FoundIsMet(e, troves, repos, n, l, e[k].trove);
      LocalOrElsewhere(troves[e[k].trove], repos);
    }
  }

  lemma LocalOrElsewhere(t: Trove, repos: string)
    ensures !(Local(t, repos) && Elsewhere(t, repos))
  {
  }

  lemma TakenIsBinary(troves: seq<Trove>, repos: string, k: Key, n: nat)
    requires Taken(troves, repos, k, 0, n)
    ensures !IsSource(k.name)
  {
  }

  lemma OnlyReached(troves: seq<Trove>, repos: string, n: nat, m: nat)
    requires n < |troves| && m <= |troves[n].built|
    requires forall l: nat | l < m :: InReach(troves, repos, n, l) && !GivesWay(troves, repos, n, l)
    requires m < |troves[n].built| ==> !InReach(troves, repos, n, m)
    ensures forall l: nat :: InReach(troves, repos, n, l) <==> l < m
    ensures forall l: nat :: !GivesWay(troves, repos, n, l)
  {
    hide Stands;
    forall l: nat ensures InReach(troves, repos, n, l) <==> l < m {
      if InReach(troves, repos, n, l) { ReachDown(troves, repos, n, l); }
    }
    assert forall l: nat, o: nat | Meets(troves, repos, n, l, o) :: l < m;
  }

  /** The entries of a table that satisfies these three are those of the outcome. */
  lemma Described(r: map<Key, Entry>, troves: seq<Trove>, repos: string, n: nat)
    requires n <= |troves|
    requires forall k | k in r && !IsSource(k.name) :: Accounted(r, troves, repos, n, k)
    requires forall i: nat, j: nat | Holds(troves, repos, n, i, j) :: Entered(r, troves, i, j)
    requires forall k | Taken(troves, repos, k, 0, n) :: k in r && r[k].trove < n && Elsewhere(troves[r[k].trove], repos)
    ensures Describes(r, troves, repos, n)
  {
  }

  /** Trove `n` stands with its first `m` binaries. */
  lemma PlacedDescribed(e: map<Key, Entry>, r: map<Key, Entry>, troves: seq<Trove>, repos: string, n: nat, m: nat)
    requires Describes(e, troves, repos, n) && n < |troves| && Local(troves[n], repos)
    requires Progress(e, r, troves, n, m)
    requires m < |troves[n].built| ==> !InReach(troves, repos, n, m)
    ensures Describes(r, troves, repos, n + 1)
  {
    hide Stands, Stops, GivesWay, Local, Elsewhere, Displaces, Gone, Describes, Remains, Taken, InReach;
    Bounds(e, r, troves, n, m);
    PassedInReach(e, troves, repos, n, m);
    OnlyReached(troves, repos, n, m);
    StandsAtFirst(troves, repos, n);
    forall k | k in r && !IsSource(k.name) ensures Accounted(r, troves, repos, n + 1, k) {
      if Own(troves, n, m, k) { OwnAccounted(e, r, troves, repos, n, m, k); }
      else { OthersDescribed(e, r, troves, repos, n, m, k); }
    }
    forall i: nat, j: nat | Holds(troves, repos, n + 1, i, j) ensures Entered(r, troves, i, j) {
      StandingIsLocal(troves, repos, i, n + 1);
      if i < n { OthersHold(e, r, troves, repos, n, m, i, j); }
    }
    forall k | Taken(troves, repos, k, 0, n + 1) ensures k in r && r[k].trove < n + 1 && Elsewhere(troves[r[k].trove], repos) {
      TakenNext(troves, repos, k, 0, n);
      CommittedStay(e, r, troves, repos, n, m, k);
      TakenEntry(e, troves, repos, n, k);
    }
    Described(r, troves, repos, n + 1);
  }

  lemma TakenEntry(e: map<Key, Entry>, troves: seq<Trove>, repos: string, n: nat, k: Key)
    requires Describes(e, troves, repos, n) && Taken(troves, repos, k, 0, n) && n <= |troves|
    ensures k in e && e[k].trove < n && Elsewhere(troves[e[k].trove], repos)
  {
  }

  lemma OwnAccounted(e: map<Key, Entry>, r: map<Key, Entry>, troves: seq<Trove>, repos: string, n: nat, m: nat, k: Key)
    requires n < |troves| && Local(troves[n], repos) && Progress(e, r, troves, n, m) && Own(troves, n, m, k)
    requires Stands(troves, repos, n, n + 1) && forall l: nat | l < m :: InReach(troves, repos, n, l)
    ensures Accounted(r, troves, repos, n + 1, k)
  {
    hide Stands, InReach;
    OwnEntered(e, r, troves, n, m);
    var l: nat :| l < m && l < |troves[n].built| && k == KeyOf(troves[n].built[l]);
    assert Holds(troves, repos, n + 1, n, l);
  }

  /** Trove `n` gives way at its binary `m`. */
  lemma BackedDescribed(e: map<Key, Entry>, r: map<Key, Entry>, troves: seq<Trove>, repos: string, n: nat, m: nat)
    requires Describes(e, troves, repos, n) && n < |troves| && Local(troves[n], repos)
    requires Backed(e, r, troves, n, m) && m < |troves[n].built| && GivesWay(troves, repos, n, m)
    ensures Describes(r, troves, repos, n + 1)
  {
    hide Stands, Stops, GivesWay, Local, Elsewhere, Displaces, Gone, Describes, Remains, Taken, InReach;
    StandsAtFirst(troves, repos, n);
    forall k | k in r && !IsSource(k.name) ensures Accounted(r, troves, repos, n + 1, k) {
      OthersDescribed(e, r, troves, repos, n, m, k);
    }
    forall i: nat, j: nat | Holds(troves, repos, n + 1, i, j) ensures Entered(r, troves, i, j) {
      StandingIsLocal(troves, repos, i, n + 1);
      OthersHold(e, r, troves, repos, n, m, i, j);
    }
    forall k | Taken(troves, repos, k, 0, n + 1) ensures k in r && r[k].trove < n + 1 && Elsewhere(troves[r[k].trove], repos) {
      TakenNext(troves, repos, k, 0, n);
      CommittedStay(e, r, troves, repos, n, m, k);
      TakenEntry(e, troves, repos, n, k);
    }
    Described(r, troves, repos, n + 1);
  }

  /** Placing a local trove on a table that holds the outcome. */
  lemma LocalStep(t: Table, troves: seq<Trove>, repos: string, n: nat)
    requires Describes(t.entries, troves, repos, n) && n < |troves| && Local(troves[n], repos)
    ensures Describes(PlaceBinaries(t, troves, n, 0).entries, troves, repos, n + 1)
  {
    hide Stands, Stops, GivesWay, Local, Elsewhere, Displaces, Describes, Taken, InReach, Progress, Backed, Meets;
    var e, r := t.entries, PlaceBinaries(t, troves, n, 0).entries;
    DescribedIsSound(e, troves, repos, n);
    NothingPlaced(e, troves, n);
    PlacedOnTable(e, t, troves, repos, n, 0);
    if Progress(e, r, troves, n, |troves[n].built|) {
      PlacedDescribed(e, r, troves, repos, n, |troves[n].built|);
    } else {
      var m: nat :| StopsFirst(e, troves, n, m)
           && if MeetsCommitted(e, troves, n, m) then Progress(e, r, troves, n, m) else Backed(e, r, troves, n, m);
      StopIsKnown(e, troves, repos, n, m);
      if MeetsCommitted(e, troves, n, m) {
        PlacedDescribed(e, r, troves, repos, n, m);
      } else {
        BackedDescribed(e, r, troves, repos, n, m);
      }
    }
  }

  lemma NothingPlaced(e: map<Key, Entry>, troves: seq<Trove>, n: nat)
    requires n < |troves|
    ensures Progress(e, e, troves, n, 0)
  {
  }

  /** What stops trove `n` first is a key taken before, or a standing trove to give way to. */
  lemma StopIsKnown(e: map<Key, Entry>, troves: seq<Trove>, repos: string, n: nat, m: nat)
    requires Describes(e, troves, repos, n) && n < |troves| && Local(troves[n], repos)
    requires StopsFirst(e, troves, n, m)
    ensures if MeetsCommitted(e, troves, n, m) then !InReach(troves, repos, n, m) else GivesWay(troves, repos, n, m)
  {
    hide Standing, Elsewhere, Describes;
    var k := KeyOf(troves[n].built[m]);
    var o := e[k].trove;
    IsLocal(troves, repos, n, m);
    DescribedIsSound(e, troves, repos, n);
    RivalIsLocal(e, troves, repos, n, m);
    PassedInReach(e, troves, repos, n, m);
    EntryAccounted(e, troves, repos, n, k);
    if !MeetsCommitted(e, troves, n, m) {
      assert !Taken(troves, repos, k, 0, n) by {
        LocalOrElsewhere(troves[o], repos);
        if Taken(troves, repos, k, 0, n) { TakenEntry(e, troves, repos, n, k); }
      }
      forall l: nat | l <= m ensures !Taken(troves, repos, KeyOf(troves[n].built[l]), 0, n) {
        if l < m { assert InReach(troves, repos, n, l); }
      }
      assert InReach(troves, repos, n, m);
      FoundIsMet(e, troves, repos, n, m, o);
      assert o in Standing(troves, repos, n);
    }
  }

  lemma EntryAccounted(e: map<Key, Entry>, troves: seq<Trove>, repos: string, n: nat, k: Key)
    requires Describes(e, troves, repos, n) && k in e && !IsSource(k.name)
    ensures Accounted(e, troves, repos, n, k)
  {
  }

  /** Entries of sources are beside the point. */
  lemma SourcesAside(e: map<Key, Entry>, e': map<Key, Entry>, troves: seq<Trove>, repos: string, n: nat)
    requires Describes(e, troves, repos, n) && n <= |troves|
    requires forall k: Key | !IsSource(k.name) :: (k in e <==> k in e') && (k in e ==> e'[k] == e[k])
    ensures Describes(e', troves, repos, n)
  {
    hide Standing, Local, Elsewhere, InReach, Taken;
    forall k | k in e' && !IsSource(k.name) ensures Accounted(e', troves, repos, n, k) {
      assert Accounted(e, troves, repos, n, k);
    }
    forall i: nat, j: nat | Holds(troves, repos, n, i, j) ensures Entered(e', troves, i, j) {
      assert Entered(e, troves, i, j);
      StandingIsLocal(troves, repos, i, n);
      IsLocal(troves, repos, i, j);
    }
    forall k | Taken(troves, repos, k, 0, n) ensures k in e' && e'[k].trove < n && Elsewhere(troves[e'[k].trove], repos) {
      TakenIsBinary(troves, repos, k, n);
    }
  }

  lemma {:induction false} CommittedEntries(e: map<Key, Entry>, c: nat, built: seq<Binary>)
    ensures forall k :: k in PlaceCommitted(e, c, built) <==> k in e || At(built, k)
    ensures forall k | k in PlaceCommitted(e, c, built) ::
              if At(built, k) then PlaceCommitted(e, c, built)[k].trove == c
                                   && PlaceCommitted(e, c, built)[k].version.branch == k.branch
              else PlaceCommitted(e, c, built)[k] == e[k]
    decreases built
  {
    if built != [] {
      var k0 := CommittedKey(built[0]);
      var e1 := e[k0 := Entry(c, built[0].version)];
      CommittedEntries(e1, c, built[1..]);
      forall k ensures At(built, k) <==> k == k0 || At(built[1..], k) {
        AtRest(built, k);
      }
    }
  }

  lemma AtRest(built: seq<Binary>, k: Key)
    requires built != []
    ensures At(built, k) <==> k == CommittedKey(built[0]) || At(built[1..], k)
  {
    if At(built[1..], k) {
      var j :| 0 <= j < |built[1..]| && k == CommittedKey(built[1..][j]);
      assert k == CommittedKey(built[j + 1]);
    }
    if At(built, k) && k != CommittedKey(built[0]) {
      var j :| 0 <= j < |built| && k == CommittedKey(built[j]);
      assert k == CommittedKey(built[1..][j - 1]);
    }
  }

  /** A trove that is not to be committed moves none that stands. */
  lemma StandingStays(troves: seq<Trove>, repos: string, n: nat)
    requires n < |troves| && !Local(troves[n], repos)
    ensures forall i: nat :: Stands(troves, repos, i, n + 1) <==> Stands(troves, repos, i, n)
  {
    assert forall l: nat, o: nat :: !Meets(troves, repos, n, l, o);
  }

  lemma TakenMore(troves: seq<Trove>, repos: string, k: Key, m: nat, n: nat)
    requires n < |troves| && m <= n
    ensures Taken(troves, repos, k, m, n + 1) <==> Taken(troves, repos, k, m, n) || TakenBy(troves[n], repos, k)
  {
  }

  /** A trove that is committed already takes its keys. */
  lemma CommittedStep(e: map<Key, Entry>, troves: seq<Trove>, repos: string, n: nat)
    requires Describes(e, troves, repos, n) && n < |troves| && Elsewhere(troves[n], repos)
    ensures Describes(PlaceCommitted(e, n, troves[n].built), troves, repos, n + 1)
  {
    hide Stands, Local, Elsewhere, InReach, Taken, At, PlaceCommitted;
    var built := troves[n].built;
    var r := PlaceCommitted(e, n, built);
    CommittedEntries(e, n, built);
    LocalOrElsewhere(troves[n], repos);
    StandingStays(troves, repos, n);
    forall k | k in r && !IsSource(k.name) ensures Accounted(r, troves, repos, n + 1, k) {
      TakenMore(troves, repos, k, 0, n);
      if At(built, k) {
        AtBranch(troves[n], repos, k);
      } else {
        assert Accounted(e, troves, repos, n, k);
        var o := e[k].trove;
        TakenMore(troves, repos, k, o + 1, n);
        if Local(troves[o], repos) {
          var j: nat :| Holds(troves, repos, n, o, j) && k == KeyOf(troves[o].built[j]);
          assert Holds(troves, repos, n + 1, o, j);
        }
      }
    }
    forall i: nat, j: nat | Holds(troves, repos, n + 1, i, j) ensures Entered(r, troves, i, j) {
      StandingIsLocal(troves, repos, i, n);
      Reached(troves, repos, i, j);
      TakenMore(troves, repos, KeyOf(troves[i].built[j]), i + 1, n);
      assert Holds(troves, repos, n, i, j);
      assert Entered(e, troves, i, j);
    }
    forall k | Taken(troves, repos, k, 0, n + 1) ensures k in r && r[k].trove < n + 1 && Elsewhere(troves[r[k].trove], repos) {
      TakenMore(troves, repos, k, 0, n);
    }
    Described(r, troves, repos, n + 1);
  }

  lemma Reached(troves: seq<Trove>, repos: string, i: nat, j: nat)
    requires InReach(troves, repos, i, j)
    ensures i < |troves| && j < |troves[i].built|
  {
  }

  lemma AtBranch(t: Trove, repos: string, k: Key)
    requires Elsewhere(t, repos) && At(t.built, k)
    ensures t.built[0].version.branch == k.branch
  {
  }

  /** A trove without binaries is passed over. */
  lemma EmptyStep(e: map<Key, Entry>, troves: seq<Trove>, repos: string, n: nat)
    requires Describes(e, troves, repos, n) && n < |troves| && troves[n].built == []
    ensures Describes(e, troves, repos, n + 1)
  {
    hide Stands, InReach, Taken, At;
    StandingStays(troves, repos, n);
    forall k, m: nat | m <= n ensures Taken(troves, repos, k, m, n + 1) <==> Taken(troves, repos, k, m, n) {
      TakenMore(troves, repos, k, m, n);
    }
    forall k | k in e && !IsSource(k.name) ensures Accounted(e, troves, repos, n + 1, k) {
      assert Accounted(e, troves, repos, n, k);
      var o := e[k].trove;
      if Local(troves[o], repos) {
        var j: nat :| Holds(troves, repos, n, o, j) && k == KeyOf(troves[o].built[j]);
        assert Holds(troves, repos, n + 1, o, j);
      }
    }
    forall i: nat, j: nat | Holds(troves, repos, n + 1, i, j) ensures Entered(e, troves, i, j) {
      StandingIsLocal(troves, repos, i, n);
      Reached(troves, repos, i, j);
      assert Holds(troves, repos, n, i, j);
    }
    Described(e, troves, repos, n + 1);
  }

  lemma NothingDescribed(troves: seq<Trove>, repos: string)
    ensures Describes(map[], troves, repos, 0)
  {
  }

  /** The source of a trove is entered beside its binaries. */
  lemma SourceAside(t: Table, troves: seq<Trove>, repos: string, n: nat)
    requires Describes(t.entries, troves, repos, n) && n < |troves| && Local(troves[n], repos)
    requires PlaceSource(t, troves, n, repos).Ok?
    ensures Describes(PlaceSource(t, troves, n, repos).value.entries, troves, repos, n)
  {
    hide Describes;
    SourcesAside(t.entries, PlaceSource(t, troves, n, repos).value.entries, troves, repos, n);
  }

  /** The table of a commit holds the outcome told from the troves: exactly the binaries of
      the troves that stand, as far as they reach, but for those whose keys were taken
      later; and a committed binary at every key taken. */
  lemma {:induction false} TableHoldsOutcome(troves: seq<Trove>, repos: string, n: nat)
    requires WellFormed(troves, repos) && n <= |troves| && TableOf(troves, n, repos, false).Ok?
    ensures Describes(TableOf(troves, n, repos, false).value.entries, troves, repos, n)
  {
    hide Describes, Uncommitted, PlaceSource, PlaceBinaries, PlaceCommitted;
    if n == 0 {
      NothingDescribed(troves, repos);
    } else {
      TableHoldsOutcome(troves, repos, n - 1);
      var t := TableOf(troves, n - 1, repos, false).value;
      var i := n - 1;
      if troves[i].built == [] {
        EmptyStep(t.entries, troves, repos, i);
      } else if Elsewhere(troves[i], repos) {
        CommittedStep(t.entries, troves, repos, i);
      } else {
        LocalHost(troves[i], repos);
        SourceAside(t, troves, repos, i);
        LocalStep(PlaceSource(t, troves, i, repos).value, troves, repos, i);
      }
    }
  }

  lemma LocalHost(t: Trove, repos: string)
    requires Local(t, repos)
    ensures Host(t.built[0].version) == repos
  {
  }

  // ---- when a commit is all or nothing ----

  /** Binary `j` of trove `i` is not lost to a committed one: none is at its key or at that
      of a binary before it when the trove is placed, and none comes to its key later. */
  ghost predicate Survives(troves: seq<Trove>, repos: string, i: nat, j: nat) {
    && InReach(troves, repos, i, j)
    && !Taken(troves, repos, KeyOf(troves[i].built[j]), i + 1, |troves|)
  }

  /** Committed binaries take the places of some of the trove's binaries and not of others. */
  ghost predicate Torn(troves: seq<Trove>, repos: string, i: nat) {
    && i < |troves|
    && (exists j: nat :: Survives(troves, repos, i, j))
    && (exists j: nat :: j < |troves[i].built| && !Survives(troves, repos, i, j))
  }

  /** What the table has of a trove is what survives of it while it stands. */
  lemma EnteredExactly(troves: seq<Trove>, repos: string, t: Table, i: nat, j: nat)
    requires WellFormed(troves, repos) && TableOf(troves, |troves|, repos, false) == Ok(t)
    requires i < |troves| && Local(troves[i], repos) && j < |troves[i].built|
    ensures Entered(t.entries, troves, i, j) <==> Stands(troves, repos, i, |troves|) && Survives(troves, repos, i, j)
  {
    hide Standing, InReach, Taken, TableOf;
    var n, e, k := |troves|, t.entries, KeyOf(troves[i].built[j]);
    TableHoldsOutcome(troves, repos, n);
    IsLocal(troves, repos, i, j);
    if Entered(e, troves, i, j) {
      EntryAccounted(e, troves, repos, n, k);
      var l: nat :| Holds(troves, repos, n, i, l) && k == KeyOf(troves[i].built[l]);
      Reached(troves, repos, i, l);
      OneKeyEach(troves[i], repos, j, l);
    }
    if Stands(troves, repos, i, n) && Survives(troves, repos, i, j) {
      assert Holds(troves, repos, n, i, j);
    }
  }

  lemma OneKeyEach(t: Trove, repos: string, j: nat, l: nat)
    requires Local(t, repos) && j < |t.built| && l < |t.built| && KeyOf(t.built[j]) == KeyOf(t.built[l])
    ensures j == l
  {
  }

  /** A trove is dropped when none of its binaries is in the table. */
  lemma DroppedExactly(troves: seq<Trove>, repos: string, t: Table, i: nat)
    requires WellFormed(troves, repos) && TableOf(troves, |troves|, repos, false) == Ok(t)
    requires i < |troves| && Local(troves[i], repos)
    ensures Dropped(t.entries, i) <==> forall j: nat | j < |troves[i].built| :: !Entered(t.entries, troves, i, j)
  {
    hide Standing, InReach, Taken, TableOf;
    var n, e := |troves|, t.entries;
    TableHoldsOutcome(troves, repos, n);
    if Dropped(e, i) {
      forall j: nat | j < |troves[i].built| ensures !Entered(e, troves, i, j) { IsLocal(troves, repos, i, j); }
    } else {
      var k :| k in e && !IsSource(k.name) && e[k].trove == i;
      EntryAccounted(e, troves, repos, n, k);
      var l: nat :| Holds(troves, repos, n, i, l) && k == KeyOf(troves[i].built[l]);
      Reached(troves, repos, i, l);
      assert Entered(e, troves, i, l) by { HeldIsEntered(e, troves, repos, n, i, l); }
    }
  }

  lemma HeldIsEntered(e: map<Key, Entry>, troves: seq<Trove>, repos: string, n: nat, i: nat, j: nat)
    requires Describes(e, troves, repos, n) && Holds(troves, repos, n, i, j)
    ensures Entered(e, troves, i, j)
  {
  }

  /** For every trove of every commit: it is committed whole or not at all exactly when it
      does not stand, or committed binaries take none or all of its places. */
  lemma WholeUnlessTorn(troves: seq<Trove>, repos: string, t: Table, i: nat)
    requires WellFormed(troves, repos) && TableOf(troves, |troves|, repos, false) == Ok(t)
    requires i < |troves| && Local(troves[i], repos)
    ensures Kept(t.entries, troves, i) || Dropped(t.entries, i)
            <==> !(Stands(troves, repos, i, |troves|) && Torn(troves, repos, i))
    ensures Kept(t.entries, troves, i) <==>
              Stands(troves, repos, i, |troves|) && forall j: nat | j < |troves[i].built| :: Survives(troves, repos, i, j)
  {
    hide Stands, Survives, TableOf, Entered, Dropped, WellFormed;
    var e := t.entries;
    DroppedExactly(troves, repos, t, i);
    forall j: nat | j < |troves[i].built|
      ensures Entered(e, troves, i, j) <==> Stands(troves, repos, i, |troves|) && Survives(troves, repos, i, j)
    {
      EnteredExactly(troves, repos, t, i, j);
    }
    SurvivorsAreBinaries(troves, repos, i);
    assert Kept(e, troves, i) <==> forall j: nat | j < |troves[i].built| :: Entered(e, troves, i, j);
    assert 0 < |troves[i].built|;
    if Kept(e, troves, i) { assert Entered(e, troves, i, 0); }
  }

  lemma SurvivorsAreBinaries(troves: seq<Trove>, repos: string, i: nat)
    requires i < |troves|
    ensures forall j: nat | Survives(troves, repos, i, j) :: j < |troves[i].built|
  {
  }

  ghost predicate AllWhole(troves: seq<Trove>, repos: string, entries: map<Key, Entry>) {
    forall i: nat | i < |troves| && Local(troves[i], repos) :: Kept(entries, troves, i) || Dropped(entries, i)
  }

  /** A commit is all or nothing for every trove exactly when no trove that stands is torn. */
  lemma AllWholeExactly(troves: seq<Trove>, repos: string, t: Table)
    requires WellFormed(troves, repos) && TableOf(troves, |troves|, repos, false) == Ok(t)
    ensures AllWhole(troves, repos, t.entries) <==>
            forall i: nat | i < |troves| && Local(troves[i], repos) ::
              !(Stands(troves, repos, i, |troves|) && Torn(troves, repos, i))
  {
    hide Stands, Torn, TableOf, Local, Kept, Dropped, WellFormed;
    forall i: nat | i < |troves| && Local(troves[i], repos)
      ensures Kept(t.entries, troves, i) || Dropped(t.entries, i)
              <==> !(Stands(troves, repos, i, |troves|) && Torn(troves, repos, i))
    {
      WholeUnlessTorn(troves, repos, t, i);
    }
  }

  /** A committed trove tears another also when it comes after it. */
  lemma LaterCommittedTears() returns (troves: seq<Trove>)
    ensures WellFormed(troves, "local") && |troves| == 2
    ensures Local(troves[0], "local") && Elsewhere(troves[1], "local")
    ensures Stands(troves, "local", 0, 2) && Torn(troves, "local", 0)
  {
    var done := Trove("p:source", Version(MAIN, 1), [Binary("b", Version(MAIN, 1), "")]);
    troves := [LocalTrove(2, ["a", "b"]), done];
    var a, b := LocalBinary("a", 2), LocalBinary("b", 2);
    assert troves[0].built == [a, b];
    assert Parent(LOCAL) == MAIN;
    assert KeyOf(a) == Key("a", MAIN, "") && KeyOf(b) == Key("b", MAIN, "");
    assert IsSource("p:source") by { assert "p:source"[1..] == ":source"; }
    assert Local(troves[0], "local") && Elsewhere(done, "local");
    LocalOrElsewhere(done, "local");
    assert InReach(troves, "local", 0, 0) && InReach(troves, "local", 0, 1);
    assert CommittedKey(done.built[0]) == KeyOf(b);
    assert TakenBy(troves[1], "local", KeyOf(b)) && !TakenBy(troves[1], "local", KeyOf(a));
    assert Survives(troves, "local", 0, 0) && !Survives(troves, "local", 0, 1);
    FirstStands(troves, "local");
    StandingStays(troves, "local", 1);
  }

  lemma FirstStands(troves: seq<Trove>, repos: string)
    requires troves != [] && Local(troves[0], repos)
    ensures Stands(troves, repos, 0, 1)
  {
    assert Standing(troves, repos, 0) == {};
    assert NeverYields(troves, repos, {}, 0);
  }

  // ---- who loses to whom ----

  /** Trove `o` beats trove `i`: the later of them gives way to it, or it displaces the
      earlier. */
  ghost predicate Beats(troves: seq<Trove>, repos: string, o: nat, i: nat) {
    || (i < |troves| && Stands(troves, repos, o, i)
          && exists l: nat :: Meets(troves, repos, i, l, o) && troves[o].version.rank <= troves[i].version.rank)
    || (Stands(troves, repos, i, o) && Displaces(troves, repos, o, i))
  }

  /** A local trove that does not stand in the end was beaten. */
  lemma {:induction false} FallenWasBeaten(troves: seq<Trove>, repos: string, i: nat, n: nat) returns (o: nat)
    requires i < n <= |troves| && Local(troves[i], repos) && !Stands(troves, repos, i, n)
    ensures Beats(troves, repos, o, i) && o < |troves|
    decreases n
  {
    hide Standing, Local;
    if n == i + 1 {
      StandsAtFirst(troves, repos, i);
      var l: nat :| GivesWay(troves, repos, i, l);
      o :| o in Standing(troves, repos, i) && Meets(troves, repos, i, l, o) && troves[o].version.rank <= troves[i].version.rank;
      assert Stands(troves, repos, o, i);
      StandingIsLocal(troves, repos, o, i);
    } else {
      StandsNext(troves, repos, i, n - 1);
      if Stands(troves, repos, i, n - 1) {
        o := n - 1;
      } else {
        o := FallenWasBeaten(troves, repos, i, n - 1);
      }
    }
  }

  lemma {:induction false} StoodBefore(troves: seq<Trove>, repos: string, i: nat, m: nat, n: nat)
    requires i < m <= n <= |troves| && Stands(troves, repos, i, n)
    ensures Stands(troves, repos, i, m)
    decreases n
  {
    hide Standing;
    if m < n {
      StandsNext(troves, repos, i, n - 1);
      StoodBefore(troves, repos, i, m, n - 1);
    }
  }

  lemma MeetsShares(troves: seq<Trove>, repos: string, n: nat, l: nat, o: nat) returns (j: nat)
    requires Meets(troves, repos, n, l, o)
    ensures o < n < |troves| && l < |troves[n].built| && j < |troves[o].built|
    ensures KeyOf(troves[o].built[j]) == KeyOf(troves[n].built[l])
  {
    j :| InReach(troves, repos, o, j) && KeyOf(troves[o].built[j]) == KeyOf(troves[n].built[l]);
  }

  /** A trove that was beaten does not stand in the end. */
  lemma BeatenFalls(troves: seq<Trove>, repos: string, o: nat, i: nat)
    requires Beats(troves, repos, o, i) && i < |troves| && Local(troves[i], repos)
    ensures !Stands(troves, repos, i, |troves|) && o < |troves| && o != i && troves[o].built != []
    ensures exists j: int, l: int :: Beaten(troves, i, o, j, l)
  {
    hide Standing, Meets, Local, Yields, Stands;
    if Stands(troves, repos, i, o) && Displaces(troves, repos, o, i) {
      StandingIsLocal(troves, repos, i, o);
      StandsNext(troves, repos, i, o);
      if Stands(troves, repos, i, |troves|) { StoodBefore(troves, repos, i, o + 1, |troves|); }
      var l: nat :| Meets(troves, repos, o, l, i) && troves[i].version.rank > troves[o].version.rank;
      var j := MeetsShares(troves, repos, o, l, i);
      assert Beaten(troves, i, o, j, l);
    } else {
      StandingIsLocal(troves, repos, o, i);
      var l: nat :| Meets(troves, repos, i, l, o) && troves[o].version.rank <= troves[i].version.rank;
      ToYield(troves, repos, o, i, l);
      StandsAtFirst(troves, repos, i);
      if Stands(troves, repos, i, |troves|) { StoodBefore(troves, repos, i, i + 1, |troves|); }
      var j := MeetsShares(troves, repos, i, l, o);
      assert Beaten(troves, i, o, l, j);
    }
  }

  lemma ToYield(troves: seq<Trove>, repos: string, o: nat, i: nat, l: nat)
    requires i < |troves| && Stands(troves, repos, o, i)
    requires Meets(troves, repos, i, l, o) && troves[o].version.rank <= troves[i].version.rank
    ensures GivesWay(troves, repos, i, l)
  {
    hide Meets, Standing;
  }

  /** No key of trove `i` is that of a committed binary. */
  ghost predicate Apart(troves: seq<Trove>, repos: string, i: nat) {
    i < |troves| && forall j: nat | j < |troves[i].built| ::
      !Taken(troves, repos, KeyOf(troves[i].built[j]), 0, |troves|)
  }

  lemma ApartSurvives(troves: seq<Trove>, repos: string, i: nat)
    requires Apart(troves, repos, i)
    ensures forall j: nat | j < |troves[i].built| :: Survives(troves, repos, i, j)
  {
    hide TakenBy;
    forall j: nat, m: nat, n: nat | j < |troves[i].built| && n <= |troves|
      ensures !Taken(troves, repos, KeyOf(troves[i].built[j]), m, n)
    {
      assert !Taken(troves, repos, KeyOf(troves[i].built[j]), 0, |troves|);
    }
  }

  /** Whatever else is committed already, a trove that shares no key with it is committed
      whole, with every binary cloned, or not at all, having lost to one that is not later. */
  lemma ApartIsWhole(troves: seq<Trove>, repos: string, t: Table, i: nat)
    requires WellFormed(troves, repos) && TableOf(troves, |troves|, repos, false) == Ok(t)
    requires i < |troves| && Local(troves[i], repos) && Apart(troves, repos, i)
    ensures if Stands(troves, repos, i, |troves|) then
              Kept(t.entries, troves, i) && forall b | b in troves[i].built :: b in Clones(t.entries)
            else
              Dropped(t.entries, i) && Lost(troves, i)
  {
    hide Stands, Survives, TableOf, WellFormed, Dropped, Apart, Beats;
    ApartSurvives(troves, repos, i);
    WholeUnlessTorn(troves, repos, t, i);
    if Stands(troves, repos, i, |troves|) {
      KeptIsCloned(troves, repos, t.entries, i);
    } else {
      var o := FallenWasBeaten(troves, repos, i, |troves|);
      BeatenFalls(troves, repos, o, i);
    }
  }

  lemma KeptIsCloned(troves: seq<Trove>, repos: string, e: map<Key, Entry>, i: nat)
    requires i < |troves| && Local(troves[i], repos) && Kept(e, troves, i)
    ensures forall b | b in troves[i].built :: b in Clones(e)
  {
    forall b | b in troves[i].built ensures b in Clones(e) {
      var j :| 0 <= j < |troves[i].built| && troves[i].built[j] == b;
      assert Entered(e, troves, i, j);
      var k := KeyOf(b);
      assert |k.branch| < |b.version.branch|;
      assert k in e && e[k].version.branch != k.branch && b == Binary(k.name, e[k].version, k.flavor);
    }
  }

  /** The trove shares no key with another that is to be committed. */
  ghost predicate Alone(troves: seq<Trove>, repos: string, i: nat) {
    i < |troves| && forall o: nat, j: nat, l: nat |
      o < |troves| && o != i && Local(troves[o], repos) && j < |troves[i].built| && l < |troves[o].built| ::
      KeyOf(troves[i].built[j]) != KeyOf(troves[o].built[l])
  }

  /** Such a trove stands, so that whether it is torn decides. */
  lemma AloneUnlessTorn(troves: seq<Trove>, repos: string, t: Table, i: nat)
    requires WellFormed(troves, repos) && TableOf(troves, |troves|, repos, false) == Ok(t)
    requires i < |troves| && Local(troves[i], repos) && Alone(troves, repos, i)
    ensures Kept(t.entries, troves, i) || Dropped(t.entries, i) <==> !Torn(troves, repos, i)
  {
    hide Stands, Torn, TableOf, WellFormed, Dropped, Kept, Beats, Local, Survives;
    WholeUnlessTorn(troves, repos, t, i);
    if !Stands(troves, repos, i, |troves|) {
      var o := FallenWasBeaten(troves, repos, i, |troves|);
      BeatenFalls(troves, repos, o, i);
      BeatsIsLocal(troves, repos, o, i);
      AloneIsUnbeaten(troves, repos, i, o);
    }
  }

  lemma AloneIsUnbeaten(troves: seq<Trove>, repos: string, i: nat, o: nat)
    requires Alone(troves, repos, i) && o < |troves| && o != i && Local(troves[o], repos)
    ensures forall j: int, l: int :: !Beaten(troves, i, o, j, l)
  {
  }

  lemma BeatsIsLocal(troves: seq<Trove>, repos: string, o: nat, i: nat)
    requires Beats(troves, repos, o, i)
    ensures o < |troves| && Local(troves[o], repos)
  {
    hide Standing;
    if i < |troves| && Stands(troves, repos, o, i) { StandingIsLocal(troves, repos, o, i); }
  }

  // ---- losers and kept rivals ----

  /** A trove to which trove `i` may lose is kept. */
  ghost predicate HasKeptRival(entries: map<Key, Entry>, troves: seq<Trove>, i: nat) {
    exists o: nat, j: int, l: int :: Beaten(troves, i, o, j, l) && Kept(entries, troves, o)
  }

  ghost predicate HasStandingRival(troves: seq<Trove>, repos: string, i: nat) {
    exists o: nat, j: int, l: int :: Beaten(troves, i, o, j, l) && Stands(troves, repos, o, |troves|)
  }

  /** Trove `o` beat trove `i` and then was discarded itself, and left it without a rival
      that stands. */
  ghost predicate HollowWin(troves: seq<Trove>, repos: string, o: nat, i: nat) {
    && i < |troves| && Local(troves[i], repos) && Beats(troves, repos, o, i)
    && !Stands(troves, repos, o, |troves|) && !HasStandingRival(troves, repos, i)
  }

  lemma UncommittedIsWellFormed(troves: seq<Trove>, repos: string)
    requires AllUncommitted(troves, repos)
    ensures WellFormed(troves, repos)
    ensures forall i: nat | i < |troves| :: Apart(troves, repos, i)
  {
    forall i | 0 <= i < |troves| ensures troves[i].built == [] || Local(troves[i], repos) {
      assert Uncommitted(troves[i], repos);
    }
    forall k, m: nat, n: nat ensures !Taken(troves, repos, k, m, n) {
      forall c | 0 <= c < |troves| ensures !TakenBy(troves[c], repos, k) {
        LocalOrElsewhere(troves[c], repos);
      }
    }
  }

  /** With no trove committed already, the troves kept are those that stand. */
  lemma KeptIsStanding(troves: seq<Trove>, repos: string, t: Table, i: nat)
    requires AllUncommitted(troves, repos) && TableOf(troves, |troves|, repos, false) == Ok(t)
    requires i < |troves| && troves[i].built != []
    ensures Kept(t.entries, troves, i) <==> Stands(troves, repos, i, |troves|)
    ensures Dropped(t.entries, i) <==> !Stands(troves, repos, i, |troves|)
  {
    hide Stands, TableOf, WellFormed, Survives, Apart, Uncommitted;
    UncommittedIsWellFormed(troves, repos);
    assert Local(troves[i], repos);
    ApartSurvives(troves, repos, i);
    WholeUnlessTorn(troves, repos, t, i);
    NotBothKept(t.entries, troves, repos, i);
  }

  lemma NotBothKept(e: map<Key, Entry>, troves: seq<Trove>, repos: string, i: nat)
    requires i < |troves| && Local(troves[i], repos)
    ensures !(Kept(e, troves, i) && Dropped(e, i))
  {
    if Kept(e, troves, i) {
      assert Entered(e, troves, i, 0);
      IsLocal(troves, repos, i, 0);
    }
  }

  lemma RivalsAgree(troves: seq<Trove>, repos: string, t: Table, i: nat)
    requires AllUncommitted(troves, repos) && TableOf(troves, |troves|, repos, false) == Ok(t) && i < |troves|
    ensures HasKeptRival(t.entries, troves, i) <==> HasStandingRival(troves, repos, i)
  {
    hide Stands, TableOf, Kept, AllUncommitted;
    forall o: nat, j: int, l: int | Beaten(troves, i, o, j, l)
      ensures Kept(t.entries, troves, o) <==> Stands(troves, repos, o, |troves|)
    {
      KeptIsStanding(troves, repos, t, o);
    }
  }

  ghost predicate LosersHaveKeptRivals(troves: seq<Trove>, entries: map<Key, Entry>) {
    forall i: nat | i < |troves| && troves[i].built != [] && Dropped(entries, i) :: HasKeptRival(entries, troves, i)
  }

  /** Every trove left out has a kept one to which it may lose, exactly when no trove beats
      another and is discarded itself, leaving the other without a rival. */
  lemma KeptRivalsExactly(troves: seq<Trove>, repos: string, t: Table)
    requires AllUncommitted(troves, repos) && TableOf(troves, |troves|, repos, false) == Ok(t)
    ensures LosersHaveKeptRivals(troves, t.entries) <==> !exists o: nat, i: nat :: HollowWin(troves, repos, o, i)
  {
    hide Stands, TableOf, Kept, Dropped, Beats, AllUncommitted, Uncommitted, HasKeptRival, HasStandingRival;
    forall i: nat | i < |troves| && troves[i].built != []
      ensures Dropped(t.entries, i) && !HasKeptRival(t.entries, troves, i)
              <==> exists o: nat :: HollowWin(troves, repos, o, i)
    {
      HollowExactly(troves, repos, t, i);
    }
    if LosersHaveKeptRivals(troves, t.entries) {
      forall o: nat, i: nat ensures !HollowWin(troves, repos, o, i) {}
    }
  }

  lemma HollowExactly(troves: seq<Trove>, repos: string, t: Table, i: nat)
    requires AllUncommitted(troves, repos) && TableOf(troves, |troves|, repos, false) == Ok(t)
    requires i < |troves| && troves[i].built != []
    ensures Dropped(t.entries, i) && !HasKeptRival(t.entries, troves, i)
            <==> exists o: nat :: HollowWin(troves, repos, o, i)
  {
    hide Stands, TableOf, Kept, Dropped, Beats, Uncommitted, HasKeptRival, HasStandingRival;
    assert Local(troves[i], repos);
    KeptIsStanding(troves, repos, t, i);
    RivalsAgree(troves, repos, t, i);
    if o: nat :| HollowWin(troves, repos, o, i) {
      BeatenFalls(troves, repos, o, i);
    }
    if Dropped(t.entries, i) && !HasKeptRival(t.entries, troves, i) {
      var o := FallenWasBeaten(troves, repos, i, |troves|);
      BeatenFalls(troves, repos, o, i);
      BeatenHasRival(troves, repos, o, i);
      assert HollowWin(troves, repos, o, i);
    }
  }

  lemma BeatenHasRival(troves: seq<Trove>, repos: string, o: nat, i: nat)
    requires exists j: int, l: int :: Beaten(troves, i, o, j, l)
    ensures Stands(troves, repos, o, |troves|) ==> HasStandingRival(troves, repos, i)
  {
    hide Beaten, Stands;
    var j: int, l: int :| Beaten(troves, i, o, j, l);
  }

  ghost predicate Ascending(troves: seq<Trove>) {
    forall i, j | 0 <= i < j < |troves| :: troves[i].version.rank <= troves[j].version.rank
  }

  /** Committed in the order of their versions, every trove left out loses to a kept one. */
  lemma AscendingKeepsRivals(troves: seq<Trove>, repos: string, t: Table)
    requires AllUncommitted(troves, repos) && TableOf(troves, |troves|, repos, false) == Ok(t)
    requires Ascending(troves)
    ensures LosersHaveKeptRivals(troves, t.entries)
  {
    hide Stands, TableOf, Kept, Dropped, Beats, AllUncommitted, Uncommitted, HasKeptRival, HasStandingRival, Ascending;
    forall o: nat, i: nat ensures !HollowWin(troves, repos, o, i) {
      if i < |troves| && Local(troves[i], repos) && Beats(troves, repos, o, i) {
        WinnerStays(troves, repos, o, i);
      }
    }
    KeptRivalsExactly(troves, repos, t);
  }

  lemma WinnerStays(troves: seq<Trove>, repos: string, o: nat, i: nat)
    requires Ascending(troves) && i < |troves| && Local(troves[i], repos) && Beats(troves, repos, o, i)
    ensures Stands(troves, repos, o, |troves|)
  {
    hide Standing, Meets, Yields, Local;
    if Stands(troves, repos, o, i) {
      StandingIsLocal(troves, repos, o, i);
      StandsOn(troves, repos, o, i, |troves|);
    } else {
      StandingIsLocal(troves, repos, i, o);
    }
  }

  lemma {:induction false} StandsOn(troves: seq<Trove>, repos: string, o: nat, m: nat, n: nat)
    requires Ascending(troves) && o < m <= n <= |troves| && Stands(troves, repos, o, m)
    ensures Stands(troves, repos, o, n)
    decreases n
  {
    hide Standing, Meets, Yields;
    if m < n {
      StandsOn(troves, repos, o, m, n - 1);
      StandsNext(troves, repos, o, n - 1);
    }
  }
}
