/** What a commit clones, and what else it reports: its clone list, told from the troves
    alone, the branches it maps, the sources it checks, and when it is refused. */
module CommitClones {
  import opened Wrappers
  import opened Commit
  import opened CommitOutcome

  /** The trove has something built here, from a source of this repository. */
  ghost predicate LocalSource(t: Trove, repos: string) {
    t.built != [] && Host(t.built[0].version) == repos && Host(t.version) == repos
  }

  /** The source entries are the sources of the local troves. */
  ghost predicate SourcesEntered(e: map<Key, Entry>, troves: seq<Trove>, repos: string, n: nat) {
    && n <= |troves|
    && (forall k | k in e && IsSource(k.name) :: EntersSome(troves, repos, n, k, e[k].version))
    && (forall i: nat | i < n && LocalSource(troves[i], repos) ::
          SourceKey(troves[i]) in e && e[SourceKey(troves[i])].version == troves[i].version)
  }

  ghost predicate EntersSome(troves: seq<Trove>, repos: string, n: nat, k: Key, v: Version) {
    exists i: nat :: EntersAs(troves, repos, n, i, k, v)
  }

  ghost predicate EntersAs(troves: seq<Trove>, repos: string, n: nat, i: nat, k: Key, v: Version) {
    i < n <= |troves| && LocalSource(troves[i], repos) && k == SourceKey(troves[i]) && v == troves[i].version
  }

  ghost predicate SameSources(e: map<Key, Entry>, r: map<Key, Entry>) {
    forall k: Key | IsSource(k.name) :: (k in r <==> k in e) && (k in e ==> r[k] == e[k])
  }

  lemma DiscardKeepsSources(e: map<Key, Entry>, bad: nat, built: seq<Binary>, target: Branch)
    requires forall j | 0 <= j < |built| :: !IsSource(built[j].name)
    ensures SameSources(e, Discard(e, bad, built, target))
  {
    DiscardKeeps(e, bad, built, target);
  }

  lemma NoSourceBuilt(troves: seq<Trove>, repos: string, i: nat)
    requires WellFormed(troves, repos) && i < |troves|
    ensures forall j | 0 <= j < |troves[i].built| :: !IsSource(troves[i].built[j].name)
  {
  }

  lemma {:induction false} BinariesKeepSources(t: Table, troves: seq<Trove>, repos: string, i: nat, j: nat)
    requires WellFormed(troves, repos) && i < |troves| && j <= |troves[i].built|
    ensures SameSources(t.entries, PlaceBinaries(t, troves, i, j).entries)
    decreases |troves[i].built| - j
  {
    hide WellFormed, Discard, PlaceBinaries, Stops, MeetsCommitted, IsSource;
    NoSourceBuilt(troves, repos, i);
    if j == |troves[i].built| {
      NoneLeft(t, troves, i);
    } else {
      var b := troves[i].built[j];
      if Stops(t.entries, troves, i, j) {
        Stopped(t, troves, i, j);
        DiscardKeepsSources(t.entries, i, troves[i].built, Parent(b.version.branch));
      } else {
        var rest := Rest(t.entries, troves, i, j);
        if KeyOf(b) in t.entries {
          var o := t.entries[KeyOf(b)].trove;
          PassedRival(t.entries, troves, i, j);
          NoSourceBuilt(troves, repos, o);
          DiscardKeepsSources(t.entries, o, troves[o].built, Parent(b.version.branch));
        }
        var t' := t.(entries := rest + map[KeyOf(b) := Entry(i, b.version)],
                     branchMap := t.branchMap[b.version.branch := Parent(b.version.branch)]);
        assert SameSources(t.entries, t'.entries);
        BinariesKeepSources(t', troves, repos, i, j + 1);
        NotStopped(t, troves, i, j);
      }
    }
  }

  lemma CommittedKeepsSources(e: map<Key, Entry>, troves: seq<Trove>, repos: string, c: nat)
    requires WellFormed(troves, repos) && c < |troves|
    ensures SameSources(e, PlaceCommitted(e, c, troves[c].built))
  {
    hide WellFormed, IsSource;
    NoSourceBuilt(troves, repos, c);
    CommittedEntries(e, c, troves[c].built);
  }

  /** The binaries of a trove are placed after its source. */
  ghost function AfterSource(t: Table, troves: seq<Trove>, i: nat, sourceOnly: bool): Table
    requires i < |troves|
  {
    if sourceOnly then t else PlaceBinaries(t, troves, i, 0)
  }

  lemma SourceStep(t: Table, troves: seq<Trove>, repos: string, i: nat)
    requires WellFormed(troves, repos) && i < |troves| && SourcesEntered(t.entries, troves, repos, i)
    requires troves[i].built != [] && Host(troves[i].built[0].version) == repos
    requires PlaceSource(t, troves, i, repos).Ok?
    ensures SourcesEntered(PlaceSource(t, troves, i, repos).value.entries, troves, repos, i + 1)
  {
    var e, r := t.entries, PlaceSource(t, troves, i, repos).value.entries;
    assert Local(troves[i], repos);
    forall k | k in r && IsSource(k.name) ensures EntersSome(troves, repos, i + 1, k, r[k].version) {
      if k in e && r[k] == e[k] {
        var l: nat :| EntersAs(troves, repos, i, l, k, e[k].version);
        assert EntersAs(troves, repos, i + 1, l, k, r[k].version);
      } else {
        assert EntersAs(troves, repos, i + 1, i, k, r[k].version);
      }
    }
  }

  lemma NoSourceStep(e: map<Key, Entry>, r: map<Key, Entry>, troves: seq<Trove>, repos: string, i: nat)
    requires i < |troves| && SourcesEntered(e, troves, repos, i) && SameSources(e, r) && WellFormed(troves, repos)
    requires !LocalSource(troves[i], repos)
    ensures SourcesEntered(r, troves, repos, i + 1)
  {
    forall k | k in r && IsSource(k.name) ensures EntersSome(troves, repos, i + 1, k, r[k].version) {
      var l: nat :| EntersAs(troves, repos, i, l, k, e[k].version);
      assert EntersAs(troves, repos, i + 1, l, k, r[k].version);
    }
    forall l: nat | l < i + 1 && LocalSource(troves[l], repos)
      ensures SourceKey(troves[l]) in r && r[SourceKey(troves[l])].version == troves[l].version
    {
      SourceIsSource(troves, repos, l);
    }
  }

  lemma SourceIsSource(troves: seq<Trove>, repos: string, i: nat)
    requires WellFormed(troves, repos) && i < |troves| && LocalSource(troves[i], repos)
    ensures IsSource(SourceKey(troves[i]).name)
  {
  }

  lemma SourcesStay(e: map<Key, Entry>, r: map<Key, Entry>, troves: seq<Trove>, repos: string, n: nat)
    requires SourcesEntered(e, troves, repos, n) && SameSources(e, r) && WellFormed(troves, repos)
    ensures SourcesEntered(r, troves, repos, n)
  {
    hide WellFormed, LocalSource, IsSource;
    forall l: nat | l < n && LocalSource(troves[l], repos)
      ensures SourceKey(troves[l]) in r && r[SourceKey(troves[l])].version == troves[l].version
    {
      SourceIsSource(troves, repos, l);
    }
  }

  lemma {:induction false} SourcesInTable(troves: seq<Trove>, repos: string, n: nat, sourceOnly: bool)
    requires WellFormed(troves, repos) && n <= |troves| && TableOf(troves, n, repos, sourceOnly).Ok?
    ensures SourcesEntered(TableOf(troves, n, repos, sourceOnly).value.entries, troves, repos, n)
  {
    hide WellFormed, PlaceBinaries, PlaceCommitted, SourcesEntered, PlaceSource;
    if n == 0 {
      NoSources(troves, repos);
    } else {
      SourcesInTable(troves, repos, n - 1, sourceOnly);
      var i, t := n - 1, TableOf(troves, n - 1, repos, sourceOnly).value;
      if troves[i].built == [] {
        NoSourceStep(t.entries, t.entries, troves, repos, i);
      } else if Host(troves[i].built[0].version) != repos {
        CommittedKeepsSources(t.entries, troves, repos, i);
        NoSourceStep(t.entries, PlaceCommitted(t.entries, i, troves[i].built), troves, repos, i);
      } else {
        SourceStep(t, troves, repos, i);
        var t1 := PlaceSource(t, troves, i, repos).value;
        BinariesKeepSources(t1, troves, repos, i, 0);
        SourcesStay(t1.entries, AfterSource(t1, troves, i, sourceOnly).entries, troves, repos, n);
      }
    }
  }

  lemma NoSources(troves: seq<Trove>, repos: string)
    ensures SourcesEntered(map[], troves, repos, 0)
  {
  }

  /** The sources cloned are exactly those of the local troves, whatever becomes of their
      binaries, and also when sources alone are committed. */
  lemma SourcesCloned(troves: seq<Trove>, repos: string, sourceOnly: bool, t: Table)
    requires WellFormed(troves, repos) && TableOf(troves, |troves|, repos, sourceOnly) == Ok(t)
    ensures forall b: Binary | IsSource(b.name) :: b in Clones(t.entries) <==>
              exists i: nat :: ClonedSource(troves, repos, i, b)
  {
    hide WellFormed, TableOf, LocalSource, IsSource;
    var e := t.entries;
    SourcesInTable(troves, repos, |troves|, sourceOnly);
    forall b: Binary | IsSource(b.name)
      ensures b in Clones(e) <==> exists i: nat :: ClonedSource(troves, repos, i, b)
    {
      if b in Clones(e) {
        var k :| k in e && e[k].version.branch != k.branch && b == Binary(k.name, e[k].version, k.flavor);
        var i: nat :| EntersAs(troves, repos, |troves|, i, k, e[k].version);
        assert ClonedSource(troves, repos, i, b);
      }
      if i: nat :| ClonedSource(troves, repos, i, b) {
        var k := SourceKey(troves[i]);
        assert k in e && e[k].version == troves[i].version;
        assert |k.branch| < |troves[i].version.branch|;
        assert e[k].version.branch != k.branch && b == Binary(k.name, e[k].version, k.flavor);
      }
    }
  }

  /** `b` is the source of local trove `i`, on a branch that has a parent to go to. */
  ghost predicate ClonedSource(troves: seq<Trove>, repos: string, i: nat, b: Binary) {
    && i < |troves| && LocalSource(troves[i], repos) && troves[i].version.branch != []
    && b == Binary(troves[i].name, troves[i].version, "")
  }

  /** The binaries cloned are exactly those that survive of the troves that stand. */
  lemma BinariesCloned(troves: seq<Trove>, repos: string, t: Table)
    requires WellFormed(troves, repos) && TableOf(troves, |troves|, repos, false) == Ok(t)
    ensures forall b: Binary | !IsSource(b.name) :: b in Clones(t.entries) <==>
              exists i: nat, j: nat :: ClonedBinary(troves, repos, i, j, b)
  {
    hide WellFormed, TableOf, Local, IsSource, Stands, Survives, Entered, Holds;
    var n, e := |troves|, t.entries;
    TableHoldsOutcome(troves, repos, n);
    forall b: Binary | !IsSource(b.name)
      ensures b in Clones(e) <==> exists i: nat, j: nat :: ClonedBinary(troves, repos, i, j, b)
    {
      if b in Clones(e) {
        var k :| k in e && e[k].version.branch != k.branch && b == Binary(k.name, e[k].version, k.flavor);
        EntryAccounted(e, troves, repos, n, k);
        var i := e[k].trove;
        var j := AccountedAs(e, troves, repos, n, k);
        assert ClonedBinary(troves, repos, i, j, b);
      }
      if i: nat, j: nat :| ClonedBinary(troves, repos, i, j, b) {
        SurvivorCloned(e, troves, repos, i, j);
      }
    }
  }

  ghost predicate ClonedBinary(troves: seq<Trove>, repos: string, i: nat, j: nat, b: Binary) {
    && Stands(troves, repos, i, |troves|) && Survives(troves, repos, i, j)
    && i < |troves| && j < |troves[i].built| && b == troves[i].built[j]
  }

  lemma AccountedAs(e: map<Key, Entry>, troves: seq<Trove>, repos: string, n: nat, k: Key) returns (j: nat)
    requires Accounted(e, troves, repos, n, k) && Describes(e, troves, repos, n) && n == |troves|
    requires e[k].version.branch != k.branch
    ensures var i := e[k].trove;
            && Stands(troves, repos, i, n) && Survives(troves, repos, i, j)
            && j < |troves[i].built| && Binary(k.name, e[k].version, k.flavor) == troves[i].built[j]
  {
    hide Standing, Taken, Local;
    var i := e[k].trove;
    j :| Holds(troves, repos, n, i, j) && k == KeyOf(troves[i].built[j]);
    HeldIsEntered(e, troves, repos, n, i, j);
  }

  lemma SurvivorCloned(e: map<Key, Entry>, troves: seq<Trove>, repos: string, i: nat, j: nat)
    requires Describes(e, troves, repos, |troves|)
    requires Stands(troves, repos, i, |troves|) && Survives(troves, repos, i, j)
    ensures i < |troves| && j < |troves[i].built| && troves[i].built[j] in Clones(e)
  {
    hide Standing, Taken, Local;
    StandingIsLocal(troves, repos, i, |troves|);
    Reached(troves, repos, i, j);
    assert Holds(troves, repos, |troves|, i, j);
    HeldIsEntered(e, troves, repos, |troves|, i, j);
    var b := troves[i].built[j];
    var k := KeyOf(b);
    HasParent(troves[i], repos, j);
    assert k in e && e[k].version.branch != k.branch && b == Binary(k.name, e[k].version, k.flavor);
  }

  lemma HasParent(t: Trove, repos: string, j: nat)
    requires Local(t, repos) && j < |t.built|
    ensures |KeyOf(t.built[j]).branch| < |t.built[j].version.branch|
  {
  }

  // ---- sources alone ----

  /** Entries beside sources that are at home where they are entered. */
  ghost predicate BinariesAtHome(e: map<Key, Entry>) {
    forall k | k in e && !IsSource(k.name) :: e[k].version.branch == k.branch
  }

  lemma SourceAtHome(t: Table, troves: seq<Trove>, repos: string, i: nat)
    requires WellFormed(troves, repos) && i < |troves| && BinariesAtHome(t.entries)
    requires troves[i].built != [] && Host(troves[i].built[0].version) == repos && PlaceSource(t, troves, i, repos).Ok?
    ensures BinariesAtHome(PlaceSource(t, troves, i, repos).value.entries)
  {
    assert Local(troves[i], repos);
  }

  lemma {:induction false} OnlySourcesMove(troves: seq<Trove>, repos: string, n: nat)
    requires WellFormed(troves, repos) && n <= |troves| && TableOf(troves, n, repos, true).Ok?
    ensures BinariesAtHome(TableOf(troves, n, repos, true).value.entries)
  {
    hide WellFormed, PlaceCommitted, PlaceSource, IsSource;
    if n > 0 {
      OnlySourcesMove(troves, repos, n - 1);
      var i, t := n - 1, TableOf(troves, n - 1, repos, true).value;
      if troves[i].built != [] {
        if Host(troves[i].built[0].version) != repos {
          CommittedEntries(t.entries, i, troves[i].built);
        } else {
          SourceAtHome(t, troves, repos, i);
        }
      }
    }
  }

  /** With sources alone to be committed, the clone list is the sources of the local troves. */
  lemma SourceOnlyClones(troves: seq<Trove>, repos: string, t: Table)
    requires WellFormed(troves, repos) && TableOf(troves, |troves|, repos, true) == Ok(t)
    ensures forall b: Binary :: b in Clones(t.entries) <==>
              IsSource(b.name) && exists i: nat :: ClonedSource(troves, repos, i, b)
  {
    hide WellFormed, TableOf, IsSource, ClonedSource;
    OnlySourcesMove(troves, repos, |troves|);
    SourcesCloned(troves, repos, true, t);
  }

  // ---- what else a table says ----

  /** What else a table says: where each branch goes, what was committed, and which sources
      are to be checked. */
  ghost predicate Notes(t: Table, troves: seq<Trove>, repos: string, n: nat) {
    && n <= |troves|
    && (forall br | br in t.branchMap :: br != [] ==> t.branchMap[br] == br[..|br| - 1])
    && (forall k | k in t.entries && t.entries[k].version.branch != k.branch ::
          t.entries[k].version.branch in t.branchMap)
    && (t.alreadyCommitted <==> exists i: nat :: i < n && BuiltElsewhere(troves[i], repos))
    && (forall s :: s in t.sources <==> exists i: nat :: i < n && SourceToCheck(troves[i], repos, s))
  }

  ghost predicate BuiltElsewhere(t: Trove, repos: string) {
    t.built != [] && Host(t.built[0].version) != repos
  }

  ghost predicate SourceToCheck(t: Trove, repos: string, s: (string, Version)) {
    LocalSource(t, repos) && s == (t.name, t.version)
  }

  /** Placing binaries adds to the branches alone, and what it enters has its branch there. */
  ghost predicate BranchesKept(t: Table, r: Table) {
    && r.alreadyCommitted == t.alreadyCommitted && r.sources == t.sources
    && (forall br | br in t.branchMap :: br in r.branchMap)
    && (forall br | br in r.branchMap && br != [] ::
          r.branchMap[br] == br[..|br| - 1] || (br in t.branchMap && r.branchMap[br] == t.branchMap[br]))
    && (forall k | k in r.entries ::
          (k in t.entries && r.entries[k] == t.entries[k]) || r.entries[k].version.branch in r.branchMap)
  }

  lemma BranchesTwice(t: Table, r: Table, u: Table)
    requires BranchesKept(t, r) && BranchesKept(r, u)
    ensures BranchesKept(t, u)
  {
  }

  lemma BranchesDropped(t: Table, bad: nat, built: seq<Binary>, target: Branch)
    ensures BranchesKept(t, t.(entries := Discard(t.entries, bad, built, target)))
  {
    DiscardKeeps(t.entries, bad, built, target);
  }

  lemma {:induction false} PlacingKeepsBranches(t: Table, troves: seq<Trove>, i: nat, j: nat)
    requires i < |troves| && j <= |troves[i].built|
    ensures BranchesKept(t, PlaceBinaries(t, troves, i, j))
    decreases |troves[i].built| - j
  {
    hide Discard, PlaceBinaries, Stops, MeetsCommitted, BranchesKept;
    if j == |troves[i].built| {
      NoneLeft(t, troves, i);
      NothingKept(t);
    } else {
      var b := troves[i].built[j];
      if Stops(t.entries, troves, i, j) {
        StoppedTable(t, troves, i, j);
        NothingKept(t);
        BranchesDropped(t, i, troves[i].built, Parent(b.version.branch));
      } else {
        var t1 := t.(entries := Rest(t.entries, troves, i, j));
        NothingKept(t);
        if KeyOf(b) in t.entries {
          var o := t.entries[KeyOf(b)].trove;
          PassedRival(t.entries, troves, i, j);
          BranchesDropped(t, o, troves[o].built, Parent(b.version.branch));
        }
        var t2 := t.(entries := t1.entries + map[KeyOf(b) := Entry(i, b.version)],
                     branchMap := t.branchMap[b.version.branch := Parent(b.version.branch)]);
        OneBranch(t1, t2, i, b);
        PlacingKeepsBranches(t2, troves, i, j + 1);
        NotStopped(t, troves, i, j);
        BranchesTwice(t, t1, t2);
        BranchesTwice(t, t2, PlaceBinaries(t, troves, i, j));
      }
    }
  }

  lemma NothingKept(t: Table)
    ensures BranchesKept(t, t)
  {
  }

  lemma OneBranch(t: Table, r: Table, i: nat, b: Binary)
    requires r == t.(entries := t.entries + map[KeyOf(b) := Entry(i, b.version)],
                     branchMap := t.branchMap[b.version.branch := Parent(b.version.branch)])
    ensures BranchesKept(t, r)
  {
  }

  lemma StoppedTable(t: Table, troves: seq<Trove>, n: nat, j: nat)
    requires n < |troves| && j < |troves[n].built| && Stops(t.entries, troves, n, j)
    ensures PlaceBinaries(t, troves, n, j) ==
            if MeetsCommitted(t.entries, troves, n, j) then t
            else t.(entries := Discard(t.entries, n, troves[n].built, Parent(troves[n].built[j].version.branch)))
  {
  }

  lemma NotesAfterBinaries(t: Table, r: Table, troves: seq<Trove>, repos: string, n: nat)
    requires Notes(t, troves, repos, n) && BranchesKept(t, r)
    ensures Notes(r, troves, repos, n)
  {
    hide LocalSource, Host;
    forall k | k in r.entries && r.entries[k].version.branch != k.branch
      ensures r.entries[k].version.branch in r.branchMap
    {
      if k in t.entries && r.entries[k] == t.entries[k] { assert t.entries[k].version.branch in t.branchMap; }
    }
  }

  lemma NotesAfterSource(t: Table, troves: seq<Trove>, repos: string, i: nat)
    requires i < |troves| && Notes(t, troves, repos, i)
    requires troves[i].built != [] && Host(troves[i].built[0].version) == repos && PlaceSource(t, troves, i, repos).Ok?
    ensures Notes(PlaceSource(t, troves, i, repos).value, troves, repos, i + 1)
  {
    var r := PlaceSource(t, troves, i, repos).value;
    assert !BuiltElsewhere(troves[i], repos);
    forall s ensures s in r.sources <==> exists l: nat :: l < i + 1 && SourceToCheck(troves[l], repos, s) {
      MoreToCheck(troves, repos, i, s);
    }
    MoreElsewhere(troves, repos, i);
  }

  lemma MoreToCheck(troves: seq<Trove>, repos: string, i: nat, s: (string, Version))
    requires i < |troves|
    ensures (exists l: nat :: l < i + 1 && SourceToCheck(troves[l], repos, s)) <==>
            (exists l: nat :: l < i && SourceToCheck(troves[l], repos, s)) || SourceToCheck(troves[i], repos, s)
  {
  }

  lemma MoreElsewhere(troves: seq<Trove>, repos: string, i: nat)
    requires i < |troves|
    ensures (exists l: nat :: l < i + 1 && BuiltElsewhere(troves[l], repos)) <==>
            (exists l: nat :: l < i && BuiltElsewhere(troves[l], repos)) || BuiltElsewhere(troves[i], repos)
  {
  }

  lemma NotesPassedOver(t: Table, r: Table, troves: seq<Trove>, repos: string, i: nat)
    requires i < |troves| && Notes(t, troves, repos, i) && !LocalSource(troves[i], repos)
    requires r.branchMap == t.branchMap && r.sources == t.sources
    requires r.alreadyCommitted == (t.alreadyCommitted || BuiltElsewhere(troves[i], repos))
    requires forall k | k in r.entries ::
               (k in t.entries && r.entries[k] == t.entries[k]) || r.entries[k].version.branch == k.branch
    ensures Notes(r, troves, repos, i + 1)
  {
    hide LocalSource;
    forall s ensures s in r.sources <==> exists l: nat :: l < i + 1 && SourceToCheck(troves[l], repos, s) {
      MoreToCheck(troves, repos, i, s);
    }
    MoreElsewhere(troves, repos, i);
  }

  /** Every branch something is cloned from is mapped to its parent; the sources to check
      are those of the local troves; and a trove built elsewhere is noticed. */
  lemma {:induction false} TableNotes(troves: seq<Trove>, repos: string, n: nat, sourceOnly: bool)
    requires n <= |troves| && TableOf(troves, n, repos, sourceOnly).Ok?
    ensures Notes(TableOf(troves, n, repos, sourceOnly).value, troves, repos, n)
  {
    hide PlaceBinaries, PlaceCommitted, Notes, PlaceSource, BranchesKept;
    if n == 0 {
      NoNotes(troves, repos);
    } else {
      TableNotes(troves, repos, n - 1, sourceOnly);
      var i, t := n - 1, TableOf(troves, n - 1, repos, sourceOnly).value;
      if troves[i].built == [] {
        NotesPassedOver(t, t, troves, repos, i);
      } else if Host(troves[i].built[0].version) != repos {
        CommittedEntries(t.entries, i, troves[i].built);
        NotesPassedOver(t, TableOf(troves, n, repos, sourceOnly).value, troves, repos, i);
      } else {
        NotesAfterSource(t, troves, repos, i);
        var t1 := PlaceSource(t, troves, i, repos).value;
        PlacingKeepsBranches(t1, troves, i, 0);
        NothingKept(t1);
        NotesAfterBinaries(t1, AfterSource(t1, troves, i, sourceOnly), troves, repos, n);
      }
    }
  }

  lemma NoNotes(troves: seq<Trove>, repos: string)
    ensures Notes(Table(map[], map[], [], false), troves, repos, 0)
  {
  }

  // ---- when a commit is refused ----

  /** Two local troves have different versions of one source component. */
  ghost predicate Clash(troves: seq<Trove>, repos: string, i: nat, j: nat) {
    && i < j < |troves| && LocalSource(troves[i], repos) && LocalSource(troves[j], repos)
    && SourceKey(troves[i]) == SourceKey(troves[j]) && troves[i].version != troves[j].version
  }

  /** A commit is refused exactly when two versions of one source component are in it. */
  lemma {:induction false} RefusedExactly(troves: seq<Trove>, repos: string, n: nat, sourceOnly: bool)
    requires WellFormed(troves, repos) && n <= |troves|
    ensures TableOf(troves, n, repos, sourceOnly).Err? <==> exists i: nat, j: nat :: j < n && Clash(troves, repos, i, j)
  {
    hide WellFormed, PlaceBinaries, PlaceCommitted, LocalSource, SourceKey;
    if n > 0 {
      RefusedExactly(troves, repos, n - 1, sourceOnly);
      var r := TableOf(troves, n - 1, repos, sourceOnly);
      if r.Ok? {
        SourcesInTable(troves, repos, n - 1, sourceOnly);
        ClashesWithLast(r.value, troves, repos, n - 1, sourceOnly);
      }
    }
  }

  lemma ClashesWithLast(t: Table, troves: seq<Trove>, repos: string, n: nat, sourceOnly: bool)
    requires WellFormed(troves, repos) && n < |troves| && SourcesEntered(t.entries, troves, repos, n)
    ensures PlaceTrove(t, troves, n, repos, sourceOnly).Err? <==> exists i: nat :: Clash(troves, repos, i, n)
  {
    hide WellFormed, PlaceBinaries, PlaceCommitted;
    if LocalSource(troves[n], repos) {
      var k := SourceKey(troves[n]);
      SourceIsSource(troves, repos, n);
      if k in t.entries {
        var i: nat :| EntersAs(troves, repos, n, i, k, t.entries[k].version);
        if t.entries[k].version != troves[n].version { assert Clash(troves, repos, i, n); }
      }
    }
  }

  /** Source components are named by their ending. */
  lemma SourceNames(name: string)
    ensures IsSource(name + ":source")
    ensures IsSource(name) ==> name == name[..|name| - 7] + ":source"
  {
    assert (name + ":source")[|name|..] == ":source";
  }
}
