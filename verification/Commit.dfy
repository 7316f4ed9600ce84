/** Choosing what a commit clones: built troves whose binaries would land on the same name,
    branch and flavor exclude each other, and an excluded trove is taken out whole. */
module Commit {
  import opened Wrappers

  /** A branch: its labels, the newest last. A child branch has one label more. */
  type Branch = seq<string>

  /** A version; `rank` is its place in the order of versions. */
  datatype Version = Version(branch: Branch, rank: int)

  function Host(v: Version): string {
    if v.branch == [] then "" else v.branch[|v.branch| - 1]
  }

  function Parent(b: Branch): Branch {
    if b == [] then [] else b[..|b| - 1]
  }

  datatype Binary = Binary(name: string, version: Version, flavor: string)

  /** A trove of a job: its source, and the binaries built from it. */
  datatype Trove = Trove(name: string, version: Version, built: seq<Binary>)

  /** Name, branch and flavor: where a commit puts something. */
  datatype Key = Key(name: string, branch: Branch, flavor: string)

  /** What will be put there: a version, and the trove it comes from, by position. */
  datatype Entry = Entry(trove: nat, version: Version)

  datatype Table = Table(
    entries: map<Key, Entry>,
    branchMap: map<Branch, Branch>,
    sources: seq<(string, Version)>,     // sources to check
    alreadyCommitted: bool)

  datatype CommitError = TwoSourceVersions(name: string, first: Version, second: Version)

  function KeyOf(b: Binary): Key {
    Key(b.name, Parent(b.version.branch), b.flavor)
  }

  /** Where a binary that is committed already is. */
  function CommittedKey(b: Binary): Key {
    Key(b.name, b.version.branch, b.flavor)
  }

  function SourceKey(t: Trove): Key {
    Key(t.name, Parent(t.version.branch), "")
  }

  // ---- the table, trove by trove ----

  /** Takes out the entries that `bad` has under its binaries. */
  function Discard(entries: map<Key, Entry>, bad: nat, built: seq<Binary>, target: Branch): map<Key, Entry> {
    if built == [] then entries else
      var k := Key(built[0].name, target, built[0].flavor);
      Discard(if k in entries && entries[k].trove == bad then entries - {k} else entries,
              bad, built[1..], target)
  }

  /** Enters the binaries of trove `i` from its `j`-th on, until one of them meets an
      earlier trove and loses to it. */
  function PlaceBinaries(t: Table, troves: seq<Trove>, i: nat, j: nat): Table
    requires i < |troves| && j <= |troves[i].built|
    decreases |troves[i].built| - j
  {
    if j == |troves[i].built| then t else
      var b := troves[i].built[j];
      var target := Parent(b.version.branch);
      var k := KeyOf(b);
      var entered := map[k := Entry(i, b.version)];
      var branches := t.branchMap[b.version.branch := target];
      if k !in t.entries then
        PlaceBinaries(t.(entries := t.entries + entered, branchMap := branches), troves, i, j + 1)
      else
        var o := t.entries[k].trove;
        if o < |troves| && troves[o].built != [] && troves[o].built[0].version.branch == target then
          t      // committed already
        else if o < |troves| && troves[o].version.rank > troves[i].version.rank then
          var rest := Discard(t.entries, o, troves[o].built, target);
          PlaceBinaries(t.(entries := rest + entered, branchMap := branches), troves, i, j + 1)
        else
          t.(entries := Discard(t.entries, i, troves[i].built, target))
  }

  function PlaceCommitted(entries: map<Key, Entry>, i: nat, built: seq<Binary>): map<Key, Entry>
    decreases |built|
  {
    if built == [] then entries else
      PlaceCommitted(entries[CommittedKey(built[0]) := Entry(i, built[0].version)], i, built[1..])
  }

  /** Enters the source of trove `i`, if it is one of the local repository. */
  function PlaceSource(t: Table, troves: seq<Trove>, i: nat, repos: string): Result<Table, CommitError>
    requires i < |troves|
  {
    var v := troves[i].version;
    if Host(v) != repos then Ok(t) else
      var k := SourceKey(troves[i]);
      if k in t.entries && t.entries[k].version != v then
        Err(TwoSourceVersions(troves[i].name, v, t.entries[k].version))
      else
        Ok(t.(entries := t.entries[k := Entry(i, v)],
              branchMap := t.branchMap[v.branch := k.branch],
              sources := t.sources + [(troves[i].name, v)]))
  }

  function PlaceTrove(t: Table, troves: seq<Trove>, i: nat, repos: string, sourceOnly: bool): Result<Table, CommitError>
    requires i < |troves|
  {
    var built := troves[i].built;
    if built == [] then Ok(t)
    else if Host(built[0].version) != repos then
      Ok(t.(entries := PlaceCommitted(t.entries, i, built), alreadyCommitted := true))
    else
      var r := PlaceSource(t, troves, i, repos);
      if r.Err? || sourceOnly then r else Ok(PlaceBinaries(r.value, troves, i, 0))
  }

  /** The table of the first `n` troves. */
  function TableOf(troves: seq<Trove>, n: nat, repos: string, sourceOnly: bool): Result<Table, CommitError>
    requires n <= |troves|
  {
    if n == 0 then Ok(Table(map[], map[], [], false)) else
      var r := TableOf(troves, n - 1, repos, sourceOnly);
      if r.Err? then r else PlaceTrove(r.value, troves, n - 1, repos, sourceOnly)
  }

  /** The clone list: every entry that is not yet on the branch it is for. */
  function Clones(entries: map<Key, Entry>): set<Binary> {
    set k | k in entries && entries[k].version.branch != k.branch ::
      Binary(k.name, entries[k].version, k.flavor)
  }

  /** Builds the table in place, as the commit does. */
  method BuildTable(troves: seq<Trove>, repos: string, sourceOnly: bool) returns (r: Result<Table, CommitError>)
    ensures r == TableOf(troves, |troves|, repos, sourceOnly)
  {
    var t := Table(map[], map[], [], false);
    for i := 0 to |troves|
      invariant Ok(t) == TableOf(troves, i, repos, sourceOnly)
    {
      var built := troves[i].built;
      if built == [] {
        continue;
      }
      if Host(built[0].version) != repos {
        var entries := t.entries;
        for j := 0 to |built|
          invariant PlaceCommitted(t.entries, i, built) == PlaceCommitted(entries, i, built[j..])
        {
          entries := entries[CommittedKey(built[j]) := Entry(i, built[j].version)];
          assert built[j..][1..] == built[j + 1..];
        }
        t := t.(entries := entries, alreadyCommitted := true);
        continue;
      }
      if Host(troves[i].version) == repos {
        var v := troves[i].version;
        var k := SourceKey(troves[i]);
        if k in t.entries && t.entries[k].version != v {
          r := Err(TwoSourceVersions(troves[i].name, v, t.entries[k].version));
          ErrorStays(troves, i + 1, |troves|, repos, sourceOnly);
          return;
        }
        t := Table(t.entries[k := Entry(i, v)], t.branchMap[v.branch := k.branch],
                   t.sources + [(troves[i].name, v)], t.alreadyCommitted);
      }
      if sourceOnly {
        continue;
      }
      t := BuildBinaries(t, troves, i);
    }
    r := Ok(t);
  }

  /** The loop over the binaries of one trove. */
  method BuildBinaries(t0: Table, troves: seq<Trove>, i: nat) returns (t: Table)
    requires i < |troves|
    ensures t == PlaceBinaries(t0, troves, i, 0)
  {
    t := t0;
    var built := troves[i].built;
    for j := 0 to |built|
      invariant PlaceBinaries(t0, troves, i, 0) == PlaceBinaries(t, troves, i, j)
    {
      var b := built[j];
      var target := Parent(b.version.branch);
      var k := KeyOf(b);
      if k in t.entries {
        var o := t.entries[k].trove;
        if o < |troves| && troves[o].built != [] && troves[o].built[0].version.branch == target {
          break;
        }
        var bad := if o < |troves| && troves[o].version.rank > troves[i].version.rank then o else i;
        var entries := t.entries;
        var badBuilt := troves[bad].built;
        for d := 0 to |badBuilt|
          invariant Discard(t.entries, bad, badBuilt, target) == Discard(entries, bad, badBuilt[d..], target)
        {
          var badKey := Key(badBuilt[d].name, target, badBuilt[d].flavor);
          if badKey in entries && entries[badKey].trove == bad {
            entries := entries - {badKey};
          }
          assert badBuilt[d..][1..] == badBuilt[d + 1..];
        }
        t := t.(entries := entries);
        if bad == i {
          break;
        }
      }
      t := t.(entries := t.entries + map[k := Entry(i, b.version)],
              branchMap := t.branchMap[b.version.branch := target]);
    }
  }

  lemma {:induction false} ErrorStays(troves: seq<Trove>, i: nat, n: nat, repos: string, sourceOnly: bool)
    requires i <= n <= |troves| && TableOf(troves, i, repos, sourceOnly).Err?
    ensures TableOf(troves, n, repos, sourceOnly) == TableOf(troves, i, repos, sourceOnly)
  {
    if i < n { ErrorStays(troves, i, n - 1, repos, sourceOnly); }
  }

  // ---- what the table guarantees ----

  predicate IsSource(name: string) {
    |name| >= 7 && name[|name| - 7..] == ":source"
  }

  /** No trove is committed already: each trove's binaries are on one branch of the local
      repository, under different keys, and are not named as sources are. */
  ghost predicate Uncommitted(t: Trove, repos: string) {
    && IsSource(t.name)
    && (forall j | 0 <= j < |t.built| ::
          && t.built[j].version.branch == t.built[0].version.branch
          && |t.built[j].version.branch| >= 2 && Host(t.built[j].version) == repos
          && !IsSource(t.built[j].name))
    && (forall j, l | 0 <= j < l < |t.built| :: KeyOf(t.built[j]) != KeyOf(t.built[l]))
  }

  ghost predicate AllUncommitted(troves: seq<Trove>, repos: string) {
    forall i | 0 <= i < |troves| :: Uncommitted(troves[i], repos)
  }

  /** Binary `j` of trove `i` is entered, with its own version. */
  ghost predicate Entered(entries: map<Key, Entry>, troves: seq<Trove>, i: int, j: int) {
    && 0 <= i < |troves| && 0 <= j < |troves[i].built|
    && var b := troves[i].built[j];
    && KeyOf(b) in entries && entries[KeyOf(b)] == Entry(i, b.version)
  }

  /** Every binary of trove `i` is entered. */
  ghost predicate Kept(entries: map<Key, Entry>, troves: seq<Trove>, i: int) {
    0 <= i < |troves| && forall j | 0 <= j < |troves[i].built| :: Entered(entries, troves, i, j)
  }

  /** No binary entry is trove `i`'s. */
  ghost predicate Dropped(entries: map<Key, Entry>, i: int) {
    forall k | k in entries && !IsSource(k.name) :: entries[k].trove != i
  }

  /** Trove `i` has a key in common with another trove, whose version is not later. */
  ghost predicate Lost(troves: seq<Trove>, i: int) {
    exists o, j, l :: Beaten(troves, i, o, j, l)
  }

  ghost predicate Beaten(troves: seq<Trove>, i: int, o: int, j: int, l: int) {
    && 0 <= i < |troves| && 0 <= o < |troves| && o != i
    && 0 <= j < |troves[i].built| && 0 <= l < |troves[o].built|
    && KeyOf(troves[i].built[j]) == KeyOf(troves[o].built[l])
    && troves[o].version.rank <= troves[i].version.rank
  }

  ghost predicate Decided(entries: map<Key, Entry>, troves: seq<Trove>, i: int) {
    Kept(entries, troves, i) || (Dropped(entries, i) && Lost(troves, i))
  }

  /** Every binary entry is a binary of the trove it names, one of the first `n`. */
  ghost predicate Legitimate(entries: map<Key, Entry>, troves: seq<Trove>, n: int) {
    forall k | k in entries && !IsSource(k.name) ::
      entries[k].trove < n && exists j :: Is(entries, troves, k, j)
  }

  ghost predicate Is(entries: map<Key, Entry>, troves: seq<Trove>, k: Key, j: int) {
    && k in entries && Entered(entries, troves, entries[k].trove, j)
    && KeyOf(troves[entries[k].trove].built[j]) == k
  }

  /** The source of trove `i`, when local, is entered whatever becomes of its binaries. */
  ghost predicate SourceEntered(entries: map<Key, Entry>, t: Trove, repos: string) {
    t.built != [] && Host(t.version) == repos ==>
      SourceKey(t) in entries && entries[SourceKey(t)].version == t.version
  }

  ghost predicate Inv(entries: map<Key, Entry>, troves: seq<Trove>, n: int, repos: string) {
    && Legitimate(entries, troves, n)
    && (forall i | 0 <= i < n && i < |troves| :: Decided(entries, troves, i))
    && (forall i | 0 <= i < n && i < |troves| :: SourceEntered(entries, troves[i], repos))
  }

  /** In the middle of trove `i`: of its binaries, the first `j` are entered. */
  ghost predicate Placing(entries: map<Key, Entry>, troves: seq<Trove>, i: int, j: int, repos: string) {
    && Legitimate(entries, troves, i + 1)
    && (forall l | 0 <= l < i && l < |troves| :: Decided(entries, troves, l))
    && (forall l | 0 <= l <= i && l < |troves| :: SourceEntered(entries, troves[l], repos))
    && 0 <= i < |troves| && 0 <= j <= |troves[i].built|
    && (forall l | 0 <= l < j :: Entered(entries, troves, i, l))
    && (forall k | k in entries && !IsSource(k.name) && entries[k].trove == i ::
          exists l :: 0 <= l < j && Is(entries, troves, k, l))
  }

  lemma {:induction false} DiscardKeeps(entries: map<Key, Entry>, bad: nat, built: seq<Binary>, target: Branch)
    ensures forall k :: k in Discard(entries, bad, built, target) <==>
              k in entries && !(entries[k].trove == bad &&
                exists j | 0 <= j < |built| :: k == Key(built[j].name, target, built[j].flavor))
    ensures forall k | k in Discard(entries, bad, built, target) ::
              Discard(entries, bad, built, target)[k] == entries[k]
  {
    if built != [] {
      var k0 := Key(built[0].name, target, built[0].flavor);
      var e := if k0 in entries && entries[k0].trove == bad then entries - {k0} else entries;
      DiscardKeeps(e, bad, built[1..], target);
      forall k | k in entries && entries[k].trove == bad
        ensures (exists j | 0 <= j < |built| :: k == Key(built[j].name, target, built[j].flavor)) <==>
                (k == k0 || exists j | 0 <= j < |built[1..]| :: k == Key(built[1..][j].name, target, built[1..][j].flavor))
      {
        if j :| 0 <= j < |built[1..]| && k == Key(built[1..][j].name, target, built[1..][j].flavor) {
          assert built[j + 1] == built[1..][j];
        }
        if j :| 0 < j < |built| && k == Key(built[j].name, target, built[j].flavor) {
          assert built[1..][j - 1] == built[j];
        }
      }
    }
  }

  /** Discarding takes out all of a trove's binary entries, and nothing else. */
  lemma DiscardWhole(entries: map<Key, Entry>, troves: seq<Trove>, n: int, bad: nat, target: Branch, repos: string)
    requires AllUncommitted(troves, repos) && Legitimate(entries, troves, n)
    requires bad < |troves| && troves[bad].built != []
    requires target == Parent(troves[bad].built[0].version.branch)
    ensures var rest := Discard(entries, bad, troves[bad].built, target);
            && (forall k :: k in rest <==> k in entries && (IsSource(k.name) || entries[k].trove != bad))
            && (forall k | k in rest :: rest[k] == entries[k])
  {
    var built := troves[bad].built;
    DiscardKeeps(entries, bad, built, target);
    assert Uncommitted(troves[bad], repos);
    forall k | k in entries && entries[k].trove == bad
      ensures (exists j | 0 <= j < |built| :: k == Key(built[j].name, target, built[j].flavor))
              <==> !IsSource(k.name)
    {
      if !IsSource(k.name) {
        var j :| Is(entries, troves, k, j);
        assert k == Key(built[j].name, target, built[j].flavor);
      }
    }
  }

  /** Changing only the entries of troves other than `l` changes nothing for `l`. */
  lemma DecidedFrame(e: map<Key, Entry>, e': map<Key, Entry>, troves: seq<Trove>, l: int)
    requires Decided(e, troves, l)
    requires forall k: Key | !IsSource(k.name) ::
               (k in e && e[k].trove == l) <==> (k in e' && e'[k].trove == l)
    requires forall k | k in e && k in e' && !IsSource(k.name) && e[k].trove == l :: e'[k] == e[k]
    requires 0 <= l < |troves| && forall b | b in troves[l].built :: !IsSource(b.name)
    ensures Decided(e', troves, l)
  {
    if Kept(e, troves, l) {
      forall j | 0 <= j < |troves[l].built| ensures Entered(e', troves, l, j) {
        assert Entered(e, troves, l, j);
        assert troves[l].built[j] in troves[l].built;
      }
    }
  }

  lemma EnterFreeEntries(e: map<Key, Entry>, e': map<Key, Entry>, troves: seq<Trove>, i: nat, j: nat)
    requires i < |troves| && j < |troves[i].built| && KeyOf(troves[i].built[j]) !in e
    requires e' == e[KeyOf(troves[i].built[j]) := Entry(i, troves[i].built[j].version)]
    ensures forall l, m | Entered(e, troves, l, m) :: Entered(e', troves, l, m)
    ensures forall k, m | Is(e, troves, k, m) :: Is(e', troves, k, m)
    ensures Is(e', troves, KeyOf(troves[i].built[j]), j) && Entered(e', troves, i, j)
  {
    forall l, m | Entered(e, troves, l, m) ensures Entered(e', troves, l, m) {
      assert KeyOf(troves[l].built[m]) != KeyOf(troves[i].built[j]);
    }
  }

  lemma EnterFree(e: map<Key, Entry>, e': map<Key, Entry>, troves: seq<Trove>, i: nat, j: nat, repos: string)
    requires AllUncommitted(troves, repos) && Placing(e, troves, i, j, repos)
    requires j < |troves[i].built| && KeyOf(troves[i].built[j]) !in e
    requires e' == e[KeyOf(troves[i].built[j]) := Entry(i, troves[i].built[j].version)]
    ensures Placing(e', troves, i, j + 1, repos)
  {
    var k0 := KeyOf(troves[i].built[j]);
    EnterFreeEntries(e, e', troves, i, j);
    assert Uncommitted(troves[i], repos);
    forall l | 0 <= l < i ensures Decided(e', troves, l) {
      assert Uncommitted(troves[l], repos);
      DecidedFrame(e, e', troves, l);
    }
    forall l | 0 <= l <= i ensures SourceEntered(e', troves[l], repos) {
      assert SourceEntered(e, troves[l], repos) && Uncommitted(troves[l], repos);
    }
    hide Is, Entered, Decided, SourceEntered, KeyOf, Uncommitted;
    forall k | k in e' && !IsSource(k.name)
      ensures e'[k].trove < i + 1 && exists m :: Is(e', troves, k, m)
      ensures e'[k].trove == i ==> exists m :: 0 <= m < j + 1 && Is(e', troves, k, m)
    {
      if k != k0 {
        var m :| Is(e, troves, k, m) && (e[k].trove == i ==> 0 <= m < j);
        assert Is(e', troves, k, m);
      }
    }
    forall l | 0 <= l < j + 1 ensures Entered(e', troves, i, l) {
      if l < j { assert Entered(e, troves, i, l); }
    }
  }

  /** Taking out all entries of one trove keeps the rest of the table in order. */
  lemma TakeOut(e: map<Key, Entry>, e': map<Key, Entry>, troves: seq<Trove>, i: nat, bad: nat, repos: string)
    requires AllUncommitted(troves, repos) && i < |troves| && bad < |troves|
    requires Legitimate(e, troves, i + 1)
    requires forall l | 0 <= l < i :: Decided(e, troves, l)
    requires forall l | 0 <= l <= i :: SourceEntered(e, troves[l], repos)
    requires forall k :: k in e' <==> k in e && (IsSource(k.name) || e[k].trove != bad)
    requires forall k | k in e' :: e'[k] == e[k]
    requires Lost(troves, bad)
    ensures Legitimate(e', troves, i + 1)
    ensures forall l | 0 <= l < i :: Decided(e', troves, l)
    ensures forall l | 0 <= l <= i :: SourceEntered(e', troves[l], repos)
    ensures Decided(e', troves, bad)
    ensures forall k, m | Is(e, troves, k, m) && k in e' :: Is(e', troves, k, m)
  {
    assert Dropped(e', bad);
    forall l | 0 <= l < i ensures Decided(e', troves, l) {
      assert Uncommitted(troves[l], repos);
      if l != bad { DecidedFrame(e, e', troves, l); }
    }
    forall l | 0 <= l <= i ensures SourceEntered(e', troves[l], repos) {
      assert SourceEntered(e, troves[l], repos) && Uncommitted(troves[l], repos);
    }
    forall k | k in e' && !IsSource(k.name)
      ensures e'[k].trove < i + 1 && exists m :: Is(e', troves, k, m)
    {
      var m :| Is(e, troves, k, m);
      assert Is(e', troves, k, m);
    }
  }

  /** Who has a key that trove `i` wants: another trove, with a binary for that very key. */
  lemma Holder(e: map<Key, Entry>, troves: seq<Trove>, i: nat, j: nat, repos: string) returns (o: nat, l: nat)
    requires AllUncommitted(troves, repos) && Placing(e, troves, i, j, repos)
    requires j < |troves[i].built| && KeyOf(troves[i].built[j]) in e
    ensures o == e[KeyOf(troves[i].built[j])].trove && o < i && l < |troves[o].built|
    ensures KeyOf(troves[o].built[l]) == KeyOf(troves[i].built[j])
    ensures Parent(troves[o].built[0].version.branch) == Parent(troves[i].built[j].version.branch)
    ensures troves[o].built[0].version.branch != Parent(troves[i].built[j].version.branch)
  {
    var k := KeyOf(troves[i].built[j]);
    assert Uncommitted(troves[i], repos);
    o := e[k].trove;
    var m :| Is(e, troves, k, m);
    l := m;
    assert Uncommitted(troves[o], repos);
    var br := troves[o].built[0].version.branch;
    assert troves[o].built[l].version.branch == br && |Parent(br)| == |br| - 1;
  }

  /** The later trove `o` gives way to trove `i`. */
  lemma DropOther(e: map<Key, Entry>, troves: seq<Trove>, i: nat, j: nat, o: nat, l: nat, repos: string)
    requires AllUncommitted(troves, repos) && Placing(e, troves, i, j, repos)
    requires j < |troves[i].built| && o < i && l < |troves[o].built|
    requires KeyOf(troves[i].built[j]) in e && e[KeyOf(troves[i].built[j])].trove == o
    requires KeyOf(troves[o].built[l]) == KeyOf(troves[i].built[j])
    requires Parent(troves[o].built[0].version.branch) == Parent(troves[i].built[j].version.branch)
    requires troves[o].version.rank > troves[i].version.rank
    ensures var rest := Discard(e, o, troves[o].built, Parent(troves[i].built[j].version.branch));
            Placing(rest, troves, i, j, repos) && KeyOf(troves[i].built[j]) !in rest
  {
    var target := Parent(troves[i].built[j].version.branch);
    var rest := Discard(e, o, troves[o].built, target);
    assert Uncommitted(troves[i], repos);
    DiscardWhole(e, troves, i + 1, o, target, repos);
    assert Beaten(troves, o, i, l, j);
    TakeOut(e, rest, troves, i, o, repos);
    forall m | 0 <= m < j ensures Entered(rest, troves, i, m) {
      assert Entered(e, troves, i, m);
    }
    forall k | k in rest && !IsSource(k.name) && rest[k].trove == i
      ensures exists m :: 0 <= m < j && Is(rest, troves, k, m)
    {
      var m :| 0 <= m < j && Is(e, troves, k, m);
      assert Is(rest, troves, k, m);
    }
  }

  /** Trove `i` gives way to the earlier or equal trove `o`. */
  lemma DropSelf(e: map<Key, Entry>, troves: seq<Trove>, i: nat, j: nat, o: nat, l: nat, repos: string)
    requires AllUncommitted(troves, repos) && Placing(e, troves, i, j, repos)
    requires j < |troves[i].built| && o < i && l < |troves[o].built|
    requires KeyOf(troves[o].built[l]) == KeyOf(troves[i].built[j])
    requires troves[o].version.rank <= troves[i].version.rank
    ensures Inv(Discard(e, i, troves[i].built, Parent(troves[i].built[j].version.branch)), troves, i + 1, repos)
  {
    var target := Parent(troves[i].built[j].version.branch);
    assert Uncommitted(troves[i], repos);
    DiscardWhole(e, troves, i + 1, i, target, repos);
    assert Beaten(troves, i, o, j, l);
    TakeOut(e, Discard(e, i, troves[i].built, target), troves, i, i, repos);
  }

  lemma AllPlaced(e: map<Key, Entry>, troves: seq<Trove>, i: nat, repos: string)
    requires i < |troves| && Placing(e, troves, i, |troves[i].built|, repos)
    ensures Inv(e, troves, i + 1, repos)
  {
    assert Kept(e, troves, i);
  }

  lemma {:induction false} PlaceBinariesInv(t: Table, troves: seq<Trove>, i: nat, j: nat, repos: string)
    requires AllUncommitted(troves, repos) && i < |troves| && j <= |troves[i].built|
    requires Placing(t.entries, troves, i, j, repos)
    ensures Inv(PlaceBinaries(t, troves, i, j).entries, troves, i + 1, repos)
    decreases |troves[i].built| - j
  {
    hide Placing, Inv, AllUncommitted, Discard, KeyOf, Parent;
    var e := t.entries;
    if j == |troves[i].built| {
      AllPlaced(e, troves, i, repos);
    } else {
      var b := troves[i].built[j];
      var k, target := KeyOf(b), Parent(b.version.branch);
      var branches := t.branchMap[b.version.branch := target];
      var entered := map[k := Entry(i, b.version)];
      if k !in e {
        assert e + entered == e[k := Entry(i, b.version)];
        EnterFree(e, e + entered, troves, i, j, repos);
        PlaceBinariesInv(t.(entries := e + entered, branchMap := branches), troves, i, j + 1, repos);
      } else {
        var o, l := Holder(e, troves, i, j, repos);
        if troves[o].version.rank > troves[i].version.rank {
          var rest := Discard(e, o, troves[o].built, target);
          DropOther(e, troves, i, j, o, l, repos);
          assert rest + entered == rest[k := Entry(i, b.version)];
          EnterFree(rest, rest + entered, troves, i, j, repos);
          PlaceBinariesInv(t.(entries := rest + entered, branchMap := branches), troves, i, j + 1, repos);
        } else {
          DropSelf(e, troves, i, j, o, l, repos);
        }
      }
    }
  }

  /** A table that differs in sources only is as good for the binaries. */
  lemma SourcesDiffer(e: map<Key, Entry>, e': map<Key, Entry>, troves: seq<Trove>, i: nat, repos: string)
    requires AllUncommitted(troves, repos) && i < |troves|
    requires Inv(e, troves, i, repos)
    requires forall k: Key | !IsSource(k.name) :: (k in e <==> k in e') && (k in e ==> e'[k] == e[k])
    requires forall l | 0 <= l <= i :: SourceEntered(e', troves[l], repos)
    ensures Placing(e', troves, i, 0, repos)
  {
    forall l | 0 <= l < i ensures Decided(e', troves, l) {
      assert Decided(e, troves, l) && Uncommitted(troves[l], repos);
      DecidedFrame(e, e', troves, l);
    }
    hide Decided, SourceEntered;
    forall k, m | Is(e, troves, k, m) && !IsSource(k.name) ensures Is(e', troves, k, m) {}
    hide Is;
    forall k | k in e' && !IsSource(k.name)
      ensures e'[k].trove < i && exists m :: Is(e', troves, k, m)
    {
      var m :| Is(e, troves, k, m);
      assert Is(e', troves, k, m);
    }
  }

  /** Entering a source keeps the binaries as they are. */
  lemma PlaceSourceInv(t: Table, troves: seq<Trove>, i: nat, repos: string)
    requires AllUncommitted(troves, repos) && i < |troves| && troves[i].built != []
    requires Inv(t.entries, troves, i, repos)
    requires PlaceSource(t, troves, i, repos).Ok?
    ensures Placing(PlaceSource(t, troves, i, repos).value.entries, troves, i, 0, repos)
  {
    hide Legitimate, Decided, Placing;
    var e, e' := t.entries, PlaceSource(t, troves, i, repos).value.entries;
    assert Uncommitted(troves[i], repos);
    forall l | 0 <= l <= i ensures SourceEntered(e', troves[l], repos) {
      assert l < i ==> SourceEntered(e, troves[l], repos);
    }
    SourcesDiffer(e, e', troves, i, repos);
  }

  lemma NothingEntered(troves: seq<Trove>, repos: string)
    ensures Inv(map[], troves, 0, repos)
  {
  }

  lemma NothingBuilt(entries: map<Key, Entry>, troves: seq<Trove>, i: nat, repos: string)
    requires i < |troves| && troves[i].built == [] && Inv(entries, troves, i, repos)
    ensures Inv(entries, troves, i + 1, repos)
  {
    hide Entered;
    assert Kept(entries, troves, i);
  }

  lemma {:induction false} TableInv(troves: seq<Trove>, n: nat, repos: string)
    requires AllUncommitted(troves, repos) && n <= |troves|
    requires TableOf(troves, n, repos, false).Ok?
    ensures Inv(TableOf(troves, n, repos, false).value.entries, troves, n, repos)
  {
    hide Decided, SourceEntered, Placing, PlaceBinaries, PlaceSource, Legitimate;
    if n == 0 {
      assert Inv(map[], troves, 0, repos) by { NothingEntered(troves, repos); }
    } else {
      TableInv(troves, n - 1, repos);
      var t := TableOf(troves, n - 1, repos, false).value;
      var i := n - 1;
      if troves[i].built == [] {
        NothingBuilt(t.entries, troves, i, repos);
      } else {
        assert Uncommitted(troves[i], repos);
        PlaceSourceInv(t, troves, i, repos);
        PlaceBinariesInv(PlaceSource(t, troves, i, repos).value, troves, i, 0, repos);
      }
    }
  }

  /** A commit of troves none of which is committed yet is all or nothing for each: every
      binary of a trove is cloned with its own version, or the trove has no binary in the
      table and lost to another with a version not later. What is cloned besides sources
      is binaries of kept troves; and the source of every local trove is in the table. */
  lemma AllOrNothing(troves: seq<Trove>, repos: string, t: Table)
    requires AllUncommitted(troves, repos)
    requires TableOf(troves, |troves|, repos, false) == Ok(t)
    ensures forall i | 0 <= i < |troves| ::
              || (Kept(t.entries, troves, i) && forall b | b in troves[i].built :: b in Clones(t.entries))
              || (Dropped(t.entries, i) && Lost(troves, i))
    ensures forall b | b in Clones(t.entries) && !IsSource(b.name) ::
              exists i :: Kept(t.entries, troves, i) && b in troves[i].built
    ensures forall i | 0 <= i < |troves| :: SourceEntered(t.entries, troves[i], repos)
  {
    var e := t.entries;
    TableInv(troves, |troves|, repos);
    forall i | 0 <= i < |troves|
      ensures || (Kept(e, troves, i) && forall b | b in troves[i].built :: b in Clones(e))
              || (Dropped(e, i) && Lost(troves, i))
    {
      assert Decided(e, troves, i) && Uncommitted(troves[i], repos);
      if Kept(e, troves, i) {
        forall b | b in troves[i].built ensures b in Clones(e) {
          var j :| 0 <= j < |troves[i].built| && troves[i].built[j] == b;
          assert Entered(e, troves, i, j);
          var k := KeyOf(b);
          assert |k.branch| < |b.version.branch|;
          assert k in e && e[k].version.branch != k.branch && b == Binary(k.name, e[k].version, k.flavor);
        }
      }
    }
    forall b | b in Clones(e) && !IsSource(b.name)
      ensures exists i :: Kept(e, troves, i) && b in troves[i].built
    {
      var k :| k in e && e[k].version.branch != k.branch && b == Binary(k.name, e[k].version, k.flavor);
      var j :| Is(e, troves, k, j);
      var i := e[k].trove;
      assert Decided(e, troves, i) && !Dropped(e, i);
      assert Kept(e, troves, i) && b == troves[i].built[j];
    }
  }

  /** No two kept troves want the same name, branch and flavor. */
  lemma KeptTrovesDisjoint(troves: seq<Trove>, entries: map<Key, Entry>, i: nat, j: nat, a: Binary, b: Binary)
    requires Kept(entries, troves, i) && Kept(entries, troves, j) && i != j
    requires a in troves[i].built && b in troves[j].built
    ensures KeyOf(a) != KeyOf(b)
  {
    var m :| 0 <= m < |troves[i].built| && troves[i].built[m] == a;
    var n :| 0 <= n < |troves[j].built| && troves[j].built[n] == b;
    assert Entered(entries, troves, i, m) && Entered(entries, troves, j, n);
  }

  // ---- where the guarantee ends ----

  /** Trove `o` is on branch `target` already. */
  ghost predicate IsCommitted(troves: seq<Trove>, o: nat, target: Branch) {
    o < |troves| && troves[o].built != [] && troves[o].built[0].version.branch == target
  }

  /** Binary `j` of trove `i` finds its key taken by a committed trove, or by one that is
      not later. */
  ghost predicate Stops(entries: map<Key, Entry>, troves: seq<Trove>, i: nat, j: nat)
    requires i < |troves| && j < |troves[i].built|
  {
    var b := troves[i].built[j];
    KeyOf(b) in entries &&
    var o := entries[KeyOf(b)].trove;
    IsCommitted(troves, o, Parent(b.version.branch))
      || !(o < |troves| && troves[o].version.rank > troves[i].version.rank)
  }

  ghost predicate StopsFirst(entries: map<Key, Entry>, troves: seq<Trove>, i: nat, m: nat) {
    && i < |troves| && m < |troves[i].built| && Stops(entries, troves, i, m)
    && forall l: nat | l < m :: !Stops(entries, troves, i, l)
  }

  /** The first binary that stops trove `i` meets a committed trove, and is not the first
      of the trove. */
  ghost predicate BreaksOff(entries: map<Key, Entry>, troves: seq<Trove>, i: nat) {
    exists m: nat :: m > 0 && StopsFirst(entries, troves, i, m)
      && IsCommitted(troves, entries[KeyOf(troves[i].built[m])].trove, Parent(troves[i].built[m].version.branch))
  }

  /** Of trove `i` just the first `j` binaries are in the table. */
  ghost predicate FirstOnly(entries: map<Key, Entry>, troves: seq<Trove>, i: nat, j: nat) {
    && i < |troves| && j <= |troves[i].built|
    && (forall l: nat | l < j :: Entered(entries, troves, i, l))
    && (forall k | k in entries && entries[k].trove == i && !IsSource(k.name) ::
          exists l: nat :: l < j && k == KeyOf(troves[i].built[l]))
  }

  /** How placing trove `i` goes on after its first `j` binaries, from the table alone. */
  ghost predicate Outcome(entries: map<Key, Entry>, r: map<Key, Entry>, troves: seq<Trove>, i: nat)
    requires i < |troves|
  {
    && ((forall l: nat | l < |troves[i].built| :: !Stops(entries, troves, i, l)) ==> Kept(r, troves, i))
    && (forall m: nat | StopsFirst(entries, troves, i, m) ::
          if IsCommitted(troves, entries[KeyOf(troves[i].built[m])].trove, Parent(troves[i].built[m].version.branch))
          then FirstOnly(r, troves, i, m)
          else Dropped(r, i))
  }

  /** What can stop a trove is what stood in the table before its first binary was placed:
      a binary of its own does not, nor does discarding one that loses to it. */
  lemma SameStops(e: map<Key, Entry>, troves: seq<Trove>, i: nat, j: nat, repos: string)
    requires i < |troves| && j < |troves[i].built| && Uncommitted(troves[i], repos)
    requires !Stops(e, troves, i, j)
    ensures var b := troves[i].built[j];
            var rest := if KeyOf(b) in e then
                          Discard(e, e[KeyOf(b)].trove, troves[e[KeyOf(b)].trove].built, Parent(b.version.branch))
                        else e;
            forall l: nat | j < l < |troves[i].built| ::
              Stops(rest + map[KeyOf(b) := Entry(i, b.version)], troves, i, l) <==> Stops(e, troves, i, l)
  {
    var b := troves[i].built[j];
    var k := KeyOf(b);
    if k in e {
      DiscardKeeps(e, e[k].trove, troves[e[k].trove].built, Parent(b.version.branch));
    }
  }

  /** The table `e`, reached from `e0`, stops the binaries of trove `i` from the `j`-th on
      where `e0` does. */
  ghost predicate Agrees(e0: map<Key, Entry>, e: map<Key, Entry>, troves: seq<Trove>, i: nat, j: nat)
    requires i < |troves|
  {
    && (forall l: nat | l < j && l < |troves[i].built| :: !Stops(e0, troves, i, l))
    && (forall l: nat | j <= l < |troves[i].built| ::
          && (Stops(e, troves, i, l) <==> Stops(e0, troves, i, l))
          && (Stops(e0, troves, i, l) ==> e[KeyOf(troves[i].built[l])] == e0[KeyOf(troves[i].built[l])]))
  }

  /** The entries without those of the trove that loses to binary `j` of trove `i`. */
  ghost function Rest(e: map<Key, Entry>, troves: seq<Trove>, i: nat, j: nat): map<Key, Entry>
    requires i < |troves| && j < |troves[i].built| && !Stops(e, troves, i, j)
  {
    var b := troves[i].built[j];
    if KeyOf(b) in e then Discard(e, e[KeyOf(b)].trove, troves[e[KeyOf(b)].trove].built, Parent(b.version.branch))
    else e
  }

  /** The binary finds its key at a committed trove. */
  ghost predicate MeetsCommitted(e: map<Key, Entry>, troves: seq<Trove>, n: nat, m: nat) {
    && n < |troves| && m < |troves[n].built| && KeyOf(troves[n].built[m]) in e
    && IsCommitted(troves, e[KeyOf(troves[n].built[m])].trove, Parent(troves[n].built[m].version.branch))
  }

  lemma Stopped(t: Table, troves: seq<Trove>, n: nat, j: nat)
    requires n < |troves| && j < |troves[n].built| && Stops(t.entries, troves, n, j)
    ensures KeyOf(troves[n].built[j]) in t.entries
    ensures var r := PlaceBinaries(t, troves, n, j).entries;
            r == if MeetsCommitted(t.entries, troves, n, j) then t.entries
                 else Discard(t.entries, n, troves[n].built, Parent(troves[n].built[j].version.branch))
  {
  }

  lemma NotStopped(t: Table, troves: seq<Trove>, n: nat, j: nat)
    requires n < |troves| && j < |troves[n].built| && !Stops(t.entries, troves, n, j)
    ensures var b := troves[n].built[j];
            var t' := t.(entries := Rest(t.entries, troves, n, j) + map[KeyOf(b) := Entry(n, b.version)],
                         branchMap := t.branchMap[b.version.branch := Parent(b.version.branch)]);
            PlaceBinaries(t, troves, n, j) == PlaceBinaries(t', troves, n, j + 1)
  {
  }

  lemma NoneLeft(t: Table, troves: seq<Trove>, n: nat)
    requires n < |troves|
    ensures PlaceBinaries(t, troves, n, |troves[n].built|) == t
  {
  }

  lemma PlaceOne(e0: map<Key, Entry>, e: map<Key, Entry>, troves: seq<Trove>, i: nat, j: nat, repos: string)
    requires i < |troves| && j < |troves[i].built| && Uncommitted(troves[i], repos)
    requires Agrees(e0, e, troves, i, j) && FirstOnly(e, troves, i, j) && !Stops(e, troves, i, j)
    ensures var b := troves[i].built[j];
            var e' := Rest(e, troves, i, j) + map[KeyOf(b) := Entry(i, b.version)];
            Agrees(e0, e', troves, i, j + 1) && FirstOnly(e', troves, i, j + 1)
  {
    var b := troves[i].built[j];
    var k := KeyOf(b);
    var rest := Rest(e, troves, i, j);
    SameStops(e, troves, i, j, repos);
    if k in e {
      DiscardKeeps(e, e[k].trove, troves[e[k].trove].built, Parent(b.version.branch));
      assert !IsSource(k.name);
      assert e[k].trove != i;
    }
    FirstOnlyMore(e, rest, troves, i, j, repos);
  }

  lemma FirstOnlyMore(e: map<Key, Entry>, rest: map<Key, Entry>, troves: seq<Trove>, i: nat, j: nat, repos: string)
    requires i < |troves| && j < |troves[i].built| && Uncommitted(troves[i], repos) && FirstOnly(e, troves, i, j)
    requires forall k | k in rest :: k in e && rest[k] == e[k]
    requires forall k | k in e && e[k].trove == i :: k in rest
    ensures var b := troves[i].built[j];
            FirstOnly(rest + map[KeyOf(b) := Entry(i, b.version)], troves, i, j + 1)
  {
    var b := troves[i].built[j];
    var e' := rest + map[KeyOf(b) := Entry(i, b.version)];
    forall l: nat | l < j + 1 ensures Entered(e', troves, i, l) {
      if l < j { assert Entered(e, troves, i, l); }
    }
  }

  lemma DropPlaced(e: map<Key, Entry>, troves: seq<Trove>, i: nat, j: nat, repos: string)
    requires i < |troves| && j < |troves[i].built| && Uncommitted(troves[i], repos) && FirstOnly(e, troves, i, j)
    ensures Dropped(Discard(e, i, troves[i].built, Parent(troves[i].built[j].version.branch)), i)
  {
    var built := troves[i].built;
    DiscardKeeps(e, i, built, Parent(built[j].version.branch));
    forall k | k in e && e[k].trove == i && !IsSource(k.name)
      ensures exists l | 0 <= l < |built| :: k == Key(built[l].name, Parent(built[j].version.branch), built[l].flavor)
    {
      var l: nat :| l < j && k == KeyOf(built[l]);
    }
  }

  /** What placing a trove comes to is known from the table before it. */
  lemma {:induction false} PlacedExactly(e0: map<Key, Entry>, t: Table, troves: seq<Trove>, i: nat, j: nat, repos: string)
    requires i < |troves| && j <= |troves[i].built| && Uncommitted(troves[i], repos)
    requires Agrees(e0, t.entries, troves, i, j) && FirstOnly(t.entries, troves, i, j)
    ensures Outcome(e0, PlaceBinaries(t, troves, i, j).entries, troves, i)
    decreases |troves[i].built| - j
  {
    hide Uncommitted, Discard, PlaceBinaries, Stops, Agrees, FirstOnly, Outcome;
    var e := t.entries;
    if j == |troves[i].built| {
      NoneLeft(t, troves, i);
      WholeOutcome(e0, e, troves, i);
    } else {
      var b := troves[i].built[j];
      if Stops(e, troves, i, j) {
        Stopped(t, troves, i, j);
        DropPlaced(e, troves, i, j, repos);
        StopOutcome(e0, e, troves, i, j);
      } else {
        PlaceOne(e0, e, troves, i, j, repos);
        var t' := t.(entries := Rest(e, troves, i, j) + map[KeyOf(b) := Entry(i, b.version)],
                     branchMap := t.branchMap[b.version.branch := Parent(b.version.branch)]);
        PlacedExactly(e0, t', troves, i, j + 1, repos);
        NotStopped(t, troves, i, j);
      }
    }
  }

  lemma WholeOutcome(e0: map<Key, Entry>, e: map<Key, Entry>, troves: seq<Trove>, i: nat)
    requires i < |troves| && Agrees(e0, e, troves, i, |troves[i].built|) && FirstOnly(e, troves, i, |troves[i].built|)
    ensures Outcome(e0, e, troves, i)
  {
    hide Stops;
    assert Kept(e, troves, i);
  }

  lemma StopOutcome(e0: map<Key, Entry>, e: map<Key, Entry>, troves: seq<Trove>, i: nat, j: nat)
    requires i < |troves| && j < |troves[i].built| && Agrees(e0, e, troves, i, j) && FirstOnly(e, troves, i, j)
    requires Stops(e, troves, i, j) && KeyOf(troves[i].built[j]) in e
    requires Dropped(Discard(e, i, troves[i].built, Parent(troves[i].built[j].version.branch)), i)
    ensures Outcome(e0, if MeetsCommitted(e, troves, i, j) then e
                        else Discard(e, i, troves[i].built, Parent(troves[i].built[j].version.branch)), troves, i)
  {
    hide Discard, FirstOnly, Dropped, Stops;
    assert StopsFirst(e0, troves, i, j);
    OnlyFirst(e0, troves, i, j);
  }

  /** Placing a trove is all or nothing exactly when it does not break off: when the first
      of its binaries to be stopped, if there is one, is its very first or is stopped by
      a trove that is not committed yet. */
  lemma WholeUnlessBrokenOff(t: Table, troves: seq<Trove>, i: nat, repos: string)
    requires i < |troves| && Uncommitted(troves[i], repos) && troves[i].built != []
    requires Dropped(t.entries, i)
    ensures var r := PlaceBinaries(t, troves, i, 0).entries;
            Kept(r, troves, i) || Dropped(r, i) <==> !BreaksOff(t.entries, troves, i)
  {
    hide Stops, PlaceBinaries, Uncommitted;
    var e, r := t.entries, PlaceBinaries(t, troves, i, 0).entries;
    PlacedExactly(e, t, troves, i, 0, repos);
    if s: nat :| s < |troves[i].built| && Stops(e, troves, i, s) {
      var m := FirstStop(e, troves, i, s);
      OnlyFirst(e, troves, i, m);
      if IsCommitted(troves, e[KeyOf(troves[i].built[m])].trove, Parent(troves[i].built[m].version.branch)) {
        PartOnly(r, troves, i, m, repos);
      }
    }
  }

  lemma {:induction false} FirstStop(e: map<Key, Entry>, troves: seq<Trove>, i: nat, s: nat) returns (m: nat)
    requires i < |troves| && s < |troves[i].built| && Stops(e, troves, i, s)
    ensures StopsFirst(e, troves, i, m)
    decreases s
  {
    hide Stops;
    if l: nat :| l < s && Stops(e, troves, i, l) {
      m := FirstStop(e, troves, i, l);
    } else {
      m := s;
    }
  }

  lemma OnlyFirst(e: map<Key, Entry>, troves: seq<Trove>, i: nat, m: nat)
    requires StopsFirst(e, troves, i, m)
    ensures forall n: nat | StopsFirst(e, troves, i, n) :: n == m
    ensures KeyOf(troves[i].built[m]) in e
  {
  }

  /** A trove of which just the first `m` binaries are in the table, and not all, is whole
      or absent only if that is none. */
  lemma PartOnly(r: map<Key, Entry>, troves: seq<Trove>, i: nat, m: nat, repos: string)
    requires i < |troves| && m < |troves[i].built| && Uncommitted(troves[i], repos) && FirstOnly(r, troves, i, m)
    ensures !Kept(r, troves, i)
    ensures Dropped(r, i) <==> m == 0
  {
    var b := troves[i].built[m];
    assert !Entered(r, troves, i, m);
    if m > 0 {
      assert Entered(r, troves, i, 0);
      assert !IsSource(KeyOf(troves[i].built[0]).name);
    }
  }

  /** With a trove that is committed already the commit is not all or nothing: the trove
      `broken off` keeps the binaries placed before the one that is committed. */
  lemma CommittedTroveBreaksOff() returns (troves: seq<Trove>, t: Table)
    ensures |troves| == 2 && TableOf(troves, 2, "local", false) == Ok(t)
    ensures Uncommitted(troves[1], "local")
    ensures troves[0].built != [] && Host(troves[0].built[0].version) != "local"
    ensures !Kept(t.entries, troves, 1) && !Dropped(t.entries, 1)
  {
    var main := ["main"];
    var local := ["main", "local"];
    var done := Trove("p:source", Version(main, 1), [Binary("b", Version(main, 1), "")]);
    var a, b := Binary("a", Version(local, 2), ""), Binary("b", Version(local, 2), "");
    var next := Trove("p:source", Version(main, 2), [a, b]);
    troves := [done, next];
    var t0 := Table(map[], map[], [], false);
    assert TableOf(troves, 0, "local", false) == Ok(t0);
    var kb := Key("b", main, "");
    var t1 := t0.(entries := map[kb := Entry(0, Version(main, 1))], alreadyCommitted := true);
    assert PlaceCommitted(map[], 0, done.built) == t1.entries by {
      assert done.built[1..] == [];
    }
    assert TableOf(troves, 1, "local", false) == Ok(t1);
    assert Parent(local) == main;
    assert KeyOf(a) == Key("a", main, "") && KeyOf(b) == kb;
    var t2 := t1.(entries := t1.entries + map[KeyOf(a) := Entry(1, a.version)],
                  branchMap := t1.branchMap[local := main]);
    assert PlaceBinaries(t2, troves, 1, 1) == t2;
    assert PlaceBinaries(t1, troves, 1, 0) == PlaceBinaries(t2, troves, 1, 1);
    t := t2;
    assert !Entered(t.entries, troves, 1, 1);
    assert KeyOf(a) in t.entries && t.entries[KeyOf(a)].trove == 1 && !IsSource("a");
    assert IsSource("p:source") by { assert "p:source"[1..] == ":source"; }
  }

  const MAIN: Branch := ["main"]
  const LOCAL: Branch := ["main", "local"]

  function LocalBinary(name: string, rank: int): Binary {
    Binary(name, Version(LOCAL, rank), "")
  }

  function LocalTrove(rank: int, names: seq<string>): Trove {
    Trove("p:source", Version(MAIN, rank), seq(|names|, i requires 0 <= i < |names| => LocalBinary(names[i], rank)))
  }

  /** The last trove beats the first, and is beaten by the second. */
  function Rivals(): seq<Trove> {
    [LocalTrove(9, ["x"]), LocalTrove(1, ["y"]), LocalTrove(5, ["x", "y"])]
  }

  lemma RivalsKeys()
    ensures Rivals()[0].built == [LocalBinary("x", 9)] && Rivals()[1].built == [LocalBinary("y", 1)]
    ensures Rivals()[2].built == [LocalBinary("x", 5), LocalBinary("y", 5)]
    ensures forall name, rank :: KeyOf(LocalBinary(name, rank)) == Key(name, MAIN, "")
  {
    assert Parent(LOCAL) == MAIN;
  }

  lemma FirstTwoRivals() returns (t: Table)
    ensures t == Table(map[Key("x", MAIN, "") := Entry(0, Version(LOCAL, 9)),
                           Key("y", MAIN, "") := Entry(1, Version(LOCAL, 1))],
                       map[LOCAL := MAIN], [], false)
    ensures TableOf(Rivals(), 2, "local", false) == Ok(t)
  {
    RivalsKeys();
    var troves := Rivals();
    var kx, ky := Key("x", MAIN, ""), Key("y", MAIN, "");
    var t0 := Table(map[], map[], [], false);
    assert TableOf(troves, 0, "local", false) == Ok(t0);
    var t1 := Table(map[kx := Entry(0, Version(LOCAL, 9))], map[LOCAL := MAIN], [], false);
    assert t0.entries + map[kx := Entry(0, Version(LOCAL, 9))] == t1.entries;
    assert PlaceBinaries(t1, troves, 0, 1) == t1;
    assert TableOf(troves, 1, "local", false) == Ok(t1);
    t := t1.(entries := map[kx := Entry(0, Version(LOCAL, 9)), ky := Entry(1, Version(LOCAL, 1))]);
    assert t1.entries + map[ky := Entry(1, Version(LOCAL, 1))] == t.entries;
    assert map[LOCAL := MAIN][LOCAL := MAIN] == map[LOCAL := MAIN];
    assert PlaceBinaries(t, troves, 1, 1) == t;
  }

  lemma AllRivals() returns (t: Table)
    ensures t.entries == map[Key("y", MAIN, "") := Entry(1, Version(LOCAL, 1))]
    ensures TableOf(Rivals(), 3, "local", false) == Ok(t)
  {
    RivalsKeys();
    var troves := Rivals();
    var kx, ky := Key("x", MAIN, ""), Key("y", MAIN, "");
    var t2 := FirstTwoRivals();
    var only := map[ky := Entry(1, Version(LOCAL, 1))];
    var x0, x2, y2 := LocalBinary("x", 9), LocalBinary("x", 5), LocalBinary("y", 5);
    assert [x0][1..] == [] && [y2][1..] == [] && [x2, y2][1..] == [y2];
    assert t2.entries - {kx} == only;
    assert Discard(t2.entries, 0, [x0], MAIN) == only;
    var e3 := only + map[kx := Entry(2, Version(LOCAL, 5))];
    var t3 := t2.(entries := e3, branchMap := t2.branchMap[LOCAL := MAIN]);
    assert PlaceBinaries(t2, troves, 2, 0) == PlaceBinaries(t3, troves, 2, 1);
    assert e3 - {kx} == only;
    assert Discard(only, 2, [y2], MAIN) == only;
    assert Discard(e3, 2, [x2, y2], MAIN) == only;
    t := t3.(entries := only);
    assert PlaceBinaries(t3, troves, 2, 1) == t;
  }

  /** A trove can lose to one that then loses itself: it is left out though it has no key
      in common with any trove that is kept. */
  lemma LoserMayHaveNoKeptRival() returns (t: Table)
    ensures AllUncommitted(Rivals(), "local") && TableOf(Rivals(), |Rivals()|, "local", false) == Ok(t)
    ensures Dropped(t.entries, 0) && Kept(t.entries, Rivals(), 1) && Dropped(t.entries, 2)
    ensures forall a, b | a in Rivals()[0].built && b in Rivals()[1].built :: KeyOf(a) != KeyOf(b)
  {
    hide AllUncommitted, Dropped, Kept, TableOf;
    RivalsKeys();
    t := AllRivals();
    RivalsUncommitted();
    RivalsEnd(t.entries);
  }

  lemma RivalsUncommitted()
    ensures AllUncommitted(Rivals(), "local")
  {
    RivalsKeys();
    assert IsSource("p:source") by { assert "p:source"[1..] == ":source"; }
  }

  lemma RivalsEnd(entries: map<Key, Entry>)
    requires entries == map[Key("y", MAIN, "") := Entry(1, Version(LOCAL, 1))]
    ensures Dropped(entries, 0) && Kept(entries, Rivals(), 1) && Dropped(entries, 2)
  {
    RivalsKeys();
    assert Entered(entries, Rivals(), 1, 0);
  }
}
