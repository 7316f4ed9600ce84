/** The repository cache: answers of a repository, kept in a store under hashes of the
    questions. Asking through the cache gives what the repository would have given. */
module RepoCache {
  import opened Wrappers
  import opened Bytes

  /** A version; time stamps are not part of its identity. */
  datatype Version = Version(text: string, stamps: seq<int>)

  datatype Trove = Trove(name: string, version: Version, flavor: string)

  /** A trove's identity. */
  datatype Plain = Plain(name: string, version: string, flavor: string)

  function Identity(t: Trove): Plain {
    Plain(t.name, t.version.text, t.flavor)
  }

  function Identities(ts: seq<Trove>): multiset<Plain> {
    if ts == [] then multiset{} else multiset{Identity(ts[0])} + Identities(ts[1..])
  }

  /** Troves are the same to the cache if name, version and flavor are; time stamps are not
      looked at. */
  lemma IdentityExactly(a: Trove, b: Trove)
    ensures Identity(a) == Identity(b) <==> a.name == b.name && a.version.text == b.version.text && a.flavor == b.flavor
  {
  }

  /** Of a list, every trove counts as often as it occurs, in any order. */
  lemma {:induction false} IdentitiesCount(ts: seq<Trove>)
    ensures Identities(ts) == multiset(seq(|ts|, i requires 0 <= i < |ts| => Identity(ts[i])))
  {
    var plain := seq(|ts|, i requires 0 <= i < |ts| => Identity(ts[i]));
    if ts != [] {
      IdentitiesCount(ts[1..]);
      var rest := seq(|ts[1..]|, i requires 0 <= i < |ts[1..]| => Identity(ts[1..][i]));
      assert plain == [Identity(ts[0])] + rest;
    }
  }

  // ---- dependency sets ----

  /** A dependency is known by its class's tag and its name; its flags go with it. */
  datatype Name = Name(tag: nat, text: string)

  type Flags = string

  type DepSet = map<Name, Flags>

  predicate Before(a: Name, b: Name) {
    a.tag < b.tag || (a.tag == b.tag && a.text != b.text && LexLeq(a.text, b.text))
  }

  lemma BeforeIsAnOrder(a: Name, b: Name, c: Name)
    ensures a == b || Before(a, b) || Before(b, a)
    ensures !(Before(a, b) && Before(b, a))
    ensures Before(a, b) && Before(b, c) ==> Before(a, c)
  {
    LexTotal(a.text, b.text);
    if LexLeq(a.text, b.text) && LexLeq(b.text, a.text) { LexAntisymmetric(a.text, b.text); }
    if LexLeq(a.text, b.text) && LexLeq(b.text, c.text) {
      LexTransitive(a.text, b.text, c.text);
      if a.text == c.text { LexAntisymmetric(a.text, b.text); }
    }
  }

  predicate IsLast(names: set<Name>, last: Name) {
    last in names && forall n | n in names && n != last :: Before(n, last)
  }

  lemma {:induction false} LastExists(names: set<Name>)
    requires names != {}
    ensures exists last :: IsLast(names, last)
    ensures forall a, b | IsLast(names, a) && IsLast(names, b) :: a == b
    decreases |names|
  {
    forall a, b | IsLast(names, a) && IsLast(names, b) ensures a == b {
      BeforeIsAnOrder(a, b, a);
    }
    var n :| n in names;
    var rest := names - {n};
    if rest == {} {
      assert names == {n};
      assert IsLast(names, n);
    } else {
      LastExists(rest);
      var last :| IsLast(rest, last);
      BeforeIsAnOrder(n, last, n);
      if Before(n, last) {
        assert IsLast(names, last);
      } else {
        forall k | k in names && k != n ensures Before(k, n) { BeforeIsAnOrder(k, last, n); }
        assert IsLast(names, n);
      }
    }
  }

  /** The names in order: `iterDeps(sort=True)`. */
  function InOrder(names: set<Name>): (r: seq<Name>)
    ensures |r| == |names| && forall n :: n in r <==> n in names
    decreases |names|
  {
    if names == {} then [] else
      LastExists(names);
      var last :| IsLast(names, last);
      assert names == (names - {last}) + {last};
      InOrder(names - {last}) + [last]
  }

  lemma AppendLast(names: set<Name>, n: Name)
    requires forall k | k in names :: Before(k, n)
    ensures InOrder(names + {n}) == InOrder(names) + [n]
  {
    assert !Before(n, n);
    LastExists(names + {n});
    assert IsLast(names + {n}, n);
    assert names + {n} - {n} == names;
  }

  lemma {:induction false} InOrderIncreases(names: set<Name>)
    ensures forall i, j | 0 <= i < j < |InOrder(names)| :: Before(InOrder(names)[i], InOrder(names)[j])
    decreases |names|
  {
    if names != {} {
      LastExists(names);
      var last :| IsLast(names, last);
      InOrderIncreases(names - {last});
      assert InOrder(names) == InOrder(names - {last}) + [last];
    }
  }

  /** The dependencies of a set are asked for class by class, lowest tag first, and within a
      class in the order of their names. */
  lemma InOrderSorts(names: set<Name>, i: nat, j: nat)
    requires i < j < |InOrder(names)|
    ensures var a, b := InOrder(names)[i], InOrder(names)[j];
            a.tag <= b.tag && (a.tag == b.tag ==> LexLeq(a.text, b.text) && a.text != b.text)
  {
    InOrderIncreases(names);
  }

  // ---- the repository ----

  type Contents(==, !new)
  type ChangeSet(==, !new)

  /** What the repository answers. It answers each question independently of the others
      asked in the same call. */
  datatype Repository = Repository(
    resolve: (multiset<Plain>, Name, Flags) -> seq<Trove>,
    file: (string, string) -> Contents,
    changeSet: (Plain, bool, bool) -> Option<ChangeSet>,
    has: Plain -> bool)

  /** The repository's answer for a whole dependency set, in the set's order. */
  function ResolveSet(repos: Repository, groups: seq<Trove>, d: DepSet): (r: seq<seq<Trove>>) {
    var names := InOrder(d.Keys);
    seq(|names|, i requires 0 <= i < |names| => repos.resolve(Identities(groups), names[i], d[names[i]]))
  }

  // ---- the store ----

  /** The questions asked; a group's order does not matter. */
  datatype Question =
    | Dependency(groups: multiset<Plain>, name: Name, flags: Flags)
    | File(id: string, version: string)
    | Changes(trove: Plain, withFiles: bool, withContents: bool)

  type Hash = string

  datatype Entry =
    | Results(troves: seq<Trove>)
    | Data(contents: Contents)
    | Saved(changes: ChangeSet)

  ghost predicate Injective(hash: Question -> Hash) {
    forall a, b :: hash(a) == hash(b) ==> a == b
  }

  /** A frozen list read back lists the same troves; it may lose order and time stamps. */
  ghost predicate KeepsIdentities(readBack: seq<Trove> -> seq<Trove>) {
    forall ts :: Identities(readBack(ts)) == Identities(ts)
  }

  /** What looking one dependency set up gives: what to ask the repository for, what was
      found at each place, and the places and hashes of what was not. */
  datatype LookUp = LookUp(toFind: DepSet, found: seq<Option<seq<Trove>>>, missing: seq<(nat, Hash)>)

  class Cache {
    var store: map<Hash, Entry>
    const readOnly: bool
    const repos: Repository
    const hash: Question -> Hash
    /** A result list as it comes back after having been frozen. */
    const readBack: seq<Trove> -> seq<Trove>

    constructor (readOnly: bool, repos: Repository, hash: Question -> Hash, readBack: seq<Trove> -> seq<Trove>)
      requires Injective(hash) && KeepsIdentities(readBack)
      requires forall t, f, c :: repos.changeSet(t, f, c).Some? ==> repos.has(t)
      ensures Valid() && store == map[] && this.readOnly == readOnly && this.repos == repos
    {
      this.readOnly, this.repos, this.hash, this.readBack := readOnly, repos, hash, readBack;
      store := map[];
    }

    /** What belongs in the store for a question. */
    ghost predicate IsAnswer(q: Question, e: Entry) {
      match q
      case Dependency(groups, name, flags) => e == Results(readBack(repos.resolve(groups, name, flags)))
      case File(id, version) => e == Data(repos.file(id, version))
      case Changes(t, f, c) => e.Saved? && repos.changeSet(t, f, c) == Some(e.changes)
    }

    /** Everything in the store is what the repository would answer. */
    ghost predicate Coherent(s: map<Hash, Entry>) {
      forall q :: hash(q) in s ==> IsAnswer(q, s[hash(q)])
    }

    ghost predicate Valid()
      reads this`store
    {
      && Injective(hash) && KeepsIdentities(readBack)
      && (forall t, f, c :: repos.changeSet(t, f, c).Some? ==> repos.has(t))
      && Coherent(store)
    }

    /** What the cache gives for a dependency, when the store is `s` at the time of the call. */
    function Answer(s: map<Hash, Entry>, groups: multiset<Plain>, name: Name, flags: Flags): seq<Trove> {
      var r := repos.resolve(groups, name, flags);
      if hash(Dependency(groups, name, flags)) in s then readBack(r) else r
    }

    function Answers(s: map<Hash, Entry>, groups: multiset<Plain>, d: DepSet): seq<seq<Trove>> {
      var names := InOrder(d.Keys);
      seq(|names|, i requires 0 <= i < |names| => Answer(s, groups, names[i], d[names[i]]))
    }

    /** Which dependencies of a set are missing, as noted by their place and hash. */
    ghost predicate LinesUp(groups: multiset<Plain>, d: DepSet, toFind: DepSet, missing: seq<(nat, Hash)>) {
      var names := InOrder(d.Keys);
      && |InOrder(toFind.Keys)| == |missing|
      && forall j | 0 <= j < |missing| ::
           && missing[j].0 < |names|
           && InOrder(toFind.Keys)[j] == names[missing[j].0]
           && names[missing[j].0] in toFind && toFind[names[missing[j].0]] == d[names[missing[j].0]]
           && missing[j].1 == hash(Dependency(groups, names[missing[j].0], d[names[missing[j].0]]))
    }

    static ghost predicate Noted(missing: seq<(nat, Hash)>, i: nat) {
      exists j | 0 <= j < |missing| :: missing[j].0 == i
    }

    /** Every place is either filled from the store or noted as missing. */
    ghost predicate Looked(s: map<Hash, Entry>, groups: multiset<Plain>, d: DepSet,
                           found: seq<Option<seq<Trove>>>, missing: seq<(nat, Hash)>) {
      && |found| <= |InOrder(d.Keys)|
      && forall i | 0 <= i < |found| ::
           if found[i].None? then Noted(missing, i)
           else found[i].value == Answers(s, groups, d)[i] && HashAt(groups, d, i) in s
    }

    /** The hash under which the answer for the `i`-th dependency of a set is stored. */
    function HashAt(groups: multiset<Plain>, d: DepSet, i: nat): Hash
      requires i < |InOrder(d.Keys)|
    {
      var name := InOrder(d.Keys)[i];
      hash(Dependency(groups, name, d[name]))
    }

    /** The answers for all dependencies of a set are stored. */
    ghost predicate Stored(s: map<Hash, Entry>, groups: multiset<Plain>, d: DepSet) {
      forall i: nat | i < |InOrder(d.Keys)| :: HashAt(groups, d, i) in s
    }

    lemma StaysStored(s: map<Hash, Entry>, t: map<Hash, Entry>, groups: multiset<Plain>, d: DepSet)
      requires s.Keys <= t.Keys && Stored(s, groups, d)
      ensures Stored(t, groups, d)
    {
    }

    lemma Lookup(q: Question)
      requires Valid() && hash(q) in store
      ensures IsAnswer(q, store[hash(q)])
    {
    }

    lemma NoteMissing(groups: multiset<Plain>, d: DepSet, toFind: DepSet, missing: seq<(nat, Hash)>, i: nat)
      requires LinesUp(groups, d, toFind, missing) && i < |InOrder(d.Keys)|
      requires forall n | n in toFind :: Before(n, InOrder(d.Keys)[i])
      ensures var name := InOrder(d.Keys)[i];
              LinesUp(groups, d, toFind[name := d[name]], missing + [(i, hash(Dependency(groups, name, d[name])))])
    {
      hide InOrder, Before;
      var name := InOrder(d.Keys)[i];
      BeforeIsAnOrder(name, name, name);
      AppendLast(toFind.Keys, name);
      assert toFind[name := d[name]].Keys == toFind.Keys + {name};
    }

    static lemma NoteOne(missing: seq<(nat, Hash)>, i: nat, h: Hash)
      ensures Noted(missing + [(i, h)], i)
      ensures forall k: nat | Noted(missing, k) :: Noted(missing + [(i, h)], k)
    {
      var now := missing + [(i, h)];
      assert now[|missing|].0 == i;
      forall k: nat | Noted(missing, k) ensures Noted(now, k) {
        var j :| 0 <= j < |missing| && missing[j].0 == k;
        assert now[j].0 == k;
      }
    }

    /** Looks every dependency of one set up. */
    method Scan(groups: seq<Trove>, d: DepSet)
      returns (toFind: DepSet, found: seq<Option<seq<Trove>>>, missing: seq<(nat, Hash)>)
      requires Valid()
      ensures LinesUp(Identities(groups), d, toFind, missing)
      ensures |found| == |InOrder(d.Keys)| && Looked(store, Identities(groups), d, found, missing)
      ensures forall j | 0 <= j < |missing| :: missing[j].1 !in store
    {
      hide Valid, LinesUp, Noted, Before, Identities, InOrder;
      var names := InOrder(d.Keys);
      toFind, found, missing := map[], [], [];
      ghost var gs := Identities(groups);
      InOrderIncreases(d.Keys);
      NothingMissing(gs, d);
      for i := 0 to |names|
        invariant |found| == i && Looked(store, gs, d, found, missing)
        invariant LinesUp(gs, d, toFind, missing)
        invariant forall n | n in toFind :: n in names[..i]
        invariant forall j | 0 <= j < |missing| :: missing[j].1 !in store
      {
        var name := names[i];
        var depHash := hash(Dependency(Identities(groups), name, d[name]));
        if depHash in store {
          Lookup(Dependency(gs, name, d[name]));
          found := found + [Some(store[depHash].troves)];
        } else {
          forall n | n in toFind ensures Before(n, name) {}
          NoteMissing(gs, d, toFind, missing, i);
          NoteOne(missing, i, depHash);
          toFind := toFind[name := d[name]];
          found := found + [None];
          missing := missing + [(i, depHash)];
        }
        assert names[..i + 1] == names[..i] + [name];
      }
    }

    lemma NothingMissing(groups: multiset<Plain>, d: DepSet)
      ensures LinesUp(groups, d, map[], [])
    {
    }

    /** Adding a right answer to a store keeps it right: no two questions share a hash. */
    lemma AddAnswer(q: Question, e: Entry)
      requires Valid() && IsAnswer(q, e)
      ensures Coherent(store[hash(q) := e])
    {
    }

    /** What the places of one set hold, all filled. */
    static ghost predicate Filled(found: seq<Option<seq<Trove>>>, answers: seq<seq<Trove>>) {
      |found| == |answers| && forall i | 0 <= i < |found| :: found[i] == Some(answers[i])
    }

    static lemma AllFilled(found: seq<Option<seq<Trove>>>, answers: seq<seq<Trove>>)
      requires Filled(found, answers)
      ensures |found| == |answers| && forall i: nat | i < |found| :: found[i] == Some(answers[i])
    {
    }

    /** Puts the repository's results for the missing dependencies of one set in their
        places, and in the store. `was` is the store the set was looked up in. */
    method FillIn(groups: seq<Trove>, ghost d: DepSet, ghost toFind: DepSet, found: seq<Option<seq<Trove>>>,
                  missing: seq<(nat, Hash)>, results: seq<seq<Trove>>, ghost was: map<Hash, Entry>)
      returns (filled: seq<Option<seq<Trove>>>)
      requires Valid()
      requires var gs := Identities(groups);
               && LinesUp(gs, d, toFind, missing) && Looked(was, gs, d, found, missing)
               && |found| == |InOrder(d.Keys)| && forall j | 0 <= j < |missing| :: missing[j].1 !in was
      requires results == ResolveSet(repos, groups, toFind)
      requires was.Keys <= store.Keys
      modifies this`store
      ensures Valid() && old(store).Keys <= store.Keys && (readOnly ==> store == old(store))
      ensures Filled(filled, Answers(was, Identities(groups), d))
      ensures !readOnly ==> Stored(store, Identities(groups), d)
    {
      hide Valid, LinesUp, Noted, Identities, InOrder, Looked;
      ghost var gs, names, answers := Identities(groups), InOrder(d.Keys), Answers(was, Identities(groups), d);
      filled := found;
      OnlyMissingEmpty(was, gs, d, found, missing);
      AsManyResults(groups, d, toFind, missing);
      for j := 0 to |missing|
        invariant Valid() && old(store).Keys <= store.Keys && (readOnly ==> store == old(store))
        invariant |filled| == |names| && |missing| == |results|
        invariant forall i | 0 <= i < |filled| && filled[i].Some? :: filled[i].value == answers[i]
        invariant forall i | 0 <= i < |filled| && filled[i].None? ::
                    exists k | j <= k < |missing| :: missing[k].0 == i
        invariant !readOnly ==> forall k | 0 <= k < j :: missing[k].1 in store
      {
        var idx, depHash := missing[j].0, missing[j].1;
        MissingAnswer(groups, d, toFind, missing, j, was);
        filled := filled[idx := Some(results[j])];
        if !readOnly {
          var entry := Results(readBack(results[j]));
          AddAnswer(Dependency(gs, names[idx], d[names[idx]]), entry);
          StoreEntry(depHash, entry);
        }
      }
      if !readOnly { AllStored(was, gs, d, toFind, found, missing); }
    }

    method StoreEntry(h: Hash, e: Entry)
      requires Valid() && Coherent(store[h := e])
      modifies this`store
      ensures Valid() && store == old(store)[h := e]
    {
      store := store[h := e];
    }

    /** What was found was stored already, and the rest has been noted. */
    lemma AllStored(was: map<Hash, Entry>, gs: multiset<Plain>, d: DepSet, toFind: DepSet,
                    found: seq<Option<seq<Trove>>>, missing: seq<(nat, Hash)>)
      requires LinesUp(gs, d, toFind, missing) && Looked(was, gs, d, found, missing)
      requires |found| == |InOrder(d.Keys)| && was.Keys <= store.Keys
      requires forall j | 0 <= j < |missing| :: missing[j].1 in store
      ensures Stored(store, gs, d)
    {
      hide InOrder, Answers;
      forall i: nat | i < |InOrder(d.Keys)| ensures HashAt(gs, d, i) in store {
        assert if found[i].None? then Noted(missing, i) else HashAt(gs, d, i) in was;
      }
    }

    lemma OnlyMissingEmpty(was: map<Hash, Entry>, gs: multiset<Plain>, d: DepSet,
                           found: seq<Option<seq<Trove>>>, missing: seq<(nat, Hash)>)
      requires Looked(was, gs, d, found, missing)
      ensures forall i | 0 <= i < |found| && found[i].None? :: exists k | 0 <= k < |missing| :: missing[k].0 == i
      ensures forall i | 0 <= i < |found| && found[i].Some? :: found[i].value == Answers(was, gs, d)[i]
    {
      forall i | 0 <= i < |found| && found[i].None? ensures exists k | 0 <= k < |missing| :: missing[k].0 == i {
        assert Noted(missing, i);
      }
    }

    lemma AsManyResults(groups: seq<Trove>, d: DepSet, toFind: DepSet, missing: seq<(nat, Hash)>)
      requires LinesUp(Identities(groups), d, toFind, missing)
      ensures |ResolveSet(repos, groups, toFind)| == |missing|
    {
    }

    /** The missing dependencies, sorted again, line up with the places noted for them. */
    lemma MissingAnswer(groups: seq<Trove>, d: DepSet, toFind: DepSet, missing: seq<(nat, Hash)>, j: nat,
                        was: map<Hash, Entry>)
      requires LinesUp(Identities(groups), d, toFind, missing) && j < |missing| && missing[j].1 !in was
      ensures |ResolveSet(repos, groups, toFind)| > j
      ensures var gs, names := Identities(groups), InOrder(d.Keys);
              && missing[j].0 < |names| && names[missing[j].0] in d
              && missing[j].1 == hash(Dependency(gs, names[missing[j].0], d[names[missing[j].0]]))
              && ResolveSet(repos, groups, toFind)[j] == Answers(was, gs, d)[missing[j].0]
              && IsAnswer(Dependency(gs, names[missing[j].0], d[names[missing[j].0]]),
                          Results(readBack(ResolveSet(repos, groups, toFind)[j])))
    {
    }

    /** Dependency resolution through the cache: every set gets, in its own order, the
        answers for its dependencies. */
    method ResolveDependenciesByGroups(groups: seq<Trove>, depList: seq<DepSet>)
      returns (results: map<DepSet, seq<Option<seq<Trove>>>>)
      requires Valid()
      modifies this`store
      ensures Valid() && old(store).Keys <= store.Keys && (readOnly ==> store == old(store))
      ensures forall d :: d in results <==> d in depList
      ensures forall d | d in depList :: |results[d]| == |Answers(old(store), Identities(groups), d)|
      ensures forall d, i: nat | d in depList && i < |results[d]| ::
                results[d][i] == Some(Answers(old(store), Identities(groups), d)[i])
      ensures !readOnly ==> forall d | d in depList :: Stored(store, Identities(groups), d)
    {
      hide Valid, LinesUp, Noted, Identities, InOrder, Looked, Answers, ResolveSet, Filled, Stored;
      ghost var gs := Identities(groups);
      var lookups := LookUpAll(groups, depList);
      var found := FillAll(groups, depList, lookups);
      results := Collect(depList, found, gs, old(store));
      forall d | d in depList
        ensures |results[d]| == |Answers(old(store), gs, d)|
        ensures forall i: nat | i < |results[d]| :: results[d][i] == Some(Answers(old(store), gs, d)[i])
      {
        AllFilled(results[d], Answers(old(store), gs, d));
      }
    }

    /** Asks for all that is missing in one call, and fills it in set by set. */
    method FillAll(groups: seq<Trove>, depList: seq<DepSet>, lookups: seq<LookUp>)
      returns (found: seq<seq<Option<seq<Trove>>>>)
      requires Valid() && |lookups| == |depList|
      requires forall i | 0 <= i < |depList| :: LooksUp(store, Identities(groups), depList[i], lookups[i])
      modifies this`store
      ensures Valid() && old(store).Keys <= store.Keys && (readOnly ==> store == old(store))
      ensures |found| == |depList|
      ensures forall i | 0 <= i < |depList| :: Filled(found[i], Answers(old(store), Identities(groups), depList[i]))
      ensures !readOnly ==> forall i | 0 <= i < |depList| :: Stored(store, Identities(groups), depList[i])
    {
      hide Valid, LinesUp, Noted, Identities, InOrder, Looked, Answers, ResolveSet, Filled, Stored, LooksUp;
      ghost var gs := Identities(groups);
      var answered := map l | l in lookups :: l.toFind := ResolveSet(repos, groups, l.toFind);
      found := [];
      for k := 0 to |depList|
        invariant Valid() && old(store).Keys <= store.Keys && (readOnly ==> store == old(store))
        invariant |found| == k && forall i | 0 <= i < k :: Filled(found[i], Answers(old(store), gs, depList[i]))
        invariant !readOnly ==> forall i | 0 <= i < k :: Stored(store, gs, depList[i])
      {
        ghost var before := store;
        var l := lookups[k];
        assert LooksUp(old(store), gs, depList[k], l);
        assert answered[l.toFind] == ResolveSet(repos, groups, l.toFind);
        var filled := FillOne(groups, depList[k], l, answered[l.toFind], old(store));
        forall i | 0 <= i < k && !readOnly ensures Stored(store, gs, depList[i]) {
          StaysStored(before, store, gs, depList[i]);
        }
        found := found + [filled];
      }
    }

    /** Fills one set in; a set that misses nothing is complete. */
    method FillOne(groups: seq<Trove>, ghost d: DepSet, l: LookUp, results: seq<seq<Trove>>, ghost was: map<Hash, Entry>)
      returns (filled: seq<Option<seq<Trove>>>)
      requires Valid() && LooksUp(was, Identities(groups), d, l) && was.Keys <= store.Keys
      requires results == ResolveSet(repos, groups, l.toFind)
      modifies this`store
      ensures Valid() && old(store).Keys <= store.Keys && (readOnly ==> store == old(store))
      ensures Filled(filled, Answers(was, Identities(groups), d))
      ensures !readOnly ==> Stored(store, Identities(groups), d)
    {
      hide Valid, LinesUp, Noted, Identities, InOrder, Looked, Answers, ResolveSet, Filled, Stored;
      filled := l.found;
      if l.toFind != map[] {
        filled := FillIn(groups, d, l.toFind, l.found, l.missing, results, was);
      } else {
        NothingToFind(Identities(groups), d, l.found, l.missing, was);
        StaysStored(was, store, Identities(groups), d);
      }
    }

    /** What looking every dependency of one set up came to. */
    ghost predicate LooksUp(was: map<Hash, Entry>, gs: multiset<Plain>, d: DepSet, l: LookUp) {
      && LinesUp(gs, d, l.toFind, l.missing) && Looked(was, gs, d, l.found, l.missing)
      && |l.found| == |InOrder(d.Keys)| && forall j | 0 <= j < |l.missing| :: l.missing[j].1 !in was
    }

    method LookUpAll(groups: seq<Trove>, depList: seq<DepSet>) returns (lookups: seq<LookUp>)
      requires Valid()
      ensures |lookups| == |depList|
      ensures forall i | 0 <= i < |depList| :: LooksUp(store, Identities(groups), depList[i], lookups[i])
    {
      hide Valid, LinesUp, Noted, Identities, InOrder, Looked;
      lookups := [];
      for k := 0 to |depList|
        invariant |lookups| == k
        invariant forall i | 0 <= i < k :: LooksUp(store, Identities(groups), depList[i], lookups[i])
      {
        var toFind, found, missing := Scan(groups, depList[k]);
        lookups := lookups + [LookUp(toFind, found, missing)];
      }
    }

    /** The results by dependency set. */
    method Collect(depList: seq<DepSet>, found: seq<seq<Option<seq<Trove>>>>, ghost gs: multiset<Plain>,
                   ghost was: map<Hash, Entry>)
      returns (results: map<DepSet, seq<Option<seq<Trove>>>>)
      requires |found| == |depList|
      requires forall i | 0 <= i < |depList| :: Filled(found[i], Answers(was, gs, depList[i]))
      ensures forall d :: d in results <==> d in depList
      ensures forall d | d in depList :: Filled(results[d], Answers(was, gs, d))
    {
      hide Filled, Answers;
      results := map[];
      for k := 0 to |depList|
        invariant forall d :: d in results <==> d in depList[..k]
        invariant forall d | d in results :: Filled(results[d], Answers(was, gs, d))
      {
        results := results[depList[k] := found[k]];
      }
    }

    lemma NothingToFind(gs: multiset<Plain>, d: DepSet, found: seq<Option<seq<Trove>>>, missing: seq<(nat, Hash)>,
                        was: map<Hash, Entry>)
      requires LinesUp(gs, d, map[], missing) && Looked(was, gs, d, found, missing)
      requires |found| == |InOrder(d.Keys)|
      ensures Filled(found, Answers(was, gs, d)) && Stored(was, gs, d)
    {
      assert forall i: nat :: !Noted(missing, i);
    }

    /** Whatever the store holds, an answer given through the cache names the troves the
        repository's answer names; what was not in the store is the repository's answer. */
    lemma CachedIsUncached(s: map<Hash, Entry>, groups: seq<Trove>, d: DepSet, i: nat)
      requires KeepsIdentities(readBack) && i < |InOrder(d.Keys)|
      ensures var answers, plain := Answers(s, Identities(groups), d), ResolveSet(repos, groups, d);
              && |answers| == |plain| == |d|
              && Identities(answers[i]) == Identities(plain[i])
              && (hash(Dependency(Identities(groups), InOrder(d.Keys)[i], d[InOrder(d.Keys)[i]])) !in s
                  ==> answers[i] == plain[i])
    {
      assert d.Keys == set n | n in d;
      assert |d.Keys| == |d|;
    }

    // ---- file contents, changesets and troves ----

    method GetFileContents(fileList: seq<(string, string)>) returns (contents: seq<Option<Contents>>)
      requires Valid()
      modifies this`store
      ensures Valid() && old(store).Keys <= store.Keys && (readOnly ==> store == old(store))
      ensures |contents| == |fileList|
      ensures forall i | 0 <= i < |fileList| :: contents[i] == Some(repos.file(fileList[i].0, fileList[i].1))
      ensures !readOnly ==> forall f | f in fileList :: hash(File(f.0, f.1)) in store
    {
      hide Valid;
      contents := [];
      var needed: seq<nat> := [];
      for i := 0 to |fileList|
        modifies {}
        invariant |contents| == i
        invariant forall j | 0 <= j < |needed| :: needed[j] < i
        invariant forall k | 0 <= k < i :: contents[k].None? ==> k in needed
        invariant forall k | 0 <= k < i && contents[k].Some? ::
                    && contents[k].value == repos.file(fileList[k].0, fileList[k].1)
                    && hash(File(fileList[k].0, fileList[k].1)) in store
      {
        var q := File(fileList[i].0, fileList[i].1);
        if hash(q) in store {
          Lookup(q);
          contents := contents + [Some(store[hash(q)].contents)];
        } else {
          contents := contents + [None];
          needed := needed + [i];
          assert needed[|needed| - 1] == i;
        }
      }
      for j := 0 to |needed|
        invariant Valid() && old(store).Keys <= store.Keys && (readOnly ==> store == old(store))
        invariant |contents| == |fileList|
        invariant forall k | 0 <= k < |contents| :: contents[k].None? ==> k in needed[j..]
        invariant forall k | 0 <= k < |contents| && contents[k].Some? ::
                    && contents[k].value == repos.file(fileList[k].0, fileList[k].1)
                    && (!readOnly ==> hash(File(fileList[k].0, fileList[k].1)) in store)
      {
        var idx := needed[j];
        var q := File(fileList[idx].0, fileList[idx].1);
        var content := repos.file(fileList[idx].0, fileList[idx].1);
        if !readOnly {
          AddAnswer(q, Data(content));
          StoreEntry(hash(q), Data(content));
        }
        contents := contents[idx := Some(content)];
        assert needed[j..] == [idx] + needed[j + 1..];
      }
    }

    /** Changesets through the cache; `None` stands for the error raised: a job that is not
        a plain install, or a trove the repository does not have. */
    method GetChangeSets(jobs: seq<Job>, withFiles: bool, withContents: bool)
      returns (changesets: Option<seq<Option<ChangeSet>>>)
      requires Valid()
      modifies this`store
      ensures Valid() && old(store).Keys <= store.Keys && (readOnly ==> store == old(store))
      ensures changesets.Some? <==>
                forall j | j in jobs :: !j.update && !j.absolute && repos.changeSet(j.trove, withFiles, withContents).Some?
      ensures changesets.Some? ==>
                && |changesets.value| == |jobs|
                && forall i | 0 <= i < |jobs| ::
                     && changesets.value[i] == repos.changeSet(jobs[i].trove, withFiles, withContents)
                     && (!readOnly ==> hash(Changes(jobs[i].trove, withFiles, withContents)) in store)
    {
      hide Valid;
      for i := 0 to |jobs|
        modifies {}
        invariant forall j | j in jobs[..i] :: !j.update && !j.absolute
      {
        if jobs[i].update || jobs[i].absolute {
          return None;
        }
      }
      var found: seq<Option<ChangeSet>>, needed: seq<nat> := [], [];
      for i := 0 to |jobs|
        modifies {}
        invariant |found| == i
        invariant forall j | 0 <= j < |needed| :: needed[j] < i
        invariant forall k | 0 <= k < i ::
                    if found[k].None? then k in needed
                    else (found[k] == repos.changeSet(jobs[k].trove, withFiles, withContents)
                          && hash(Changes(jobs[k].trove, withFiles, withContents)) in store)
      {
        var q := Changes(jobs[i].trove, withFiles, withContents);
        if hash(q) in store {
          Lookup(q);
          found := found + [Some(store[hash(q)].changes)];
        } else {
          found := found + [None];
          needed := needed + [i];
          assert needed[|needed| - 1] == i;
        }
      }
      for j := 0 to |needed|
        invariant Valid() && old(store).Keys <= store.Keys && (readOnly ==> store == old(store))
        invariant |found| == |jobs|
        invariant forall k | 0 <= k < |found| ::
                    if found[k].None? then k in needed[j..]
                    else (found[k] == repos.changeSet(jobs[k].trove, withFiles, withContents)
                          && (!readOnly ==> hash(Changes(jobs[k].trove, withFiles, withContents)) in store))
      {
        var idx := needed[j];
        var q := Changes(jobs[idx].trove, withFiles, withContents);
        var cs := repos.changeSet(jobs[idx].trove, withFiles, withContents);
        if cs.None? {
          return None;
        }
        if !readOnly {
          AddAnswer(q, Saved(cs.value));
          StoreEntry(hash(q), Saved(cs.value));
        }
        found := found[idx := cs];
        assert needed[j..] == [idx] + needed[j + 1..];
      }
      return Some(found);
    }

    /** A trove is known to exist if either of its changesets is in the store; the others
        are asked for. */
    method HasTroves(troves: seq<Plain>) returns (results: map<Plain, bool>)
      requires Valid()
      ensures forall t :: t in results <==> t in troves
      ensures forall t | t in troves :: results[t] == repos.has(t)
    {
      hide Valid;
      results := map[];
      var needed: seq<Plain> := [];
      for i := 0 to |troves|
        invariant forall t :: t in troves[..i] <==> t in results || t in needed
        invariant forall t | t in results :: results[t] && repos.has(t)
      {
        var t := troves[i];
        if hash(Changes(t, false, false)) in store {
          IsThere(t, false);
          results := results[t := true];
        } else if hash(Changes(t, true, false)) in store {
          IsThere(t, true);
          results := results[t := true];
        } else {
          needed := needed + [t];
        }
      }
      results := results + map t | t in needed :: repos.has(t);
      assert troves[..|troves|] == troves;
    }

    lemma IsThere(t: Plain, withFiles: bool)
      requires Valid() && hash(Changes(t, withFiles, false)) in store
      ensures repos.has(t)
    {
      Lookup(Changes(t, withFiles, false));
    }
  }

  /** A changeset job: the trove asked for, whether it is an update from an older version,
      and whether it is absolute. */
  datatype Job = Job(trove: Plain, update: bool, absolute: bool)
}
