/** Choosing what a rebuild updates: the user's restrictions are applied one after the other
    to the troves of the last build and the newest ones. */
module UpdateSpecs {
  import opened Bytes

  datatype Trove = Trove(name: string, version: string, flavor: string)

  /** What the user asks for; an empty version or flavor asks for any. */
  datatype Spec = Spec(name: string, version: string, flavor: string)

  /** Which troves of a collection a spec matches; they are among the collection's. */
  type Finder = (set<Trove>, Spec) -> set<Trove>

  ghost predicate Finds(find: Finder) {
    forall troves, spec :: find(troves, spec) <= troves
  }

  function Names(troves: set<Trove>): set<string> {
    set t | t in troves :: t.name
  }

  function Troves(list: seq<Trove>): set<Trove> {
    set t | t in list
  }

  function OfPackage(troves: set<Trove>, name: string): set<Trove> {
    set t | t in troves && t.name == name
  }

  // ---- the fold over the specs ----

  /** A spec with its sense: to update what it matches, or not to. */
  datatype Choice = Choice(spec: Spec, update: bool)

  /** What the choice is made from; `old` are the old troves whose package is still there. */
  datatype Source = Source(allOld: set<Trove>, allNew: set<Trove>) {
    function Old(): set<Trove> {
      set t | t in allOld && t.name in Names(allNew)
    }

    /** What is used before the first spec: if that asks for an update, nothing else is
        updated by default; if it forbids one, everything else is. */
    function Start(update: bool): set<Trove> {
      if update then Old() + set t | t in allNew && t.name !in Names(allOld) else allNew
    }
  }

  function Apply(source: Source, find: Finder, c: Choice, use: set<Trove>): set<Trove> {
    var oldResults, newResults := find(source.Old(), c.spec), find(source.allNew, c.spec);
    if c.update then
      use - oldResults + newResults + set t | t in use && t.name !in Names(newResults)
    else
      use - newResults + oldResults + set t | t in use && t.name !in Names(oldResults)
  }

  function Chosen(source: Source, find: Finder, choices: seq<Choice>): set<Trove>
    requires choices != []
  {
    var n := |choices|;
    Apply(source, find, choices[n - 1],
          if n == 1 then source.Start(choices[0].update) else Chosen(source, find, choices[..n - 1]))
  }

  ghost predicate Complete(source: Source, use: set<Trove>) {
    use <= source.allOld + source.allNew && Names(use) == Names(source.allNew)
  }

  lemma StartIsComplete(source: Source, update: bool)
    ensures Complete(source, source.Start(update))
  {
    forall n | n in Names(source.allNew) ensures n in Names(source.Start(update)) {
      var t :| t in source.allNew && t.name == n;
      if update && n in Names(source.allOld) {
        var o :| o in source.allOld && o.name == n;
        assert o in source.Start(update);
      } else {
        assert t in source.Start(update);
      }
    }
  }

  /** A step keeps the packages: whatever it takes out it replaces by another trove of the
      same package, or keeps. */
  lemma ApplyIsComplete(source: Source, find: Finder, c: Choice, use: set<Trove>)
    requires Finds(find) && Complete(source, use)
    ensures Complete(source, Apply(source, find, c, use))
  {
    var out, into := find(source.Old(), c.spec), find(source.allNew, c.spec);
    if !c.update { out, into := into, out; }
    var after := Apply(source, find, c, use);
    assert into <= source.Old() || into <= source.allNew;
    forall n | n in Names(use) ensures n in Names(after) {
      var t :| t in use && t.name == n;
      if n in Names(into) {
        var r :| r in into && r.name == n;
        assert r in after;
      } else {
        assert t in after;
      }
    }
    forall t | t in after ensures t.name in Names(source.allNew) && t in source.allOld + source.allNew {
      if t in use { assert t.name in Names(use); }
    }
  }

  /** Restrictions never drop a package and never invent one. */
  lemma {:induction false} ChosenIsComplete(source: Source, find: Finder, choices: seq<Choice>)
    requires Finds(find) && choices != []
    ensures Complete(source, Chosen(source, find, choices))
  {
    var n := |choices|;
    if n == 1 {
      StartIsComplete(source, choices[0].update);
      ApplyIsComplete(source, find, choices[0], source.Start(choices[0].update));
    } else {
      ChosenIsComplete(source, find, choices[..n - 1]);
      ApplyIsComplete(source, find, choices[n - 1], Chosen(source, find, choices[..n - 1]));
    }
  }

  /** A choice is about a package if it matches a trove of it to switch to. */
  ghost predicate Concerns(source: Source, find: Finder, c: Choice, name: string) {
    name in Names(find(if c.update then source.allNew else source.Old(), c.spec))
  }

  /** What one choice does to one package: nothing, if it does not concern it; else all the
      matches to switch to are used, and none of the others that match. */
  lemma ApplyToPackage(source: Source, find: Finder, c: Choice, use: set<Trove>, name: string)
    ensures var into := OfPackage(find(if c.update then source.allNew else source.Old(), c.spec), name);
            var out := OfPackage(find(if c.update then source.Old() else source.allNew, c.spec), name);
            OfPackage(Apply(source, find, c, use), name) ==
              if Concerns(source, find, c, name) then (OfPackage(use, name) - out) + into
              else OfPackage(use, name)
  {
  }

  /** A package no choice concerns stays as it was built if the first choice asks for an
      update, and is updated if the first choice forbids one. */
  lemma {:induction false} Unconcerned(source: Source, find: Finder, choices: seq<Choice>, name: string)
    requires choices != [] && forall c | c in choices :: !Concerns(source, find, c, name)
    ensures OfPackage(Chosen(source, find, choices), name) ==
            if choices[0].update && name in Names(source.allOld) then OfPackage(source.Old(), name)
            else OfPackage(source.allNew, name)
  {
    hide Concerns;
    var n := |choices|;
    assert choices[n - 1] in choices;
    if n == 1 {
      ApplyToPackage(source, find, choices[0], source.Start(choices[0].update), name);
    } else {
      Unconcerned(source, find, choices[..n - 1], name);
      ApplyToPackage(source, find, choices[n - 1], Chosen(source, find, choices[..n - 1]), name);
    }
  }

  /** The last choice that concerns a package decides: its matches are used, and none of
      the others it matches. */
  lemma {:induction false} LastDecides(source: Source, find: Finder, choices: seq<Choice>, k: nat, name: string)
    requires k < |choices| && Concerns(source, find, choices[k], name)
    requires forall j | k < j < |choices| :: !Concerns(source, find, choices[j], name)
    ensures var c := choices[k];
            var into := OfPackage(find(if c.update then source.allNew else source.Old(), c.spec), name);
            var out := OfPackage(find(if c.update then source.Old() else source.allNew, c.spec), name);
            var r := OfPackage(Chosen(source, find, choices), name);
            into <= r && r !! (out - into)
    decreases |choices|
  {
    hide Concerns;
    var n := |choices|;
    var before := if n == 1 then source.Start(choices[0].update) else Chosen(source, find, choices[..n - 1]);
    ApplyToPackage(source, find, choices[n - 1], before, name);
    if k < n - 1 { LastDecides(source, find, choices[..n - 1], k, name); }
  }

  // ---- from what the user asks for to the specs applied ----

  /** What one restriction of the user's comes to: the specs it stands for. */
  datatype Mention = Mention(specs: set<Spec>, matched: bool, update: bool)

  /** The name up to the first colon. */
  function Package(name: string): string {
    name[..Find(name, ':')]
  }

  function Key(name: string, binaries: bool): string {
    Package(name) + if binaries then "" else ":source"
  }

  type Glob = (string, string) -> bool

  /** A restriction names packages by a pattern, a leading `-` turns it around; if no package
      matches, it stands for itself. */
  function Meant(keys: set<string>, glob: Glob, asked: Spec, binaries: bool): (m: Mention)
    ensures m.specs != {}
  {
    var name := Key(asked.name, binaries);
    var update := name == "" || name[0] != '-';
    var pattern := if update then name else name[1..];
    var specs := set k | k in keys && (pattern == "" || glob(pattern, k)) :: Spec(k, asked.version, asked.flavor);
    Mention(if specs == {} then {Spec(pattern, asked.version, asked.flavor)} else specs, specs != {}, update)
  }

  /** The number of the last mention of a spec, from 1; 0 if there is none. */
  function Last(ms: seq<Mention>, s: Spec): nat {
    if ms == [] then 0 else if s in ms[|ms| - 1].specs then |ms| else Last(ms[..|ms| - 1], s)
  }

  lemma {:induction false} LastBound(ms: seq<Mention>, s: Spec)
    ensures Last(ms, s) <= |ms| && (Last(ms, s) > 0 ==> s in ms[Last(ms, s) - 1].specs)
  {
    if ms != [] && s !in ms[|ms| - 1].specs { LastBound(ms[..|ms| - 1], s); }
  }

  /** From some place on, `specs` lists just what is in `late`, but for some of `gone`. */
  ghost predicate Splits(specs: seq<Spec>, late: iset<Spec>, gone: set<Spec>) {
    exists k | 0 <= k <= |specs| ::
      (forall s | s in specs[k..] :: s in late) && (forall s | s in late && s !in gone :: s in specs[k..])
  }

  ghost function AsISet(specs: set<Spec>): iset<Spec> {
    iset s | s in specs
  }

  ghost function Late(ms: seq<Mention>, j: nat): iset<Spec> {
    iset s | Last(ms, s) > j
  }

  /** The specs to apply: each that was mentioned, with the sense of its last mention, and
      those mentioned later after the others. */
  ghost predicate Expands(ms: seq<Mention>, specs: seq<Spec>, senses: map<Spec, bool>) {
    && (forall s :: s in specs <==> Last(ms, s) > 0)
    && (forall s :: s in senses <==> Last(ms, s) > 0)
    && (forall s | s in senses && 0 < Last(ms, s) <= |ms| :: senses[s] == ms[Last(ms, s) - 1].update)
    && (forall j: nat | j <= |ms| :: Splits(specs, Late(ms, j), {}))
  }

  function RemoveFirst(specs: seq<Spec>, s: Spec): seq<Spec> {
    if specs == [] then [] else if specs[0] == s then specs[1..] else [specs[0]] + RemoveFirst(specs[1..], s)
  }

  lemma {:induction false} RemovedKeeps(specs: seq<Spec>, s: Spec)
    ensures forall x | x != s :: x in RemoveFirst(specs, s) <==> x in specs
    ensures s in RemoveFirst(specs, s) ==> s in specs
  {
    if specs != [] && specs[0] != s { RemovedKeeps(specs[1..], s); }
  }

  lemma {:induction false} RemoveFromParts(a: seq<Spec>, b: seq<Spec>, s: Spec)
    ensures RemoveFirst(a + b, s) == if s in a then RemoveFirst(a, s) + b else a + RemoveFirst(b, s)
  {
    if a == [] {
      assert a + b == b;
    } else {
      assert (a + b)[1..] == a[1..] + b && (a + b)[0] == a[0] && (s in a <==> a[0] == s || s in a[1..]);
      if a[0] != s {
        RemoveFromParts(a[1..], b, s);
        Associative([a[0]], RemoveFirst(a[1..], s), b);
        Associative([a[0]], a[1..], RemoveFirst(b, s));
        assert [a[0]] + a[1..] == a;
      }
    }
  }

  lemma SplitsRemoved(specs: seq<Spec>, late: iset<Spec>, gone: set<Spec>, s: Spec)
    requires Splits(specs, late, gone)
    ensures Splits(RemoveFirst(specs, s), late, gone + {s})
  {
    var k :| 0 <= k <= |specs| && (forall s | s in specs[k..] :: s in late)
             && (forall s | s in late && s !in gone :: s in specs[k..]);
    var a, b, r := specs[..k], specs[k..], RemoveFirst(specs, s);
    assert specs == a + b;
    RemoveFromParts(a, b, s);
    var a', b' := if s in a then RemoveFirst(a, s) else a, if s in a then b else RemoveFirst(b, s);
    RemovedKeeps(b, s);
    assert r[|a'|..] == b';
  }

  lemma SplitsAdded(specs: seq<Spec>, late: iset<Spec>, gone: set<Spec>, s: Spec)
    requires Splits(specs, late, gone)
    ensures Splits(specs + [s], late + iset{s}, gone - {s})
  {
    var k :| 0 <= k <= |specs| && (forall s | s in specs[k..] :: s in late)
             && (forall s | s in late && s !in gone :: s in specs[k..]);
    assert (specs + [s])[k..] == specs[k..] + [s];
  }

  lemma SplitsWeaker(specs: seq<Spec>, late: iset<Spec>, gone: set<Spec>, more: set<Spec>)
    requires Splits(specs, late, gone)
    ensures Splits(specs, late, gone + more)
  {
    var k :| 0 <= k <= |specs| && (forall s | s in specs[k..] :: s in late)
             && (forall s | s in late && s !in gone :: s in specs[k..]);
  }

  /** Takes specs mentioned before out of the list. */
  method RemoveEach(specs: seq<Spec>, gone: set<Spec>, ghost ms: seq<Mention>) returns (left: seq<Spec>)
    requires forall j: nat | j <= |ms| :: Splits(specs, Late(ms, j), {})
    ensures forall s | s !in gone :: s in left <==> s in specs
    ensures forall s | s in left :: s in specs
    ensures forall j: nat | j <= |ms| :: Splits(left, Late(ms, j), gone)
  {
    hide Splits, Late, RemoveFirst;
    left := specs;
    var todo := gone;
    assert gone - todo == {};
    while todo != {}
      invariant todo <= gone
      invariant forall s | s !in gone :: s in left <==> s in specs
      invariant forall s | s in left :: s in specs
      invariant forall j: nat | j <= |ms| :: Splits(left, Late(ms, j), gone - todo)
    {
      var s :| s in todo;
      RemovedKeeps(left, s);
      forall j: nat | j <= |ms| ensures Splits(RemoveFirst(left, s), Late(ms, j), gone - (todo - {s})) {
        SplitsRemoved(left, Late(ms, j), gone - todo, s);
        assert gone - (todo - {s}) == gone - todo + {s};
      }
      left := RemoveFirst(left, s);
      todo := todo - {s};
    }
    assert gone - {} == gone;
  }

  /** Puts specs at the end of the list, in any order. */
  method AddEach(specs: seq<Spec>, added: set<Spec>, ghost ms: seq<Mention>) returns (more: seq<Spec>)
    requires forall j: nat | j <= |ms| :: Splits(specs, Late(ms, j), added)
    ensures forall s :: s in more <==> s in specs || s in added
    ensures forall j: nat | j <= |ms| :: Splits(more, Late(ms, j) + AsISet(added), {})
  {
    hide Splits, Late;
    more := specs;
    var todo := added;
    assert forall j: nat | j <= |ms| :: Late(ms, j) + AsISet(added - todo) == Late(ms, j);
    while todo != {}
      invariant todo <= added
      invariant forall s :: s in more <==> s in specs || s in added - todo
      invariant forall j: nat | j <= |ms| :: Splits(more, Late(ms, j) + AsISet(added - todo), todo)
    {
      var s :| s in todo;
      forall j: nat | j <= |ms|
        ensures Splits(more + [s], Late(ms, j) + AsISet(added - (todo - {s})), todo - {s})
      {
        SplitsAdded(more, Late(ms, j) + AsISet(added - todo), todo, s);
        assert Late(ms, j) + AsISet(added - (todo - {s}))
            == Late(ms, j) + AsISet(added - todo) + iset{s};
      }
      more := more + [s];
      todo := todo - {s};
    }
    assert added - {} == added;
  }

  lemma LateOfMore(ms: seq<Mention>, m: Mention, j: nat)
    ensures forall s :: Last(ms + [m], s) == if s in m.specs then |ms| + 1 else Last(ms, s)
    ensures j <= |ms| ==> Late(ms + [m], j) == Late(ms, j) + AsISet(m.specs)
    ensures Late(ms, |ms|) == iset{} && Late(ms + [m], |ms| + 1) == iset{}
  {
    assert (ms + [m])[..|ms|] == ms;
    forall s { LastBound(ms, s); }
  }

  /** Adds what one restriction stands for: specs mentioned before move to the end, and
      take the new sense. */
  method AddMention(specs: seq<Spec>, senses: map<Spec, bool>, m: Mention, ghost ms: seq<Mention>)
    returns (specs': seq<Spec>, senses': map<Spec, bool>)
    requires Expands(ms, specs, senses)
    ensures Expands(ms + [m], specs', senses')
  {
    hide Splits, Late, Last;
    senses' := senses + map s | s in m.specs :: m.update;
    specs' := specs;
    if m.matched {
      specs' := RemoveEach(specs, m.specs, ms);
    } else {
      forall j: nat | j <= |ms| ensures Splits(specs, Late(ms, j), m.specs) {
        SplitsWeaker(specs, Late(ms, j), {}, m.specs);
        assert {} + m.specs == m.specs;
      }
    }
    specs' := AddEach(specs', m.specs, ms);
    forall j: nat | j <= |ms| + 1 ensures Splits(specs', Late(ms + [m], j), {}) {
      LateOfMore(ms, m, j);
      if j == |ms| + 1 { SplitsAtEnd(specs'); }
    }
    LateOfMore(ms, m, 0);
    forall s { LastBound(ms, s); }
  }

  lemma SplitsAtEnd(specs: seq<Spec>)
    ensures Splits(specs, iset{}, {})
  {
    assert specs[|specs|..] == [];
  }

  /** What the user's restrictions stand for. */
  function Mentions(keys: set<string>, glob: Glob, asked: seq<Spec>, binaries: bool): seq<Mention> {
    seq(|asked|, i requires 0 <= i < |asked| => Meant(keys, glob, asked[i], binaries))
  }

  function Choices(specs: seq<Spec>, senses: map<Spec, bool>): seq<Choice>
    requires forall s | s in specs :: s in senses
  {
    seq(|specs|, i requires 0 <= i < |specs| => Choice(specs[i], senses[specs[i]]))
  }

  /** Applies the user's restrictions. */
  method MatchUpdateRestrictions(oldTroves: seq<Trove>, newTroves: seq<Trove>, asked: seq<Spec>, binaries: bool,
                                 glob: Glob, find: Finder)
    returns (use: set<Trove>, ghost specs: seq<Spec>, ghost senses: map<Spec, bool>)
    requires Finds(find)
    ensures asked == [] ==> use == Troves(newTroves)
    ensures use <= Troves(oldTroves) + Troves(newTroves) && Names(use) == Names(Troves(newTroves))
    ensures var keys := set t | t in oldTroves + newTroves :: Key(t.name, binaries);
            asked != [] ==>
              && Expands(Mentions(keys, glob, asked, binaries), specs, senses)
              && specs != [] && (forall s | s in specs :: s in senses)
              && use == Chosen(Source(Troves(oldTroves), Troves(newTroves)), find, Choices(specs, senses))
  {
    specs, senses := [], map[];
    if asked == [] {
      return Troves(newTroves), specs, senses;
    }
    var keys := set t | t in oldTroves + newTroves :: Key(t.name, binaries);
    var newSpecs: seq<Spec>, updates: map<Spec, bool> := Expand(keys, glob, asked, binaries);
    use := Fold(Source(Troves(oldTroves), Troves(newTroves)), find, newSpecs, updates);
    specs, senses := newSpecs, updates;
    ChosenIsComplete(Source(Troves(oldTroves), Troves(newTroves)), find, Choices(specs, senses));
  }

  method Expand(keys: set<string>, glob: Glob, asked: seq<Spec>, binaries: bool)
    returns (specs: seq<Spec>, senses: map<Spec, bool>)
    ensures Expands(Mentions(keys, glob, asked, binaries), specs, senses)
    ensures asked != [] ==> specs != []
    ensures forall s | s in specs :: s in senses
  {
    hide Splits, Last, Late, Meant;
    specs, senses := [], map[];
    ghost var ms := Mentions(keys, glob, asked, binaries);
    NothingExpands();
    for i := 0 to |asked|
      invariant Expands(ms[..i], specs, senses)
    {
      var m := Meant(keys, glob, asked[i], binaries);
      specs, senses := AddMention(specs, senses, m, ms[..i]);
      assert ms[..i + 1] == ms[..i] + [m];
    }
    assert ms[..|asked|] == ms;
    if asked != [] { SomeSpec(ms, specs, senses); }
  }

  lemma NothingExpands()
    ensures Expands([], [], map[])
  {
    SplitsAtEnd([]);
    assert Late([], 0) == iset{};
  }

  lemma SomeSpec(ms: seq<Mention>, specs: seq<Spec>, senses: map<Spec, bool>)
    requires Expands(ms, specs, senses) && ms != [] && ms[|ms| - 1].specs != {}
    ensures specs != []
  {
    var s :| s in ms[|ms| - 1].specs;
    assert Last(ms, s) == |ms|;
  }

  /** The loop over the specs. */
  method Fold(source: Source, find: Finder, specs: seq<Spec>, senses: map<Spec, bool>) returns (use: set<Trove>)
    requires specs != [] && forall s | s in specs :: s in senses
    ensures use == Chosen(source, find, Choices(specs, senses))
  {
    hide Apply, Chosen;
    use := {};
    var firstMatch := true;
    ghost var choices := Choices(specs, senses);
    for i := 0 to |specs|
      invariant firstMatch <==> i == 0
      invariant i > 0 ==> use == Chosen(source, find, choices[..i])
    {
      var update := senses[specs[i]];
      if firstMatch {
        use := source.Start(update);
        firstMatch := false;
      }
      use := Apply(source, find, Choice(specs[i], update), use);
      ChosenStep(source, find, choices, i);
    }
    assert choices[..|specs|] == choices;
  }

  lemma ChosenStep(source: Source, find: Finder, choices: seq<Choice>, i: nat)
    requires i < |choices|
    ensures Chosen(source, find, choices[..i + 1]) ==
            Apply(source, find, choices[i],
                  if i == 0 then source.Start(choices[0].update) else Chosen(source, find, choices[..i]))
  {
    assert choices[..i + 1][..i] == choices[..i];
  }

  // ---- what a restriction says ----

  /** A name as the user writes it: a dash or none, a word, and perhaps a component, which
      is ignored. */
  ghost predicate Written(name: string, dash: bool, word: string, component: string) {
    && name == (if dash then "-" else "") + word + component
    && ':' !in word && (component == "" || component[0] == ':')
    && (!dash ==> word == "" || word[0] != '-')
  }

  lemma KeyExactly(name: string, word: string, component: string, binaries: bool)
    requires name == word + component && ':' !in word && (component == "" || component[0] == ':')
    ensures Key(name, binaries) == if binaries then word else word + ":source"
  {
    hide Find;
    var i := Find(name, ':');
    assert forall k | 0 <= k < |word| :: name[k] == word[k];
    assert component != "" ==> name[|word|] == ':';
    assert i == |word|;
    assert name[..i] == word;
  }

  /** The pattern that a word stands for. */
  ghost function Pattern(word: string, binaries: bool): string {
    if binaries then word else word + ":source"
  }

  ghost predicate Matches(glob: Glob, pattern: string, k: string) {
    pattern == "" || glob(pattern, k)
  }

  /** Whether a restriction to `pattern` is about the package `k`. */
  ghost predicate IsAbout(keys: set<string>, glob: Glob, pattern: string, k: string) {
    if exists x :: x in keys && Matches(glob, pattern, x) then k in keys && Matches(glob, pattern, k)
    else k == pattern
  }

  /** A restriction asks for an update unless it starts with a dash; it stands for the
      packages that match the rest, or for itself, each with the version and flavor asked. */
  lemma MeantExactly(keys: set<string>, glob: Glob, asked: Spec, binaries: bool,
                     dash: bool, word: string, component: string)
    requires Written(asked.name, dash, word, component)
    ensures var m, pattern := Meant(keys, glob, asked, binaries), Pattern(word, binaries);
            && m.update == !dash
            && (m.matched <==> exists x :: x in keys && Matches(glob, pattern, x))
            && (forall s :: s in m.specs <==>
                  IsAbout(keys, glob, pattern, s.name) && s.version == asked.version && s.flavor == asked.flavor)
  {
    hide Find, Key;
    WithoutDash(asked.name, binaries, dash, word, component);
    var pattern := Pattern(word, binaries);
    MatchingSpecs(keys, glob, pattern, asked);
  }

  /** The dash and the rest of the name. */
  lemma WithoutDash(text: string, binaries: bool, dash: bool, word: string, component: string)
    requires Written(text, dash, word, component)
    ensures var name := Key(text, binaries);
            && (name == "" || name[0] != '-' <==> !dash)
            && Pattern(word, binaries) == if dash then name[1..] else name
  {
    hide Key;
    var full := (if dash then "-" else "") + word;
    KeyExactly(text, full, component, binaries);
    if dash {
      assert full[0] == '-' && full[1..] == word;
      assert binaries || (full + ":source")[1..] == word + ":source";
    } else {
      assert full == word;
    }
  }

  lemma MatchingSpecs(keys: set<string>, glob: Glob, pattern: string, asked: Spec)
    ensures var specs := set k | k in keys && (pattern == "" || glob(pattern, k)) :: Spec(k, asked.version, asked.flavor);
            && (specs == {} <==> !exists x :: x in keys && Matches(glob, pattern, x))
            && (forall s :: s in specs <==>
                  s.name in keys && Matches(glob, pattern, s.name) && s.version == asked.version && s.flavor == asked.flavor)
  {
    var specs := set k | k in keys && (pattern == "" || glob(pattern, k)) :: Spec(k, asked.version, asked.flavor);
    if x :| x in keys && Matches(glob, pattern, x) {
      assert Spec(x, asked.version, asked.flavor) in specs;
    }
    if specs != {} {
      var s :| s in specs;
      assert s.name in keys && Matches(glob, pattern, s.name);
    }
  }

  /** A finder looks for the troves of the name that a spec has. */
  ghost predicate FindsByName(find: Finder) {
    forall troves: set<Trove>, spec: Spec, t | t in find(troves, spec) :: t.name == spec.name
  }

  /** Without a version and a flavor all troves of the name are found. */
  ghost predicate FindsAll(find: Finder) {
    forall troves: set<Trove>, spec: Spec | spec.version == "" && spec.flavor == "" :: find(troves, spec) == OfPackage(troves, spec.name)
  }

  /** What the troves of a package are when one choice has been made about it. */
  ghost function Switched(source: Source, find: Finder, c: Choice, name: string, was: set<Trove>): set<Trove> {
    var into := OfPackage(find(if c.update then source.allNew else source.Old(), c.spec), name);
    var out := OfPackage(find(if c.update then source.Old() else source.allNew, c.spec), name);
    if Concerns(source, find, c, name) then (was - out) + into else was
  }

  /** With choices of one sense, one of them at most about a package, that one decides. */
  lemma {:induction false} OneSense(source: Source, find: Finder, choices: seq<Choice>, c: Choice, name: string)
    requires choices != [] && forall d | d in choices :: d.update == c.update
    requires forall d | d in choices && Concerns(source, find, d, name) :: d == c
    ensures var was := OfPackage(source.Start(c.update), name);
            OfPackage(Chosen(source, find, choices), name) ==
              if c in choices then Switched(source, find, c, name, was) else was
  {
    hide Concerns, Apply;
    var n := |choices|;
    var last := choices[n - 1];
    assert last in choices && choices[0] in choices;
    if n == 1 {
      ApplyToPackage(source, find, last, source.Start(c.update), name);
    } else {
      OneSense(source, find, choices[..n - 1], c, name);
      ApplyToPackage(source, find, last, Chosen(source, find, choices[..n - 1]), name);
      assert c in choices <==> c == last || c in choices[..n - 1];
    }
  }

  /** What a single restriction does to one package. */
  lemma SingleRestriction(source: Source, find: Finder, keys: set<string>, glob: Glob, asked: Spec, binaries: bool,
                          dash: bool, word: string, component: string,
                          specs: seq<Spec>, senses: map<Spec, bool>, name: string)
    requires FindsByName(find) && Written(asked.name, dash, word, component)
    requires Expands(Mentions(keys, glob, [asked], binaries), specs, senses) && specs != []
    requires forall s | s in specs :: s in senses
    ensures var was := OfPackage(source.Start(!dash), name);
            OfPackage(Chosen(source, find, Choices(specs, senses)), name) ==
              if IsAbout(keys, glob, Pattern(word, binaries), name)
              then Switched(source, find, Choice(Spec(name, asked.version, asked.flavor), !dash), name, was)
              else was
  {
    hide Splits, Late, Meant, IsAbout, Chosen, Switched;
    assert Mentions(keys, glob, [asked], binaries) == [Meant(keys, glob, asked, binaries)];
    var m := Meant(keys, glob, asked, binaries);
    MeantExactly(keys, glob, asked, binaries, dash, word, component);
    var c := Choice(Spec(name, asked.version, asked.flavor), !dash);
    var choices := Choices(specs, senses);
    forall s ensures (s in specs <==> s in m.specs) && (s in specs ==> senses[s] == m.update) {
      OneMention(m, s);
    }
    forall d | d in choices ensures d.update == c.update && d.spec in m.specs {
      var i :| 0 <= i < |choices| && choices[i] == d;
      assert d.spec == specs[i] && specs[i] in specs;
    }
    forall d | d in choices && Concerns(source, find, d, name) ensures d == c {
      ConcernsByName(source, find, d, name);
    }
    if c.spec in specs {
      var i :| 0 <= i < |specs| && specs[i] == c.spec;
      assert choices[i] == c;
    }
    OneSense(source, find, choices, c, name);
  }

  lemma OneMention(m: Mention, s: Spec)
    ensures Last([m], s) == if s in m.specs then 1 else 0
  {
    assert [m][..0] == [];
  }

  lemma ConcernsByName(source: Source, find: Finder, c: Choice, name: string)
    requires FindsByName(find) && Concerns(source, find, c, name)
    ensures c.spec.name == name
  {
  }

  /** A single `-x` keeps the old troves of the packages that match, and updates the rest. */
  lemma SingleDash(oldTroves: seq<Trove>, newTroves: seq<Trove>, glob: Glob, find: Finder, keys: set<string>,
                   asked: Spec, binaries: bool, word: string, component: string,
                   specs: seq<Spec>, senses: map<Spec, bool>, name: string)
    requires FindsByName(find) && FindsAll(find) && asked.version == "" && asked.flavor == ""
    requires Written(asked.name, true, word, component)
    requires Expands(Mentions(keys, glob, [asked], binaries), specs, senses) && specs != []
    requires (forall s | s in specs :: s in senses) && name in Names(Troves(newTroves))
    ensures var use := Chosen(Source(Troves(oldTroves), Troves(newTroves)), find, Choices(specs, senses));
            OfPackage(use, name) ==
              if IsAbout(keys, glob, Pattern(word, binaries), name) && name in Names(Troves(oldTroves))
              then OfPackage(Troves(oldTroves), name)
              else OfPackage(Troves(newTroves), name)
  {
    hide Expands, Chosen, Meant, Mentions, IsAbout, FindsByName, Written;
    var source := Source(Troves(oldTroves), Troves(newTroves));
    SingleRestriction(source, find, keys, glob, asked, binaries, true, word, component, specs, senses, name);
    SwitchedBack(source, find, Spec(name, "", ""), name);
  }

  lemma SwitchedBack(source: Source, find: Finder, spec: Spec, name: string)
    requires FindsAll(find) && spec == Spec(name, "", "") && name in Names(source.allNew)
    ensures Switched(source, find, Choice(spec, false), name, OfPackage(source.Start(false), name)) ==
            if name in Names(source.allOld) then OfPackage(source.allOld, name) else OfPackage(source.allNew, name)
  {
    OldIsOld(source, name);
    assert find(source.Old(), spec) == OfPackage(source.Old(), name);
    assert find(source.allNew, spec) == OfPackage(source.allNew, name);
    NamedIn(source.Old(), name);
  }

  lemma OldIsOld(source: Source, name: string)
    requires name in Names(source.allNew)
    ensures OfPackage(source.Old(), name) == OfPackage(source.allOld, name)
    ensures name in Names(source.Old()) <==> name in Names(source.allOld)
  {
  }

  lemma NamedIn(troves: set<Trove>, name: string)
    ensures name in Names(OfPackage(troves, name)) <==> name in Names(troves)
    ensures OfPackage(OfPackage(troves, name), name) == OfPackage(troves, name)
    ensures name !in Names(troves) ==> OfPackage(troves, name) == {}
  {
  }

  /** A single `x` updates the packages that match and those that are new, and keeps the old
      troves of the rest. */
  lemma SinglePlain(oldTroves: seq<Trove>, newTroves: seq<Trove>, glob: Glob, find: Finder, keys: set<string>,
                    asked: Spec, binaries: bool, word: string, component: string,
                    specs: seq<Spec>, senses: map<Spec, bool>, name: string)
    requires FindsByName(find) && FindsAll(find) && asked.version == "" && asked.flavor == ""
    requires Written(asked.name, false, word, component)
    requires Expands(Mentions(keys, glob, [asked], binaries), specs, senses) && specs != []
    requires (forall s | s in specs :: s in senses) && name in Names(Troves(newTroves))
    ensures var use := Chosen(Source(Troves(oldTroves), Troves(newTroves)), find, Choices(specs, senses));
            OfPackage(use, name) ==
              if IsAbout(keys, glob, Pattern(word, binaries), name) || name !in Names(Troves(oldTroves))
              then OfPackage(Troves(newTroves), name)
              else OfPackage(Troves(oldTroves), name)
  {
    hide Expands, Chosen, Meant, Mentions, IsAbout, FindsByName, Written;
    var source := Source(Troves(oldTroves), Troves(newTroves));
    SingleRestriction(source, find, keys, glob, asked, binaries, false, word, component, specs, senses, name);
    SwitchedOn(source, find, Spec(name, "", ""), name);
  }

  lemma SwitchedOn(source: Source, find: Finder, spec: Spec, name: string)
    requires FindsAll(find) && spec == Spec(name, "", "") && name in Names(source.allNew)
    ensures var was := OfPackage(source.Start(true), name);
            && was == (if name in Names(source.allOld) then OfPackage(source.allOld, name) else OfPackage(source.allNew, name))
            && Switched(source, find, Choice(spec, true), name, was) == OfPackage(source.allNew, name)
  {
    OldIsOld(source, name);
    assert find(source.Old(), spec) == OfPackage(source.Old(), name);
    assert find(source.allNew, spec) == OfPackage(source.allNew, name);
    NamedIn(source.allNew, name);
    NamedIn(source.Old(), name);
  }
}
