/** A trove source that remembers the results of finding troves. */
module CachingSource {
  import opened Wrappers

  /** Everything about a request but the troves asked for: the label path, and the other
      arguments, by position and by name. */
  type Request(==, !new)

  /** What is asked for: a name with an optional version and flavor. */
  type Spec(==, !new)

  type Troves(==, !new)

  /** The source underneath. It answers every spec independently of the others asked for;
      a spec it has nothing for fails the whole call, unless the request allows that. */
  datatype Source = Source(find: (Request, Spec) -> Option<Troves>, allowMissing: Request -> bool) {
    predicate Succeeds(request: Request, specs: seq<Spec>) {
      allowMissing(request) || forall s | s in specs :: find(request, s).Some?
    }

    function Found(request: Request, specs: seq<Spec>): map<Spec, Troves> {
      map s | s in specs && find(request, s).Some? :: find(request, s).value
    }

    /** The call without a cache; `None` is an error. */
    function FindTroves(request: Request, specs: seq<Spec>): Option<map<Spec, Troves>> {
      if Succeeds(request, specs) then Some(Found(request, specs)) else None
    }
  }

  /** The results cached for one spec, with the requests they are for, oldest first. */
  type Entries = seq<(Request, Troves)>

  function Lookup(entries: Entries, request: Request): (r: Option<Troves>)
    ensures r.Some? ==> (request, r.value) in entries
    ensures r.None? ==> forall e | e in entries :: e.0 != request
  {
    if entries == [] then None
    else if entries[0].0 == request then Some(entries[0].1)
    else Lookup(entries[1..], request)
  }

  class CachingSource {
    const source: Source
    var cache: map<Spec, Entries>

    constructor (source: Source)
      ensures Valid() && this.source == source && cache == map[]
    {
      this.source, cache := source, map[];
    }

    /** Everything cached is what the source answers. */
    ghost predicate Valid()
      reads this
    {
      forall s, e | s in cache && e in cache[s] :: source.find(e.0, s) == Some(e.1)
    }

    /** Finding troves through the cache is finding them in the source; a call that fails
        leaves the cache as it was. */
    method FindTroves(request: Request, specs: seq<Spec>) returns (r: Option<map<Spec, Troves>>)
      requires Valid()
      modifies this
      ensures Valid() && r == source.FindTroves(request, specs)
      ensures r.None? <==> !source.allowMissing(request) && exists s :: s in specs && source.find(request, s).None?
      ensures r.Some? ==> forall s :: s in r.value <==> s in specs && source.find(request, s).Some?
      ensures r.Some? ==> forall s | s in r.value :: source.find(request, s) == Some(r.value[s])
      ensures r.None? ==> cache == old(cache)
      ensures forall s | s in old(cache) :: s in cache && old(cache)[s] <= cache[s]
      ensures r.Some? ==> forall s | s in r.value :: s in cache && (request, r.value[s]) in cache[s]
    {
      var final: map<Spec, Troves>, toFind: seq<Spec> := map[], [];
      for i := 0 to |specs|
        invariant cache == old(cache)
        invariant forall s :: s in specs[..i] <==> s in final || s in toFind
        invariant forall s | s in final :: source.find(request, s) == Some(final[s])
                                        && s in cache && (request, final[s]) in cache[s]
      {
        var hit := if specs[i] in cache then Lookup(cache[specs[i]], request) else None;
        if hit.Some? {
          final := final[specs[i] := hit.value];
        } else {
          toFind := toFind + [specs[i]];
        }
      }
      assert specs[..|specs|] == specs;
      assert source.Succeeds(request, toFind) == source.Succeeds(request, specs);
      var newResults := source.FindTroves(request, toFind);
      if newResults.None? {
        return None;
      }
      AddEach(request, newResults.value);
      assert newResults.value == source.Found(request, toFind);
      assert forall s :: s in final + newResults.value <==> s in source.Found(request, specs);
      assert final + newResults.value == source.Found(request, specs);
      return Some(final + newResults.value);
    }

    /** Adds new results to the cache. */
    method AddEach(request: Request, found: map<Spec, Troves>)
      requires Valid() && forall s | s in found :: source.find(request, s) == Some(found[s])
      modifies this
      ensures Valid()
      ensures forall s | s in old(cache) :: s in cache && old(cache)[s] <= cache[s]
      ensures forall s | s in found :: s in cache && (request, found[s]) in cache[s]
    {
      var todo := found.Keys;
      while todo != {}
        invariant todo <= found.Keys && Valid()
        invariant forall s | s in old(cache) :: s in cache && old(cache)[s] <= cache[s]
        invariant forall s | s in found && s !in todo :: s in cache && (request, found[s]) in cache[s]
      {
        var s :| s in todo;
        var was := if s in cache then cache[s] else [];
        ghost var now := was + [(request, found[s])];
        assert now[|was|] == (request, found[s]) && forall e | e in was :: e in now;
        cache := cache[s := was + [(request, found[s])]];
        todo := todo - {s};
      }
    }

    /** Finding one trove; `None` is an error, also that of a spec nothing was found for. */
    method FindTrove(request: Request, spec: Spec) returns (r: Option<Troves>)
      requires Valid()
      modifies this
      ensures Valid() && r == source.find(request, spec)
    {
      var found := FindTroves(request, [spec]);
      assert spec in [spec];
      if found.None? || spec !in found.value {
        return None;
      }
      return Some(found.value[spec]);
    }
  }
}
