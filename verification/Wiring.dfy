/** In-degree counts and successor lists, and how they fall as nodes are finished. */
module Wiring {
  import opened Digraph

  function Successors(successors: map<string, seq<string>>, id: string): seq<string> {
    if id in successors then successors[id] else []
  }

  /** The edges in `wired` are exactly what the in-degrees and successor lists record. */
  ghost predicate Wired(wired: Deps, inDegree: map<string, int>, successors: map<string, seq<string>>) {
    && inDegree.Keys == wired.Keys
    && (forall s | s in wired :: inDegree[s] == |wired[s]|)
    && (forall a, s :: multiset(Successors(successors, a))[s] == if s in wired then multiset(wired[s])[a] else 0)
  }

  lemma WiredCounts(wired: Deps, inDegree: map<string, int>, successors: map<string, seq<string>>)
    requires Wired(wired, inDegree, successors)
    ensures inDegree == map s | s in wired :: |wired[s]|
  {
  }

  lemma WireEdge(wired: Deps, inDegree: map<string, int>, successors: map<string, seq<string>>, a: string, s: string)
    requires Wired(wired, inDegree, successors) && s in wired
    ensures Wired(wired[s := wired[s] + [a]], inDegree[s := inDegree[s] + 1],
                  successors[a := Successors(successors, a) + [s]])
  {
    var longer := successors[a := Successors(successors, a) + [s]];
    var more := wired[s := wired[s] + [a]];
    forall b, t
      ensures multiset(Successors(longer, b))[t] == if t in more then multiset(more[t])[b] else 0
    {
      assert multiset(Successors(successors, b))[t] == if t in wired then multiset(wired[t])[b] else 0;
    }
  }

  lemma WireNothing(wired: Deps, inDegree: map<string, int>)
    requires inDegree.Keys == wired.Keys
    requires forall s | s in wired :: wired[s] == [] && inDegree[s] == 0
    ensures Wired(wired, inDegree, map[])
  {
  }

  /** Everything wired before, and part of the dependencies of node `id`. */
  ghost predicate WiredWith(wired: Deps, id: string, part: seq<string>, inDegree: map<string, int>,
                            successors: map<string, seq<string>>)
  {
    id in inDegree && Wired(wired[id := part], inDegree, successors)
  }

  lemma WiredStart(wired: Deps, id: string, inDegree: map<string, int>, successors: map<string, seq<string>>)
    requires Wired(wired, inDegree, successors) && id in wired && wired[id] == []
    ensures WiredWith(wired, id, [], inDegree, successors) && id in inDegree
  {
    assert wired == wired[id := []];
    assert id in inDegree;
  }

  lemma WiredStep(wired: Deps, id: string, part: seq<string>, inDegree: map<string, int>,
                  successors: map<string, seq<string>>, name: string)
    requires WiredWith(wired, id, part, inDegree, successors)
    ensures id in inDegree
    ensures WiredWith(wired, id, part + [name], inDegree[id := inDegree[id] + 1],
                      successors[name := Successors(successors, name) + [id]])
  {
    hide Wired;
    var now := wired[id := part];
    WireEdge(now, inDegree, successors, name, id);
    assert now[id := now[id] + [name]] == wired[id := part + [name]];
  }

  lemma WiredEnd(wired: Deps, id: string, part: seq<string>, inDegree: map<string, int>,
                 successors: map<string, seq<string>>)
    requires WiredWith(wired, id, part, inDegree, successors)
    ensures Wired(wired[id := part], inDegree, successors)
  {
  }

  /** In-degrees count what is still open, plus the decrements still to come from `pending`. */
  ghost predicate Counts(deps: Deps, finished: set<string>, pending: seq<string>, inDegree: map<string, int>) {
    && inDegree.Keys == deps.Keys
    && forall s | s in deps :: inDegree[s] == Open(deps[s], finished) + multiset(pending)[s]
  }

  lemma CountsStart(deps: Deps, inDegree: map<string, int>, successors: map<string, seq<string>>)
    requires Wired(deps, inDegree, successors)
    ensures Counts(deps, {}, [], inDegree)
  {
    forall s | s in deps
      ensures inDegree[s] == Open(deps[s], {})
    {
      OpenAll(deps[s]);
    }
  }

  lemma CountsFinish(deps: Deps, finished: set<string>, inDegree: map<string, int>, wiredDegree: map<string, int>,
                     successors: map<string, seq<string>>, name: string)
    requires Counts(deps, finished, [], inDegree) && Wired(deps, wiredDegree, successors) && name !in finished
    ensures Counts(deps, finished + {name}, Successors(successors, name), inDegree)
  {
    forall s | s in deps
      ensures inDegree[s] == Open(deps[s], finished + {name}) + multiset(Successors(successors, name))[s]
    {
      OpenFinish(deps[s], finished, name);
    }
  }

  lemma CountsStep(deps: Deps, finished: set<string>, pending: seq<string>, inDegree: map<string, int>)
    requires Counts(deps, finished, pending, inDegree) && pending != [] && pending[0] in deps
    ensures pending[0] in inDegree && inDegree[pending[0]] >= 1
    ensures Counts(deps, finished, pending[1..], inDegree[pending[0] := inDegree[pending[0]] - 1])
  {
    assert pending == [pending[0]] + pending[1..];
    assert multiset(pending) == multiset{pending[0]} + multiset(pending[1..]);
  }

  lemma UsersKnown(deps: Deps, wiredDegree: map<string, int>, successors: map<string, seq<string>>, id: string)
    requires Wired(deps, wiredDegree, successors)
    ensures forall s | s in Successors(successors, id) :: s in deps
  {
    forall s | s in Successors(successors, id)
      ensures s in deps
    {
      assert multiset(Successors(successors, id))[s] > 0;
    }
  }
}
