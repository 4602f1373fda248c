/** Dependency relations, cycles, and the link between stuck sets and cycles. */
module Digraph {

  /** What each node depends on, in order and with repetitions. */
  type Deps = map<string, seq<string>>

  /** Each node of the path depends on the next one. */
  ghost predicate IsPath(deps: Deps, path: seq<string>) {
    && path != []
    && (forall i | 0 <= i < |path| :: path[i] in deps)
    && (forall i | 0 <= i < |path| - 1 :: path[i + 1] in deps[path[i]])
  }

  /** A path of at least one step back to where it started; a self-dependency counts. */
  ghost predicate HasCycle(deps: Deps) {
    exists path :: IsPath(deps, path) && |path| >= 2 && path[0] == path[|path| - 1]
  }

  ghost predicate Acyclic(deps: Deps) {
    !HasCycle(deps)
  }

  /** Dependencies have lower rank: the ranks of a sorted order, or of layers. */
  ghost predicate RanksDown(deps: Deps, rank: map<string, int>) {
    forall a, b | a in deps && b in deps[a] :: a in rank && b in rank && rank[b] < rank[a]
  }

  lemma {:induction false} RankFallsAlong(deps: Deps, rank: map<string, int>, path: seq<string>, i: nat)
    requires RanksDown(deps, rank) && IsPath(deps, path) && 0 < i < |path|
    ensures path[0] in rank && path[i] in rank && rank[path[i]] < rank[path[0]]
  {
    assert path[i] in deps[path[i - 1]];
    if i > 1 {
      RankFallsAlong(deps, rank, path, i - 1);
    }
  }

  lemma RankedIsAcyclic(deps: Deps, rank: map<string, int>)
    requires RanksDown(deps, rank)
    ensures Acyclic(deps)
  {
    if HasCycle(deps) {
      var path :| IsPath(deps, path) && |path| >= 2 && path[0] == path[|path| - 1];
      RankFallsAlong(deps, rank, path, |path| - 1);
    }
  }

  ghost predicate NeedsOneOf(deps: Deps, nodes: set<string>, a: string) {
    a in deps && exists b :: b in nodes && b in deps[a]
  }

  /** Every node of the set depends on another node of the set: none of them can ever be scheduled. */
  ghost predicate Stuck(deps: Deps, nodes: set<string>) {
    && (exists a :: a in nodes)
    && (forall a | a in nodes :: NeedsOneOf(deps, nodes, a))
  }

  lemma PathAppend(deps: Deps, path: seq<string>, b: string)
    requires IsPath(deps, path) && b in deps && b in deps[path[|path| - 1]]
    ensures IsPath(deps, path + [b])
  {
    var longer := path + [b];
    forall i | 0 <= i < |longer|
      ensures longer[i] in deps
    {
    }
    forall i | 0 <= i < |longer| - 1
      ensures longer[i + 1] in deps[longer[i]]
    {
      if i < |path| - 1 {
        assert longer[i] == path[i] && longer[i + 1] == path[i + 1];
      }
    }
  }

  lemma PathSlice(deps: Deps, path: seq<string>, i: nat, j: nat)
    requires IsPath(deps, path) && i < j <= |path|
    ensures IsPath(deps, path[i..j])
  {
    var slice := path[i..j];
    forall k | 0 <= k < |slice| - 1
      ensures slice[k + 1] in deps[slice[k]]
    {
      assert slice[k] == path[i + k] && slice[k + 1] == path[i + k + 1];
    }
  }

  lemma StuckNext(deps: Deps, nodes: set<string>, a: string) returns (b: string)
    requires Stuck(deps, nodes) && a in nodes
    ensures a in deps && b in nodes && b in deps && b in deps[a]
  {
    assert NeedsOneOf(deps, nodes, a);
    b :| b in nodes && b in deps[a];
    assert NeedsOneOf(deps, nodes, b);
  }

  lemma StuckSome(deps: Deps, nodes: set<string>) returns (a: string)
    requires Stuck(deps, nodes)
    ensures a in nodes && a in deps
  {
    a :| a in nodes;
    assert NeedsOneOf(deps, nodes, a);
  }

  lemma {:induction false} StuckPath(deps: Deps, nodes: set<string>, n: nat) returns (path: seq<string>)
    requires Stuck(deps, nodes)
    ensures |path| == n + 1 && IsPath(deps, path) && forall i | 0 <= i < |path| :: path[i] in nodes
  {
    hide Stuck;
    if n == 0 {
      var a := StuckSome(deps, nodes);
      path := [a];
    } else {
      var init := StuckPath(deps, nodes, n - 1);
      var b := StuckNext(deps, nodes, init[n - 1]);
      PathAppend(deps, init, b);
      hide IsPath;
      path := init + [b];
    }
  }

  /** More steps than nodes means some node comes twice. */
  lemma {:induction false} Pigeonhole(path: seq<string>, nodes: set<string>) returns (i: nat, j: nat)
    requires |path| > |nodes| && forall k | 0 <= k < |path| :: path[k] in nodes
    ensures i < j < |path| && path[i] == path[j]
    decreases |path|
  {
    var n := |path| - 1;
    if k :| 0 <= k < n && path[k] == path[n] {
      i, j := k, n;
    } else {
      assert |nodes - {path[n]}| == |nodes| - 1;
      i, j := Pigeonhole(path[..n], nodes - {path[n]});
    }
  }

  lemma StuckHasCycle(deps: Deps, nodes: set<string>)
    requires Stuck(deps, nodes)
    ensures HasCycle(deps)
  {
    hide Stuck, IsPath;
    var path := StuckPath(deps, nodes, |nodes|);
    var i, j := Pigeonhole(path, nodes);
    PathSlice(deps, path, i, j + 1);
    var cycle := path[i..j + 1];
    assert IsPath(deps, cycle) && |cycle| >= 2 && cycle[0] == cycle[|cycle| - 1];
  }

  // ----- counting dependencies not yet met

  /** How many dependency slots of a node point outside the finished set. */
  ghost function Open(names: seq<string>, finished: set<string>): nat {
    if names == [] then 0
    else Open(names[..|names| - 1], finished) + if names[|names| - 1] in finished then 0 else 1
  }

  lemma {:induction false} OpenZero(names: seq<string>, finished: set<string>)
    ensures Open(names, finished) == 0 <==> forall name | name in names :: name in finished
  {
    if names != [] {
      var n := |names| - 1;
      OpenZero(names[..n], finished);
      assert names == names[..n] + [names[n]];
    }
  }

  lemma {:induction false} OpenFinish(names: seq<string>, finished: set<string>, name: string)
    requires name !in finished
    ensures Open(names, finished) == Open(names, finished + {name}) + multiset(names)[name]
  {
    if names != [] {
      var n := |names| - 1;
      OpenFinish(names[..n], finished, name);
      assert names == names[..n] + [names[n]];
    }
  }

  lemma {:induction false} OpenAll(names: seq<string>)
    ensures Open(names, {}) == |names|
  {
    if names != [] {
      OpenAll(names[..|names| - 1]);
    }
  }
}
