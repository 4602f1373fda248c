/** Kahn sorting of a graph's nodes, and the validation that precedes it. */
module GraphOrder {
  import opened Wrappers
  import opened GraphSemantics
  import opened Digraph
  import opened Wiring

  datatype OrderError =
    | MissingId
    | DuplicateId(id: string)
    | UnknownInput(node: string, input: string)
    | OutputWithoutProducer(output: string)
    | UnknownProducer(output: string, producer: string)
    | CycleFound

  /** A name that stands for an edge: not empty, not a boundary input, and the ID of a node. */
  ghost predicate IsEdge(name: string, boundary: set<string>, ids: set<string>) {
    name != "" && name !in boundary && name in ids
  }

  /** The inputs that are edges, in order and with repetitions. */
  ghost function Edges(names: seq<string>, boundary: set<string>, ids: set<string>): seq<string> {
    if names == [] then []
    else
      var n := |names| - 1;
      Edges(names[..n], boundary, ids) + if IsEdge(names[n], boundary, ids) then [names[n]] else []
  }

  lemma {:induction false} EdgesAre(names: seq<string>, boundary: set<string>, ids: set<string>, name: string)
    ensures name in Edges(names, boundary, ids) <==> name in names && name != "" && name !in boundary && name in ids
  {
    if names != [] {
      var n := |names| - 1;
      EdgesAre(names[..n], boundary, ids, name);
      assert names == names[..n] + [names[n]];
    }
  }

  type NodeIndex = map<string, GraphNode>

  ghost predicate Indexes(byId: NodeIndex, nodes: seq<GraphNode>) {
    && UniqueIds(nodes)
    && byId.Keys == Ids(nodes)
    && forall i | 0 <= i < |nodes| :: nodes[i].id in byId && byId[nodes[i].id] == nodes[i]
  }

  /** The dependency relation the sort works on. */
  ghost function Needs(byId: NodeIndex, boundary: set<string>): Deps {
    map id | id in byId :: Edges(byId[id].inputs, boundary, byId.Keys)
  }

  /** The dependency relation of a node list, without reference to an index. */
  ghost predicate Depends(nodes: seq<GraphNode>, boundary: set<string>, deps: Deps) {
    && deps.Keys == Ids(nodes)
    && forall i | 0 <= i < |nodes| :: deps[nodes[i].id] == Edges(nodes[i].inputs, boundary, Ids(nodes))
  }

  lemma NeedsDepends(byId: NodeIndex, nodes: seq<GraphNode>, boundary: set<string>)
    requires Indexes(byId, nodes)
    ensures Depends(nodes, boundary, Needs(byId, boundary))
  {
  }

  lemma NeedsClosed(byId: NodeIndex, boundary: set<string>, a: string, b: string)
    requires a in byId && b in Needs(byId, boundary)[a]
    ensures b in byId
  {
    EdgesAre(byId[a].inputs, boundary, byId.Keys, b);
  }

  /** A permutation of the nodes in which every edge points to an earlier node. */
  ghost predicate SortOf(nodes: seq<GraphNode>, boundary: set<string>, sorted: seq<GraphNode>) {
    && multiset(sorted) == multiset(nodes)
    && forall i, name | 0 <= i < |sorted| && name in sorted[i].inputs && name != "" && name !in boundary && name in Ids(nodes) ::
      name in Ids(sorted[..i])
  }

  // ----- wiring: in-degrees and successor lists

  lemma EdgesNext(names: seq<string>, boundary: set<string>, ids: set<string>, k: nat)
    requires k < |names|
    ensures Edges(names[..k + 1], boundary, ids)
         == Edges(names[..k], boundary, ids) + if IsEdge(names[k], boundary, ids) then [names[k]] else []
  {
    assert names[..k + 1][..k] == names[..k];
  }

  /** Adds one node's edges: its own in-degree, and itself as a successor of each input. */
  method WireNode(id: string, names: seq<string>, boundary: set<string>, ids: set<string>, ghost wired: Deps,
                  inDegree: map<string, int>, successors: map<string, seq<string>>)
    returns (inDegreeAfter: map<string, int>, successorsAfter: map<string, seq<string>>)
    requires Wired(wired, inDegree, successors) && id in wired && wired[id] == []
    ensures Wired(wired[id := Edges(names, boundary, ids)], inDegreeAfter, successorsAfter)
  {
    inDegreeAfter, successorsAfter := inDegree, successors;
    WiredStart(wired, id, inDegree, successors);
    assert names[..0] == [];
    hide WiredWith, Wired, Successors, Edges;
    for k := 0 to |names|
      invariant id in inDegreeAfter
      invariant WiredWith(wired, id, Edges(names[..k], boundary, ids), inDegreeAfter, successorsAfter)
    {
      EdgesNext(names, boundary, ids, k);
      if names[k] != "" && names[k] !in boundary && names[k] in ids {
        WiredStep(wired, id, Edges(names[..k], boundary, ids), inDegreeAfter, successorsAfter, names[k]);
        inDegreeAfter := inDegreeAfter[id := inDegreeAfter[id] + 1];
        successorsAfter := successorsAfter[names[k] := Successors(successorsAfter, names[k]) + [id]];
      } else {
        assert Edges(names[..k], boundary, ids) + [] == Edges(names[..k], boundary, ids);
      }
    }
    assert names[..|names|] == names;
    WiredEnd(wired, id, Edges(names, boundary, ids), inDegreeAfter, successorsAfter);
  }

  /** The first `i` nodes have all their edges, the others none yet. */
  ghost predicate WiredTo(nodes: seq<GraphNode>, boundary: set<string>, ids: set<string>, wired: Deps, i: int) {
    && wired.Keys == ids
    && (forall j | 0 <= j < |nodes| :: nodes[j].id in wired)
    && (forall j | 0 <= j < |nodes| ::
          wired[nodes[j].id] == if j < i then Edges(nodes[j].inputs, boundary, ids) else [])
  }

  lemma WiredToNext(nodes: seq<GraphNode>, boundary: set<string>, ids: set<string>, wired: Deps, i: nat)
    requires UniqueIds(nodes) && i < |nodes| && WiredTo(nodes, boundary, ids, wired, i)
    ensures WiredTo(nodes, boundary, ids, wired[nodes[i].id := Edges(nodes[i].inputs, boundary, ids)], i + 1)
  {
  }

  lemma WiredToAll(nodes: seq<GraphNode>, byId: NodeIndex, boundary: set<string>, wired: Deps)
    requires Indexes(byId, nodes) && WiredTo(nodes, boundary, byId.Keys, wired, |nodes|)
    ensures wired == Needs(byId, boundary)
  {
    forall id | id in byId
      ensures wired[id] == Needs(byId, boundary)[id]
    {
      var j :| 0 <= j < |nodes| && nodes[j].id == id;
      assert byId[nodes[j].id] == nodes[j];
    }
  }

  method ZeroDegrees(nodes: seq<GraphNode>) returns (inDegree: map<string, int>)
    ensures inDegree.Keys == Ids(nodes) && forall s | s in inDegree :: inDegree[s] == 0
  {
    inDegree := map[];
    for i := 0 to |nodes|
      invariant inDegree.Keys == Ids(nodes[..i]) && forall s | s in inDegree :: inDegree[s] == 0
    {
      inDegree := inDegree[nodes[i].id := 0];
      assert Ids(nodes[..i + 1]) == Ids(nodes[..i]) + {nodes[i].id};
    }
    assert nodes[..|nodes|] == nodes;
  }

  method Wire(nodes: seq<GraphNode>, byId: NodeIndex, boundary: set<string>)
    returns (inDegree: map<string, int>, successors: map<string, seq<string>>)
    requires Indexes(byId, nodes)
    ensures Wired(Needs(byId, boundary), inDegree, successors)
  {
    inDegree := ZeroDegrees(nodes);
    successors := map[];
    ghost var wired: Deps := map id | id in Ids(nodes) :: [];
    WireNothing(wired, inDegree);
    assert WiredTo(nodes, boundary, byId.Keys, wired, 0);
    hide Wired, Edges;
    for i := 0 to |nodes|
      invariant Wired(wired, inDegree, successors)
      invariant WiredTo(nodes, boundary, byId.Keys, wired, i)
    {
      WiredToNext(nodes, boundary, byId.Keys, wired, i);
      inDegree, successors := WireNode(nodes[i].id, nodes[i].inputs, boundary, byId.Keys, wired, inDegree, successors);
      wired := wired[nodes[i].id := Edges(nodes[i].inputs, boundary, byId.Keys)];
    }
    WiredToAll(nodes, byId, boundary, wired);
  }

  // ----- the queue

  /** Sorted and queued nodes are exactly those with nothing left to wait for, once each. */
  ghost predicate Queued(byId: NodeIndex, inDegree: map<string, int>, queue: seq<GraphNode>) {
    && inDegree.Keys == byId.Keys
    && UniqueIds(queue)
    && (forall i | 0 <= i < |queue| :: queue[i].id in byId && byId[queue[i].id] == queue[i])
    && (forall s | s in byId :: inDegree[s] == 0 <==> s in Ids(queue))
  }

  /** Each sorted node's dependencies come before it. */
  ghost predicate Forward(deps: Deps, sorted: seq<GraphNode>) {
    forall i, name | 0 <= i < |sorted| && sorted[i].id in deps && name in deps[sorted[i].id] :: name in Ids(sorted[..i])
  }

  lemma IdsAppend(nodes: seq<GraphNode>, node: GraphNode)
    ensures Ids(nodes + [node]) == Ids(nodes) + {node.id}
  {
    var longer := nodes + [node];
    assert longer[|nodes|] == node;
    forall i | 0 <= i < |nodes|
      ensures longer[i] == nodes[i]
    {
    }
  }

  lemma QueuedStep(byId: NodeIndex, inDegree: map<string, int>, queue: seq<GraphNode>, s: string)
    requires Queued(byId, inDegree, queue) && s in byId && s in inDegree && inDegree[s] >= 1 && byId[s].id == s
    ensures Queued(byId, inDegree[s := inDegree[s] - 1],
                   if inDegree[s] == 1 then queue + [byId[s]] else queue)
  {
    if inDegree[s] == 1 {
      IdsAppend(queue, byId[s]);
      assert s !in Ids(queue);
    }
  }

  lemma ForwardAppend(deps: Deps, sorted: seq<GraphNode>, node: GraphNode)
    requires Forward(deps, sorted)
    requires node.id in deps ==> forall name | name in deps[node.id] :: name in Ids(sorted)
    ensures Forward(deps, sorted + [node])
  {
    var longer := sorted + [node];
    forall i, name | 0 <= i < |longer| && longer[i].id in deps && name in deps[longer[i].id]
      ensures name in Ids(longer[..i])
    {
      assert longer[..i] == sorted[..i];
      if i == |sorted| {
        assert sorted[..i] == sorted;
      }
    }
  }

  /** What waits in no queue when the queue is empty is stuck. */
  lemma LeftoverStuck(deps: Deps, byId: NodeIndex, inDegree: map<string, int>, sorted: seq<GraphNode>, left: string)
    requires deps.Keys == byId.Keys && Queued(byId, inDegree, sorted) && Counts(deps, Ids(sorted), [], inDegree)
    requires forall a, b | a in deps && b in deps[a] :: b in deps
    requires left in byId && left !in Ids(sorted)
    ensures HasCycle(deps)
  {
    var remaining := deps.Keys - Ids(sorted);
    forall a | a in remaining
      ensures NeedsOneOf(deps, remaining, a)
    {
      assert Open(deps[a], Ids(sorted)) != 0;
      OpenZero(deps[a], Ids(sorted));
      var b :| b in deps[a] && b !in Ids(sorted);
      assert b in remaining;
    }
    assert left in remaining;
    StuckHasCycle(deps, remaining);
  }

  /** The position of each sorted node is a rank that dependencies fall along. */
  lemma ForwardIsAcyclic(deps: Deps, sorted: seq<GraphNode>)
    requires Forward(deps, sorted) && UniqueIds(sorted) && Ids(sorted) == deps.Keys
    ensures Acyclic(deps)
  {
    var rank := Ranks(sorted);
    forall a, b | a in deps && b in deps[a]
      ensures a in rank && b in rank && rank[b] < rank[a]
    {
      var i :| 0 <= i < |sorted| && sorted[i].id == a;
      assert b in Ids(sorted[..i]);
      var j :| 0 <= j < i && sorted[..i][j].id == b;
      RankIs(sorted, i);
      RankIs(sorted, j);
    }
    RankedIsAcyclic(deps, rank);
  }

  ghost function Ranks(sorted: seq<GraphNode>): map<string, int> {
    if sorted == [] then map[]
    else Ranks(sorted[..|sorted| - 1])[sorted[|sorted| - 1].id := |sorted|]
  }

  lemma {:induction false} RankIs(sorted: seq<GraphNode>, i: nat)
    requires UniqueIds(sorted) && i < |sorted|
    ensures sorted[i].id in Ranks(sorted) && Ranks(sorted)[sorted[i].id] == i + 1
  {
    var n := |sorted| - 1;
    if i < n {
      RankIs(sorted[..n], i);
    }
  }

  // ----- the result is a permutation

  lemma {:induction false} OnceEach(nodes: seq<GraphNode>, node: GraphNode)
    requires UniqueIds(nodes)
    ensures multiset(nodes)[node] == if node in nodes then 1 else 0
  {
    if nodes != [] {
      var n := |nodes| - 1;
      OnceEach(nodes[..n], node);
      assert nodes == nodes[..n] + [nodes[n]];
      assert nodes[n] !in nodes[..n];
    }
  }

  lemma SameMembers(byId: NodeIndex, nodes: seq<GraphNode>, sorted: seq<GraphNode>)
    requires Indexes(byId, nodes) && UniqueIds(sorted) && Ids(sorted) == byId.Keys
    requires forall i | 0 <= i < |sorted| :: sorted[i].id in byId && byId[sorted[i].id] == sorted[i]
    ensures multiset(sorted) == multiset(nodes)
  {
    forall node
      ensures multiset(sorted)[node] == multiset(nodes)[node]
    {
      OnceEach(nodes, node);
      OnceEach(sorted, node);
      if node in sorted {
        var i :| 0 <= i < |sorted| && sorted[i] == node;
        assert node.id in Ids(nodes);
        var j :| 0 <= j < |nodes| && nodes[j].id == node.id;
      }
      if node in nodes {
        var j :| 0 <= j < |nodes| && nodes[j] == node;
        assert node.id in Ids(sorted);
        var i :| 0 <= i < |sorted| && sorted[i].id == node.id;
      }
    }
  }

  lemma {:induction false} IdsCount(nodes: seq<GraphNode>)
    requires UniqueIds(nodes)
    ensures |Ids(nodes)| == |nodes|
  {
    if nodes == [] {
      assert Ids(nodes) == {};
    } else {
      var n := |nodes| - 1;
      IdsCount(nodes[..n]);
      IdsAppend(nodes[..n], nodes[n]);
      assert nodes == nodes[..n] + [nodes[n]];
      assert nodes[n].id !in Ids(nodes[..n]);
    }
  }

  lemma ForwardIsSort(byId: NodeIndex, nodes: seq<GraphNode>, boundary: set<string>, sorted: seq<GraphNode>)
    requires Indexes(byId, nodes) && UniqueIds(sorted) && Ids(sorted) == byId.Keys
    requires forall i | 0 <= i < |sorted| :: sorted[i].id in byId && byId[sorted[i].id] == sorted[i]
    requires Forward(Needs(byId, boundary), sorted)
    ensures SortOf(nodes, boundary, sorted)
  {
    SameMembers(byId, nodes, sorted);
    forall i, name | 0 <= i < |sorted| && name in sorted[i].inputs && name != "" && name !in boundary && name in Ids(nodes)
      ensures name in Ids(sorted[..i])
    {
      EdgesAre(sorted[i].inputs, boundary, byId.Keys, name);
      assert name in Needs(byId, boundary)[sorted[i].id];
    }
  }

  // ----- the steps of the sort

  lemma PopKeeps(deps: Deps, byId: NodeIndex, inDegree: map<string, int>, wiredDegree: map<string, int>,
                 successors: map<string, seq<string>>, sorted: seq<GraphNode>, ready: seq<GraphNode>)
    requires deps.Keys == byId.Keys && Wired(deps, wiredDegree, successors) && ready != []
    requires Queued(byId, inDegree, sorted + ready) && Counts(deps, Ids(sorted), [], inDegree) && Forward(deps, sorted)
    ensures ready[0].id in byId && ready[0].id !in Ids(sorted)
    ensures Ids(sorted + [ready[0]]) == Ids(sorted) + {ready[0].id}
    ensures Queued(byId, inDegree, sorted + [ready[0]] + ready[1..])
    ensures Counts(deps, Ids(sorted + [ready[0]]), Successors(successors, ready[0].id), inDegree)
    ensures Forward(deps, sorted + [ready[0]])
  {
    var queue, current := sorted + ready, ready[0];
    assert sorted + [current] + ready[1..] == queue;
    assert queue[|sorted|] == current;
    assert current.id in Ids(queue);
    OpenZero(deps[current.id], Ids(sorted));
    ForwardAppend(deps, sorted, current);
    IdsAppend(sorted, current);
    assert current.id !in Ids(sorted) by {
      assert forall i | 0 <= i < |sorted| :: sorted[i] == queue[i];
    }
    hide Queued, Forward;
    CountsFinish(deps, Ids(sorted), inDegree, wiredDegree, successors, current.id);
  }

  lemma UserStep(deps: Deps, byId: NodeIndex, inDegree: map<string, int>, finished: set<string>, users: seq<string>,
                 q: nat, queue: seq<GraphNode>)
    requires q < |users| && users[q] in deps && users[q] in byId && byId[users[q]].id == users[q]
    requires Queued(byId, inDegree, queue) && Counts(deps, finished, users[q..], inDegree)
    ensures users[q] in inDegree
    ensures Counts(deps, finished, users[q + 1..], inDegree[users[q] := inDegree[users[q]] - 1])
    ensures Queued(byId, inDegree[users[q] := inDegree[users[q]] - 1],
                   if inDegree[users[q]] == 1 then queue + [byId[users[q]]] else queue)
  {
    hide *;
    assert users[q..][0] == users[q];
    assert users[q..][1..] == users[q + 1..];
    CountsStep(deps, finished, users[q..], inDegree);
    QueuedStep(byId, inDegree, queue, users[q]);
  }

  /** Of the first `n` nodes, exactly those without open dependencies are ready. */
  ghost predicate ReadyTo(nodes: seq<GraphNode>, byId: NodeIndex, inDegree: map<string, int>, n: nat, ready: seq<GraphNode>)
    requires Indexes(byId, nodes) && inDegree.Keys == byId.Keys && n <= |nodes|
  {
    && UniqueIds(ready)
    && (forall k | 0 <= k < |ready| :: ready[k].id in byId && byId[ready[k].id] == ready[k])
    && (forall s :: s in Ids(ready) <==> s in Ids(nodes[..n]) && s in inDegree && inDegree[s] == 0)
  }

  lemma ReadyNext(nodes: seq<GraphNode>, byId: NodeIndex, inDegree: map<string, int>, n: nat, ready: seq<GraphNode>)
    requires Indexes(byId, nodes) && inDegree.Keys == byId.Keys && n < |nodes|
    requires ReadyTo(nodes, byId, inDegree, n, ready)
    ensures nodes[n].id in inDegree
    ensures ReadyTo(nodes, byId, inDegree, n + 1, if inDegree[nodes[n].id] == 0 then ready + [nodes[n]] else ready)
  {
    hide Ids, UniqueIds, Indexes;
    NextId(nodes, byId, n);
    if inDegree[nodes[n].id] == 0 {
      IdsAppend(ready, nodes[n]);
      UniqueAppend(ready, nodes[n]);
    }
  }

  lemma NextId(nodes: seq<GraphNode>, byId: NodeIndex, n: nat)
    requires Indexes(byId, nodes) && n < |nodes|
    ensures nodes[n].id in byId && byId[nodes[n].id] == nodes[n] && nodes[n].id !in Ids(nodes[..n])
    ensures Ids(nodes[..n + 1]) == Ids(nodes[..n]) + {nodes[n].id}
  {
    assert nodes[..n + 1] == nodes[..n] + [nodes[n]];
    IdsAppend(nodes[..n], nodes[n]);
  }

  lemma UniqueAppend(nodes: seq<GraphNode>, last: GraphNode)
    requires UniqueIds(nodes) && last.id !in Ids(nodes)
    ensures UniqueIds(nodes + [last])
  {
    assert forall k | 0 <= k < |nodes| :: nodes[k].id in Ids(nodes);
  }

  lemma AllReady(nodes: seq<GraphNode>, byId: NodeIndex, inDegree: map<string, int>, ready: seq<GraphNode>)
    requires Indexes(byId, nodes) && inDegree.Keys == byId.Keys && ReadyTo(nodes, byId, inDegree, |nodes|, ready)
    ensures Queued(byId, inDegree, ready)
  {
    assert nodes[..|nodes|] == nodes;
    hide Ids, UniqueIds;
  }

  method InitiallyReady(nodes: seq<GraphNode>, byId: NodeIndex, inDegree: map<string, int>)
    returns (ready: seq<GraphNode>)
    requires Indexes(byId, nodes) && inDegree.Keys == byId.Keys
    ensures Queued(byId, inDegree, ready)
  {
    ready := [];
    assert ReadyTo(nodes, byId, inDegree, 0, ready);
    hide ReadyTo, Queued;
    for i := 0 to |nodes|
      invariant ReadyTo(nodes, byId, inDegree, i, ready)
    {
      ReadyNext(nodes, byId, inDegree, i, ready);
      if inDegree[nodes[i].id] == 0 {
        ready := ready + [nodes[i]];
      }
    }
    AllReady(nodes, byId, inDegree, ready);
  }

  /** The queue has run empty: everything is sorted, or what is left is stuck. */
  lemma SortEnds(byId: NodeIndex, nodes: seq<GraphNode>, boundary: set<string>, inDegree: map<string, int>,
                 sorted: seq<GraphNode>)
    requires Indexes(byId, nodes) && Queued(byId, inDegree, sorted)
    requires Counts(Needs(byId, boundary), Ids(sorted), [], inDegree) && Forward(Needs(byId, boundary), sorted)
    ensures |sorted| == |nodes| <==> Acyclic(Needs(byId, boundary))
    ensures |sorted| == |nodes| ==> SortOf(nodes, boundary, sorted)
  {
    var deps := Needs(byId, boundary);
    IdsCount(nodes);
    IdsCount(sorted);
    assert Ids(sorted) <= byId.Keys;
    if Ids(sorted) == byId.Keys {
      ForwardIsSort(byId, nodes, boundary, sorted);
      ForwardIsAcyclic(deps, sorted);
    } else {
      SubsetCount(Ids(sorted), byId.Keys);
      var left :| left in byId && left !in Ids(sorted);
      forall a, b | a in deps && b in deps[a]
        ensures b in deps
      {
        NeedsClosed(byId, boundary, a, b);
      }
      hide Queued, Counts, Forward, Needs, Indexes;
      LeftoverStuck(deps, byId, inDegree, sorted, left);
    }
  }

  lemma {:induction false} SubsetCount(some: set<string>, all: set<string>)
    requires some <= all
    ensures |some| <= |all| && (|some| == |all| ==> some == all)
  {
    if some != all {
      var left :| left in all && left !in some;
      assert |all - {left}| == |all| - 1;
      SubsetSize(some, all - {left});
    }
  }

  lemma {:induction false} SubsetSize(some: set<string>, all: set<string>)
    requires some <= all
    ensures |some| <= |all|
  {
    if some != {} {
      var a :| a in some;
      SubsetSize(some - {a}, all - {a});
    }
  }

  // ----- the sort

  /** Takes one from each user's in-degree and queues the users that reach zero. */
  method Release(byId: NodeIndex, ghost deps: Deps, inDegree: map<string, int>, users: seq<string>,
                 sorted: seq<GraphNode>, ready: seq<GraphNode>)
    returns (inDegreeAfter: map<string, int>, readyAfter: seq<GraphNode>)
    requires deps.Keys == byId.Keys && (forall s | s in users :: s in deps) && forall s | s in byId :: byId[s].id == s
    requires Queued(byId, inDegree, sorted + ready) && Counts(deps, Ids(sorted), users, inDegree)
    ensures Queued(byId, inDegreeAfter, sorted + readyAfter) && Counts(deps, Ids(sorted), [], inDegreeAfter)
  {
    hide *;
    inDegreeAfter, readyAfter := inDegree, ready;
    assert users[0..] == users;
    for q := 0 to |users|
      invariant Queued(byId, inDegreeAfter, sorted + readyAfter)
      invariant Counts(deps, Ids(sorted), users[q..], inDegreeAfter)
    {
      var user := users[q];
      UserStep(deps, byId, inDegreeAfter, Ids(sorted), users, q, sorted + readyAfter);
      inDegreeAfter := inDegreeAfter[user := inDegreeAfter[user] - 1];
      if inDegreeAfter[user] == 0 {
        assert sorted + readyAfter + [byId[user]] == sorted + (readyAfter + [byId[user]]);
        readyAfter := readyAfter + [byId[user]];
      }
    }
    assert users[|users|..] == [];
  }

  method TopologicalSort(nodes: seq<GraphNode>, boundary: set<string>, byId: NodeIndex)
    returns (r: Result<seq<GraphNode>, OrderError>)
    requires Indexes(byId, nodes)
    ensures r.Success? <==> Acyclic(Needs(byId, boundary))
    ensures r.Success? ==> SortOf(nodes, boundary, r.value)
    ensures r.Failure? ==> r.error == CycleFound
  {
    ghost var deps := Needs(byId, boundary);
    if |nodes| == 0 {
      ForwardIsSort(byId, nodes, boundary, []);
      ForwardIsAcyclic(deps, []);
      return Success([]);
    }
    var inDegree, successors := Wire(nodes, byId, boundary);
    ghost var wiredDegree := inDegree;
    var ready := InitiallyReady(nodes, byId, inDegree);
    var sorted: seq<GraphNode> := [];
    CountsStart(deps, inDegree, successors);
    assert Ids(sorted) == {};
    assert sorted + ready == ready;
    UserNames(byId, nodes);
    hide *;
    while |ready| > 0
      invariant Queued(byId, inDegree, sorted + ready)
      invariant Counts(deps, Ids(sorted), [], inDegree)
      invariant Forward(deps, sorted)
      decreases byId.Keys - Ids(sorted)
    {
      var current := ready[0];
      PopKeeps(deps, byId, inDegree, wiredDegree, successors, sorted, ready);
      ready := ready[1..];
      sorted := sorted + [current];
      UsersKnown(deps, wiredDegree, successors, current.id);
      inDegree, ready := Release(byId, deps, inDegree, Successors(successors, current.id), sorted, ready);
    }
    assert sorted + ready == sorted;
    SortEnds(byId, nodes, boundary, inDegree, sorted);
    if |sorted| != |nodes| {
      return Failure(CycleFound);
    }
    return Success(sorted);
  }

  lemma UserNames(byId: NodeIndex, nodes: seq<GraphNode>)
    requires Indexes(byId, nodes)
    ensures forall s | s in byId :: byId[s].id == s
  {
  }

  // ----- validation

  /** Every node input is empty, a boundary input or a node. */
  ghost predicate InputsKnown(nodes: seq<GraphNode>, boundary: set<string>) {
    forall i, name | 0 <= i < |nodes| && name in nodes[i].inputs ::
      name == "" || name in boundary || name in Ids(nodes)
  }

  /** Every named graph output has a producer that is a boundary input or a node. */
  ghost predicate OutputsKnown(nodes: seq<GraphNode>, boundary: set<string>, outputs: map<string, string>) {
    forall key | key in outputs && key != "" :: outputs[key] != "" && (outputs[key] in boundary || outputs[key] in Ids(nodes))
  }

  ghost predicate NodesNamed(nodes: seq<GraphNode>) {
    UniqueIds(nodes) && forall i | 0 <= i < |nodes| :: nodes[i].id != ""
  }

  /** What is wrong with the graph when validation reports this error. */
  ghost predicate Explains(error: OrderError, nodes: seq<GraphNode>, boundary: set<string>, outputs: map<string, string>) {
    match error
    case MissingId => exists i | 0 <= i < |nodes| :: nodes[i].id == ""
    case DuplicateId(id) => exists i, j | 0 <= i < j < |nodes| :: nodes[i].id == id && nodes[j].id == id
    case UnknownInput(node, input) =>
      && input != "" && input !in boundary && input !in Ids(nodes)
      && exists i | 0 <= i < |nodes| :: nodes[i].id == node && input in nodes[i].inputs
    case OutputWithoutProducer(output) => output in outputs && output != "" && outputs[output] == ""
    case UnknownProducer(output, producer) =>
      && output in outputs && output != "" && outputs[output] == producer && producer != ""
      && producer !in boundary && producer !in Ids(nodes)
    case CycleFound => exists deps :: Depends(nodes, boundary, deps) && HasCycle(deps)
  }

  lemma RepeatedId(nodes: seq<GraphNode>, i: nat)
    requires i < |nodes| && nodes[i].id in Ids(nodes[..i])
    ensures !UniqueIds(nodes) && exists j | 0 <= j < i :: nodes[j].id == nodes[i].id
  {
    var j :| 0 <= j < i && nodes[..i][j].id == nodes[i].id;
    assert nodes[j].id == nodes[i].id;
  }

  method IndexGraphNodes(nodes: seq<GraphNode>) returns (r: Result<NodeIndex, OrderError>)
    ensures r.Success? <==> NodesNamed(nodes)
    ensures r.Success? ==> Indexes(r.value, nodes)
    ensures r.Failure? ==> (r.error.MissingId? || r.error.DuplicateId?)
    ensures forall boundary, outputs | r.Failure? :: Explains(r.error, nodes, boundary, outputs)
  {
    var byId: NodeIndex := map[];
    for i := 0 to |nodes|
      invariant byId.Keys == Ids(nodes[..i])
      invariant UniqueIds(nodes[..i])
      invariant forall j | 0 <= j < i :: nodes[j].id != "" && nodes[j].id in byId && byId[nodes[j].id] == nodes[j]
    {
      var node := nodes[i];
      if node.id == "" {
        return Failure(MissingId);
      }
      if node.id in byId {
        RepeatedId(nodes, i);
        return Failure(DuplicateId(node.id));
      }
      byId := byId[node.id := node];
      assert nodes[..i + 1] == nodes[..i] + [node];
      hide Ids, UniqueIds;
      IdsAppend(nodes[..i], node);
      UniqueAppend(nodes[..i], node);
    }
    assert nodes[..|nodes|] == nodes;
    return Success(byId);
  }

  ghost function BoundaryInputs(inputs: seq<string>): set<string> {
    set name | name in inputs && name != ""
  }

  method BoundaryInputSet(inputs: seq<string>) returns (boundary: set<string>)
    ensures boundary == BoundaryInputs(inputs)
  {
    boundary := {};
    for i := 0 to |inputs|
      invariant boundary == set name | name in inputs[..i] && name != ""
    {
      if inputs[i] != "" {
        boundary := boundary + {inputs[i]};
      }
      assert inputs[..i + 1] == inputs[..i] + [inputs[i]];
    }
    assert inputs[..|inputs|] == inputs;
  }

  method ValidateGraphEdges(nodes: seq<GraphNode>, boundary: set<string>, outputs: map<string, string>, byId: NodeIndex)
    returns (error: Option<OrderError>)
    requires Indexes(byId, nodes)
    ensures error.None? <==> InputsKnown(nodes, boundary) && OutputsKnown(nodes, boundary, outputs)
    ensures error.Some? ==> Explains(error.value, nodes, boundary, outputs) && !error.value.CycleFound?
  {
    for i := 0 to |nodes|
      invariant InputsKnownTo(nodes, boundary, i, 0)
    {
      for k := 0 to |nodes[i].inputs|
        invariant InputsKnownTo(nodes, boundary, i, k)
      {
        var name := nodes[i].inputs[k];
        if name != "" && name !in boundary && name !in byId {
          assert name in nodes[i].inputs && nodes[i].id == nodes[i].id;
          return Some(UnknownInput(nodes[i].id, name));
        }
      }
    }
    assert InputsKnown(nodes, boundary);
    var pending := outputs.Keys;
    while pending != {}
      invariant pending <= outputs.Keys
      invariant forall key | key in outputs && key !in pending && key != "" ::
        outputs[key] != "" && (outputs[key] in boundary || outputs[key] in Ids(nodes))
    {
      var key :| key in pending;
      pending := pending - {key};
      if key != "" {
        var producer := outputs[key];
        if producer == "" {
          return Some(OutputWithoutProducer(key));
        }
        if producer !in boundary && producer !in byId {
          return Some(UnknownProducer(key, producer));
        }
      }
    }
    return None;
  }

  ghost predicate InputsKnownTo(nodes: seq<GraphNode>, boundary: set<string>, n: int, k: int) {
    && (forall i, name | 0 <= i < |nodes| && i < n && name in nodes[i].inputs ::
          name == "" || name in boundary || name in Ids(nodes))
    && (0 <= n < |nodes| ==> forall q | 0 <= q < |nodes[n].inputs| && q < k ::
          nodes[n].inputs[q] == "" || nodes[n].inputs[q] in boundary || nodes[n].inputs[q] in Ids(nodes))
  }

  /** Everything the graph must satisfy for an execution order to exist. */
  ghost predicate Normalizable(nodes: seq<GraphNode>, boundary: set<string>, outputs: map<string, string>) {
    && NodesNamed(nodes) && InputsKnown(nodes, boundary) && OutputsKnown(nodes, boundary, outputs)
    && forall deps | Depends(nodes, boundary, deps) :: Acyclic(deps)
  }

  lemma DependsUnique(nodes: seq<GraphNode>, boundary: set<string>, a: Deps, b: Deps)
    requires Depends(nodes, boundary, a) && Depends(nodes, boundary, b)
    ensures a == b
  {
    forall id | id in a
      ensures id in b && a[id] == b[id]
    {
      var i :| 0 <= i < |nodes| && nodes[i].id == id;
    }
  }

  /**
   Validates and reorders the graph in place. An order is installed exactly when one
   exists; otherwise the graph is untouched and the error says what is wrong with it.
   */
  method NormalizeGraph(graph: Graph) returns (error: Option<OrderError>)
    modifies graph`nodes
    ensures error.None? <==> Normalizable(old(graph.nodes), BoundaryInputs(graph.inputs), graph.outputs)
    ensures error.None? ==> SortOf(old(graph.nodes), BoundaryInputs(graph.inputs), graph.nodes)
    ensures error.Some? ==> graph.nodes == old(graph.nodes)
    ensures error.Some? ==> Explains(error.value, graph.nodes, BoundaryInputs(graph.inputs), graph.outputs)
  {
    hide HasCycle, SortOf, Edges;
    var index := IndexGraphNodes(graph.nodes);
    if index.Failure? {
      return Some(index.error);
    }
    var byId := index.value;
    var boundary := BoundaryInputSet(graph.inputs);
    var invalid := ValidateGraphEdges(graph.nodes, boundary, graph.outputs, byId);
    if invalid.Some? {
      return invalid;
    }
    var sorted := TopologicalSort(graph.nodes, boundary, byId);
    NeedsDepends(byId, graph.nodes, boundary);
    ghost var deps := Needs(byId, boundary);
    forall other | Depends(graph.nodes, boundary, other)
      ensures other == deps
    {
      DependsUnique(graph.nodes, boundary, other, deps);
    }
    if sorted.Failure? {
      return Some(sorted.error);
    }
    graph.nodes := sorted.value;
    return None;
  }

  // ----- the order does not matter

  lemma SortIsOrdered(nodes: seq<GraphNode>, boundary: set<string>, sorted: seq<GraphNode>)
    requires NodesNamed(nodes) && SortOf(nodes, boundary, sorted) && Ids(nodes) !! boundary
    ensures Ids(sorted) == Ids(nodes) && Ordered(sorted)
  {
    SameIds(nodes, sorted);
    forall i, j | 0 <= i < j < |sorted|
      ensures sorted[i].id != sorted[j].id
    {
      if sorted[i].id == sorted[j].id {
        OnceOnly(nodes, sorted, i, j);
      }
    }
    forall i, j | 0 <= i <= j < |sorted|
      ensures sorted[j].id !in sorted[i].inputs
    {
      var name := sorted[j].id;
      assert name in Ids(sorted);
      if name in sorted[i].inputs {
        NamedIds(nodes, name);
        assert IsEdge(name, boundary, Ids(nodes));
      }
    }
  }

  lemma NamedIds(nodes: seq<GraphNode>, name: string)
    requires NodesNamed(nodes) && name in Ids(nodes)
    ensures name != ""
  {
  }

  lemma SameIds(nodes: seq<GraphNode>, sorted: seq<GraphNode>)
    requires multiset(sorted) == multiset(nodes)
    ensures Ids(sorted) == Ids(nodes)
  {
    forall i | 0 <= i < |sorted|
      ensures sorted[i].id in Ids(nodes)
    {
      assert sorted[i] in multiset(nodes);
      var j :| 0 <= j < |nodes| && nodes[j] == sorted[i];
    }
    forall i | 0 <= i < |nodes|
      ensures nodes[i].id in Ids(sorted)
    {
      assert nodes[i] in multiset(sorted);
      var j :| 0 <= j < |sorted| && sorted[j] == nodes[i];
    }
  }

  lemma Twice(nodes: seq<GraphNode>, i: nat, j: nat)
    requires i < j < |nodes| && nodes[i] == nodes[j]
    ensures multiset(nodes)[nodes[i]] >= 2
  {
    var before, rest := nodes[..j], nodes[j..];
    assert nodes == before + rest;
    assert before[i] in multiset(before) && rest[0] in multiset(rest);
  }

  /** A permutation of nodes with distinct IDs has no ID twice. */
  lemma OnceOnly(nodes: seq<GraphNode>, sorted: seq<GraphNode>, i: nat, j: nat)
    requires UniqueIds(nodes) && multiset(sorted) == multiset(nodes)
    requires i < j < |sorted|
    ensures sorted[i].id != sorted[j].id
  {
    assert sorted[i] in multiset(nodes) && sorted[j] in multiset(nodes);
    var p :| 0 <= p < |nodes| && nodes[p] == sorted[i];
    var q :| 0 <= q < |nodes| && nodes[q] == sorted[j];
    OnceEach(nodes, nodes[p]);
    if sorted[i] == sorted[j] {
      Twice(sorted, i, j);
    }
  }

  /** Satisfying every node's equation does not depend on the order of the nodes. */
  lemma SolvesAnyOrder(m: Machine, a: seq<GraphNode>, b: seq<GraphNode>, v: Env)
    requires multiset(a) == multiset(b) && Solves(m, b, v)
    ensures Solves(m, a, v)
  {
    forall i | 0 <= i < |a|
      ensures a[i].id in v && v[a[i].id] == NodeValue(m, a[i], v)
    {
      assert a[i] in multiset(b);
      var j :| 0 <= j < |b| && b[j] == a[i];
    }
  }

  /** Any two execution orders of one graph compute the same value under every name. */
  lemma OrdersAgree(m: Machine, env: Env, nodes: seq<GraphNode>, boundary: set<string>, a: seq<GraphNode>, b: seq<GraphNode>)
    requires NodesNamed(nodes) && Ids(nodes) !! boundary && Ids(nodes) !! env.Keys
    requires SortOf(nodes, boundary, a) && SortOf(nodes, boundary, b)
    ensures Run(m, a, env) == Run(m, b, env)
  {
    SortIsOrdered(nodes, boundary, a);
    SortIsOrdered(nodes, boundary, b);
    var v := Run(m, b, env);
    hide Ordered, Solves, NodesNamed, Ids, Run;
    RunSolves(m, b, env);
    SolvesAnyOrder(m, a, b, v);
    SolutionUnique(m, a, env, v);
  }

  /** Reordering a graph that already was in execution order keeps every value. */
  lemma NormalizingKeepsValues(m: Machine, env: Env, nodes: seq<GraphNode>, boundary: set<string>, sorted: seq<GraphNode>)
    requires Ordered(nodes) && NodesNamed(nodes) && Ids(nodes) !! boundary && Ids(nodes) !! env.Keys
    requires SortOf(nodes, boundary, sorted)
    ensures Run(m, sorted, env) == Run(m, nodes, env)
  {
    forall i, name | 0 <= i < |nodes| && name in nodes[i].inputs && IsEdge(name, boundary, Ids(nodes))
      ensures name in Ids(nodes[..i])
    {
      var j :| 0 <= j < |nodes| && nodes[j].id == name;
      assert j < i;
      assert nodes[..i][j].id == name;
    }
    OrdersAgree(m, env, nodes, boundary, sorted, nodes);
  }
}
