/** The scheduling graph: its validation, and the grouping of its nodes into execution layers. */
module Layers {
  import opened Wrappers
  import opened Digraph
  import opened Wiring

  datatype Node = Node(id: string, inputs: seq<string>)

  datatype DagError =
    | IdRequired
    | DuplicateNode(id: string)
    | InvalidInput(node: string)
    | UnknownDependency(node: string, input: string)
    | CycleDetected

  type NodeIndex = map<string, Node>

  ghost function Ids(nodes: seq<Node>): set<string> {
    set i | 0 <= i < |nodes| :: nodes[i].id
  }

  /** The dependency relation of the nodes. */
  ghost function Dependencies(nodes: seq<Node>): Deps {
    if nodes == [] then map[]
    else
      var n := |nodes| - 1;
      Dependencies(nodes[..n])[nodes[n].id := nodes[n].inputs]
  }

  ghost predicate Distinct(nodes: seq<Node>) {
    forall i, j | 0 <= i < j < |nodes| :: nodes[i].id != nodes[j].id
  }

  ghost predicate WellFormedInputs(nodes: seq<Node>) {
    forall i, name | 0 <= i < |nodes| && name in nodes[i].inputs :: name in Ids(nodes)
  }

  /** Nonempty, distinct IDs, and every input is a node of the graph. */
  ghost predicate WellFormed(nodes: seq<Node>) {
    && Distinct(nodes)
    && (forall i | 0 <= i < |nodes| :: nodes[i].id != "")
    && WellFormedInputs(nodes)
  }

  lemma {:induction false} DependenciesAt(nodes: seq<Node>)
    requires Distinct(nodes)
    ensures Dependencies(nodes).Keys == Ids(nodes)
    ensures forall i | 0 <= i < |nodes| ::
      nodes[i].id in Dependencies(nodes) && Dependencies(nodes)[nodes[i].id] == nodes[i].inputs
  {
    if nodes != [] {
      var n := |nodes| - 1;
      DependenciesAt(nodes[..n]);
      assert forall i | 0 <= i < n :: nodes[..n][i] == nodes[i];
    }
  }

  ghost predicate Indexes(byId: NodeIndex, nodes: seq<Node>) {
    && Distinct(nodes)
    && byId.Keys == Ids(nodes)
    && forall i | 0 <= i < |nodes| :: nodes[i].id in byId && byId[nodes[i].id] == nodes[i]
  }

  lemma IndexDependencies(byId: NodeIndex, nodes: seq<Node>)
    requires Indexes(byId, nodes)
    ensures Dependencies(nodes) == map id | id in byId :: byId[id].inputs
    ensures forall id | id in byId :: byId[id].id == id && byId[id] in nodes
  {
    DependenciesAt(nodes);
    forall id | id in byId
      ensures byId[id].id == id && byId[id] in nodes && Dependencies(nodes)[id] == byId[id].inputs
    {
      var i :| 0 <= i < |nodes| && nodes[i].id == id;
    }
  }

  // ----- longest paths

  /** Some chain of `n` dependency steps starts at the node. */
  ghost predicate Deep(deps: Deps, id: string, n: nat) {
    exists path :: IsPath(deps, path) && path[0] == id && |path| == n + 1
  }

  /** The longest chain of dependencies that starts at the node has exactly `n` steps. */
  ghost predicate Longest(deps: Deps, id: string, n: nat) {
    && Deep(deps, id, n)
    && forall path | IsPath(deps, path) && path[0] == id :: |path| <= n + 1
  }

  lemma PathCons(deps: Deps, a: string, path: seq<string>)
    requires IsPath(deps, path) && a in deps && path[0] in deps[a]
    ensures IsPath(deps, [a] + path)
  {
    var longer := [a] + path;
    forall i | 0 <= i < |longer| - 1
      ensures longer[i + 1] in deps[longer[i]]
    {
      if i > 0 {
        assert longer[i] == path[i - 1] && longer[i + 1] == path[i];
      }
    }
  }

  lemma DeepSelf(deps: Deps, id: string)
    requires id in deps
    ensures Deep(deps, id, 0)
  {
    assert IsPath(deps, [id]);
  }

  lemma DeepStep(deps: Deps, a: string, b: string, n: nat)
    requires a in deps && b in deps[a] && Deep(deps, b, n)
    ensures Deep(deps, a, n + 1)
  {
    var path :| IsPath(deps, path) && path[0] == b && |path| == n + 1;
    PathCons(deps, a, path);
    assert ([a] + path)[0] == a;
  }

  lemma LongestFalls(deps: Deps, a: string, b: string, n: nat, k: nat)
    requires a in deps && b in deps[a] && Longest(deps, a, n) && Longest(deps, b, k)
    ensures k < n
  {
    DeepStep(deps, a, b, k);
  }

  /** Dependencies that all have shorter longest chains bound the node's own. */
  lemma BoundedByDependencies(deps: Deps, id: string, n: nat)
    requires id in deps
    requires forall b | b in deps[id] :: exists k: nat :: k < n && Longest(deps, b, k)
    ensures forall path | IsPath(deps, path) && path[0] == id :: |path| <= n + 1
  {
    forall path | IsPath(deps, path) && path[0] == id
      ensures |path| <= n + 1
    {
      if |path| > 1 {
        assert path[0 + 1] in deps[path[0]];
        var k: nat :| k < n && Longest(deps, path[1], k);
        PathSlice(deps, path, 1, |path|);
        assert path[1..|path|][0] == path[1];
      }
    }
  }

  // ----- the layers

  /** Every node of layer `k` is a node of the graph whose longest chain has `k` steps, and no node comes twice. */
  ghost predicate Layered(byId: NodeIndex, deps: Deps, layers: seq<seq<Node>>) {
    && (forall k, i | 0 <= k < |layers| && 0 <= i < |layers[k]| ::
          && layers[k][i].id in byId && byId[layers[k][i].id] == layers[k][i]
          && Longest(deps, layers[k][i].id, k))
    && (forall k | 0 <= k < |layers| :: layers[k] != [] && Distinct(layers[k]))
  }

  ghost predicate InLayer(layers: seq<seq<Node>>, id: string) {
    exists k, i | 0 <= k < |layers| && 0 <= i < |layers[k]| :: layers[k][i].id == id
  }

  /** What is scheduled is what is in a layer, and everything else is at least as deep as the next layer. */
  ghost predicate Scheduled(byId: NodeIndex, deps: Deps, layers: seq<seq<Node>>, finished: set<string>) {
    && Layered(byId, deps, layers)
    && finished <= byId.Keys && deps.Keys == byId.Keys
    && (forall id | id in byId :: id in finished <==> InLayer(layers, id))
    && (forall id | id in byId && id !in finished :: Deep(deps, id, |layers|))
  }

  /** The next layer: every unfinished node with nothing left to wait for, in some order. */
  ghost predicate NextLayer(byId: NodeIndex, deps: Deps, finished: set<string>, layer: seq<Node>) {
    && Distinct(layer)
    && (forall i | 0 <= i < |layer| :: layer[i].id in byId && byId[layer[i].id] == layer[i])
    && (forall id | id in byId ::
          id in Ids(layer) <==> id !in finished && id in deps && Open(deps[id], finished) == 0)
  }

  lemma LayerDependencies(byId: NodeIndex, deps: Deps, layers: seq<seq<Node>>, finished: set<string>, id: string)
    requires Scheduled(byId, deps, layers, finished) && id in deps && Open(deps[id], finished) == 0
    requires forall b | b in deps[id] :: b in byId
    ensures forall b | b in deps[id] :: exists k: nat :: k < |layers| && Longest(deps, b, k)
  {
    OpenZero(deps[id], finished);
    forall b | b in deps[id]
      ensures exists k: nat :: k < |layers| && Longest(deps, b, k)
    {
      assert InLayer(layers, b);
      var k, i :| 0 <= k < |layers| && 0 <= i < |layers[k]| && layers[k][i].id == b;
      assert Longest(deps, layers[k][i].id, k);
    }
  }

  lemma LayerIsLongest(byId: NodeIndex, deps: Deps, layers: seq<seq<Node>>, finished: set<string>, layer: seq<Node>)
    requires Scheduled(byId, deps, layers, finished) && NextLayer(byId, deps, finished, layer)
    requires forall a, b | a in deps && b in deps[a] :: b in byId
    ensures forall i | 0 <= i < |layer| :: Longest(deps, layer[i].id, |layers|)
  {
    forall i | 0 <= i < |layer|
      ensures Longest(deps, layer[i].id, |layers|)
    {
      var id := layer[i].id;
      assert id in Ids(layer);
      LayerDependencies(byId, deps, layers, finished, id);
      BoundedByDependencies(deps, id, |layers|);
    }
  }

  lemma LeftIsDeeper(byId: NodeIndex, deps: Deps, layers: seq<seq<Node>>, finished: set<string>, layer: seq<Node>)
    requires Scheduled(byId, deps, layers, finished) && NextLayer(byId, deps, finished, layer)
    requires forall a, b | a in deps && b in deps[a] :: b in byId
    ensures forall id | id in byId && id !in finished + Ids(layer) :: Deep(deps, id, |layers| + 1)
  {
    forall id | id in byId && id !in finished + Ids(layer)
      ensures Deep(deps, id, |layers| + 1)
    {
      OpenZero(deps[id], finished);
      var b :| b in deps[id] && b !in finished;
      DeepStep(deps, id, b, |layers|);
    }
  }

  lemma InLayerAppend(layers: seq<seq<Node>>, layer: seq<Node>, id: string)
    ensures InLayer(layers + [layer], id) <==> InLayer(layers, id) || id in Ids(layer)
  {
    var longer: seq<seq<Node>> := layers + [layer];
    if InLayer(layers, id) {
      var k, i :| 0 <= k < |layers| && 0 <= i < |layers[k]| && layers[k][i].id == id;
      assert longer[k][i].id == id;
    }
    if id in Ids(layer) {
      var i :| 0 <= i < |layer| && layer[i].id == id;
      assert longer[|layers|][i].id == id;
    }
  }

  lemma LayeredAppend(byId: NodeIndex, deps: Deps, layers: seq<seq<Node>>, layer: seq<Node>)
    requires Layered(byId, deps, layers) && layer != [] && Distinct(layer)
    requires forall i | 0 <= i < |layer| :: layer[i].id in byId && byId[layer[i].id] == layer[i]
    requires forall i | 0 <= i < |layer| :: Longest(deps, layer[i].id, |layers|)
    ensures Layered(byId, deps, layers + [layer])
  {
    hide Longest, Distinct;
  }

  lemma ScheduleLayer(byId: NodeIndex, deps: Deps, layers: seq<seq<Node>>, finished: set<string>, layer: seq<Node>)
    requires Scheduled(byId, deps, layers, finished) && NextLayer(byId, deps, finished, layer) && layer != []
    requires forall a, b | a in deps && b in deps[a] :: b in byId
    ensures Scheduled(byId, deps, layers + [layer], finished + Ids(layer))
  {
    LayerIsLongest(byId, deps, layers, finished, layer);
    LeftIsDeeper(byId, deps, layers, finished, layer);
    hide Longest, Deep, InLayer, Open;
    LayeredAppend(byId, deps, layers, layer);
    hide Layered;
    forall id | id in byId
      ensures id in finished + Ids(layer) <==> InLayer(layers + [layer], id)
    {
      InLayerAppend(layers, layer, id);
    }
  }

  /** An empty layer with work left means a cycle. */
  lemma EmptyLayerIsStuck(byId: NodeIndex, deps: Deps, finished: set<string>, left: string)
    requires NextLayer(byId, deps, finished, []) && deps.Keys == byId.Keys
    requires forall a, b | a in deps && b in deps[a] :: b in byId
    requires left in byId && left !in finished
    ensures HasCycle(deps)
  {
    var remaining := deps.Keys - finished;
    forall a | a in remaining
      ensures NeedsOneOf(deps, remaining, a)
    {
      OpenZero(deps[a], finished);
      var b :| b in deps[a] && b !in finished;
      assert b in remaining;
    }
    assert left in remaining;
    StuckHasCycle(deps, remaining);
  }

  lemma LayersAreAcyclic(byId: NodeIndex, deps: Deps, layers: seq<seq<Node>>)
    requires Scheduled(byId, deps, layers, byId.Keys)
    requires forall a, b | a in deps && b in deps[a] :: b in byId
    ensures Acyclic(deps)
  {
    forall id | id in deps
      ensures exists k: nat :: Longest(deps, id, k)
    {
      assert InLayer(layers, id);
      var k, i :| 0 <= k < |layers| && 0 <= i < |layers[k]| && layers[k][i].id == id;
      assert Longest(deps, layers[k][i].id, k);
    }
    hide Scheduled;
    MeasuredIsAcyclic(deps);
  }

  lemma MeasuredIsAcyclic(deps: Deps)
    requires forall id | id in deps :: exists k: nat :: Longest(deps, id, k)
    requires forall a, b | a in deps && b in deps[a] :: b in deps
    ensures Acyclic(deps)
  {
    var rank: map<string, int> := map id | id in deps :: (var k: nat :| Longest(deps, id, k); k);
    forall a, b | a in deps && b in deps[a]
      ensures a in rank && b in rank && rank[b] < rank[a]
    {
      LongestFalls(deps, a, b, rank[a], rank[b]);
    }
    RankedIsAcyclic(deps, rank);
  }

  /**
   The layers partition the nodes, and the layer of a node is the length of its longest
   dependency chain.
   */
  ghost predicate ExactLayers(nodes: seq<Node>, layers: seq<seq<Node>>) {
    && (forall k, i | 0 <= k < |layers| && 0 <= i < |layers[k]| ::
          layers[k][i] in nodes && Longest(Dependencies(nodes), layers[k][i].id, k))
    && (forall k | 0 <= k < |layers| :: layers[k] != [] && Distinct(layers[k]))
    && (forall i | 0 <= i < |nodes| :: InLayer(layers, nodes[i].id))
  }

  // ----- indexing

  /** What is wrong with the graph when this error is reported. */
  ghost predicate Explains(error: DagError, nodes: seq<Node>) {
    match error
    case IdRequired => exists i | 0 <= i < |nodes| :: nodes[i].id == ""
    case DuplicateNode(id) => exists i, j | 0 <= i < j < |nodes| :: nodes[i].id == id && nodes[j].id == id
    case InvalidInput(node) => exists i | 0 <= i < |nodes| :: nodes[i].id == node && "" in nodes[i].inputs
    case UnknownDependency(node, input) =>
      input !in Ids(nodes) && exists i | 0 <= i < |nodes| :: nodes[i].id == node && input in nodes[i].inputs
    case CycleDetected => HasCycle(Dependencies(nodes))
  }

  function Degrees(byId: NodeIndex): map<string, int> {
    map id | id in byId :: |byId[id].inputs|
  }

  /** The first `i` nodes have their dependencies wired, the others none yet. */
  ghost predicate WiredTo(nodes: seq<Node>, wired: Deps, i: int) {
    && wired.Keys == Ids(nodes)
    && (forall j | 0 <= j < |nodes| :: nodes[j].id in wired)
    && (forall j | 0 <= j < |nodes| :: wired[nodes[j].id] == if j < i then nodes[j].inputs else [])
  }

  lemma WiredToStart(nodes: seq<Node>, wired: Deps, inDegree: map<string, int>)
    requires wired == map id | id in Ids(nodes) :: []
    requires inDegree == map id | id in Ids(nodes) :: 0
    ensures WiredTo(nodes, wired, 0) && Wired(wired, inDegree, map[])
  {
    WireNothing(wired, inDegree);
  }

  lemma WiredToNext(nodes: seq<Node>, wired: Deps, i: nat)
    requires Distinct(nodes) && i < |nodes| && WiredTo(nodes, wired, i)
    ensures WiredTo(nodes, wired[nodes[i].id := nodes[i].inputs], i + 1)
    ensures nodes[i].id in wired && wired[nodes[i].id] == []
  {
  }

  lemma WiredToDependencies(nodes: seq<Node>, wired: Deps)
    requires Distinct(nodes) && WiredTo(nodes, wired, |nodes|)
    ensures wired == Dependencies(nodes)
  {
    DependenciesAt(nodes);
    forall id | id in wired
      ensures id in Dependencies(nodes) && wired[id] == Dependencies(nodes)[id]
    {
      var i :| 0 <= i < |nodes| && nodes[i].id == id;
    }
  }

  lemma WiredToAll(nodes: seq<Node>, byId: NodeIndex, wired: Deps, inDegree: map<string, int>,
                   users: map<string, seq<string>>)
    requires Indexes(byId, nodes) && WiredTo(nodes, wired, |nodes|) && Wired(wired, inDegree, users)
    ensures Wired(Dependencies(nodes), Degrees(byId), users)
  {
    WiredToDependencies(nodes, wired);
    IndexDependencies(byId, nodes);
    hide Indexes, WiredTo, Dependencies;
    WiredCounts(wired, inDegree, users);
    assert inDegree == Degrees(byId);
  }

  lemma RepeatedNode(nodes: seq<Node>, i: nat)
    requires i < |nodes| && nodes[i].id in Ids(nodes[..i])
    ensures !Distinct(nodes) && exists j | 0 <= j < i :: nodes[j].id == nodes[i].id
  {
    var j :| 0 <= j < i && nodes[..i][j].id == nodes[i].id;
    assert nodes[j].id == nodes[i].id;
  }

  lemma DistinctNext(nodes: seq<Node>, i: nat)
    requires i < |nodes| && Distinct(nodes[..i]) && nodes[i].id !in Ids(nodes[..i])
    ensures Distinct(nodes[..i + 1])
  {
    assert forall k | 0 <= k < i :: nodes[..i][k].id in Ids(nodes[..i]);
    assert forall k | 0 <= k < i :: nodes[..i][k] == nodes[..i + 1][k];
  }

  method IndexNodes(nodes: seq<Node>) returns (r: Result<NodeIndex, DagError>)
    ensures r.Success? <==> Distinct(nodes) && forall i | 0 <= i < |nodes| :: nodes[i].id != ""
    ensures r.Success? ==> Indexes(r.value, nodes)
    ensures r.Failure? ==> Explains(r.error, nodes) && !r.error.CycleDetected?
  {
    var byId: NodeIndex := map[];
    for i := 0 to |nodes|
      invariant byId.Keys == Ids(nodes[..i])
      invariant Distinct(nodes[..i])
      invariant forall j | 0 <= j < i :: nodes[j].id != "" && nodes[j].id in byId && byId[nodes[j].id] == nodes[j]
    {
      var node := nodes[i];
      if node.id == "" {
        return Failure(IdRequired);
      }
      if node.id in byId {
        RepeatedNode(nodes, i);
        return Failure(DuplicateNode(node.id));
      }
      byId := byId[node.id := node];
      hide Ids, Distinct;
      IdsNext(nodes, i);
      DistinctNext(nodes, i);
    }
    assert nodes[..|nodes|] == nodes;
    return Success(byId);
  }

  lemma IdsNext(nodes: seq<Node>, i: nat)
    requires i < |nodes|
    ensures Ids(nodes[..i + 1]) == Ids(nodes[..i]) + {nodes[i].id}
  {
    assert nodes[..i + 1][i] == nodes[i];
    forall j | 0 <= j < i
      ensures nodes[..i + 1][j] == nodes[..i][j]
    {
    }
  }

  ghost predicate GoodInputs(node: Node, ids: set<string>) {
    forall name | name in node.inputs :: name != "" && name in ids
  }

  ghost predicate BadInput(node: Node, ids: set<string>, error: DagError) {
    || (error == InvalidInput(node.id) && "" in node.inputs)
    || (error.UnknownDependency? && error.node == node.id && error.input in node.inputs && error.input !in ids)
  }

  lemma BadInputExplains(nodes: seq<Node>, i: nat, error: DagError)
    requires i < |nodes| && (forall j | 0 <= j < |nodes| :: nodes[j].id != "")
    requires BadInput(nodes[i], Ids(nodes), error)
    ensures Explains(error, nodes) && !error.CycleDetected? && !WellFormed(nodes)
  {
    var name := if error.InvalidInput? then "" else error.input;
    assert name in nodes[i].inputs && name !in Ids(nodes);
    assert nodes[i].id == nodes[i].id;
  }

  lemma AllGood(nodes: seq<Node>)
    requires Distinct(nodes) && (forall i | 0 <= i < |nodes| :: nodes[i].id != "")
    requires forall i | 0 <= i < |nodes| :: GoodInputs(nodes[i], Ids(nodes))
    ensures WellFormed(nodes)
  {
    forall i, name | 0 <= i < |nodes| && name in nodes[i].inputs
      ensures name in Ids(nodes)
    {
      assert GoodInputs(nodes[i], Ids(nodes));
    }
  }

  /** Registers a node as a user of each of its inputs, which must all be nodes. */
  method WireInputs(node: Node, byId: NodeIndex, ghost wired: Deps, ghost inDegree: map<string, int>,
                    users: map<string, seq<string>>)
    returns (r: Result<map<string, seq<string>>, DagError>, ghost inDegreeAfter: map<string, int>)
    requires Wired(wired, inDegree, users) && node.id in wired && wired[node.id] == []
    ensures r.Success? <==> GoodInputs(node, byId.Keys)
    ensures r.Success? ==> Wired(wired[node.id := node.inputs], inDegreeAfter, r.value)
    ensures r.Failure? ==> BadInput(node, byId.Keys, r.error)
  {
    hide WiredWith, Wired, Successors;
    var usersAfter := users;
    inDegreeAfter := inDegree;
    WiredStart(wired, node.id, inDegree, users);
    var names := node.inputs;
    assert names[..0] == [];
    for k := 0 to |names|
      invariant node.id in inDegreeAfter
      invariant WiredWith(wired, node.id, names[..k], inDegreeAfter, usersAfter)
      invariant forall q | 0 <= q < k :: names[q] != "" && names[q] in byId
    {
      assert names[k] in node.inputs;
      if names[k] == "" {
        return Failure(InvalidInput(node.id)), inDegreeAfter;
      }
      if names[k] !in byId {
        return Failure(UnknownDependency(node.id, names[k])), inDegreeAfter;
      }
      WiredStep(wired, node.id, names[..k], inDegreeAfter, usersAfter, names[k]);
      assert names[..k + 1] == names[..k] + [names[k]];
      inDegreeAfter := inDegreeAfter[node.id := inDegreeAfter[node.id] + 1];
      usersAfter := usersAfter[names[k] := Successors(usersAfter, names[k]) + [node.id]];
    }
    assert names[..|names|] == names;
    WiredEnd(wired, node.id, names, inDegreeAfter, usersAfter);
    return Success(usersAfter), inDegreeAfter;
  }

  lemma IndexedNodes(byId: NodeIndex, nodes: seq<Node>)
    requires Indexes(byId, nodes)
    ensures Distinct(nodes) && byId.Keys == Ids(nodes)
  {
  }

  /** Lists the users of every node, once all inputs are known. */
  method WireAll(nodes: seq<Node>, byId: NodeIndex) returns (r: Result<map<string, seq<string>>, DagError>)
    requires Indexes(byId, nodes) && forall i | 0 <= i < |nodes| :: nodes[i].id != ""
    ensures r.Success? <==> WellFormed(nodes)
    ensures r.Success? ==> Wired(Dependencies(nodes), Degrees(byId), r.value)
    ensures r.Failure? ==> Explains(r.error, nodes) && !r.error.CycleDetected?
  {
    hide *;
    var users: map<string, seq<string>> := map[];
    ghost var wired: Deps := map id | id in Ids(nodes) :: [];
    ghost var inDegree: map<string, int> := map id | id in Ids(nodes) :: 0;
    WiredToStart(nodes, wired, inDegree);
    IndexedNodes(byId, nodes);
    for i := 0 to |nodes|
      invariant WiredTo(nodes, wired, i) && Wired(wired, inDegree, users)
      invariant forall j | 0 <= j < i :: GoodInputs(nodes[j], byId.Keys)
    {
      WiredToNext(nodes, wired, i);
      var next;
      ghost var degrees;
      next, degrees := WireInputs(nodes[i], byId, wired, inDegree, users);
      if next.Failure? {
        BadInputExplains(nodes, i, next.error);
        return Failure(next.error);
      }
      users, inDegree, wired := next.value, degrees, wired[nodes[i].id := nodes[i].inputs];
    }
    WiredToAll(nodes, byId, wired, inDegree, users);
    AllGood(nodes);
    return Success(users);
  }

  datatype GraphIndex = GraphIndex(nodes: NodeIndex, users: map<string, seq<string>>)

  method Index(nodes: seq<Node>) returns (r: Result<GraphIndex, DagError>)
    ensures r.Success? <==> WellFormed(nodes)
    ensures r.Success? ==> Indexes(r.value.nodes, nodes)
    ensures r.Success? ==> Wired(Dependencies(nodes), Degrees(r.value.nodes), r.value.users)
    ensures r.Failure? ==> Explains(r.error, nodes) && !r.error.CycleDetected?
  {
    hide Explains, Wired, Indexes, Dependencies, Degrees;
    var indexed := IndexNodes(nodes);
    if indexed.Failure? {
      return Failure(indexed.error);
    }
    var users := WireAll(nodes, indexed.value);
    if users.Failure? {
      return Failure(users.error);
    }
    return Success(GraphIndex(indexed.value, users.value));
  }

  // ----- layering

  /** The remaining counts are the full counts of the nodes not yet scheduled. */
  ghost predicate Remaining(remaining: map<string, int>, full: map<string, int>, finished: set<string>) {
    remaining.Keys == full.Keys - finished && forall s | s in remaining :: remaining[s] == full[s]
  }

  /** Collects, in any order, the nodes whose count is zero. */
  method CollectLayer(byId: NodeIndex, remaining: map<string, int>, ghost deps: Deps, ghost finished: set<string>)
    returns (layer: seq<Node>)
    requires deps.Keys == byId.Keys && remaining.Keys == byId.Keys - finished
    requires forall s | s in remaining :: remaining[s] == Open(deps[s], finished)
    requires forall s | s in byId :: byId[s].id == s
    ensures NextLayer(byId, deps, finished, layer)
  {
    hide Open;
    layer := [];
    var pending := remaining.Keys;
    while pending != {}
      invariant pending <= remaining.Keys && Distinct(layer)
      invariant forall i | 0 <= i < |layer| :: layer[i].id in byId && byId[layer[i].id] == layer[i]
      invariant forall id :: id in Ids(layer) <==> id in remaining && id !in pending && remaining[id] == 0
    {
      var id :| id in pending;
      pending := pending - {id};
      if remaining[id] == 0 {
        IdsAppend(layer, byId[id]);
        layer := layer + [byId[id]];
      }
    }
  }

  lemma IdsAppend(nodes: seq<Node>, node: Node)
    ensures Ids(nodes + [node]) == Ids(nodes) + {node.id}
  {
    var longer := nodes + [node];
    IdsNext(longer, |nodes|);
    assert longer[..|nodes|] == nodes && longer[..|nodes| + 1] == longer;
  }

  lemma ReleaseStep(deps: Deps, finished: set<string>, users: seq<string>, q: nat, remaining: map<string, int>,
                    full: map<string, int>)
    requires q < |users| && users[q] in deps && users[q] !in finished
    requires Counts(deps, finished, users[q..], full) && Remaining(remaining, full, finished)
    ensures users[q] in full && users[q] in remaining
    ensures Counts(deps, finished, users[q + 1..], full[users[q] := full[users[q]] - 1])
    ensures Remaining(remaining[users[q] := remaining[users[q]] - 1], full[users[q] := full[users[q]] - 1], finished)
  {
    assert users[q..][0] == users[q];
    assert users[q..][1..] == users[q + 1..];
    CountsStep(deps, finished, users[q..], full);
  }

  /** Takes one from the count of each user of a node just scheduled. */
  method ReleaseUsers(users: seq<string>, remaining: map<string, int>, ghost deps: Deps, ghost finished: set<string>,
                      ghost full: map<string, int>)
    returns (remainingAfter: map<string, int>, ghost fullAfter: map<string, int>)
    requires forall s | s in users :: s in deps && s !in finished
    requires Counts(deps, finished, users, full) && Remaining(remaining, full, finished)
    ensures Counts(deps, finished, [], fullAfter) && Remaining(remainingAfter, fullAfter, finished)
  {
    hide *;
    remainingAfter, fullAfter := remaining, full;
    assert users[0..] == users;
    for q := 0 to |users|
      invariant Counts(deps, finished, users[q..], fullAfter) && Remaining(remainingAfter, fullAfter, finished)
    {
      ReleaseStep(deps, finished, users, q, remainingAfter, fullAfter);
      fullAfter := fullAfter[users[q] := fullAfter[users[q]] - 1];
      remainingAfter := remainingAfter[users[q] := remainingAfter[users[q]] - 1];
    }
    assert users[|users|..] == [];
  }

  /** What is scheduled needs only what is scheduled. */
  ghost predicate Downward(deps: Deps, finished: set<string>) {
    forall a, b | a in finished && a in deps && b in deps[a] :: b in finished
  }

  /** The users of a node about to be scheduled are in no layer so far, nor in its own. */
  lemma UsersWait(byId: NodeIndex, deps: Deps, degrees: map<string, int>, users: map<string, seq<string>>,
                  finished: set<string>, layer: seq<Node>, q: nat)
    requires Wired(deps, degrees, users) && deps.Keys == byId.Keys
    requires NextLayer(byId, deps, finished, layer) && Downward(deps, finished) && q < |layer|
    ensures forall s | s in Successors(users, layer[q].id) :: s in deps && s !in finished + Ids(layer)
  {
    var id := layer[q].id;
    assert id in Ids(layer);
    forall s | s in Successors(users, id)
      ensures s in deps && s !in finished + Ids(layer)
    {
      assert multiset(Successors(users, id))[s] > 0;
      assert id in deps[s];
      OpenZero(deps[s], finished);
    }
  }

  lemma DownwardNext(byId: NodeIndex, deps: Deps, finished: set<string>, layer: seq<Node>)
    requires NextLayer(byId, deps, finished, layer) && Downward(deps, finished)
    ensures Downward(deps, finished + Ids(layer))
  {
    forall a, b | a in finished + Ids(layer) && a in deps && b in deps[a]
      ensures b in finished + Ids(layer)
    {
      if a !in finished {
        assert a in byId by {
          var i :| 0 <= i < |layer| && layer[i].id == a;
        }
        OpenZero(deps[a], finished);
      }
    }
  }

  // ----- the graph

  /** Between layers: what is scheduled, what is left, and the counts that are left. */
  ghost predicate BetweenLayers(byId: NodeIndex, deps: Deps, layers: seq<seq<Node>>, finished: set<string>,
                                remaining: map<string, int>, full: map<string, int>)
  {
    && Scheduled(byId, deps, layers, finished) && Downward(deps, finished)
    && Counts(deps, finished, [], full) && Remaining(remaining, full, finished)
  }

  /** The index of a graph that passed validation. */
  ghost predicate Indexed(byId: NodeIndex, deps: Deps, users: map<string, seq<string>>) {
    && deps.Keys == byId.Keys && Wired(deps, Degrees(byId), users)
    && (forall id | id in byId :: byId[id].id == id)
    && (forall a, b | a in deps && b in deps[a] :: b in byId)
  }

  lemma IndexedGraph(byId: NodeIndex, nodes: seq<Node>, users: map<string, seq<string>>)
    requires WellFormed(nodes) && Indexes(byId, nodes) && Wired(Dependencies(nodes), Degrees(byId), users)
    ensures Indexed(byId, Dependencies(nodes), users)
  {
    hide Wired;
    IndexDependencies(byId, nodes);
    forall a, b | a in byId && b in byId[a].inputs
      ensures b in byId
    {
      var i :| 0 <= i < |nodes| && nodes[i].id == a;
    }
  }

  lemma LayeringStarts(byId: NodeIndex, deps: Deps, users: map<string, seq<string>>)
    requires Indexed(byId, deps, users)
    ensures BetweenLayers(byId, deps, [], {}, Degrees(byId), Degrees(byId))
  {
    CountsStart(deps, Degrees(byId), users);
    forall id | id in byId
      ensures Deep(deps, id, 0)
    {
      DeepSelf(deps, id);
    }
    hide Deep, Longest, Counts;
  }

  /** Part of a layer has been scheduled. */
  ghost predicate WithinLayer(deps: Deps, finished: set<string>, layer: seq<Node>, q: int, remaining: map<string, int>,
                              full: map<string, int>)
  {
    && 0 <= q <= |layer|
    && Counts(deps, finished + Ids(layer[..q]), [], full)
    && Remaining(remaining, full, finished + Ids(layer[..q]))
  }

  lemma LayerStarts(byId: NodeIndex, deps: Deps, layers: seq<seq<Node>>, finished: set<string>, layer: seq<Node>,
                    remaining: map<string, int>, full: map<string, int>)
    requires BetweenLayers(byId, deps, layers, finished, remaining, full)
    ensures WithinLayer(deps, finished, layer, 0, remaining, full)
  {
    assert finished + Ids(layer[..0]) == finished;
  }

  lemma RemoveNode(byId: NodeIndex, deps: Deps, users: map<string, seq<string>>, finished: set<string>,
                   layer: seq<Node>, q: nat, remaining: map<string, int>, full: map<string, int>)
    requires Indexed(byId, deps, users) && NextLayer(byId, deps, finished, layer) && Downward(deps, finished)
    requires q < |layer| && WithinLayer(deps, finished, layer, q, remaining, full)
    ensures layer[q].id in byId
    ensures layer[q].id !in finished + Ids(layer[..q])
    ensures var now := finished + Ids(layer[..q + 1]);
      && now == finished + Ids(layer[..q]) + {layer[q].id}
      && Counts(deps, now, Successors(users, layer[q].id), full)
      && Remaining(remaining - {layer[q].id}, full, now)
      && forall s | s in Successors(users, layer[q].id) :: s in deps && s !in now
  {
    var id := layer[q].id;
    assert id in Ids(layer);
    IdsNext(layer, q);
    var before, now := finished + Ids(layer[..q]), finished + Ids(layer[..q + 1]);
    assert now == before + {id};
    assert forall j | 0 <= j < q :: layer[..q][j] == layer[j];
    assert id !in before;
    CountsFinish(deps, before, full, Degrees(byId), users, id);
    UsersWait(byId, deps, Degrees(byId), users, finished, layer, q);
    assert Ids(layer[..q + 1]) <= Ids(layer);
  }

  method ScheduleNodes(byId: NodeIndex, users: map<string, seq<string>>, layer: seq<Node>, remaining: map<string, int>,
                       ghost deps: Deps, ghost finished: set<string>, ghost full: map<string, int>)
    returns (remainingAfter: map<string, int>, scheduled: nat, ghost fullAfter: map<string, int>)
    requires Indexed(byId, deps, users) && NextLayer(byId, deps, finished, layer) && Downward(deps, finished)
    requires WithinLayer(deps, finished, layer, 0, remaining, full)
    ensures scheduled == |layer|
    ensures WithinLayer(deps, finished, layer, |layer|, remainingAfter, fullAfter)
  {
    hide *;
    remainingAfter, scheduled, fullAfter := remaining, 0, full;
    for q := 0 to |layer|
      invariant scheduled == q && WithinLayer(deps, finished, layer, q, remainingAfter, fullAfter)
    {
      RemoveNode(byId, deps, users, finished, layer, q, remainingAfter, fullAfter);
      remainingAfter := remainingAfter - {layer[q].id};
      scheduled := scheduled + 1;
      remainingAfter, fullAfter := ReleaseUsers(Successors(users, layer[q].id), remainingAfter, deps,
                                                finished + Ids(layer[..q + 1]), fullAfter);
      WithinNext(deps, finished, layer, q + 1, remainingAfter, fullAfter);
    }
  }

  lemma WithinNext(deps: Deps, finished: set<string>, layer: seq<Node>, q: nat, remaining: map<string, int>,
                   full: map<string, int>)
    requires q <= |layer| && Counts(deps, finished + Ids(layer[..q]), [], full)
    requires Remaining(remaining, full, finished + Ids(layer[..q]))
    ensures WithinLayer(deps, finished, layer, q, remaining, full)
  {
  }

  lemma LayerEnds(byId: NodeIndex, deps: Deps, users: map<string, seq<string>>, layers: seq<seq<Node>>,
                  finished: set<string>, layer: seq<Node>, remaining: map<string, int>, full: map<string, int>)
    requires Indexed(byId, deps, users) && Scheduled(byId, deps, layers, finished) && Downward(deps, finished)
    requires NextLayer(byId, deps, finished, layer) && layer != []
    requires WithinLayer(deps, finished, layer, |layer|, remaining, full)
    ensures BetweenLayers(byId, deps, layers + [layer], finished + Ids(layer), remaining, full)
    ensures |finished + Ids(layer)| == |finished| + |layer|
    ensures finished + Ids(layer) <= byId.Keys
  {
    assert layer[..|layer|] == layer;
    ScheduleLayer(byId, deps, layers, finished, layer);
    DownwardNext(byId, deps, finished, layer);
    assert finished !! Ids(layer);
    IdsCount(layer);
  }

  lemma {:induction false} IdsCount(nodes: seq<Node>)
    requires Distinct(nodes)
    ensures |Ids(nodes)| == |nodes|
  {
    if nodes == [] {
      assert Ids(nodes) == {};
    } else {
      var n := |nodes| - 1;
      IdsCount(nodes[..n]);
      IdsNext(nodes, n);
      assert nodes[..n + 1] == nodes;
      assert nodes[n].id !in Ids(nodes[..n]);
    }
  }

  lemma CountsLeft(byId: NodeIndex, deps: Deps, layers: seq<seq<Node>>, finished: set<string>,
                   remaining: map<string, int>, full: map<string, int>)
    requires BetweenLayers(byId, deps, layers, finished, remaining, full)
    ensures deps.Keys == byId.Keys && remaining.Keys == byId.Keys - finished
    ensures forall s | s in remaining :: remaining[s] == Open(deps[s], finished)
  {
  }

  lemma LayersExact(byId: NodeIndex, nodes: seq<Node>, layers: seq<seq<Node>>)
    requires Indexes(byId, nodes) && Scheduled(byId, Dependencies(nodes), layers, byId.Keys)
    ensures ExactLayers(nodes, layers)
  {
    IndexDependencies(byId, nodes);
    hide Longest, Dependencies, InLayer;
    forall k, i | 0 <= k < |layers| && 0 <= i < |layers[k]|
      ensures layers[k][i] in nodes && Longest(Dependencies(nodes), layers[k][i].id, k)
    {
    }
  }

  lemma AllScheduled(finished: set<string>, all: set<string>)
    requires finished <= all
    ensures |finished| <= |all|
    ensures |finished| < |all| ==> exists left :: left in all && left !in finished
    ensures |finished| == |all| ==> finished == all
  {
    assert all == finished + (all - finished);
    if finished != all {
      var left :| left in all && left !in finished;
    }
  }

  class ComputeGraph {
    var nodes: seq<Node>

    constructor ()
      ensures nodes == []
    {
      nodes := [];
    }

    method AddNode(node: Node)
      modifies this
      ensures nodes == old(nodes) + [node]
    {
      nodes := nodes + [node];
    }

    method Verify() returns (error: Option<DagError>)
      ensures error.None? <==> WellFormed(nodes)
      ensures error.Some? ==> Explains(error.value, nodes) && !error.value.CycleDetected?
    {
      var index := Index(nodes);
      return if index.Success? then None else Some(index.error);
    }

    /**
     Groups the nodes into execution layers. Layers exist exactly when the graph is
     well formed and has no cycle, whatever order each layer is collected in.
     */
    method TopologyLayers() returns (r: Result<seq<seq<Node>>, DagError>)
      ensures r.Success? <==> WellFormed(nodes) && Acyclic(Dependencies(nodes))
      ensures r.Success? ==> ExactLayers(nodes, r.value)
      ensures r.Failure? ==> Explains(r.error, nodes)
    {
      hide *;
      var index := Index(nodes);
      if index.Failure? {
        return Failure(index.error);
      }
      var byId, users := index.value.nodes, index.value.users;
      ghost var deps := Dependencies(nodes);
      IndexedGraph(byId, nodes, users);
      IndexFacts(byId, nodes, users);
      var remaining := Degrees(byId);
      ghost var full := remaining;
      ghost var finished: set<string> := {};
      var layers: seq<seq<Node>> := [];
      var scheduled := 0;
      LayeringStarts(byId, deps, users);
      while scheduled < |byId|
        invariant BetweenLayers(byId, deps, layers, finished, remaining, full)
        invariant scheduled == |finished| && finished <= byId.Keys
        decreases |byId| - scheduled
      {
        CountsLeft(byId, deps, layers, finished, remaining, full);
        var layer := CollectLayer(byId, remaining, deps, finished);
        AllScheduled(finished, byId.Keys);
        if |layer| == 0 {
          Stalled(byId, nodes, users, finished, layer);
          return Failure(CycleDetected);
        }
        LayerStarts(byId, deps, layers, finished, layer, remaining, full);
        Between(byId, deps, layers, finished, remaining, full);
        var count;
        remaining, count, full := ScheduleNodes(byId, users, layer, remaining, deps, finished, full);
        LayerEnds(byId, deps, users, layers, finished, layer, remaining, full);
        scheduled := scheduled + count;
        finished := finished + Ids(layer);
        layers := layers + [layer];
        AllScheduled(finished, byId.Keys);
      }
      AllScheduled(finished, byId.Keys);
      Between(byId, deps, layers, finished, remaining, full);
      LayersAreAcyclic(byId, deps, layers);
      LayersExact(byId, nodes, layers);
      return Success(layers);
    }
  }

  lemma IndexFacts(byId: NodeIndex, nodes: seq<Node>, users: map<string, seq<string>>)
    requires Indexed(byId, Dependencies(nodes), users)
    ensures forall id | id in byId :: byId[id].id == id
    ensures forall a, b | a in Dependencies(nodes) && b in Dependencies(nodes)[a] :: b in byId
    ensures Dependencies(nodes).Keys == byId.Keys
  {
  }

  lemma Between(byId: NodeIndex, deps: Deps, layers: seq<seq<Node>>, finished: set<string>,
                remaining: map<string, int>, full: map<string, int>)
    requires BetweenLayers(byId, deps, layers, finished, remaining, full)
    ensures Scheduled(byId, deps, layers, finished) && Downward(deps, finished)
  {
  }

  lemma Stalled(byId: NodeIndex, nodes: seq<Node>, users: map<string, seq<string>>, finished: set<string>, layer: seq<Node>)
    requires Indexed(byId, Dependencies(nodes), users) && NextLayer(byId, Dependencies(nodes), finished, layer)
    requires layer == [] && exists left :: left in byId && left !in finished
    ensures HasCycle(Dependencies(nodes)) && !Acyclic(Dependencies(nodes)) && Explains(CycleDetected, nodes)
  {
    var left :| left in byId && left !in finished;
    EmptyLayerIsStuck(byId, Dependencies(nodes), finished, left);
  }

  /** Nodes that share a layer do not depend on one another, directly or through others. */
  lemma LayerMembersIndependent(nodes: seq<Node>, layers: seq<seq<Node>>, k: nat, i: nat, j: nat, path: seq<string>)
    requires ExactLayers(nodes, layers) && k < |layers| && i < |layers[k]| && j < |layers[k]|
    requires IsPath(Dependencies(nodes), path) && |path| >= 2 && path[0] == layers[k][i].id
    ensures path[|path| - 1] != layers[k][j].id
  {
    var deps := Dependencies(nodes);
    var a, b := layers[k][i].id, layers[k][j].id;
    if path[|path| - 1] == b {
      assert Longest(deps, a, k) && Longest(deps, b, k);
      var tail :| IsPath(deps, tail) && tail[0] == b && |tail| == k + 1;
      PathJoin(deps, path, tail);
    }
  }

  lemma PathJoin(deps: Deps, path: seq<string>, tail: seq<string>)
    requires IsPath(deps, path) && IsPath(deps, tail) && path[|path| - 1] == tail[0]
    ensures IsPath(deps, path + tail[1..]) && |path + tail[1..]| == |path| + |tail| - 1
    ensures (path + tail[1..])[0] == path[0]
  {
    var joined := path + tail[1..];
    forall i | 0 <= i < |joined|
      ensures joined[i] in deps
    {
      assert joined[i] == if i < |path| then path[i] else tail[i - |path| + 1];
    }
    forall i | 0 <= i < |joined| - 1
      ensures joined[i + 1] in deps[joined[i]]
    {
      if i < |path| - 1 {
        assert joined[i] == path[i] && joined[i + 1] == path[i + 1];
      } else {
        assert joined[i] == tail[i - |path| + 1] && joined[i + 1] == tail[i - |path| + 1 + 1];
      }
    }
  }
}

