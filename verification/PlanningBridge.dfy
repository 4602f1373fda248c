/** The bridge from a compiled graph to the planner: ports that producer and consumers share. */
module PlanningBridge {
  import opened Wrappers
  import opened GraphSemantics
  import GraphOrder
  import Planner
  import Streams

  type Port = Planner.Port

  datatype BridgeError = UndefinedProducer(node: string, slot: int, producer: string)

  /** The planner's nodes, and the port of every graph input and of every node's output. */
  datatype Bridge = Bridge(topology: seq<Planner.TopologyNode>, boundary: map<string, Port>, producer: map<string, Port>)

  predicate PlanningAliasOp(op: string) {
    op == "shape.view_as_heads" || op == "shape.merge_heads"
  }

  /** The output of the node is a view of its first input. */
  ghost predicate Aliases(node: GraphNode) {
    node.op in {"shape.view_as_heads", "shape.merge_heads"} && node.inputs != []
  }

  /** The port of a name: its producing node's, or the graph input's. */
  function PortOf(producer: map<string, Port>, boundary: map<string, Port>, name: string): Option<Port> {
    if name in producer then Some(producer[name])
    else if name in boundary then Some(boundary[name])
    else None
  }

  /** Ports below this bound are in use. */
  ghost predicate Bounded(b: Bridge, next: Port) {
    && (forall name | name in b.boundary :: b.boundary[name] < next)
    && (forall name | name in b.producer :: b.producer[name] < next)
  }

  /** The first `n` nodes are bridged: inputs share their producers' ports, outputs are new unless they alias. */
  ghost predicate BridgedTo(nodes: seq<GraphNode>, inputs: seq<string>, b: Bridge, n: int) {
    && 0 <= n <= |nodes| && |b.topology| == n
    && b.boundary.Keys == GraphOrder.BoundaryInputs(inputs)
    && b.producer.Keys == Ids(nodes[..n])
    && (forall x, y | x in b.boundary && y in b.boundary && x != y :: b.boundary[x] != b.boundary[y])
    && (forall i | 0 <= i < n :: NodeBridged(nodes, b, i))
  }

  /** Nodes before `i` and graph inputs are what node `i` can read. */
  ghost predicate ReadsFrom(nodes: seq<GraphNode>, b: Bridge, i: int, name: string, port: Port)
    requires 0 <= i <= |nodes|
  {
    if name in Ids(nodes[..i]) then name in b.producer && port == b.producer[name]
    else name in b.boundary && port == b.boundary[name]
  }

  ghost predicate NodeBridged(nodes: seq<GraphNode>, b: Bridge, i: int)
    requires 0 <= i < |nodes| && i < |b.topology|
  {
    var node, bridged := nodes[i], b.topology[i];
    && |bridged.inputs| == |node.inputs|
    && (forall k | 0 <= k < |node.inputs| :: ReadsFrom(nodes, b, i, node.inputs[k], bridged.inputs[k]))
    && node.id in b.producer && bridged.outputs == [b.producer[node.id]]
    && if Aliases(node) then b.producer[node.id] == bridged.inputs[0] else NewPort(nodes, b, i)
  }

  /** The output port of node `i` is no graph input's and no earlier node's. */
  ghost predicate NewPort(nodes: seq<GraphNode>, b: Bridge, i: int)
    requires 0 <= i < |nodes| && nodes[i].id in b.producer
  {
    && (forall name | name in b.boundary :: b.boundary[name] != b.producer[nodes[i].id])
    && (forall j | 0 <= j < i && nodes[j].id in b.producer :: b.producer[nodes[j].id] != b.producer[nodes[i].id])
  }

  /** Every input names a graph input or an earlier node. */
  ghost predicate Resolvable(nodes: seq<GraphNode>, boundary: set<string>) {
    forall i, name | 0 <= i < |nodes| && name in nodes[i].inputs :: name in boundary || name in Ids(nodes[..i])
  }

  method BoundaryPorts(inputs: seq<string>) returns (boundary: map<string, Port>, next: Port)
    ensures boundary.Keys == GraphOrder.BoundaryInputs(inputs)
    ensures forall name | name in boundary :: boundary[name] < next
    ensures forall x, y | x in boundary && y in boundary && x != y :: boundary[x] != boundary[y]
  {
    boundary, next := map[], 0;
    for i := 0 to |inputs|
      invariant boundary.Keys == GraphOrder.BoundaryInputs(inputs[..i])
      invariant forall name | name in boundary :: boundary[name] < next
      invariant forall x, y | x in boundary && y in boundary && x != y :: boundary[x] != boundary[y]
    {
      assert inputs[..i + 1] == inputs[..i] + [inputs[i]];
      if inputs[i] != "" {
        boundary := boundary[inputs[i] := next];
        next := next + 1;
      }
    }
    assert inputs[..|inputs|] == inputs;
  }

  method ResolveInputs(node: GraphNode, producer: map<string, Port>, boundary: map<string, Port>)
    returns (error: Option<BridgeError>, ports: seq<Port>)
    ensures error.None? <==> forall name | name in node.inputs :: name in producer || name in boundary
    ensures error.None? ==> |ports| == |node.inputs|
    ensures error.None? ==> forall k | 0 <= k < |ports| :: PortOf(producer, boundary, node.inputs[k]) == Some(ports[k])
  {
    ports := [];
    for k := 0 to |node.inputs|
      invariant |ports| == k
      invariant forall j | 0 <= j < k :: PortOf(producer, boundary, node.inputs[j]) == Some(ports[j])
    {
      var port := PortOf(producer, boundary, node.inputs[k]);
      if port.None? {
        assert node.inputs[k] in node.inputs;
        return Some(UndefinedProducer(node.id, k, node.inputs[k])), ports;
      }
      ports := ports + [port.value];
    }
    return None, ports;
  }

  lemma BridgeNext(nodes: seq<GraphNode>, inputs: seq<string>, b: Bridge, n: nat, ports: seq<Port>, output: Port, next: Port)
    requires n < |nodes| && UniqueIds(nodes) && BridgedTo(nodes, inputs, b, n) && Bounded(b, next)
    requires |ports| == |nodes[n].inputs|
    requires forall k | 0 <= k < |ports| :: PortOf(b.producer, b.boundary, nodes[n].inputs[k]) == Some(ports[k])
    requires output == if Aliases(nodes[n]) then ports[0] else next
    ensures var after := Bridge(b.topology + [Planner.TopologyNode(ports, [output])], b.boundary,
                                b.producer[nodes[n].id := output]);
      BridgedTo(nodes, inputs, after, n + 1) && Bounded(after, next + 1)
  {
    var after := Bridge(b.topology + [Planner.TopologyNode(ports, [output])], b.boundary, b.producer[nodes[n].id := output]);
    assert nodes[..n + 1] == nodes[..n] + [nodes[n]];
    GraphOrder.IdsAppend(nodes[..n], nodes[n]);
    assert nodes[n].id !in Ids(nodes[..n]);
    forall i | 0 <= i < n
      ensures NodeBridged(nodes, after, i)
    {
      KeepsBridged(nodes, b, after, i, n);
    }
    LastBridged(nodes, inputs, b, after, n, ports, output, next);
  }

  lemma KeepsBridged(nodes: seq<GraphNode>, b: Bridge, after: Bridge, i: nat, n: nat)
    requires i < n < |nodes| && UniqueIds(nodes) && |b.topology| == n && NodeBridged(nodes, b, i)
    requires b.producer.Keys == Ids(nodes[..n]) && after.boundary == b.boundary
    requires |after.topology| == n + 1 && after.topology[i] == b.topology[i]
    requires after.producer.Keys == b.producer.Keys + {nodes[n].id}
    requires forall name | name in b.producer && name != nodes[n].id :: after.producer[name] == b.producer[name]
    ensures NodeBridged(nodes, after, i)
  {
    forall j | 0 <= j < n
      ensures nodes[j].id in b.producer && nodes[j].id != nodes[n].id
    {
      assert nodes[..n][j] == nodes[j];
    }
    forall name | name in Ids(nodes[..i])
      ensures name in b.producer && after.producer[name] == b.producer[name]
    {
      var j :| 0 <= j < i && nodes[..i][j].id == name;
      assert nodes[j].id == name;
    }
    forall k | 0 <= k < |nodes[i].inputs|
      ensures ReadsFrom(nodes, after, i, nodes[i].inputs[k], after.topology[i].inputs[k])
    {
      assert ReadsFrom(nodes, b, i, nodes[i].inputs[k], b.topology[i].inputs[k]);
    }
  }

  lemma LastBridged(nodes: seq<GraphNode>, inputs: seq<string>, b: Bridge, after: Bridge, n: nat, ports: seq<Port>,
                    output: Port, next: Port)
    requires n < |nodes| && UniqueIds(nodes) && BridgedTo(nodes, inputs, b, n) && Bounded(b, next)
    requires |ports| == |nodes[n].inputs|
    requires forall k | 0 <= k < |ports| :: PortOf(b.producer, b.boundary, nodes[n].inputs[k]) == Some(ports[k])
    requires output == if Aliases(nodes[n]) then ports[0] else next
    requires after == Bridge(b.topology + [Planner.TopologyNode(ports, [output])], b.boundary,
                             b.producer[nodes[n].id := output])
    ensures NodeBridged(nodes, after, n)
  {
    assert nodes[n].id !in Ids(nodes[..n]);
    forall k | 0 <= k < |nodes[n].inputs|
      ensures ReadsFrom(nodes, after, n, nodes[n].inputs[k], ports[k])
    {
      assert PortOf(b.producer, b.boundary, nodes[n].inputs[k]) == Some(ports[k]);
    }
    forall j | 0 <= j < n
      ensures nodes[j].id in b.producer && nodes[j].id != nodes[n].id
    {
      assert nodes[..n][j] == nodes[j];
    }
  }

  /** Builds the planner's topology. It fails exactly when some input is not defined before it is used. */
  method BuildPlanningTopology(nodes: seq<GraphNode>, inputs: seq<string>) returns (r: Result<Bridge, BridgeError>)
    requires UniqueIds(nodes)
    ensures r.Success? <==> Resolvable(nodes, GraphOrder.BoundaryInputs(inputs))
    ensures r.Success? ==> BridgedTo(nodes, inputs, r.value, |nodes|)
    ensures r.Success? ==> forall i | 0 <= i < |nodes| ::
      if nodes[i].op in {"shape.view_as_heads", "shape.merge_heads"} && nodes[i].inputs != []
      then r.value.topology[i].inputs != [] && r.value.topology[i].outputs == [r.value.topology[i].inputs[0]]
      else |r.value.topology[i].outputs| == 1 && IsNewPort(r.value, i, r.value.topology[i].outputs[0])
  {
    var boundary, next := BoundaryPorts(inputs);
    var b := Bridge([], boundary, map[]);
    assert Ids(nodes[..0]) == {};
    for n := 0 to |nodes|
      invariant BridgedTo(nodes, inputs, b, n) && Bounded(b, next)
      invariant forall i, name | 0 <= i < n && name in nodes[i].inputs ::
        name in GraphOrder.BoundaryInputs(inputs) || name in Ids(nodes[..i])
    {
      hide NodeBridged, GraphOrder.BoundaryInputs;
      var error, ports := ResolveInputs(nodes[n], b.producer, b.boundary);
      if error.Some? {
        return Failure(error.value);
      }
      var output := if PlanningAliasOp(nodes[n].op) && |nodes[n].inputs| > 0 then ports[0] else next;
      BridgeNext(nodes, inputs, b, n, ports, output, next);
      b := Bridge(b.topology + [Planner.TopologyNode(ports, [output])], b.boundary, b.producer[nodes[n].id := output]);
      next := next + 1;
    }
    OutputsBridged(nodes, inputs, b);
    return Success(b);
  }

  /** No graph input and no earlier node of the topology has the port. */
  ghost predicate IsNewPort(b: Bridge, i: int, port: Port)
    requires 0 <= i < |b.topology|
  {
    && (forall name | name in b.boundary :: b.boundary[name] != port)
    && (forall j | 0 <= j < i :: port !in b.topology[j].outputs)
  }

  /** Views take their first input's port; every other node's port is new. */
  lemma OutputsBridged(nodes: seq<GraphNode>, inputs: seq<string>, b: Bridge)
    requires BridgedTo(nodes, inputs, b, |nodes|)
    ensures forall i | 0 <= i < |nodes| ::
      if nodes[i].op in {"shape.view_as_heads", "shape.merge_heads"} && nodes[i].inputs != []
      then b.topology[i].inputs != [] && b.topology[i].outputs == [b.topology[i].inputs[0]]
      else |b.topology[i].outputs| == 1 && IsNewPort(b, i, b.topology[i].outputs[0])
  {
    forall i | 0 <= i < |nodes|
      ensures if nodes[i].op in {"shape.view_as_heads", "shape.merge_heads"} && nodes[i].inputs != []
        then b.topology[i].inputs != [] && b.topology[i].outputs == [b.topology[i].inputs[0]]
        else |b.topology[i].outputs| == 1 && IsNewPort(b, i, b.topology[i].outputs[0])
    {
      assert NodeBridged(nodes, b, i);
      if !Aliases(nodes[i]) {
        forall j | 0 <= j < i
          ensures b.topology[i].outputs[0] !in b.topology[j].outputs
        {
          assert NodeBridged(nodes, b, j);
        }
      }
    }
  }

  // ----- what the planner and the scheduler rely on

  lemma OutputsDiffer(nodes: seq<GraphNode>, inputs: seq<string>, b: Bridge, s: nat, t: nat)
    requires BridgedTo(nodes, inputs, b, |nodes|) && s < t < |nodes| && !Aliases(nodes[t])
    ensures |b.topology[s].outputs| == 1 && |b.topology[t].outputs| == 1
    ensures b.topology[s].outputs[0] != b.topology[t].outputs[0]
  {
    assert NodeBridged(nodes, b, s) && NodeBridged(nodes, b, t);
  }

  /** A port a node reads belongs to an earlier node or to a graph input. */
  lemma InputOrigin(nodes: seq<GraphNode>, inputs: seq<string>, b: Bridge, t: nat, p: Port) returns (s: int)
    requires BridgedTo(nodes, inputs, b, |nodes|) && t < |nodes| && p in b.topology[t].inputs
    ensures -1 <= s < t
    ensures s >= 0 ==> b.topology[s].outputs == [p]
    ensures s < 0 ==> exists name | name in b.boundary :: b.boundary[name] == p
  {
    assert NodeBridged(nodes, b, t);
    var k :| 0 <= k < |b.topology[t].inputs| && b.topology[t].inputs[k] == p;
    var name := nodes[t].inputs[k];
    assert ReadsFrom(nodes, b, t, name, p);
    if name in Ids(nodes[..t]) {
      s :| 0 <= s < t && nodes[..t][s].id == name;
      assert NodeBridged(nodes, b, s);
    } else {
      s := -1;
    }
  }

  lemma SameProducer(nodes: seq<GraphNode>, inputs: seq<string>, b: Bridge, s: nat, t: nat, p: Port)
    requires BridgedTo(nodes, inputs, b, |nodes|) && s < |nodes| && t < |nodes|
    requires !Aliases(nodes[s]) && !Aliases(nodes[t])
    requires b.topology[s].outputs == b.topology[t].outputs == [p]
    ensures s == t
  {
    if s < t {
      OutputsDiffer(nodes, inputs, b, s, t);
    } else if t < s {
      OutputsDiffer(nodes, inputs, b, t, s);
    }
  }

  lemma OneOutput(nodes: seq<GraphNode>, inputs: seq<string>, b: Bridge, s: nat)
    requires BridgedTo(nodes, inputs, b, |nodes|) && s < |nodes|
    ensures |b.topology[s].outputs| == 1
    ensures !Aliases(nodes[s]) ==> forall name | name in b.boundary :: b.boundary[name] != b.topology[s].outputs[0]
  {
    assert NodeBridged(nodes, b, s);
  }

  lemma ReaderIsLater(nodes: seq<GraphNode>, inputs: seq<string>, b: Bridge, s: nat, t: nat, p: Port)
    requires BridgedTo(nodes, inputs, b, |nodes|) && forall i | 0 <= i < |nodes| :: !Aliases(nodes[i])
    requires s < |nodes| && t < |nodes| && p in b.topology[s].outputs && p in b.topology[t].inputs
    ensures s < t
  {
    OneOutput(nodes, inputs, b, s);
    var origin := InputOrigin(nodes, inputs, b, t, p);
    assert b.topology[s].outputs == [p];
    SameProducer(nodes, inputs, b, s, origin, p);
  }

  /** Without views each port has one producer, which comes before all its readers. */
  lemma BridgeHasSingleProducers(nodes: seq<GraphNode>, inputs: seq<string>, b: Bridge)
    requires BridgedTo(nodes, inputs, b, |nodes|)
    requires forall i | 0 <= i < |nodes| && nodes[i].op in {"shape.view_as_heads", "shape.merge_heads"} :: nodes[i].inputs == []
    ensures Planner.PortsSingleProducer(b.topology)
  {
    assert forall i | 0 <= i < |nodes| :: !Aliases(nodes[i]);
    forall s | 0 <= s < |nodes|
      ensures |b.topology[s].outputs| == 1
    {
      OneOutput(nodes, inputs, b, s);
    }
    hide BridgedTo, Aliases;
    BridgedLength(nodes, inputs, b);
    forall s, t, p | 0 <= s < |nodes| && 0 <= t < |nodes| && p in b.topology[s].outputs && p in b.topology[t].outputs
      ensures s == t
    {
      SameProducer(nodes, inputs, b, s, t, p);
    }
    forall s, t, p | 0 <= s < |nodes| && 0 <= t < |nodes| && p in b.topology[s].outputs && p in b.topology[t].inputs
      ensures s < t
    {
      ReaderIsLater(nodes, inputs, b, s, t, p);
    }
  }

  lemma BridgedLength(nodes: seq<GraphNode>, inputs: seq<string>, b: Bridge)
    requires BridgedTo(nodes, inputs, b, |nodes|)
    ensures |b.topology| == |nodes|
  {
  }

  /** The scheduler's view of a planned node: its ports, and nothing assigned yet. */
  ghost function Unscheduled(topology: seq<Planner.TopologyNode>): (r: seq<Streams.Node>)
    ensures |r| == |topology|
  {
    seq(|topology|, i requires 0 <= i < |topology| =>
      Streams.Node(topology[i].inputs, topology[i].outputs, 0, 0, []))
  }

  /** Such a topology is what the stream scheduler accepts. */
  lemma SingleProducersAreSchedulable(topology: seq<Planner.TopologyNode>, producerOf: map<Port, int>)
    requires Planner.PortsSingleProducer(topology) && Streams.ProducerIndex(Unscheduled(topology), producerOf)
    ensures Streams.Fresh(Unscheduled(topology), producerOf)
  {
    var nodes := Unscheduled(topology);
    forall i, j | Streams.Feeds(nodes, producerOf, j, i)
      ensures 0 <= j < i
    {
      var p :| p in nodes[i].inputs && p in producerOf && producerOf[p] == j;
      assert p in topology[j].outputs && p in topology[i].inputs;
    }
  }
}
