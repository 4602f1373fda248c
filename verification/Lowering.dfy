/** Lowering a recipe whose value names may be rebound to a graph keyed by producer IDs. */
module Lowering {
  import opened Wrappers
  import opened GraphSemantics
  import opened Digraph
  import Layers
  import GraphOrder

  datatype TopologyNode = TopologyNode(
    id: string,
    op: string,
    inputs: seq<string>,
    out: seq<string>,
    config: map<string, Attribute>)

  datatype Topology = Topology(inputs: seq<string>, outputs: map<string, string>, nodes: seq<TopologyNode>)

  datatype LowerError =
    | DuplicateInput(name: string)
    | NodeWithoutId
    | DuplicateNodeId(id: string)
    | UnknownValue(node: string, name: string)
    | UnknownOutput(output: string, name: string)

  /** The names that are not empty, in order. */
  ghost function Named(names: seq<string>): seq<string> {
    if names == [] then []
    else
      var n := |names| - 1;
      Named(names[..n]) + if names[n] == "" then [] else [names[n]]
  }

  /** Writes one value under every nonempty name. */
  ghost function WriteAll<T>(store: map<string, T>, names: seq<string>, value: T): map<string, T> {
    if names == [] then store
    else
      var n := |names| - 1;
      var before := WriteAll(store, names[..n], value);
      if names[n] == "" then before else before[names[n] := value]
  }

  // ----- what the recipe itself means: a store that nodes read and overwrite

  ghost function Reads(node: TopologyNode): GraphNode {
    GraphNode(node.id, node.op, Named(node.inputs), node.config)
  }

  /** Runs the recipe in order; each node writes its value under its ID and under all its out names. */
  ghost function Execute(m: Machine, nodes: seq<TopologyNode>, store: Env): Env {
    if nodes == [] then store
    else
      var n := |nodes| - 1;
      var before := Execute(m, nodes[..n], store);
      var value := NodeValue(m, Reads(nodes[n]), before);
      WriteAll(before[nodes[n].id := value], nodes[n].out, value)
  }

  // ----- the lowered form

  /** Which node or input last wrote each name. */
  ghost function Producers(inputs: seq<string>, nodes: seq<TopologyNode>): map<string, string> {
    if nodes == [] then map name | name in inputs && name != "" :: name
    else
      var n := |nodes| - 1;
      WriteAll(Producers(inputs, nodes[..n])[nodes[n].id := nodes[n].id], nodes[n].out, nodes[n].id)
  }

  ghost function Resolve(producers: map<string, string>, names: seq<string>): seq<string> {
    if names == [] then []
    else
      var n := |names| - 1;
      Resolve(producers, names[..n])
      + if names[n] == "" then [] else [if names[n] in producers then producers[names[n]] else ""]
  }

  ghost function LowerNode(producers: map<string, string>, node: TopologyNode): GraphNode {
    GraphNode(node.id, node.op, Resolve(producers, node.inputs), node.config)
  }

  ghost function LowerNodes(inputs: seq<string>, nodes: seq<TopologyNode>): (r: seq<GraphNode>)
    ensures |r| == |nodes|
  {
    if nodes == [] then []
    else
      var n := |nodes| - 1;
      LowerNodes(inputs, nodes[..n]) + [LowerNode(Producers(inputs, nodes[..n]), nodes[n])]
  }

  /** A fresh nonempty ID, and every value it reads already has a producer. */
  ghost predicate NodeLowerable(producers: map<string, string>, node: TopologyNode) {
    && node.id != "" && node.id !in producers
    && forall name | name in node.inputs :: name == "" || name in producers
  }

  ghost predicate NodesLowerable(inputs: seq<string>, nodes: seq<TopologyNode>) {
    nodes != [] ==>
      var n := |nodes| - 1;
      NodesLowerable(inputs, nodes[..n]) && NodeLowerable(Producers(inputs, nodes[..n]), nodes[n])
  }

  ghost predicate InputsDistinct(inputs: seq<string>) {
    forall i, j | 0 <= i < j < |inputs| && inputs[i] != "" :: inputs[i] != inputs[j]
  }

  ghost predicate OutputsLowerable(producers: map<string, string>, outputs: map<string, string>) {
    forall key | key in outputs && key != "" ::
      (outputs[key] == "" ==> key in producers) && (outputs[key] != "" ==> outputs[key] in producers)
  }

  /** Exactly the recipes that lower. */
  ghost predicate Lowerable(topology: Topology) {
    && InputsDistinct(topology.inputs)
    && NodesLowerable(topology.inputs, topology.nodes)
    && OutputsLowerable(Producers(topology.inputs, topology.nodes), topology.outputs)
  }

  // ----- facts about the small functions

  lemma {:induction false} WriteAllAt<T>(store: map<string, T>, names: seq<string>, value: T, name: string)
    ensures name in WriteAll(store, names, value) <==> name in store || (name in names && name != "")
    ensures name in names && name != "" ==> WriteAll(store, names, value)[name] == value
    ensures name in store && (name !in names || name == "") ==> WriteAll(store, names, value)[name] == store[name]
  {
    if names != [] {
      var n := |names| - 1;
      WriteAllAt(store, names[..n], value, name);
      assert names == names[..n] + [names[n]];
    }
  }

  /** Reading the store through names is reading the environment through their producers. */
  lemma {:induction false} ResolveReads(producers: map<string, string>, names: seq<string>, store: Env, env: Env)
    requires forall name | name in names && name != "" :: name in producers
    requires forall name | name in producers :: Lookup(store, name) == Lookup(env, producers[name])
    ensures |Resolve(producers, names)| == |Named(names)|
    ensures Gather(env, Resolve(producers, names)) == Gather(store, Named(names))
  {
    if names != [] {
      var n := |names| - 1;
      assert names == names[..n] + [names[n]];
      ResolveReads(producers, names[..n], store, env);
      GatherAppend(env, Resolve(producers, names[..n]), Resolve(producers, names)[|Resolve(producers, names[..n])|..]);
      GatherAppend(store, Named(names[..n]), Named(names)[|Named(names[..n])|..]);
      if names[n] != "" {
        assert Resolve(producers, names) == Resolve(producers, names[..n]) + [producers[names[n]]];
        assert Named(names) == Named(names[..n]) + [names[n]];
        GatherAppend(env, Resolve(producers, names[..n]), [producers[names[n]]]);
        GatherAppend(store, Named(names[..n]), [names[n]]);
        assert Gather(env, [producers[names[n]]]) == Gather(store, [names[n]]);
      }
    }
  }

  lemma GatherAppend(env: Env, a: seq<string>, b: seq<string>)
    ensures Gather(env, a + b) == Gather(env, a) + Gather(env, b)
  {
  }

  lemma {:induction false} ResolveAre(producers: map<string, string>, names: seq<string>, name: string)
    requires forall given | given in names && given != "" :: given in producers
    requires name in Resolve(producers, names)
    ensures exists given | given in names && given != "" :: given in producers && producers[given] == name
  {
    var n := |names| - 1;
    assert names == names[..n] + [names[n]];
    if name in Resolve(producers, names[..n]) {
      ResolveAre(producers, names[..n], name);
      var given :| given in names[..n] && given != "" && given in producers && producers[given] == name;
    } else {
      assert producers[names[n]] == name;
    }
  }

  /** A node's value depends on its ID, its operation, its attributes and its argument values alone. */
  lemma SameArguments(m: Machine, a: GraphNode, b: GraphNode, aEnv: Env, bEnv: Env)
    requires a.id == b.id && a.op == b.op && a.attributes == b.attributes && |a.inputs| == |b.inputs|
    requires Gather(aEnv, a.inputs) == Gather(bEnv, b.inputs)
    ensures NodeValue(m, a, aEnv) == NodeValue(m, b, bEnv)
  {
  }

  // ----- single assignment

  /** Every name is bound to one of the values, and each value stays reachable under its own name. */
  ghost predicate BoundTo(producers: map<string, string>, values: set<string>) {
    && (forall name | name in producers :: producers[name] in values)
    && (forall id | id in values :: id in producers && id != "")
  }

  /** Names are bound to the inputs and to the lowered nodes. */
  ghost predicate Bound(inputs: seq<string>, nodes: seq<TopologyNode>) {
    BoundTo(Producers(inputs, nodes), GraphOrder.BoundaryInputs(inputs) + Ids(LowerNodes(inputs, nodes)))
  }

  lemma LowerNext(inputs: seq<string>, nodes: seq<TopologyNode>)
    requires nodes != []
    ensures Ids(LowerNodes(inputs, nodes)) == Ids(LowerNodes(inputs, nodes[..|nodes| - 1])) + {nodes[|nodes| - 1].id}
  {
    var n := |nodes| - 1;
    GraphOrder.IdsAppend(LowerNodes(inputs, nodes[..n]), LowerNode(Producers(inputs, nodes[..n]), nodes[n]));
  }

  lemma {:induction false} LoweredBound(inputs: seq<string>, nodes: seq<TopologyNode>)
    requires NodesLowerable(inputs, nodes)
    ensures Bound(inputs, nodes)
  {
    if nodes == [] {
      assert Ids(LowerNodes(inputs, nodes)) == {};
    } else {
      var n := |nodes| - 1;
      LoweredBound(inputs, nodes[..n]);
      LowerNext(inputs, nodes);
      var values := GraphOrder.BoundaryInputs(inputs) + Ids(LowerNodes(inputs, nodes[..n]));
      hide BoundTo;
      BoundStep(Producers(inputs, nodes[..n]), values, nodes[n].id, nodes[n].out);
      assert values + {nodes[n].id} == GraphOrder.BoundaryInputs(inputs) + Ids(LowerNodes(inputs, nodes));
    }
  }

  lemma BoundStep(producers: map<string, string>, values: set<string>, id: string, out: seq<string>)
    requires BoundTo(producers, values) && id != ""
    ensures BoundTo(WriteAll(producers[id := id], out, id), values + {id})
  {
    var after := WriteAll(producers[id := id], out, id);
    forall name: string
      ensures name in after ==> after[name] in values + {id}
      ensures name in values + {id} ==> name in after && name != ""
    {
      WriteAllAt(producers[id := id], out, id, name);
    }
  }

  /** Lowered IDs are assigned once, never name an input, and nodes read only inputs and earlier IDs. */
  ghost predicate SingleAssignment(inputs: seq<string>, nodes: seq<GraphNode>) {
    && GraphOrder.NodesNamed(nodes)
    && Ids(nodes) !! GraphOrder.BoundaryInputs(inputs)
    && forall i, name | 0 <= i < |nodes| && name in nodes[i].inputs ::
      name in GraphOrder.BoundaryInputs(inputs) || name in Ids(nodes[..i])
  }

  lemma SingleAssignmentAppend(inputs: seq<string>, nodes: seq<GraphNode>, last: GraphNode)
    requires SingleAssignment(inputs, nodes) && last.id != "" && last.id !in Ids(nodes)
    requires last.id !in GraphOrder.BoundaryInputs(inputs)
    requires forall name | name in last.inputs :: name in GraphOrder.BoundaryInputs(inputs) || name in Ids(nodes)
    ensures SingleAssignment(inputs, nodes + [last])
  {
    var longer := nodes + [last];
    GraphOrder.IdsAppend(nodes, last);
    forall i, name | 0 <= i < |longer| && name in longer[i].inputs
      ensures name in GraphOrder.BoundaryInputs(inputs) || name in Ids(longer[..i])
    {
      if i < |nodes| {
        assert longer[..i] == nodes[..i];
      } else {
        assert longer[..i] == nodes;
      }
    }
  }

  lemma {:induction false} LoweringIsSingleAssignment(inputs: seq<string>, nodes: seq<TopologyNode>)
    requires NodesLowerable(inputs, nodes)
    ensures SingleAssignment(inputs, LowerNodes(inputs, nodes))
  {
    if nodes != [] {
      var n := |nodes| - 1;
      LoweringIsSingleAssignment(inputs, nodes[..n]);
      LoweredBound(inputs, nodes[..n]);
      var producers := Producers(inputs, nodes[..n]);
      var last := LowerNode(producers, nodes[n]);
      forall name | name in last.inputs
        ensures name in GraphOrder.BoundaryInputs(inputs) || name in Ids(LowerNodes(inputs, nodes[..n]))
      {
        ResolveAre(producers, nodes[n].inputs, name);
      }
      SingleAssignmentAppend(inputs, LowerNodes(inputs, nodes[..n]), last);
    }
  }

  lemma SingleAssignmentOrdered(inputs: seq<string>, nodes: seq<GraphNode>)
    requires SingleAssignment(inputs, nodes)
    ensures Ordered(nodes)
  {
    forall i, j | 0 <= i <= j < |nodes|
      ensures nodes[j].id !in nodes[i].inputs
    {
      LaterId(nodes, i, j);
    }
  }

  lemma LaterId(nodes: seq<GraphNode>, i: nat, j: nat)
    requires UniqueIds(nodes) && i <= j < |nodes|
    ensures nodes[j].id in Ids(nodes) && nodes[j].id !in Ids(nodes[..i])
  {
  }

  // ----- the simulation

  /** At every node, what the store holds under a name is what the name's producer computed. */
  ghost predicate Simulates(producers: map<string, string>, store: Env, env: Env) {
    && store.Keys == producers.Keys
    && forall name | name in producers :: producers[name] in env && store[name] == env[producers[name]]
  }

  lemma SimulationStep(producers: map<string, string>, store: Env, env: Env, id: string, out: seq<string>, value: Tensor)
    requires Simulates(producers, store, env) && id !in env
    ensures Simulates(WriteAll(producers[id := id], out, id), WriteAll(store[id := value], out, value), env[id := value])
  {
    var producersAfter, storeAfter := WriteAll(producers[id := id], out, id), WriteAll(store[id := value], out, value);
    forall name: string
      ensures name in producersAfter <==> name in storeAfter
      ensures name in producersAfter ==> producersAfter[name] in env[id := value]
      ensures name in producersAfter ==> storeAfter[name] == env[id := value][producersAfter[name]]
    {
      WriteAllAt(producers[id := id], out, id, name);
      WriteAllAt(store[id := value], out, value, name);
    }
  }

  lemma {:induction false} LoweringSimulates(m: Machine, inputs: seq<string>, nodes: seq<TopologyNode>, env: Env)
    requires NodesLowerable(inputs, nodes) && env.Keys == GraphOrder.BoundaryInputs(inputs)
    ensures Simulates(Producers(inputs, nodes), Execute(m, nodes, env), Run(m, LowerNodes(inputs, nodes), env))
  {
    if nodes != [] {
      var n := |nodes| - 1;
      var last := nodes[n];
      LoweringSimulates(m, inputs, nodes[..n], env);
      var producers := Producers(inputs, nodes[..n]);
      var store, run := Execute(m, nodes[..n], env), Run(m, LowerNodes(inputs, nodes[..n]), env);
      ResolveReads(producers, last.inputs, store, run);
      var lowered := LowerNode(producers, last);
      SameArguments(m, lowered, Reads(last), run, store);
      LoweringIsSingleAssignment(inputs, nodes[..n]);
      SingleAssignmentOrdered(inputs, LowerNodes(inputs, nodes[..n]));
      RunSolves(m, LowerNodes(inputs, nodes[..n]), env);
      LoweredBound(inputs, nodes[..n]);
      assert last.id !in run;
      SimulationStep(producers, store, run, last.id, last.out, NodeValue(m, lowered, run));
      RunAppend(m, LowerNodes(inputs, nodes[..n]), lowered, env);
    }
  }

  lemma RunAppend(m: Machine, nodes: seq<GraphNode>, last: GraphNode, env: Env)
    ensures Run(m, nodes + [last], env) == Run(m, nodes, env)[last.id := NodeValue(m, last, Run(m, nodes, env))]
  {
    assert (nodes + [last])[..|nodes|] == nodes;
  }

  /** Each named output is the producer of what it refers to; an empty reference means its own name. */
  ghost predicate OutputsResolved(producers: map<string, string>, outputs: map<string, string>, resolved: map<string, string>) {
    && resolved.Keys == outputs.Keys - {""}
    && forall key | key in resolved ::
         && (outputs[key] == "" ==> key in producers && resolved[key] == producers[key])
         && (outputs[key] != "" ==> outputs[key] in producers && resolved[key] == producers[outputs[key]])
  }

  ghost function LoweredOutputs(topology: Topology): map<string, string> {
    var producers, outputs := Producers(topology.inputs, topology.nodes), topology.outputs;
    map key | key in outputs && key != "" && (if outputs[key] == "" then key else outputs[key]) in producers ::
      producers[if outputs[key] == "" then key else outputs[key]]
  }

  lemma ResolvedAreLowered(topology: Topology, resolved: map<string, string>)
    requires OutputsResolved(Producers(topology.inputs, topology.nodes), topology.outputs, resolved)
    ensures resolved == LoweredOutputs(topology)
  {
    hide Producers;
    var lowered := LoweredOutputs(topology);
    assert forall key | key in topology.outputs && key != "" :: key in resolved;
  }

  /** Output `key` of the graph is the value the recipe leaves in its store. */
  ghost predicate OutputComputed(m: Machine, topology: Topology, env: Env, nodes: seq<GraphNode>,
                                 outputs: map<string, string>, key: string)
  {
    && key in topology.outputs && key in outputs
    && (topology.outputs[key] == "" ==>
          Lookup(Run(m, nodes, env), outputs[key]) == Lookup(Execute(m, topology.nodes, env), key))
    && (topology.outputs[key] != "" ==>
          Lookup(Run(m, nodes, env), outputs[key]) == Lookup(Execute(m, topology.nodes, env), topology.outputs[key]))
  }

  ghost predicate ComputesRecipe(m: Machine, topology: Topology, env: Env, nodes: seq<GraphNode>, outputs: map<string, string>) {
    forall key | key in topology.outputs && key != "" :: OutputComputed(m, topology, env, nodes, outputs, key)
  }

  lemma LoweringPreservesMeaning(m: Machine, topology: Topology, env: Env)
    requires Lowerable(topology) && env.Keys == GraphOrder.BoundaryInputs(topology.inputs)
    ensures ComputesRecipe(m, topology, env, LowerNodes(topology.inputs, topology.nodes), LoweredOutputs(topology))
  {
    LoweringSimulates(m, topology.inputs, topology.nodes, env);
    hide Execute, Run, Producers, LowerNodes, NodesLowerable;
  }

  // ----- the scheduling graph

  ghost function InputNodes(inputs: seq<string>): seq<Layers.Node> {
    if inputs == [] then []
    else
      var n := |inputs| - 1;
      InputNodes(inputs[..n]) + if inputs[n] == "" then [] else [Layers.Node(inputs[n], [])]
  }

  ghost function ComputeNodes(nodes: seq<GraphNode>): (r: seq<Layers.Node>)
    ensures |r| == |nodes|
  {
    seq(|nodes|, i requires 0 <= i < |nodes| => Layers.Node(nodes[i].id, Named(nodes[i].inputs)))
  }

  /** One scheduling node per input and per node, wired by the same IDs. */
  ghost function DagOf(inputs: seq<string>, nodes: seq<GraphNode>): seq<Layers.Node> {
    InputNodes(inputs) + ComputeNodes(nodes)
  }

  lemma {:induction false} NamedNonempty(names: seq<string>)
    requires "" !in names
    ensures Named(names) == names
  {
    if names != [] {
      var n := |names| - 1;
      assert names == names[..n] + [names[n]];
      assert "" !in names[..n] && names[n] != "";
      NamedNonempty(names[..n]);
    }
  }

  lemma {:induction false} NamedAre(names: seq<string>, name: string)
    ensures name in Named(names) <==> name in names && name != ""
  {
    if names != [] {
      var n := |names| - 1;
      NamedAre(names[..n], name);
      assert names == names[..n] + [names[n]];
    }
  }

  lemma {:induction false} InputNodesAre(inputs: seq<string>)
    requires InputsDistinct(inputs)
    ensures Layers.Distinct(InputNodes(inputs))
    ensures Layers.Ids(InputNodes(inputs)) == GraphOrder.BoundaryInputs(inputs)
    ensures forall i | 0 <= i < |InputNodes(inputs)| :: InputNodes(inputs)[i].inputs == []
  {
    if inputs != [] {
      var n := |inputs| - 1;
      InputNodesAre(inputs[..n]);
      assert inputs == inputs[..n] + [inputs[n]];
      assert GraphOrder.BoundaryInputs(inputs)
          == GraphOrder.BoundaryInputs(inputs[..n]) + if inputs[n] == "" then {} else {inputs[n]};
      if inputs[n] != "" {
        Layers.IdsAppend(InputNodes(inputs[..n]), Layers.Node(inputs[n], []));
        assert inputs[n] !in inputs[..n];
      } else {
        assert InputNodes(inputs) == InputNodes(inputs[..n]);
      }
    }
  }

  lemma IdsConcat(a: seq<Layers.Node>, b: seq<Layers.Node>)
    ensures Layers.Ids(a + b) == Layers.Ids(a) + Layers.Ids(b)
  {
    forall i | 0 <= i < |a|
      ensures (a + b)[i] == a[i]
    {
    }
    forall i | 0 <= i < |b|
      ensures (a + b)[|a| + i] == b[i]
    {
    }
  }

  lemma ComputeIds(nodes: seq<GraphNode>)
    ensures Layers.Ids(ComputeNodes(nodes)) == Ids(nodes)
  {
    forall i | 0 <= i < |nodes|
      ensures ComputeNodes(nodes)[i].id == nodes[i].id
    {
    }
  }

  /** Every scheduling node needs only earlier ones. */
  ghost predicate Earlier(dag: seq<Layers.Node>) {
    forall i, name | 0 <= i < |dag| && name in dag[i].inputs :: name in Layers.Ids(dag[..i])
  }

  lemma PositionFalls(dag: seq<Layers.Node>, a: string, b: string)
    requires Layers.Distinct(dag) && Earlier(dag) && a in Layers.Ids(dag)
    requires b in dag[Position(dag, a)].inputs
    ensures b in Layers.Ids(dag) && Position(dag, b) < Position(dag, a)
  {
    var i := Position(dag, a);
    assert b in Layers.Ids(dag[..i]);
    var j :| 0 <= j < i && dag[..i][j].id == b;
    assert dag[j].id == b;
  }

  /** The position of each scheduling node ranks it above everything it needs. */
  lemma PositionsRankDown(dag: seq<Layers.Node>)
    requires Layers.Distinct(dag) && Earlier(dag)
    ensures Layers.WellFormedInputs(dag) && Acyclic(Layers.Dependencies(dag))
  {
    Layers.DependenciesAt(dag);
    var deps := Layers.Dependencies(dag);
    var rank: map<string, int> := map id | id in deps :: Position(dag, id);
    forall a, b | a in deps && b in deps[a]
      ensures a in rank && b in rank && rank[b] < rank[a]
    {
      PositionFalls(dag, a, b);
    }
    assert RanksDown(deps, rank);
    hide Layers.Dependencies, RanksDown, Earlier;
    RankedIsAcyclic(deps, rank);
    EarlierKnown(dag);
  }

  lemma EarlierKnown(dag: seq<Layers.Node>)
    requires Earlier(dag)
    ensures Layers.WellFormedInputs(dag)
  {
    forall i, name | 0 <= i < |dag| && name in dag[i].inputs
      ensures name in Layers.Ids(dag)
    {
      var j :| 0 <= j < i && dag[..i][j].id == name;
      assert dag[j].id == name;
    }
  }

  ghost function Position(dag: seq<Layers.Node>, id: string): (i: int)
    requires id in Layers.Ids(dag)
    ensures 0 <= i < |dag| && dag[i].id == id
  {
    var i :| 0 <= i < |dag| && dag[i].id == id;
    i
  }

  /** What a scheduling graph needs: fresh IDs, and inputs that are empty, graph inputs or earlier nodes. */
  ghost predicate Schedulable(inputs: seq<string>, nodes: seq<GraphNode>) {
    && GraphOrder.NodesNamed(nodes)
    && Ids(nodes) !! GraphOrder.BoundaryInputs(inputs)
    && forall i, name | 0 <= i < |nodes| && name in nodes[i].inputs && name != "" ::
      name in GraphOrder.BoundaryInputs(inputs) || name in Ids(nodes[..i])
  }

  lemma SingleAssignmentSchedulable(inputs: seq<string>, nodes: seq<GraphNode>)
    requires SingleAssignment(inputs, nodes)
    ensures Schedulable(inputs, nodes)
  {
  }

  lemma DagEarlier(inputs: seq<string>, nodes: seq<GraphNode>)
    requires InputsDistinct(inputs) && Schedulable(inputs, nodes)
    ensures Earlier(DagOf(inputs, nodes))
  {
    var dag, k := DagOf(inputs, nodes), |InputNodes(inputs)|;
    InputNodesAre(inputs);
    forall i, name | 0 <= i < |dag| && name in dag[i].inputs
      ensures name in Layers.Ids(dag[..i])
    {
      if i >= k {
        NamedAre(nodes[i - k].inputs, name);
        assert dag[..i] == InputNodes(inputs) + ComputeNodes(nodes[..i - k]);
        IdsConcat(InputNodes(inputs), ComputeNodes(nodes[..i - k]));
        ComputeIds(nodes[..i - k]);
      }
    }
  }

  lemma DagDistinct(inputs: seq<string>, nodes: seq<GraphNode>)
    requires InputsDistinct(inputs) && Schedulable(inputs, nodes)
    ensures Layers.Distinct(DagOf(inputs, nodes))
    ensures forall i | 0 <= i < |DagOf(inputs, nodes)| :: DagOf(inputs, nodes)[i].id != ""
  {
    var dag, k := DagOf(inputs, nodes), |InputNodes(inputs)|;
    InputNodesAre(inputs);
    forall i | 0 <= i < |dag|
      ensures dag[i].id != ""
      ensures i < k ==> dag[i].id in GraphOrder.BoundaryInputs(inputs)
      ensures i >= k ==> dag[i].id == nodes[i - k].id && dag[i].id in Ids(nodes)
    {
      assert i < k ==> InputNodes(inputs)[i].id in Layers.Ids(InputNodes(inputs));
    }
    hide InputNodes;
    forall i, j | 0 <= i < j < |dag|
      ensures dag[i].id != dag[j].id
    {
      if j < k {
        assert InputNodes(inputs)[i].id != InputNodes(inputs)[j].id;
      } else if i >= k {
        assert nodes[i - k].id != nodes[j - k].id;
      }
    }
  }

  /** The scheduling graph of an ordered graph passes validation and has layers. */
  lemma DagIsSchedulable(inputs: seq<string>, nodes: seq<GraphNode>)
    requires InputsDistinct(inputs) && Schedulable(inputs, nodes)
    ensures Layers.WellFormed(DagOf(inputs, nodes)) && Acyclic(Layers.Dependencies(DagOf(inputs, nodes)))
  {
    hide Schedulable, DagOf;
    DagEarlier(inputs, nodes);
    DagDistinct(inputs, nodes);
    PositionsRankDown(DagOf(inputs, nodes));
  }

  // ----- lowering in place

  datatype LoweredGraph = LoweredGraph(ast: Graph, dag: Layers.ComputeGraph)

  lemma InputNext(inputs: seq<string>, i: nat)
    requires i < |inputs|
    ensures InputNodes(inputs[..i + 1])
         == InputNodes(inputs[..i]) + if inputs[i] == "" then [] else [Layers.Node(inputs[i], [])]
    ensures Producers(inputs[..i + 1], [])
         == if inputs[i] == "" then Producers(inputs[..i], []) else Producers(inputs[..i], [])[inputs[i] := inputs[i]]
    ensures inputs[i] in Producers(inputs[..i], []) <==> inputs[i] != "" && inputs[i] in inputs[..i]
  {
    assert inputs[..i + 1][..i] == inputs[..i];
    assert inputs[..i + 1] == inputs[..i] + [inputs[i]];
  }

  method LowerInputs(inputs: seq<string>, dag: Layers.ComputeGraph)
    returns (error: Option<LowerError>, producers: map<string, string>)
    requires dag.nodes == []
    modifies dag
    ensures error.None? <==> InputsDistinct(inputs)
    ensures error.None? ==> dag.nodes == InputNodes(inputs) && producers == Producers(inputs, [])
    ensures error.Some? ==> error.value.DuplicateInput? && multiset(inputs)[error.value.name] >= 2
  {
    producers := map[];
    hide InputNodes, Producers;
    InputsStart();
    assert inputs[..0] == [];
    for i := 0 to |inputs|
      invariant dag.nodes == InputNodes(inputs[..i]) && producers == Producers(inputs[..i], [])
      invariant InputsDistinct(inputs[..i])
    {
      InputNext(inputs, i);
      if inputs[i] != "" {
        if inputs[i] in producers {
          RepeatedInput(inputs, i);
          return Some(DuplicateInput(inputs[i])), producers;
        }
        dag.AddNode(Layers.Node(inputs[i], []));
        producers := producers[inputs[i] := inputs[i]];
      }
      DistinctNext(inputs, i);
    }
    assert inputs[..|inputs|] == inputs;
    return None, producers;
  }

  lemma InputsStart()
    ensures InputNodes([]) == [] && Producers([], []) == map[]
  {
  }

  lemma DistinctNext(inputs: seq<string>, i: nat)
    requires i < |inputs| && InputsDistinct(inputs[..i]) && (inputs[i] == "" || inputs[i] !in inputs[..i])
    ensures InputsDistinct(inputs[..i + 1])
  {
    assert inputs[..i + 1] == inputs[..i] + [inputs[i]];
  }

  lemma RepeatedInput(inputs: seq<string>, i: nat)
    requires i < |inputs| && inputs[i] != "" && inputs[i] in inputs[..i]
    ensures !InputsDistinct(inputs) && multiset(inputs)[inputs[i]] >= 2
  {
    var j :| 0 <= j < i && inputs[..i][j] == inputs[i];
    assert inputs[j] == inputs[i];
    assert inputs == inputs[..i] + inputs[i..];
    assert inputs[i..][0] in inputs[i..];
  }

  method ResolveInputs(node: TopologyNode, producers: map<string, string>)
    returns (error: Option<LowerError>, resolved: seq<string>)
    ensures error.None? <==> forall name | name in node.inputs :: name == "" || name in producers
    ensures error.None? ==> resolved == Resolve(producers, node.inputs)
    ensures error.Some? ==> exists name | name in node.inputs :: name !in producers && error.value == UnknownValue(node.id, name)
  {
    resolved := [];
    var names := node.inputs;
    for k := 0 to |names|
      invariant resolved == Resolve(producers, names[..k])
      invariant forall q | 0 <= q < k :: names[q] == "" || names[q] in producers
    {
      assert names[..k + 1][..k] == names[..k];
      if names[k] != "" {
        if names[k] !in producers {
          assert names[k] in node.inputs;
          return Some(UnknownValue(node.id, names[k])), resolved;
        }
        resolved := resolved + [producers[names[k]]];
      }
    }
    assert names[..|names|] == names;
    return None, resolved;
  }

  /** Lowers one node: appends it to both graphs and rebinds every name it writes. */
  method LowerOneNode(node: TopologyNode, ast: Graph, dag: Layers.ComputeGraph, producers: map<string, string>)
    returns (error: Option<LowerError>, producersAfter: map<string, string>)
    modifies ast`nodes, dag
    ensures error.None? <==> NodeLowerable(producers, node)
    ensures error.None? ==> ast.nodes == old(ast.nodes) + [LowerNode(producers, node)]
    ensures error.None? ==> dag.nodes == old(dag.nodes) + [Layers.Node(node.id, Resolve(producers, node.inputs))]
    ensures error.None? ==> producersAfter == WriteAll(producers[node.id := node.id], node.out, node.id)
    ensures error.Some? ==> NodeExplains(error.value, producers, node)
  {
    producersAfter := producers;
    if node.id == "" {
      return Some(NodeWithoutId), producersAfter;
    }
    if node.id in producers {
      return Some(DuplicateNodeId(node.id)), producersAfter;
    }
    var unknown, resolved := ResolveInputs(node, producers);
    if unknown.Some? {
      return unknown, producersAfter;
    }
    ast.nodes := ast.nodes + [GraphNode(node.id, node.op, resolved, node.config)];
    dag.AddNode(Layers.Node(node.id, resolved));
    producersAfter := producersAfter[node.id := node.id];
    ghost var start := producersAfter;
    assert node.out[..0] == [];
    for k := 0 to |node.out|
      invariant producersAfter == WriteAll(start, node.out[..k], node.id)
      invariant ast.nodes == old(ast.nodes) + [LowerNode(producers, node)]
      invariant dag.nodes == old(dag.nodes) + [Layers.Node(node.id, Resolve(producers, node.inputs))]
    {
      assert node.out[..k + 1][..k] == node.out[..k];
      if node.out[k] != "" && node.out[k] != node.id {
        producersAfter := producersAfter[node.out[k] := node.id];
      } else {
        WriteAllAt(start, node.out[..k], node.id, node.id);
      }
    }
    assert node.out[..|node.out|] == node.out;
    return None, producersAfter;
  }

  /** What is wrong with the node when lowering it reports this error. */
  ghost predicate NodeExplains(error: LowerError, producers: map<string, string>, node: TopologyNode) {
    || (error == NodeWithoutId && node.id == "")
    || (error == DuplicateNodeId(node.id) && node.id in producers)
    || (error.UnknownValue? && error.node == node.id && error.name in node.inputs && error.name !in producers)
  }

  lemma LowerStep(inputs: seq<string>, nodes: seq<TopologyNode>, i: nat)
    requires i < |nodes| && NodesLowerable(inputs, nodes[..i])
    requires NodeLowerable(Producers(inputs, nodes[..i]), nodes[i])
    ensures NodesLowerable(inputs, nodes[..i + 1])
    ensures LowerNodes(inputs, nodes[..i + 1])
         == LowerNodes(inputs, nodes[..i]) + [LowerNode(Producers(inputs, nodes[..i]), nodes[i])]
    ensures Producers(inputs, nodes[..i + 1])
         == WriteAll(Producers(inputs, nodes[..i])[nodes[i].id := nodes[i].id], nodes[i].out, nodes[i].id)
    ensures DagOf(inputs, LowerNodes(inputs, nodes[..i + 1]))
         == DagOf(inputs, LowerNodes(inputs, nodes[..i]))
            + [Layers.Node(nodes[i].id, Resolve(Producers(inputs, nodes[..i]), nodes[i].inputs))]
  {
    assert nodes[..i + 1][..i] == nodes[..i];
    ResolvedNames(inputs, nodes[..i], nodes[i]);
    hide Bound, InputNodes, Resolve;
    var lowered := LowerNode(Producers(inputs, nodes[..i]), nodes[i]);
    NamedNonempty(lowered.inputs);
    DagAppend(inputs, LowerNodes(inputs, nodes[..i]), lowered);
  }

  lemma ResolvedNames(inputs: seq<string>, nodes: seq<TopologyNode>, node: TopologyNode)
    requires NodesLowerable(inputs, nodes) && NodeLowerable(Producers(inputs, nodes), node)
    ensures "" !in Resolve(Producers(inputs, nodes), node.inputs)
  {
    LoweredBound(inputs, nodes);
    if "" in Resolve(Producers(inputs, nodes), node.inputs) {
      ResolveAre(Producers(inputs, nodes), node.inputs, "");
    }
  }

  lemma DagAppend(inputs: seq<string>, nodes: seq<GraphNode>, last: GraphNode)
    ensures DagOf(inputs, nodes + [last]) == DagOf(inputs, nodes) + [Layers.Node(last.id, Named(last.inputs))]
  {
    assert ComputeNodes(nodes + [last]) == ComputeNodes(nodes) + [Layers.Node(last.id, Named(last.inputs))];
  }

  lemma {:induction false} LowerableAt(inputs: seq<string>, nodes: seq<TopologyNode>, i: nat)
    requires NodesLowerable(inputs, nodes) && i < |nodes|
    ensures NodeLowerable(Producers(inputs, nodes[..i]), nodes[i])
  {
    var n := |nodes| - 1;
    if i < n {
      LowerableAt(inputs, nodes[..n], i);
      assert nodes[..n][..i] == nodes[..i];
    }
  }

  /** What is wrong with the recipe when lowering reports this error. */
  ghost predicate LowerExplains(error: LowerError, topology: Topology) {
    var producers := Producers(topology.inputs, topology.nodes);
    || (error.DuplicateInput? && multiset(topology.inputs)[error.name] >= 2)
    || (exists i | 0 <= i < |topology.nodes| ::
          NodeExplains(error, Producers(topology.inputs, topology.nodes[..i]), topology.nodes[i]))
    || (error.UnknownOutput? && error.output in topology.outputs && error.output != ""
        && (topology.outputs[error.output] == "" ==> error.name == error.output)
        && (topology.outputs[error.output] != "" ==> error.name == topology.outputs[error.output])
        && error.name !in producers)
  }

  method ResolveTopologyOutputs(topology: Topology, ast: Graph, producers: map<string, string>)
    returns (error: Option<LowerError>)
    requires producers == Producers(topology.inputs, topology.nodes) && ast.outputs == map[]
    modifies ast`outputs
    ensures error.None? <==> forall key | key in topology.outputs && key != "" ::
      && (topology.outputs[key] == "" ==> key in producers)
      && (topology.outputs[key] != "" ==> topology.outputs[key] in producers)
    ensures error.None? ==> OutputsResolved(producers, topology.outputs, ast.outputs)
    ensures error.Some? ==> LowerExplains(error.value, topology)
  {
    hide Producers, NodeExplains;
    var pending := topology.outputs.Keys;
    while pending != {}
      invariant pending <= topology.outputs.Keys
      invariant OutputsResolved(producers, topology.outputs - pending, ast.outputs)
    {
      var key :| key in pending;
      pending := pending - {key};
      if key != "" {
        var ref := topology.outputs[key];
        if ref == "" {
          ref := key;
        }
        if ref !in producers {
          return Some(UnknownOutput(key, ref));
        }
        ast.outputs := ast.outputs[key := producers[ref]];
      }
    }
    assert topology.outputs - pending == topology.outputs;
    assert forall key | key in topology.outputs && key != "" :: key in ast.outputs;
    return None;
  }

  /**
   Lowers a recipe to a graph keyed by producer IDs and a scheduling graph with the same
   IDs and wiring. It succeeds exactly on the lowerable recipes.
   */
  method LowerTopology(topology: Topology) returns (r: Result<LoweredGraph, LowerError>)
    ensures r.Success? <==> Lowerable(topology)
    ensures r.Success? ==> fresh(r.value.ast) && fresh(r.value.dag)
    ensures r.Success? ==> r.value.ast.inputs == topology.inputs
    ensures r.Success? ==> r.value.ast.nodes == LowerNodes(topology.inputs, topology.nodes)
    ensures r.Success? ==> r.value.ast.outputs == LoweredOutputs(topology)
    ensures r.Success? ==>
      OutputsResolved(Producers(topology.inputs, topology.nodes), topology.outputs, r.value.ast.outputs)
    ensures r.Success? ==> r.value.dag.nodes == DagOf(topology.inputs, r.value.ast.nodes)
    ensures r.Failure? ==> LowerExplains(r.error, topology)
  {
    var inputs, nodes := topology.inputs, topology.nodes;
    var ast := new Graph([], inputs, map[]);
    var dag := new Layers.ComputeGraph();
    LowerNothing(inputs);
    hide *;
    var error, producers := LowerInputs(inputs, dag);
    if error.Some? {
      InputFailure(topology, error.value);
      return Failure(error.value);
    }
    assert nodes[..0] == [];
    for i := 0 to |nodes|
      invariant fresh(ast) && fresh(dag) && ast.inputs == inputs && ast.outputs == map[]
      invariant NodesLowerable(inputs, nodes[..i])
      invariant producers == Producers(inputs, nodes[..i])
      invariant ast.nodes == LowerNodes(inputs, nodes[..i])
      invariant dag.nodes == DagOf(inputs, LowerNodes(inputs, nodes[..i]))
    {
      error, producers := LowerOneNode(nodes[i], ast, dag, producers);
      if error.Some? {
        NodeFailure(topology, i, error.value);
        return Failure(error.value);
      }
      LowerStep(inputs, nodes, i);
    }
    assert nodes[..|nodes|] == nodes;
    error := ResolveTopologyOutputs(topology, ast, producers);
    LowerableWhen(topology);
    if error.Some? {
      return Failure(error.value);
    }
    ResolvedAreLowered(topology, ast.outputs);
    LoweringIsSingleAssignment(inputs, nodes);
    SingleAssignmentSchedulable(inputs, ast.nodes);
    DagIsSchedulable(inputs, ast.nodes);
    var invalid := dag.Verify();
    assert invalid.None?; // the error return after this check is never taken
    return Success(LoweredGraph(ast, dag));
  }

  lemma LowerNothing(inputs: seq<string>)
    ensures NodesLowerable(inputs, []) && LowerNodes(inputs, []) == [] && DagOf(inputs, []) == InputNodes(inputs)
  {
  }

  lemma InputFailure(topology: Topology, error: LowerError)
    requires !InputsDistinct(topology.inputs) && error.DuplicateInput? && multiset(topology.inputs)[error.name] >= 2
    ensures !Lowerable(topology) && LowerExplains(error, topology)
  {
  }

  lemma NodeFailure(topology: Topology, i: nat, error: LowerError)
    requires i < |topology.nodes|
    requires !NodeLowerable(Producers(topology.inputs, topology.nodes[..i]), topology.nodes[i])
    requires NodeExplains(error, Producers(topology.inputs, topology.nodes[..i]), topology.nodes[i])
    ensures !Lowerable(topology) && LowerExplains(error, topology)
  {
    hide NodeLowerable;
    if Lowerable(topology) {
      LowerableAt(topology.inputs, topology.nodes, i);
    }
  }

  lemma LowerableWhen(topology: Topology)
    requires InputsDistinct(topology.inputs) && NodesLowerable(topology.inputs, topology.nodes)
    ensures var producers := Producers(topology.inputs, topology.nodes);
      Lowerable(topology) <==> forall key | key in topology.outputs && key != "" ::
        && (topology.outputs[key] == "" ==> key in producers)
        && (topology.outputs[key] != "" ==> topology.outputs[key] in producers)
  {
  }
}
