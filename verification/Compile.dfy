/** From a recipe to an optimized, ordered graph and the graph it is scheduled by. */
module Compile {
  import opened Wrappers
  import opened Reference
  import opened Elementwise
  import opened FusionAst
  import opened GraphSemantics
  import opened Digraph
  import Clusters
  import opened Lowering
  import GraphOrder
  import Layers
  import Optimizer

  datatype BuildError =
    | Order(order: GraphOrder.OrderError)
    | RepeatedInput
    | NodeNamedLikeInput(id: string)

  /** Exactly the graphs a scheduling graph can be built from. */
  ghost predicate Buildable(nodes: seq<GraphNode>, inputs: seq<string>, outputs: map<string, string>) {
    && GraphOrder.Normalizable(nodes, GraphOrder.BoundaryInputs(inputs), outputs)
    && InputsDistinct(inputs)
    && Ids(nodes) !! GraphOrder.BoundaryInputs(inputs)
  }

  /** Appends the scheduling node of one graph node; its inputs are all registered already. */
  method AddGraphNode(node: GraphNode, dag: Layers.ComputeGraph, producers: set<string>)
    requires forall name | name in node.inputs && name != "" :: name in producers
    modifies dag
    ensures dag.nodes == old(dag.nodes) + [Layers.Node(node.id, Named(node.inputs))]
  {
    var wired: seq<string> := [];
    for k := 0 to |node.inputs|
      invariant wired == Named(node.inputs[..k]) && dag.nodes == old(dag.nodes)
    {
      assert node.inputs[..k + 1][..k] == node.inputs[..k];
      if node.inputs[k] != "" {
        assert node.inputs[k] in producers; // the unknown-input return is never taken
        wired := wired + [node.inputs[k]];
      }
    }
    assert node.inputs[..|node.inputs|] == node.inputs;
    dag.AddNode(Layers.Node(node.id, wired));
  }

  lemma NodesNext(inputs: seq<string>, nodes: seq<GraphNode>, i: nat)
    requires i < |nodes|
    ensures Ids(nodes[..i + 1]) == Ids(nodes[..i]) + {nodes[i].id}
    ensures DagOf(inputs, nodes[..i + 1]) == DagOf(inputs, nodes[..i]) + [Layers.Node(nodes[i].id, Named(nodes[i].inputs))]
  {
    assert nodes[..i + 1] == nodes[..i] + [nodes[i]];
    GraphOrder.IdsAppend(nodes[..i], nodes[i]);
    DagAppend(inputs, nodes[..i], nodes[i]);
  }

  lemma FirstUse(inputs: seq<string>, nodes: seq<GraphNode>, i: nat)
    requires GraphOrder.NodesNamed(nodes) && i < |nodes|
    ensures nodes[i].id in Ids(nodes) && nodes[i].id !in Ids(nodes[..i])
  {
    LaterId(nodes, i, i);
  }

  /** Appends a scheduling node per graph node, unless one is named like a graph input. */
  method AddGraphNodes(inputs: seq<string>, nodes: seq<GraphNode>, dag: Layers.ComputeGraph, inputNames: set<string>)
    returns (clash: Option<string>)
    requires dag.nodes == DagOf(inputs, []) && inputNames == GraphOrder.BoundaryInputs(inputs)
    requires GraphOrder.NodesNamed(nodes)
    requires forall i, name | 0 <= i < |nodes| && name in nodes[i].inputs && name != "" ::
      name in inputNames || name in Ids(nodes[..i])
    modifies dag
    ensures clash.None? <==> Ids(nodes) !! inputNames
    ensures clash.None? ==> dag.nodes == DagOf(inputs, nodes)
    ensures clash.Some? ==> clash.value in Ids(nodes) && clash.value in inputNames
  {
    hide DagOf, GraphOrder.NodesNamed;
    var producers := inputNames;
    assert nodes[..0] == [];
    assert Ids(nodes[..0]) == {};
    for i := 0 to |nodes|
      invariant producers == inputNames + Ids(nodes[..i]) && Ids(nodes[..i]) !! inputNames
      invariant dag.nodes == DagOf(inputs, nodes[..i])
    {
      FirstUse(inputs, nodes, i);
      NodesNext(inputs, nodes, i);
      if nodes[i].id in producers {
        return Some(nodes[i].id);
      }
      AddGraphNode(nodes[i], dag, producers);
      producers := producers + {nodes[i].id};
    }
    assert nodes[..|nodes|] == nodes;
    return None;
  }

  /** Sorted or not disjoint from the inputs, every named input is a graph input or an earlier node. */
  lemma SortKnown(nodes: seq<GraphNode>, boundary: set<string>, sorted: seq<GraphNode>)
    requires GraphOrder.NodesNamed(nodes) && GraphOrder.InputsKnown(nodes, boundary)
    requires GraphOrder.SortOf(nodes, boundary, sorted)
    ensures GraphOrder.NodesNamed(sorted) && Ids(sorted) == Ids(nodes)
    ensures forall i, name | 0 <= i < |sorted| && name in sorted[i].inputs && name != "" ::
      name in boundary || name in Ids(sorted[..i])
  {
    GraphOrder.SameIds(nodes, sorted);
    forall i, j | 0 <= i < j < |sorted|
      ensures sorted[i].id != sorted[j].id
    {
      GraphOrder.OnceOnly(nodes, sorted, i, j);
    }
    forall i | 0 <= i < |sorted|
      ensures sorted[i].id != ""
      ensures forall name | name in sorted[i].inputs && name != "" :: name in boundary || name in Ids(sorted[..i])
    {
      assert sorted[i] in multiset(nodes);
      var j :| 0 <= j < |nodes| && nodes[j] == sorted[i];
      forall name | name in sorted[i].inputs && name != ""
        ensures name in boundary || name in Ids(sorted[..i])
      {
        assert name in nodes[j].inputs;
        assert GraphOrder.IsEdge(name, boundary, Ids(nodes)) || name in boundary;
      }
    }
  }

  lemma ProducersOfInputs(inputs: seq<string>)
    ensures Lowering.Producers(inputs, []).Keys == GraphOrder.BoundaryInputs(inputs)
    ensures DagOf(inputs, []) == InputNodes(inputs)
  {
  }

  lemma BuildableWhen(nodes: seq<GraphNode>, inputs: seq<string>, outputs: map<string, string>)
    requires GraphOrder.Normalizable(nodes, GraphOrder.BoundaryInputs(inputs), outputs)
    ensures GraphOrder.NodesNamed(nodes) && GraphOrder.InputsKnown(nodes, GraphOrder.BoundaryInputs(inputs))
    ensures Buildable(nodes, inputs, outputs) <==> InputsDistinct(inputs) && Ids(nodes) !! GraphOrder.BoundaryInputs(inputs)
  {
  }

  lemma UnbuildableWhen(nodes: seq<GraphNode>, inputs: seq<string>, outputs: map<string, string>)
    requires !GraphOrder.Normalizable(nodes, GraphOrder.BoundaryInputs(inputs), outputs)
    ensures !Buildable(nodes, inputs, outputs)
  {
  }

  lemma SchedulableWhen(inputs: seq<string>, nodes: seq<GraphNode>)
    requires GraphOrder.NodesNamed(nodes) && Ids(nodes) !! GraphOrder.BoundaryInputs(inputs)
    requires forall i, name | 0 <= i < |nodes| && name in nodes[i].inputs && name != "" ::
      name in GraphOrder.BoundaryInputs(inputs) || name in Ids(nodes[..i])
    ensures Schedulable(inputs, nodes)
  {
  }

  /**
   Validates and orders the graph, then builds the graph it is scheduled by; it has
   one layered schedule at least, because the order it was built in respects every input.
   */
  method BuildDagFromGraph(graph: Graph) returns (r: Result<Layers.ComputeGraph, BuildError>)
    modifies graph`nodes
    ensures r.Success? <==> Buildable(old(graph.nodes), graph.inputs, graph.outputs)
    ensures r.Success? ==> fresh(r.value) && r.value.nodes == DagOf(graph.inputs, graph.nodes)
    ensures r.Success? ==> GraphOrder.SortOf(old(graph.nodes), GraphOrder.BoundaryInputs(graph.inputs), graph.nodes)
    ensures r.Success? ==> Layers.WellFormed(r.value.nodes) && Acyclic(Layers.Dependencies(r.value.nodes))
    ensures r.Failure? && r.error.RepeatedInput? ==> !InputsDistinct(graph.inputs)
    ensures r.Failure? && r.error.NodeNamedLikeInput? ==>
      r.error.id in Ids(old(graph.nodes)) * GraphOrder.BoundaryInputs(graph.inputs)
  {
    hide *;
    ghost var start := graph.nodes;
    var disorder := GraphOrder.NormalizeGraph(graph);
    ghost var boundary := GraphOrder.BoundaryInputs(graph.inputs);
    if disorder.Some? {
      UnbuildableWhen(start, graph.inputs, graph.outputs);
      return Failure(Order(disorder.value));
    }
    BuildableWhen(start, graph.inputs, graph.outputs);
    SortKnown(start, boundary, graph.nodes);
    var dag := new Layers.ComputeGraph();
    var repeated, producers := LowerInputs(graph.inputs, dag);
    if repeated.Some? {
      return Failure(RepeatedInput);
    }
    ProducersOfInputs(graph.inputs);
    var clash := AddGraphNodes(graph.inputs, graph.nodes, dag, producers.Keys);
    if clash.Some? {
      return Failure(NodeNamedLikeInput(clash.value));
    }
    SchedulableWhen(graph.inputs, graph.nodes);
    DagIsSchedulable(graph.inputs, graph.nodes);
    return Success(dag);
  }

  // ----- the pipeline

  /** Every name a node or an output refers to is a graph input or a node. */
  ghost predicate Complete(nodes: seq<GraphNode>, boundary: set<string>, outputs: map<string, string>) {
    forall name | Mentions(nodes, outputs, name) :: name in boundary || name in Ids(nodes)
  }

  lemma LoweredComplete(topology: Topology)
    requires Lowerable(topology)
    ensures Complete(LowerNodes(topology.inputs, topology.nodes), GraphOrder.BoundaryInputs(topology.inputs), LoweredOutputs(topology))
  {
    var inputs, nodes := topology.inputs, LowerNodes(topology.inputs, topology.nodes);
    LoweringIsSingleAssignment(inputs, topology.nodes);
    LoweredBound(inputs, topology.nodes);
    forall i, name | 0 <= i < |nodes| && name in nodes[i].inputs
      ensures name in GraphOrder.BoundaryInputs(inputs) || name in Ids(nodes)
    {
      PrefixIds(nodes, i);
    }
  }

  lemma PrefixIds(nodes: seq<GraphNode>, i: nat)
    requires i <= |nodes|
    ensures Ids(nodes[..i]) <= Ids(nodes)
  {
    forall j | 0 <= j < i
      ensures nodes[..i][j].id in Ids(nodes)
    {
      assert nodes[..i][j] == nodes[j];
    }
  }

  /** An ordered graph has no dependency cycle. */
  lemma OrderedIsAcyclic(nodes: seq<GraphNode>, boundary: set<string>, deps: Deps)
    requires Ordered(nodes) && GraphOrder.Depends(nodes, boundary, deps)
    ensures Acyclic(deps)
  {
    forall i, name | 0 <= i < |nodes| && nodes[i].id in deps && name in deps[nodes[i].id]
      ensures name in Ids(nodes[..i])
    {
      GraphOrder.EdgesAre(nodes[i].inputs, boundary, Ids(nodes), name);
      var j :| 0 <= j < |nodes| && nodes[j].id == name;
      assert j < i;
      assert nodes[..i][j].id == name;
    }
    GraphOrder.ForwardIsAcyclic(deps, nodes);
  }

  /** What the optimizer leaves can always be ordered and scheduled. */
  lemma CompleteIsBuildable(nodes: seq<GraphNode>, inputs: seq<string>, outputs: map<string, string>)
    requires Ordered(nodes) && Complete(nodes, GraphOrder.BoundaryInputs(inputs), outputs)
    requires InputsDistinct(inputs) && Ids(nodes) !! GraphOrder.BoundaryInputs(inputs) && "" !in Ids(nodes)
    ensures Buildable(nodes, inputs, outputs)
  {
    var boundary := GraphOrder.BoundaryInputs(inputs);
    forall deps | GraphOrder.Depends(nodes, boundary, deps)
      ensures Acyclic(deps)
    {
      OrderedIsAcyclic(nodes, boundary, deps);
    }
    forall i | 0 <= i < |nodes|
      ensures nodes[i].id != ""
    {
      assert nodes[i].id in Ids(nodes);
    }
    hide HasCycle, GraphOrder.Depends, Ordered;
    forall i, name | 0 <= i < |nodes| && name in nodes[i].inputs
      ensures name in boundary || name in Ids(nodes)
    {
      assert Mentions(nodes, outputs, name);
    }
    forall key | key in outputs
      ensures outputs[key] in boundary || outputs[key] in Ids(nodes)
    {
      assert Mentions(nodes, outputs, outputs[key]);
    }
  }

  lemma RefinedComplete(libm: Libm, inputs: seq<string>, nodes: seq<GraphNode>, outputs: map<string, string>,
                        after: seq<GraphNode>, renamed: map<string, string>)
    requires Optimizer.RefinesAlways(libm, nodes, outputs, after, renamed)
    requires Complete(nodes, GraphOrder.BoundaryInputs(inputs), outputs)
    ensures Ordered(after) && Ids(after) <= Ids(nodes)
    ensures Complete(after, GraphOrder.BoundaryInputs(inputs), renamed)
  {
    var kernel: Optimizer.Kernel := (id, op, attributes, args) => None;
    assert Optimizer.Refines(libm, kernel, map[], nodes, outputs, after, renamed);
    forall name | Mentions(after, renamed, name)
      ensures name in GraphOrder.BoundaryInputs(inputs) || name in Ids(after)
    {
      assert Mentions(nodes, outputs, name);
    }
  }

  /** Each elementwise operation of the recipe reads as many values as its primitive takes. */
  ghost predicate RecipeArity(nodes: seq<TopologyNode>) {
    forall i | 0 <= i < |nodes| && IsElementwiseOp(nodes[i].op).Some? ::
      |Named(nodes[i].inputs)| == Arity(IsElementwiseOp(nodes[i].op).value)
  }

  lemma {:induction false} ResolveLength(producers: map<string, string>, names: seq<string>)
    ensures |Resolve(producers, names)| == |Named(names)|
  {
    if names != [] {
      ResolveLength(producers, names[..|names| - 1]);
    }
  }

  lemma {:induction false} LoweredArity(inputs: seq<string>, nodes: seq<TopologyNode>)
    requires RecipeArity(nodes)
    ensures Clusters.ElementwiseArity(LowerNodes(inputs, nodes))
  {
    if nodes != [] {
      var n := |nodes| - 1;
      assert RecipeArity(nodes[..n]) by {
        assert forall i | 0 <= i < n :: nodes[..n][i] == nodes[i];
      }
      LoweredArity(inputs, nodes[..n]);
      var producers := Lowering.Producers(inputs, nodes[..n]);
      ResolveLength(producers, nodes[n].inputs);
      hide IsElementwiseOp, Arity, Lowering.Producers;
      assert LowerNodes(inputs, nodes)[n] == LowerNode(producers, nodes[n]);
      assert forall i | 0 <= i < n :: LowerNodes(inputs, nodes)[i] == LowerNodes(inputs, nodes[..n])[i];
    }
  }

  /** Whatever the kernels and the inputs, the compiled graph computes the recipe. */
  ghost predicate Compiled(libm: Libm, topology: Topology, nodes: seq<GraphNode>, outputs: map<string, string>) {
    forall kernel: Optimizer.Kernel, env: Env | env.Keys == GraphOrder.BoundaryInputs(topology.inputs) ::
      ComputesRecipe(Machine(libm, kernel), topology, env, nodes, outputs)
  }

  lemma PassesCompose(libm: Libm, kernel: Optimizer.Kernel, topology: Topology, env: Env, optimized: seq<GraphNode>,
                      renamed: map<string, string>, sorted: seq<GraphNode>)
    requires Lowerable(topology) && env.Keys == GraphOrder.BoundaryInputs(topology.inputs)
    requires Optimizer.Refines(libm, kernel, env, LowerNodes(topology.inputs, topology.nodes), LoweredOutputs(topology),
                               optimized, renamed)
    requires Ids(optimized) !! env.Keys && "" !in Ids(optimized)
    requires GraphOrder.SortOf(optimized, env.Keys, sorted)
    ensures ComputesRecipe(Machine(libm, kernel), topology, env, sorted, renamed)
  {
    var m := Machine(libm, kernel);
    var nodes, outputs := LowerNodes(topology.inputs, topology.nodes), LoweredOutputs(topology);
    LoweringPreservesMeaning(m, topology, env);
    forall i | 0 <= i < |optimized|
      ensures optimized[i].id != ""
    {
      assert optimized[i].id in Ids(optimized);
    }
    GraphOrder.NormalizingKeepsValues(m, env, optimized, env.Keys, sorted);
    hide Execute, Run, LowerNodes, Lowerable, GraphOrder.SortOf, LoweredOutputs;
    forall key | key in topology.outputs && key != ""
      ensures OutputComputed(m, topology, env, sorted, renamed, key)
    {
      assert OutputComputed(m, topology, env, nodes, outputs, key);
    }
  }

  lemma PipelineCompiles(libm: Libm, topology: Topology, optimized: seq<GraphNode>, renamed: map<string, string>,
                         sorted: seq<GraphNode>)
    requires Lowerable(topology)
    requires Optimizer.RefinesAlways(libm, LowerNodes(topology.inputs, topology.nodes), LoweredOutputs(topology),
                                     optimized, renamed)
    requires GraphOrder.SortOf(optimized, GraphOrder.BoundaryInputs(topology.inputs), sorted)
    ensures Compiled(libm, topology, sorted, renamed)
  {
    var nodes := LowerNodes(topology.inputs, topology.nodes);
    LoweringIsSingleAssignment(topology.inputs, topology.nodes);
    LoweredComplete(topology);
    RefinedComplete(libm, topology.inputs, nodes, LoweredOutputs(topology), optimized, renamed);
    IdsNonempty(nodes);
    hide *;
    forall kernel: Optimizer.Kernel, env: Env | env.Keys == GraphOrder.BoundaryInputs(topology.inputs)
      ensures ComputesRecipe(Machine(libm, kernel), topology, env, sorted, renamed)
    {
      RefinesOne(libm, kernel, env, nodes, LoweredOutputs(topology), optimized, renamed);
      PassesCompose(libm, kernel, topology, env, optimized, renamed, sorted);
    }
    CompiledIntro(libm, topology, sorted, renamed);
  }

  lemma RefinesOne(libm: Libm, kernel: Optimizer.Kernel, env: Env, nodes: seq<GraphNode>, outputs: map<string, string>,
                   after: seq<GraphNode>, renamed: map<string, string>)
    requires Optimizer.RefinesAlways(libm, nodes, outputs, after, renamed) && Ids(nodes) !! env.Keys
    ensures Optimizer.Refines(libm, kernel, env, nodes, outputs, after, renamed)
  {
  }

  lemma CompiledIntro(libm: Libm, topology: Topology, nodes: seq<GraphNode>, outputs: map<string, string>)
    requires forall kernel: Optimizer.Kernel, env: Env | env.Keys == GraphOrder.BoundaryInputs(topology.inputs) ::
      ComputesRecipe(Machine(libm, kernel), topology, env, nodes, outputs)
    ensures Compiled(libm, topology, nodes, outputs)
  {
  }

  lemma IdsNonempty(nodes: seq<GraphNode>)
    requires GraphOrder.NodesNamed(nodes)
    ensures "" !in Ids(nodes)
  {
  }

  lemma OptimizedIsBuildable(libm: Libm, topology: Topology, optimized: seq<GraphNode>, renamed: map<string, string>)
    requires Lowerable(topology)
    requires Optimizer.RefinesAlways(libm, LowerNodes(topology.inputs, topology.nodes), LoweredOutputs(topology),
                                     optimized, renamed)
    ensures Buildable(optimized, topology.inputs, renamed)
  {
    var nodes := LowerNodes(topology.inputs, topology.nodes);
    LoweringIsSingleAssignment(topology.inputs, topology.nodes);
    LoweredComplete(topology);
    RefinedComplete(libm, topology.inputs, nodes, LoweredOutputs(topology), optimized, renamed);
    IdsNonempty(nodes);
    assert InputsDistinct(topology.inputs);
    hide Optimizer.RefinesAlways, Lowerable, Complete, LowerNodes;
    CompleteIsBuildable(optimized, topology.inputs, renamed);
  }

  /** Sorted nodes that refer to nothing missing read only inputs and earlier nodes. */
  lemma SortedSingleAssignment(inputs: seq<string>, nodes: seq<GraphNode>, outputs: map<string, string>, sorted: seq<GraphNode>)
    requires GraphOrder.NodesNamed(nodes) && Ids(nodes) !! GraphOrder.BoundaryInputs(inputs)
    requires Complete(nodes, GraphOrder.BoundaryInputs(inputs), outputs)
    requires GraphOrder.SortOf(nodes, GraphOrder.BoundaryInputs(inputs), sorted)
    ensures SingleAssignment(inputs, sorted)
  {
    var boundary := GraphOrder.BoundaryInputs(inputs);
    forall i, name | 0 <= i < |nodes| && name in nodes[i].inputs
      ensures name in boundary || name in Ids(nodes)
    {
      assert Mentions(nodes, outputs, name);
    }
    SortKnown(nodes, boundary, sorted);
    forall i, name | 0 <= i < |sorted| && name in sorted[i].inputs
      ensures name != ""
    {
      assert sorted[i] in multiset(nodes);
      var j :| 0 <= j < |nodes| && nodes[j] == sorted[i];
      IdsNonempty(nodes);
    }
  }

  lemma SortedOutputsKnown(inputs: seq<string>, nodes: seq<GraphNode>, outputs: map<string, string>, sorted: seq<GraphNode>)
    requires Buildable(nodes, inputs, outputs) && GraphOrder.SortOf(nodes, GraphOrder.BoundaryInputs(inputs), sorted)
    ensures GraphOrder.OutputsKnown(sorted, GraphOrder.BoundaryInputs(inputs), outputs)
  {
    GraphOrder.SameIds(nodes, sorted);
  }

  lemma OptimizedNamed(libm: Libm, topology: Topology, optimized: seq<GraphNode>, renamed: map<string, string>)
    requires Lowerable(topology)
    requires Optimizer.RefinesAlways(libm, LowerNodes(topology.inputs, topology.nodes), LoweredOutputs(topology),
                                     optimized, renamed)
    ensures GraphOrder.NodesNamed(optimized) && Ids(optimized) !! GraphOrder.BoundaryInputs(topology.inputs)
    ensures Complete(optimized, GraphOrder.BoundaryInputs(topology.inputs), renamed)
  {
    var nodes := LowerNodes(topology.inputs, topology.nodes);
    LoweringIsSingleAssignment(topology.inputs, topology.nodes);
    LoweredComplete(topology);
    RefinedComplete(libm, topology.inputs, nodes, LoweredOutputs(topology), optimized, renamed);
    IdsNonempty(nodes);
    hide Optimizer.RefinesAlways, Lowerable, Complete, LowerNodes;
    forall i | 0 <= i < |optimized|
      ensures optimized[i].id != ""
    {
      assert optimized[i].id in Ids(optimized);
    }
  }

  lemma LoweredReady(topology: Topology)
    requires Lowerable(topology) && RecipeArity(topology.nodes)
    ensures Ordered(LowerNodes(topology.inputs, topology.nodes))
    ensures Clusters.ElementwiseArity(LowerNodes(topology.inputs, topology.nodes))
  {
    LoweringIsSingleAssignment(topology.inputs, topology.nodes);
    SingleAssignmentOrdered(topology.inputs, LowerNodes(topology.inputs, topology.nodes));
    LoweredArity(topology.inputs, topology.nodes);
  }

  /**
   Lowers, optimizes, orders and schedules a recipe. It fails only where lowering fails;
   otherwise every graph output is what the recipe leaves in its store, whichever passes
   are enabled, and the scheduling graph has layers.
   */
  method CompileTopology(topology: Topology, libm: Libm, options: Optimizer.Options)
    returns (r: Result<LoweredGraph, LowerError>)
    requires RecipeArity(topology.nodes)
    ensures r.Success? <==> Lowerable(topology)
    ensures r.Success? ==> Compiled(libm, topology, r.value.ast.nodes, r.value.ast.outputs)
    ensures r.Success? ==> r.value.dag.nodes == DagOf(topology.inputs, r.value.ast.nodes)
    ensures r.Success? ==> Layers.WellFormed(r.value.dag.nodes) && Acyclic(Layers.Dependencies(r.value.dag.nodes))
    ensures r.Success? ==> SingleAssignment(topology.inputs, r.value.ast.nodes)
    ensures r.Success? ==>
      GraphOrder.OutputsKnown(r.value.ast.nodes, GraphOrder.BoundaryInputs(topology.inputs), r.value.ast.outputs)
  {
    hide *;
    var lowered := LowerTopology(topology);
    if lowered.Failure? {
      return Failure(lowered.error);
    }
    var graph := lowered.value.ast;
    LoweredReady(topology);
    var _, _, _, _ := Optimizer.Run(graph, libm, options);
    ghost var optimized, renamed := graph.nodes, graph.outputs;
    OptimizedIsBuildable(libm, topology, optimized, renamed);
    var dag := BuildDagFromGraph(graph);
    PipelineCompiles(libm, topology, optimized, renamed, graph.nodes);
    OptimizedNamed(libm, topology, optimized, renamed);
    SortedSingleAssignment(topology.inputs, optimized, renamed, graph.nodes);
    SortedOutputsKnown(topology.inputs, optimized, renamed, graph.nodes);
    return Success(LoweredGraph(graph, dag.value));
  }
}
