/** The optimizer pipeline: fold, then rewrite, then fuse, each optional. */
module Optimizer {
  import opened Wrappers
  import opened FusionAst
  import opened Reference
  import opened Elementwise
  import opened GraphSemantics
  import opened Clusters
  import ConstantFold
  import Rewrite
  import Fuse
  import FusionTheorems

  datatype Options = Options(disableConstantFold: bool, disableRewrite: bool, disableFusion: bool)

  type Kernel = (string, string, map<string, Attribute>, seq<Tensor>) -> Tensor

  /** The graph is well formed, refers to nothing that is gone, and computes what it did. */
  ghost predicate Refines(libm: Libm, kernel: Kernel, env: Env, nodes: seq<GraphNode>, outputs: map<string, string>,
                          after: seq<GraphNode>, renamed: map<string, string>)
  {
    && Ordered(after) && ElementwiseArity(after)
    && NoDangling(nodes, after, renamed)
    && NoNewNames(nodes, outputs, after, renamed)
    && SameValues(Machine(libm, kernel), env, nodes, outputs, after, renamed)
  }

  lemma RefinesSelf(libm: Libm, kernel: Kernel, env: Env, nodes: seq<GraphNode>, outputs: map<string, string>)
    requires Ordered(nodes) && ElementwiseArity(nodes)
    ensures Refines(libm, kernel, env, nodes, outputs, nodes, outputs)
  {
  }

  lemma RefinesTransitive(libm: Libm, kernel: Kernel, env: Env,
                          a: seq<GraphNode>, aOut: map<string, string>,
                          b: seq<GraphNode>, bOut: map<string, string>,
                          c: seq<GraphNode>, cOut: map<string, string>)
    requires Refines(libm, kernel, env, a, aOut, b, bOut) && Refines(libm, kernel, env, b, bOut, c, cOut)
    ensures Refines(libm, kernel, env, a, aOut, c, cOut)
  {
    hide Ordered, ElementwiseArity, SameValues, NoDangling, NoNewNames;
    NamesTransitive(a, aOut, b, bOut, c, cOut);
    ValuesTransitive(Machine(libm, kernel), env, a, aOut, b, bOut, c, cOut);
  }

  lemma NamesTransitive(a: seq<GraphNode>, aOut: map<string, string>, b: seq<GraphNode>, bOut: map<string, string>,
                        c: seq<GraphNode>, cOut: map<string, string>)
    requires NoDangling(a, b, bOut) && NoNewNames(a, aOut, b, bOut)
    requires NoDangling(b, c, cOut) && NoNewNames(b, bOut, c, cOut)
    ensures NoDangling(a, c, cOut) && NoNewNames(a, aOut, c, cOut)
  {
    forall name | Mentions(c, cOut, name) && name in Ids(a)
      ensures name in Ids(c)
    {
      assert Mentions(b, bOut, name);
    }
    forall i, name | 0 <= i < |c| && name in c[i].inputs && name in Ids(a)
      ensures name in Ids(c)
    {
      assert Mentions(c, cOut, name);
    }
    forall key | key in cOut && cOut[key] in Ids(a)
      ensures cOut[key] in Ids(c)
    {
      assert Mentions(c, cOut, cOut[key]);
    }
  }

  lemma ValuesTransitive(m: Machine, env: Env, a: seq<GraphNode>, aOut: map<string, string>,
                         b: seq<GraphNode>, bOut: map<string, string>, c: seq<GraphNode>, cOut: map<string, string>)
    requires SameValues(m, env, a, aOut, b, bOut) && SameValues(m, env, b, bOut, c, cOut) && NoDangling(b, c, cOut)
    ensures SameValues(m, env, a, aOut, c, cOut)
  {
    hide GraphSemantics.Run, Lookup;
  }

  lemma FoldRefines(libm: Libm, kernel: Kernel, env: Env, nodes: seq<GraphNode>, outputs: map<string, string>,
                    after: seq<GraphNode>, values: map<string, real>)
    requires Ordered(nodes) && ElementwiseArity(nodes) && Ids(nodes) !! env.Keys
    requires ConstantFold.FoldResult(libm, nodes, after, values)
    ensures Refines(libm, kernel, env, nodes, outputs, after, outputs)
  {
    hide ConstantFold.FoldResult, Ordered, ElementwiseArity, SameValues, GraphSemantics.Run, Mentions, Ids;
    ConstantFold.FoldPreservesMeaning(Machine(libm, kernel), env, nodes, outputs, after, values);
    ConstantFold.FoldKeepsStructure(libm, nodes, after, values);
    FoldKeepsArity(libm, nodes, after, values);
    SameIdsDangleNot(nodes, after, outputs);
  }

  /** A folded node is a constant; the others are as they were. */
  lemma FoldKeepsArity(libm: Libm, nodes: seq<GraphNode>, after: seq<GraphNode>, values: map<string, real>)
    requires ConstantFold.FoldResult(libm, nodes, after, values) && ElementwiseArity(nodes)
    ensures ElementwiseArity(after)
  {
    hide ConstantFold.FoldedValue, IsElementwiseOp;
    NotElementwise(CONSTANT_OP);
    assert forall i | 0 <= i < |after| :: after[i] == nodes[i] || after[i].op == CONSTANT_OP;
  }

  lemma SameIdsDangleNot(nodes: seq<GraphNode>, after: seq<GraphNode>, outputs: map<string, string>)
    requires Ids(after) == Ids(nodes)
    ensures NoDangling(nodes, after, outputs)
  {
    hide Ids;
  }

  lemma RewriteRefines(libm: Libm, kernel: Kernel, env: Env, nodes: seq<GraphNode>, outputs: map<string, string>,
                       after: seq<GraphNode>, renamed: map<string, string>)
    requires Ordered(nodes) && ElementwiseArity(nodes) && Ids(nodes) !! env.Keys
    requires Rewrite.RewriteResult(nodes, outputs, after, renamed)
    ensures Refines(libm, kernel, env, nodes, outputs, after, renamed)
  {
    Rewrite.RewriteKeepsStructure(nodes, outputs, after, renamed);
    Rewrite.RewriteMentions(nodes, outputs, after, renamed);
    Rewrite.RewritePreservesMeaning(Machine(libm, kernel), env, nodes, outputs, after, renamed);
    forall a | 0 <= a < |after| && Eligible(after[a])
      ensures |after[a].inputs| == Arity(IsElementwiseOp(after[a].op).value)
    {
      var i := Rewrite.KeptNode(nodes, a);
    }
  }

  lemma FuseRefines(libm: Libm, kernel: Kernel, env: Env, nodes: seq<GraphNode>, outputs: map<string, string>,
                    after: seq<GraphNode>, stats: FusionStats)
    requires Ordered(nodes) && ElementwiseArity(nodes) && Ids(nodes) !! env.Keys
    requires FusionResult(nodes, outputs, after, stats)
    ensures Refines(libm, kernel, env, nodes, outputs, after, outputs)
  {
    FusionTheorems.FusionKeepsStructure(nodes, outputs, after, stats);
    FusionTheorems.FusionMentions(nodes, outputs, after, stats);
    FusionTheorems.FusionPreservesMeaning(Machine(libm, kernel), env, nodes, outputs, after, stats);
    var t := FusionTheorems.ObtainTrace(nodes, outputs, after, stats);
    hide FusionBy, ClusterAt, FusionResult, IsElementwiseOp;
    forall a | 0 <= a < |after| && Eligible(after[a])
      ensures |after[a].inputs| == Arity(IsElementwiseOp(after[a].op).value)
    {
      var i := FusionTheorems.SurvivorSlot(t.slots, t.absorbed, a);
      FusionTheorems.SlotIsCluster(nodes, outputs, t, i);
    }
  }

  /** For every kernel and every input, the graph still refines the one the run started from. */
  ghost predicate RefinesAlways(libm: Libm, nodes: seq<GraphNode>, outputs: map<string, string>,
                                after: seq<GraphNode>, renamed: map<string, string>)
  {
    forall kernel: Kernel, env: Env | Ids(nodes) !! env.Keys ::
      Refines(libm, kernel, env, nodes, outputs, after, renamed)
  }

  lemma RefinesChain(libm: Libm, a: seq<GraphNode>, aOut: map<string, string>,
                     b: seq<GraphNode>, bOut: map<string, string>, c: seq<GraphNode>, cOut: map<string, string>)
    requires RefinesAlways(libm, a, aOut, b, bOut) && RefinesAlways(libm, b, bOut, c, cOut)
    ensures RefinesAlways(libm, a, aOut, c, cOut)
  {
    hide Refines;
    forall kernel: Kernel, env: Env | Ids(a) !! env.Keys
      ensures Refines(libm, kernel, env, a, aOut, c, cOut)
    {
      RefinesIds(libm, kernel, env, a, aOut, b, bOut);
      RefinesTransitive(libm, kernel, env, a, aOut, b, bOut, c, cOut);
    }
  }

  lemma RefinesIds(libm: Libm, kernel: Kernel, env: Env, a: seq<GraphNode>, aOut: map<string, string>,
                   b: seq<GraphNode>, bOut: map<string, string>)
    requires Refines(libm, kernel, env, a, aOut, b, bOut)
    ensures Ids(b) <= Ids(a)
  {
  }

  lemma RefinesWellFormed(libm: Libm, a: seq<GraphNode>, aOut: map<string, string>,
                          b: seq<GraphNode>, bOut: map<string, string>)
    requires RefinesAlways(libm, a, aOut, b, bOut)
    ensures Ordered(b) && ElementwiseArity(b)
  {
    assert Refines(libm, (id, op, attributes, args) => None, map[], a, aOut, b, bOut);
  }

  method FoldStage(graph: Graph, libm: Libm) returns (folded: nat, ghost values: map<string, real>)
    requires Ordered(graph.nodes) && ElementwiseArity(graph.nodes)
    modifies graph`nodes
    ensures RefinesAlways(libm, old(graph.nodes), graph.outputs, graph.nodes, graph.outputs)
    ensures ConstantFold.FoldResult(libm, old(graph.nodes), graph.nodes, values)
    ensures |graph.nodes| == |old(graph.nodes)| && folded == |ConstantFold.Changed(old(graph.nodes), graph.nodes)|
  {
    ghost var start := graph.nodes;
    folded, values := ConstantFold.ConstantFold(graph, libm);
    forall kernel: Kernel, env: Env | Ids(start) !! env.Keys {
      FoldRefines(libm, kernel, env, start, graph.outputs, graph.nodes, values);
    }
  }

  method RewriteStage(graph: Graph, ghost libm: Libm) returns (removed: nat)
    requires Ordered(graph.nodes) && ElementwiseArity(graph.nodes)
    modifies graph`nodes, graph`outputs
    ensures RefinesAlways(libm, old(graph.nodes), old(graph.outputs), graph.nodes, graph.outputs)
    ensures Rewrite.RewriteResult(old(graph.nodes), old(graph.outputs), graph.nodes, graph.outputs)
    ensures |graph.nodes| + removed == |old(graph.nodes)|
  {
    ghost var start, startOut := graph.nodes, graph.outputs;
    removed := Rewrite.RewriteIdentities(graph);
    forall kernel: Kernel, env: Env | Ids(start) !! env.Keys {
      RewriteRefines(libm, kernel, env, start, startOut, graph.nodes, graph.outputs);
    }
  }

  method FuseStage(graph: Graph, ghost libm: Libm) returns (stats: FusionStats)
    requires Ordered(graph.nodes) && ElementwiseArity(graph.nodes)
    modifies graph`nodes
    ensures RefinesAlways(libm, old(graph.nodes), graph.outputs, graph.nodes, graph.outputs)
    ensures FusionResult(old(graph.nodes), graph.outputs, graph.nodes, stats)
  {
    ghost var start := graph.nodes;
    stats := Fuse.Fuse(graph);
    forall kernel: Kernel, env: Env | Ids(start) !! env.Keys {
      FuseRefines(libm, kernel, env, start, graph.outputs, graph.nodes, stats);
    }
  }

  datatype Stats = Stats(nodesFolded: nat, identitiesRemoved: nat, fusion: FusionStats)

  /** The graphs between the passes: each enabled pass did its work, each disabled one did nothing. */
  ghost predicate PassesRun(libm: Libm, options: Options, nodes: seq<GraphNode>, outputs: map<string, string>,
                            folded: seq<GraphNode>, rewritten: seq<GraphNode>, values: map<string, real>,
                            after: seq<GraphNode>, renamed: map<string, string>, stats: Stats)
  {
    && (if options.disableConstantFold then folded == nodes && stats.nodesFolded == 0
        else ConstantFold.FoldResult(libm, nodes, folded, values)
             && |folded| == |nodes| && stats.nodesFolded == |ConstantFold.Changed(nodes, folded)|)
    && Ordered(folded)
    && |rewritten| + stats.identitiesRemoved == |folded|
    && (if options.disableRewrite then rewritten == folded && renamed == outputs
        else Rewrite.RewriteResult(folded, outputs, rewritten, renamed))
    && (if options.disableFusion then after == rewritten && stats.fusion == FusionStats(0, 0, 0)
        else FusionResult(rewritten, renamed, after, stats.fusion))
  }

  /** Runs the enabled passes in their fixed order; whatever is enabled, the graph keeps its meaning. */
  method Run(graph: Graph, libm: Libm, options: Options)
    returns (stats: Stats, ghost folded: seq<GraphNode>, ghost rewritten: seq<GraphNode>, ghost values: map<string, real>)
    requires Ordered(graph.nodes) && ElementwiseArity(graph.nodes)
    modifies graph`nodes, graph`outputs
    ensures RefinesAlways(libm, old(graph.nodes), old(graph.outputs), graph.nodes, graph.outputs)
    ensures PassesRun(libm, options, old(graph.nodes), old(graph.outputs), folded, rewritten, values,
                      graph.nodes, graph.outputs, stats)
  {
    hide RefinesAlways, Ordered, ElementwiseArity, FusionResult;
    hide ConstantFold.FoldResult, ConstantFold.Changed, Rewrite.RewriteResult;
    ghost var start, startOut := graph.nodes, graph.outputs;
    StartRefines(libm, start, startOut);
    stats, values := Stats(0, 0, FusionStats(0, 0, 0)), map[];
    if !options.disableConstantFold {
      var count;
      count, values := FoldStage(graph, libm);
      stats := stats.(nodesFolded := count);
    }
    RefinesWellFormed(libm, start, startOut, graph.nodes, graph.outputs);
    folded := graph.nodes;
    if !options.disableRewrite {
      var removed := RewriteStage(graph, libm);
      stats := stats.(identitiesRemoved := removed);
      RefinesChain(libm, start, startOut, folded, startOut, graph.nodes, graph.outputs);
    }
    RefinesWellFormed(libm, start, startOut, graph.nodes, graph.outputs);
    rewritten := graph.nodes;
    if !options.disableFusion {
      var fusion := FuseStage(graph, libm);
      stats := stats.(fusion := fusion);
      RefinesChain(libm, start, startOut, rewritten, graph.outputs, graph.nodes, graph.outputs);
    }
  }

  lemma StartRefines(libm: Libm, nodes: seq<GraphNode>, outputs: map<string, string>)
    requires Ordered(nodes) && ElementwiseArity(nodes)
    ensures RefinesAlways(libm, nodes, outputs, nodes, outputs)
  {
    forall kernel: Kernel, env: Env {
      RefinesSelf(libm, kernel, env, nodes, outputs);
    }
  }
}
