/** Which nodes fusion swallows, and what takes their place, in terms of the graph alone. */
module FusionByUse {
  import opened FusionAst
  import opened Elementwise
  import opened GraphSemantics
  import opened References
  import opened Clusters
  import opened FusionTrace
  import opened FusionTheorems

  /** The value of node `j` is read by node `i` through one operand slot, and named nowhere else. */
  ghost predicate OnlyUse(nodes: seq<GraphNode>, outputs: map<string, string>, j: int, i: int) {
    && 0 <= j < |nodes| && 0 <= i < |nodes|
    && (exists s | 0 <= s < |nodes[i].inputs| :: OneSlot(nodes[i].inputs, s, nodes[j].id))
    && (forall k | 0 <= k < |nodes| && k != i :: nodes[j].id !in nodes[k].inputs)
    && (forall key | key in outputs :: outputs[key] != nodes[j].id)
  }

  ghost predicate OneSlot(names: seq<string>, s: int, name: string) {
    forall t | 0 <= t < |names| :: names[t] == name <==> t == s
  }

  lemma NoOutputRefs(outputs: map<string, string>, name: string)
    ensures OutputRefs(outputs, name) == 0 <==> forall key | key in outputs :: outputs[key] != name
  {
    var keys := set key | key in outputs && outputs[key] == name;
    if forall key | key in outputs :: outputs[key] != name {
      assert keys == {};
    }
    if key :| key in outputs && outputs[key] == name {
      assert key in keys;
    }
  }

  /** One reference in all, from node `i`, is one operand slot of node `i`. */
  lemma SingleUse(nodes: seq<GraphNode>, outputs: map<string, string>, j: int, i: int)
    requires 0 <= j < |nodes| && ReadsValueOf(nodes, i, j) && RefCount(nodes, outputs, nodes[j].id) == 1
    ensures OnlyUse(nodes, outputs, j, i)
  {
    var name := nodes[j].id;
    var s :| 0 <= s < |nodes[i].inputs| && nodes[i].inputs[s] == name;
    NodeRefsOfOne(nodes, name, i);
    assert Occurrences(nodes[i].inputs, name) > 0;
    NoOutputRefs(outputs, name);
    hide NodeRefs, OutputRefs, Occurrences;
    forall k, t | 0 <= k < |nodes| && 0 <= t < |nodes[k].inputs| && nodes[k].inputs[t] == name
      ensures k == i && t == s
    {
      SingleReference(nodes, name, i, s, k, t);
    }
    assert OneSlot(nodes[i].inputs, s, name);
  }

  lemma UsedOnce(nodes: seq<GraphNode>, outputs: map<string, string>, j: int, i: int)
    requires OnlyUse(nodes, outputs, j, i)
    ensures ReadsValueOf(nodes, i, j) && RefCount(nodes, outputs, nodes[j].id) == 1
  {
    var name := nodes[j].id;
    var s :| 0 <= s < |nodes[i].inputs| && OneSlot(nodes[i].inputs, s, name);
    OnlyReference(nodes, name, i, s);
    NoOutputRefs(outputs, name);
  }

  /** The reader of a swallowed node is in its cluster, and elementwise like the node itself. */
  lemma SwallowedUse(nodes: seq<GraphNode>, outputs: map<string, string>, t: Trace, j: int) returns (i: int)
    requires FusionBy(nodes, outputs, t) && 0 <= j < |nodes| && t.absorbed[j]
    ensures OnlyUse(nodes, outputs, j, i) && Eligible(nodes[i]) && Eligible(nodes[j])
  {
    hide ClusterAt, External, MaximalFrom, RefCount, Eligible;
    var r :| r in t.clusters && j in t.clusters[r] && j != r;
    ClusterMember(nodes, outputs, t.slots[r], r, t.clusters[r], j);
    i :| i in t.clusters[r] && ReadsValueOf(nodes, i, j);
    ClusterSlot(nodes, outputs, t.slots[r], r, t.clusters[r]);
    SingleUse(nodes, outputs, j, i);
  }

  /** An elementwise node whose only reader is elementwise joins its reader's cluster. */
  lemma UsedOnceIsSwallowed(nodes: seq<GraphNode>, outputs: map<string, string>, t: Trace, j: int, i: int)
    requires Ordered(nodes) && FusionBy(nodes, outputs, t)
    requires OnlyUse(nodes, outputs, j, i) && Eligible(nodes[i]) && Eligible(nodes[j])
    ensures t.absorbed[j]
  {
    hide ClusterAt, RefCount, Eligible, OnlyUse;
    UsedOnce(nodes, outputs, j, i);
    assert j < i by {
      assert nodes[j].id in nodes[i].inputs;
    }
    assert i in t.clusters || t.absorbed[i] || External(nodes, outputs, nodes[j].id) by {
      if i !in t.clusters && !t.absorbed[i] {
        MaximalOperand(nodes, outputs, t, i, nodes[j].id);
      }
    }
    if t.absorbed[i] {
      var r :| r in t.clusters && i in t.clusters[r] && i != r;
      OperandJoins(nodes, outputs, t.slots[r], r, t.clusters[r], i, j);
    } else {
      RootIsMember(nodes, outputs, t.slots[i], i, t.clusters[i]);
      OperandJoins(nodes, outputs, t.slots[i], i, t.clusters[i], i, j);
    }
  }

  lemma PortsAreExternal(nodes: seq<GraphNode>, outputs: map<string, string>, node: GraphNode, r: int, members: set<int>)
    requires UniqueIds(nodes) && ClusterAt(nodes, outputs, node, r, members)
    ensures forall name | name in node.attributes[FUSE_AST].ast.inputPorts :: External(nodes, outputs, name)
  {
    hide External, Represents, Members, Inlinable;
  }

  /** What a cluster member reads, and could be swallowed, is in the cluster and not its root. */
  lemma OperandJoins(nodes: seq<GraphNode>, outputs: map<string, string>, node: GraphNode, r: int, members: set<int>,
                     i: int, j: int)
    requires UniqueIds(nodes) && ClusterAt(nodes, outputs, node, r, members)
    requires i in members && ReadsValueOf(nodes, i, j) && j < i && !External(nodes, outputs, nodes[j].id)
    ensures j in members && j != r
  {
    hide External, RefCount;
    var ast := node.attributes[FUSE_AST].ast;
    OperandIsCovered(nodes, ast.inputPorts, ast.root, node.id, i, nodes[j].id);
    PortsAreExternal(nodes, outputs, node, r, members);
  }

  /**
   A node disappears exactly when its operation and that of its only reader are both
   elementwise, and it is read there once and is no output.
   */
  lemma SwallowedIffUsedOnce(nodes: seq<GraphNode>, outputs: map<string, string>, after: seq<GraphNode>,
                             stats: FusionStats, j: nat)
    requires Ordered(nodes) && FusionResult(nodes, outputs, after, stats) && j < |nodes|
    ensures (forall a | 0 <= a < |after| :: after[a].id != nodes[j].id) <==>
            HasPrimitiveName(nodes[j].op) && exists i | 0 <= i < |nodes| :: HasPrimitiveName(nodes[i].op) && OnlyUse(nodes, outputs, j, i)
  {
    hide *;
    var t := ObtainTrace(nodes, outputs, after, stats);
    SurvivingIds(nodes, outputs, t);
    IdsNamed(after, nodes[j].id);
    EligibleNames(nodes);
    if t.absorbed[j] {
      var i := SwallowedUse(nodes, outputs, t, j);
      assert 0 <= i < |nodes| by {
        UseIsNode(nodes, outputs, j, i);
      }
    } else if i :| 0 <= i < |nodes| && HasPrimitiveName(nodes[j].op) && HasPrimitiveName(nodes[i].op) && OnlyUse(nodes, outputs, j, i) {
      UsedOnceIsSwallowed(nodes, outputs, t, j, i);
      assert false;
    }
  }

  lemma IdsNamed(nodes: seq<GraphNode>, id: string)
    ensures id !in Ids(nodes) <==> forall a | 0 <= a < |nodes| :: nodes[a].id != id
  {
  }

  lemma EligibleNames(nodes: seq<GraphNode>)
    ensures forall k | 0 <= k < |nodes| :: Eligible(nodes[k]) <==> HasPrimitiveName(nodes[k].op)
  {
    hide IsElementwiseOp, HasPrimitiveName;
    forall k | 0 <= k < |nodes|
      ensures Eligible(nodes[k]) <==> HasPrimitiveName(nodes[k].op)
    {
      ElementwiseIffNamed(nodes[k].op);
    }
  }

  lemma UseIsNode(nodes: seq<GraphNode>, outputs: map<string, string>, j: int, i: int)
    requires OnlyUse(nodes, outputs, j, i)
    ensures 0 <= i < |nodes|
  {
  }

  /** What is in the fused graph is an original node, or a fused one under the ID of the elementwise node it computes. */
  lemma SurvivorOrFused(nodes: seq<GraphNode>, outputs: map<string, string>, after: seq<GraphNode>,
                        stats: FusionStats, a: nat) returns (i: nat)
    requires FusionResult(nodes, outputs, after, stats) && a < |after|
    ensures i < |nodes| && after[a].id == nodes[i].id
    ensures after[a] == nodes[i] || (
      && HasPrimitiveName(nodes[i].op) && after[a].op == "optimizer.fusion"
      && after[a].attributes.Keys == {"fusion_ast"} && after[a].attributes["fusion_ast"].Fusion?
      && after[a].inputs == after[a].attributes["fusion_ast"].ast.inputPorts
      && after[a].attributes["fusion_ast"].ast.outputPort == nodes[i].id)
  {
    var t := ObtainTrace(nodes, outputs, after, stats);
    i := SurvivorSlot(t.slots, t.absorbed, a);
    if i in t.clusters {
      hide IsElementwiseOp, Represents, Members, External;
      assert ClusterAt(nodes, outputs, t.slots[i], i, t.clusters[i]);
      ClusterSlot(nodes, outputs, t.slots[i], i, t.clusters[i]);
      ElementwiseIffNamed(nodes[i].op);
    }
  }

  /** The nodes of the result that the pass made. */
  ghost function Made(nodes: seq<GraphNode>, after: seq<GraphNode>): set<int> {
    set a | 0 <= a < |after| && after[a] !in nodes
  }

  ghost function Roots(roots: set<int>, n: nat): set<int> {
    set r | r in roots && r < n
  }

  lemma MadeNext(nodes: seq<GraphNode>, before: seq<GraphNode>, node: GraphNode)
    ensures |Made(nodes, before + [node])| == |Made(nodes, before)| + if node in nodes then 0 else 1
  {
    var after := before + [node];
    assert Made(nodes, after) == if node in nodes then Made(nodes, before) else Made(nodes, before) + {|before|};
  }

  lemma RootsNext(roots: set<int>, n: nat)
    ensures |Roots(roots, n + 1)| == |Roots(roots, n)| + if n in roots then 1 else 0
  {
    assert Roots(roots, n + 1) == if n in roots then Roots(roots, n) + {n} else Roots(roots, n);
  }

  lemma SurvivorsNext(slots: seq<GraphNode>, absorbed: seq<bool>, n: nat)
    requires n < |slots| == |absorbed|
    ensures Survivors(slots[..n + 1], absorbed[..n + 1])
         == if absorbed[n] then Survivors(slots[..n], absorbed[..n]) else Survivors(slots[..n], absorbed[..n]) + [slots[n]]
  {
    assert slots[..n + 1][..n] == slots[..n] && absorbed[..n + 1][..n] == absorbed[..n];
  }

  lemma {:induction false} MadeAreRoots(nodes: seq<GraphNode>, slots: seq<GraphNode>, absorbed: seq<bool>, roots: set<int>, n: nat)
    requires n <= |slots| == |absorbed|
    requires forall r | r in roots :: 0 <= r < |slots| && !absorbed[r]
    requires forall i | 0 <= i < |slots| && !absorbed[i] :: slots[i] !in nodes <==> i in roots
    ensures |Made(nodes, Survivors(slots[..n], absorbed[..n]))| == |Roots(roots, n)|
  {
    if n == 0 {
      assert Made(nodes, Survivors(slots[..0], absorbed[..0])) == {} && Roots(roots, 0) == {};
    } else {
      hide *;
      MadeAreRoots(nodes, slots, absorbed, roots, n - 1);
      SurvivorsNext(slots, absorbed, n - 1);
      RootsNext(roots, n - 1);
      if !absorbed[n - 1] {
        MadeNext(nodes, Survivors(slots[..n - 1], absorbed[..n - 1]), slots[n - 1]);
      }
    }
  }

  /** The pass reports as many clusters as it made nodes. */
  lemma ClustersAreMade(nodes: seq<GraphNode>, outputs: map<string, string>, after: seq<GraphNode>, stats: FusionStats)
    requires FusionResult(nodes, outputs, after, stats)
    ensures stats.clusters == |Made(nodes, after)|
  {
    var t := ObtainTrace(nodes, outputs, after, stats);
    hide ClusterAt, FusionBy, Survivors;
    forall i | 0 <= i < |t.slots| && !t.absorbed[i]
      ensures t.slots[i] !in nodes <==> i in t.clusters
    {
      SlotIsCluster(nodes, outputs, t, i);
      if i !in t.clusters {
        assert t.slots[i] == nodes[i];
      }
    }
    MadeAreRoots(nodes, t.slots, t.absorbed, t.clusters.Keys, |t.slots|);
    assert t.slots[..|t.slots|] == t.slots && t.absorbed[..|t.slots|] == t.absorbed;
    assert Roots(t.clusters.Keys, |t.slots|) == t.clusters.Keys;
  }
}
