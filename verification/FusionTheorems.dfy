/** What fusion promises: same values, nothing dangling, nothing left to fuse, nothing lost. */
module FusionTheorems {
  import opened Wrappers
  import opened FusionAst
  import opened Reference
  import opened Elementwise
  import opened GraphSemantics
  import opened FusionMeaning
  import opened References
  import opened Clusters
  import opened FusionTrace

  // ----- trees and the values they stand for

  /** Elementwise nodes mean their primitive, applied pointwise. */
  lemma EligibleValue(m: Machine, node: GraphNode, v: Env)
    requires Eligible(node) && |node.inputs| == Arity(IsElementwiseOp(node.op).value)
    ensures NodeValue(m, node, v) == Pointwise(m.libm, IsElementwiseOp(node.op).value, Gather(v, node.inputs))
  {
    if node.op == CONSTANT_OP || node.op == FUSE_OP || IsIdentityOp(node.op) {
      NotElementwise(node.op);
    }
  }

  lemma {:induction false} RepresentsValid(nodes: seq<GraphNode>, ports: seq<string>, tree: ASTNode, name: string)
    requires UniqueIds(nodes) && ElementwiseArity(nodes) && Represents(nodes, ports, tree, name)
    ensures ValidFusionNode(tree, |ports|) && ConstantFree(tree)
  {
    if !tree.nodeType.NodeInput? {
      var node := nodes[Producers(nodes)[name]];
      forall k | 0 <= k < |tree.children|
        ensures ValidFusionNode(tree.children[k], |ports|) && ConstantFree(tree.children[k])
      {
        RepresentsValid(nodes, ports, tree.children[k], node.inputs[k]);
      }
    }
  }

  /** A tree for a value evaluates to that value. */
  lemma {:induction false} RepresentsValue(m: Machine, nodes: seq<GraphNode>, ports: seq<string>,
                                           tree: ASTNode, name: string, v: Env)
    requires UniqueIds(nodes) && ElementwiseArity(nodes) && Represents(nodes, ports, tree, name)
    requires Solves(m, nodes, v)
    requires ValidFusionNode(tree, |ports|) && ConstantFree(tree)
    ensures TreeTensor(m.libm, tree, Gather(v, ports)) == Lookup(v, name)
    decreases tree
  {
    if !tree.nodeType.NodeInput? {
      var i := Producers(nodes)[name];
      var node := nodes[i];
      var args := ChildTensors(m.libm, tree, Gather(v, ports));
      forall k | 0 <= k < |tree.children|
        ensures args[k] == Lookup(v, node.inputs[k])
      {
        RepresentsValue(m, nodes, ports, tree.children[k], node.inputs[k], v);
      }
      assert args == Gather(v, node.inputs);
      EligibleValue(m, node, v);
    }
  }

  /** Every value a tree reads is an operand of one of the nodes it swallowed. */
  lemma {:induction false} LeafIsOperand(nodes: seq<GraphNode>, ports: seq<string>, tree: ASTNode, name: string, p: int)
    returns (m: int)
    requires UniqueIds(nodes) && Represents(nodes, ports, tree, name)
    requires !tree.nodeType.NodeInput? && p in Leaves(tree)
    ensures 0 <= p < |ports| && m in Members(nodes, tree, name)
    ensures 0 <= m < |nodes| && ports[p] in nodes[m].inputs
    decreases tree
  {
    var i := Producers(nodes)[name];
    var k :| 0 <= k < |tree.children| && p in Leaves(tree.children[k]);
    var child, operand := tree.children[k], nodes[i].inputs[k];
    if child.nodeType.NodeInput? {
      m := i;
    } else {
      m := LeafIsOperand(nodes, ports, child, operand, p);
    }
  }

  /** Every operand of a swallowed node is either listed as a port or swallowed too. */
  lemma {:induction false} OperandIsCovered(nodes: seq<GraphNode>, ports: seq<string>, tree: ASTNode, name: string,
                                            m: int, operand: string)
    requires UniqueIds(nodes) && Represents(nodes, ports, tree, name)
    requires m in Members(nodes, tree, name) && 0 <= m < |nodes| && operand in nodes[m].inputs
    ensures operand in ports ||
            (operand in Producers(nodes) && Producers(nodes)[operand] in Members(nodes, tree, name))
    decreases tree
  {
    var i := Producers(nodes)[name];
    if m == i {
      var k :| 0 <= k < |nodes[i].inputs| && nodes[i].inputs[k] == operand;
      assert Represents(nodes, ports, tree.children[k], operand);
      if !tree.children[k].nodeType.NodeInput? {
        assert Producers(nodes)[operand] in Members(nodes, tree.children[k], operand);
      }
    } else {
      var k :| 0 <= k < |tree.children| && m in Members(nodes, tree.children[k], nodes[i].inputs[k]);
      OperandIsCovered(nodes, ports, tree.children[k], nodes[i].inputs[k], m, operand);
    }
  }

  // ----- the slots before removal

  /** The ports of a cluster name only values produced before its root. */
  lemma PortsAreEarlier(nodes: seq<GraphNode>, outputs: map<string, string>, node: GraphNode,
                        r: int, members: set<int>, p: int, j: int)
    requires Ordered(nodes) && ClusterAt(nodes, outputs, node, r, members)
    requires 0 <= p < |node.inputs| && 0 <= j < |nodes| && node.inputs[p] == nodes[j].id
    ensures j < r
  {
    var ast := node.attributes[FUSE_AST].ast;
    var m := LeafIsOperand(nodes, ast.inputPorts, ast.root, node.id, p);
    assert nodes[j].id in nodes[m].inputs;
  }

  lemma SlotsKeepIds(nodes: seq<GraphNode>, outputs: map<string, string>, t: Trace)
    requires UniqueIds(nodes) && SlotsFrom(nodes, outputs, t)
    ensures forall i | 0 <= i < |nodes| :: t.slots[i].id == nodes[i].id
  {
    forall i | 0 <= i < |nodes|
      ensures t.slots[i].id == nodes[i].id
    {
      if i in t.clusters {
        assert ClusterAt(nodes, outputs, t.slots[i], i, t.clusters[i]);
      }
    }
  }

  lemma SlotsOrdered(nodes: seq<GraphNode>, outputs: map<string, string>, t: Trace)
    requires Ordered(nodes) && SlotsFrom(nodes, outputs, t)
    ensures Ordered(t.slots)
  {
    hide ClusterAt, External;
    SlotsKeepIds(nodes, outputs, t);
    forall i, j | 0 <= i <= j < |t.slots|
      ensures t.slots[j].id !in t.slots[i].inputs
    {
      assert t.slots[j].id == nodes[j].id;
      if i in t.clusters {
        if nodes[j].id in t.slots[i].inputs {
          var p :| 0 <= p < |t.slots[i].inputs| && t.slots[i].inputs[p] == nodes[j].id;
          PortsAreEarlier(nodes, outputs, t.slots[i], i, t.clusters[i], p, j);
        }
      }
    }
  }

  /** An absorbed value's single reader went into the same cluster. */
  lemma AbsorbedReader(nodes: seq<GraphNode>, outputs: map<string, string>, t: Trace, j: int, m: int)
    returns (r: int)
    requires FusionBy(nodes, outputs, t)
    requires 0 <= j < |nodes| && t.absorbed[j] && ReadsValueOf(nodes, m, j)
    ensures r in t.clusters && m in t.clusters[r] && j in t.clusters[r]
    ensures Inlinable(nodes, outputs, j)
  {
    hide ClusterAt, External, MaximalFrom;
    r :| r in t.clusters && j in t.clusters[r] && j != r;
    ClusterMember(nodes, outputs, t.slots[r], r, t.clusters[r], j);
    var q :| q in t.clusters[r] && ReadsValueOf(nodes, q, j);
    var a :| 0 <= a < |nodes[m].inputs| && nodes[m].inputs[a] == nodes[j].id;
    var b :| 0 <= b < |nodes[q].inputs| && nodes[q].inputs[b] == nodes[j].id;
    SingleReference(nodes, nodes[j].id, m, a, q, b);
  }

  /** No surviving slot reads an absorbed value. */
  lemma SlotReadsNoAbsorbed(nodes: seq<GraphNode>, outputs: map<string, string>, t: Trace, i: int, j: int)
    requires FusionBy(nodes, outputs, t)
    requires 0 <= i < |nodes| && !t.absorbed[i] && 0 <= j < |nodes| && t.absorbed[j]
    ensures nodes[j].id !in t.slots[i].inputs
  {
    hide MaximalFrom, Represents, Members;
    if nodes[j].id in t.slots[i].inputs {
      if i in t.clusters {
        assert ClusterAt(nodes, outputs, t.slots[i], i, t.clusters[i]);
        assert External(nodes, outputs, nodes[j].id);
        var r :| r in t.clusters && j in t.clusters[r] && j != r;
        ClusterMember(nodes, outputs, t.slots[r], r, t.clusters[r], j);
      } else {
        assert ReadsValueOf(nodes, i, j);
        var r := AbsorbedReader(nodes, outputs, t, j, i);
      }
      assert false;
    }
  }

  /** No graph output names an absorbed value. */
  lemma OutputIsNotAbsorbed(nodes: seq<GraphNode>, outputs: map<string, string>, t: Trace, key: string, j: int)
    requires FusionBy(nodes, outputs, t)
    requires key in outputs && 0 <= j < |nodes| && t.absorbed[j]
    ensures outputs[key] != nodes[j].id
  {
    hide ClusterAt, External, MaximalFrom;
    var r :| r in t.clusters && j in t.clusters[r] && j != r;
    ClusterMember(nodes, outputs, t.slots[r], r, t.clusters[r], j);
    var q :| q in t.clusters[r] && ReadsValueOf(nodes, q, j);
    var name := nodes[j].id;
    if outputs[key] == name {
      var b :| 0 <= b < |nodes[q].inputs| && nodes[q].inputs[b] == name;
      assert Occurrences(nodes[q].inputs, name) > 0;
      NodeRefsOfOne(nodes, name, q);
      OutputIsReference(outputs, key);
    }
  }

  /** Every surviving slot satisfies its equation in any solution of the original graph. */
  lemma SlotValue(m: Machine, nodes: seq<GraphNode>, outputs: map<string, string>, t: Trace, i: int, v: Env)
    requires UniqueIds(nodes) && ElementwiseArity(nodes) && SlotsFrom(nodes, outputs, t)
    requires Solves(m, nodes, v) && 0 <= i < |nodes|
    ensures t.slots[i].id in v && v[t.slots[i].id] == NodeValue(m, t.slots[i], v)
  {
    if i in t.clusters {
      ClusterValue(m, nodes, outputs, t.slots[i], i, t.clusters[i], v);
    }
  }

  lemma ClusterValue(m: Machine, nodes: seq<GraphNode>, outputs: map<string, string>, node: GraphNode,
                     r: int, members: set<int>, v: Env)
    requires UniqueIds(nodes) && ElementwiseArity(nodes) && ClusterAt(nodes, outputs, node, r, members)
    requires Solves(m, nodes, v)
    ensures node.id in v && v[node.id] == NodeValue(m, node, v)
  {
    hide External, Inlinable, ReadsValueOf;
    var ast := node.attributes[FUSE_AST].ast;
    RepresentsValid(nodes, ast.inputPorts, ast.root, node.id);
    RepresentsValue(m, nodes, ast.inputPorts, ast.root, node.id, v);
    var args := Gather(v, ast.inputPorts);
    TreeHasLeaf(ast.root, |ast.inputPorts|);
    FusedKernelIsTree(m.libm, ast.root, args);
    assert nodes[r].id in v;
  }

  lemma {:induction false} TreeHasLeaf(tree: ASTNode, count: nat)
    requires ValidFusionNode(tree, count) && ConstantFree(tree)
    ensures count > 0
  {
    if !tree.nodeType.NodeInput? {
      TreeHasLeaf(tree.children[0], count);
    }
  }

  // ----- from slots to survivors

  lemma {:induction false} SurvivorsCount(slots: seq<GraphNode>, absorbed: seq<bool>)
    requires |slots| == |absorbed|
    ensures |Survivors(slots, absorbed)| + CountTrue(absorbed) == |slots|
  {
    if slots != [] {
      SurvivorsCount(slots[..|slots| - 1], absorbed[..|slots| - 1]);
    }
  }

  lemma {:induction false} SurvivorSlot(slots: seq<GraphNode>, absorbed: seq<bool>, a: nat) returns (i: nat)
    requires |slots| == |absorbed| && a < |Survivors(slots, absorbed)|
    ensures i < |slots| && !absorbed[i] && slots[i] == Survivors(slots, absorbed)[a]
  {
    var n := |slots| - 1;
    if a < |Survivors(slots[..n], absorbed[..n])| {
      i := SurvivorSlot(slots[..n], absorbed[..n], a);
    } else {
      i := n;
    }
  }

  lemma {:induction false} SlotSurvives(slots: seq<GraphNode>, absorbed: seq<bool>, i: nat)
    requires |slots| == |absorbed| && i < |slots| && !absorbed[i]
    ensures slots[i] in Survivors(slots, absorbed)
  {
    var n := |slots| - 1;
    if i < n {
      SlotSurvives(slots[..n], absorbed[..n], i);
    }
  }

  lemma {:induction false} SurvivorsOrdered(slots: seq<GraphNode>, absorbed: seq<bool>)
    requires |slots| == |absorbed| && Ordered(slots)
    ensures Ordered(Survivors(slots, absorbed))
  {
    if slots != [] {
      var n := |slots| - 1;
      OrderedPrefix(slots, n);
      SurvivorsOrdered(slots[..n], absorbed[..n]);
      var kept := Survivors(slots[..n], absorbed[..n]);
      forall a | 0 <= a < |kept|
        ensures kept[a].id != slots[n].id && slots[n].id !in kept[a].inputs
      {
        var i := SurvivorSlot(slots[..n], absorbed[..n], a);
        assert slots[i] == kept[a];
      }
      assert slots[n].id !in slots[n].inputs;
    }
  }

  lemma SurvivingIds(nodes: seq<GraphNode>, outputs: map<string, string>, t: Trace)
    requires FusionBy(nodes, outputs, t)
    ensures forall i | 0 <= i < |nodes| :: nodes[i].id in Ids(Survivors(t.slots, t.absorbed)) <==> !t.absorbed[i]
    ensures Ids(Survivors(t.slots, t.absorbed)) <= Ids(nodes)
  {
    hide ClusterAt, External, MaximalFrom, PartitionedBy;
    var after := Survivors(t.slots, t.absorbed);
    SlotsKeepIds(nodes, outputs, t);
    forall i | 0 <= i < |nodes|
      ensures nodes[i].id in Ids(after) <==> !t.absorbed[i]
    {
      if !t.absorbed[i] {
        SlotSurvives(t.slots, t.absorbed, i);
      }
      if nodes[i].id in Ids(after) {
        var a :| 0 <= a < |after| && after[a].id == nodes[i].id;
        var k := SurvivorSlot(t.slots, t.absorbed, a);
        assert nodes[k].id == nodes[i].id;
      }
    }
    forall id | id in Ids(after)
      ensures id in Ids(nodes)
    {
      var a :| 0 <= a < |after| && after[a].id == id;
      var k := SurvivorSlot(t.slots, t.absorbed, a);
      assert nodes[k].id == id;
    }
  }

  lemma SurvivorsDangleNothing(nodes: seq<GraphNode>, outputs: map<string, string>, t: Trace)
    requires FusionBy(nodes, outputs, t)
    ensures NoDangling(nodes, Survivors(t.slots, t.absorbed), outputs)
  {
    hide FusionBy, Survivors;
    assert |t.slots| == |t.absorbed| == |nodes| by {
      TraceLengths(nodes, outputs, t);
    }
    var after := Survivors(t.slots, t.absorbed);
    SurvivingIds(nodes, outputs, t);
    forall a, name | 0 <= a < |after| && name in after[a].inputs && name in Ids(nodes)
      ensures name in Ids(after)
    {
      var i := SurvivorSlot(t.slots, t.absorbed, a);
      var j :| 0 <= j < |nodes| && nodes[j].id == name;
      if t.absorbed[j] {
        SlotReadsNoAbsorbed(nodes, outputs, t, i, j);
      }
    }
    forall key | key in outputs && outputs[key] in Ids(nodes)
      ensures outputs[key] in Ids(after)
    {
      var j :| 0 <= j < |nodes| && nodes[j].id == outputs[key];
      if t.absorbed[j] {
        OutputIsNotAbsorbed(nodes, outputs, t, key, j);
      }
    }
  }

  lemma TraceLengths(nodes: seq<GraphNode>, outputs: map<string, string>, t: Trace)
    requires FusionBy(nodes, outputs, t)
    ensures UniqueIds(nodes) && |t.slots| == |t.absorbed| == |nodes|
  {
  }

  // ----- the theorems

  lemma ObtainTrace(nodes: seq<GraphNode>, outputs: map<string, string>,
                    after: seq<GraphNode>, stats: FusionStats) returns (t: Trace)
    requires FusionResult(nodes, outputs, after, stats)
    ensures FusionBy(nodes, outputs, t) && |t.slots| == |t.absorbed| == |nodes|
    ensures UniqueIds(nodes) && SlotsFrom(nodes, outputs, t)
    ensures after == Survivors(t.slots, t.absorbed)
    ensures stats == FusionStats(|t.clusters|, |t.clusters| + CountTrue(t.absorbed), CountTrue(t.absorbed))
  {
    t :| FusionBy(nodes, outputs, t) && after == Survivors(t.slots, t.absorbed)
         && stats == FusionStats(|t.clusters|, |t.clusters| + CountTrue(t.absorbed), CountTrue(t.absorbed));
  }

  /** Fusion keeps execution order and leaves no reference to a swallowed node. */
  lemma FusionKeepsStructure(nodes: seq<GraphNode>, outputs: map<string, string>,
                             after: seq<GraphNode>, stats: FusionStats)
    requires Ordered(nodes) && FusionResult(nodes, outputs, after, stats)
    ensures Ordered(after) && NoDangling(nodes, after, outputs)
  {
    var t := ObtainTrace(nodes, outputs, after, stats);
    hide FusionBy, SlotsFrom, FusionResult;
    SlotsOrdered(nodes, outputs, t);
    SurvivorsOrdered(t.slots, t.absorbed);
    SurvivorsDangleNothing(nodes, outputs, t);
  }

  /** Every value a fused graph refers to, the original graph referred to. */
  lemma FusionMentions(nodes: seq<GraphNode>, outputs: map<string, string>, after: seq<GraphNode>, stats: FusionStats)
    requires FusionResult(nodes, outputs, after, stats)
    ensures NoNewNames(nodes, outputs, after, outputs)
  {
    var t := ObtainTrace(nodes, outputs, after, stats);
    hide ClusterAt, FusionBy, External;
    forall a, name | 0 <= a < |after| && name in after[a].inputs
      ensures Mentions(nodes, outputs, name)
    {
      var i := SurvivorSlot(t.slots, t.absorbed, a);
      if i in t.clusters {
        PortIsMentioned(nodes, outputs, t.slots[i], i, t.clusters[i], name);
      }
    }
  }

  lemma PortIsMentioned(nodes: seq<GraphNode>, outputs: map<string, string>, node: GraphNode,
                        r: int, members: set<int>, name: string)
    requires UniqueIds(nodes) && ClusterAt(nodes, outputs, node, r, members) && name in node.inputs
    ensures Mentions(nodes, outputs, name)
  {
    var ast := node.attributes[FUSE_AST].ast;
    var p :| 0 <= p < |node.inputs| && node.inputs[p] == name;
    var m := LeafIsOperand(nodes, ast.inputPorts, ast.root, node.id, p);
  }

  /** Fusion preserves every surviving value and every output, for every machine and every input. */
  lemma FusionPreservesMeaning(m: Machine, env: Env, nodes: seq<GraphNode>, outputs: map<string, string>,
                               after: seq<GraphNode>, stats: FusionStats)
    requires Ordered(nodes) && ElementwiseArity(nodes) && Ids(nodes) !! env.Keys
    requires FusionResult(nodes, outputs, after, stats)
    ensures SameValues(m, env, nodes, outputs, after, outputs)
  {
    FusionKeepsStructure(nodes, outputs, after, stats);
    var t := ObtainTrace(nodes, outputs, after, stats);
    hide FusionBy, SlotsFrom, NodeValue, FusionResult;
    RunSolves(m, nodes, env);
    var v := Run(m, nodes, env);
    forall a | 0 <= a < |after|
      ensures after[a].id in v && v[after[a].id] == NodeValue(m, after[a], v)
    {
      var i := SurvivorSlot(t.slots, t.absorbed, a);
      SlotValue(m, nodes, outputs, t, i, v);
    }
    RewriteKeepsValues(m, env, nodes, after, outputs, outputs);
  }

  /** A node of the result that the pass created. */
  ghost predicate NewCluster(nodes: seq<GraphNode>, node: GraphNode) {
    IsFused(node) && node !in nodes
  }

  ghost predicate Swallowed(nodes: seq<GraphNode>, after: seq<GraphNode>, a: int, id: string) {
    && 0 <= a < |after|
    && NewCluster(nodes, after[a])
    && id in after[a].attributes[FUSE_AST].ast.containedNodeIDs
  }

  lemma {:induction false} MembersEligible(nodes: seq<GraphNode>, ports: seq<string>, tree: ASTNode, name: string, x: int)
    requires UniqueIds(nodes) && Represents(nodes, ports, tree, name) && x in Members(nodes, tree, name)
    ensures 0 <= x < |nodes| && Eligible(nodes[x])
    decreases tree
  {
    var i := Producers(nodes)[name];
    if x != i {
      var k :| 0 <= k < |tree.children| && x in Members(nodes, tree.children[k], nodes[i].inputs[k]);
      MembersEligible(nodes, ports, tree.children[k], nodes[i].inputs[k], x);
    }
  }

  /** The slot of a cluster root is a new fused node, and lists its members and nobody else. */
  lemma ClusterSlot(nodes: seq<GraphNode>, outputs: map<string, string>, node: GraphNode, r: int, members: set<int>)
    requires UniqueIds(nodes) && ClusterAt(nodes, outputs, node, r, members)
    ensures NewCluster(nodes, node) && !Eligible(node)
    ensures forall x | x in members :: 0 <= x < |nodes| && Eligible(nodes[x])
    ensures forall x | 0 <= x < |nodes| ::
      nodes[x].id in node.attributes[FUSE_AST].ast.containedNodeIDs <==> x in members
  {
    var ast := node.attributes[FUSE_AST].ast;
    NotElementwise(FUSE_OP);
    forall x | x in members
      ensures 0 <= x < |nodes| && Eligible(nodes[x])
    {
      MembersEligible(nodes, ast.inputPorts, ast.root, node.id, x);
    }
    assert Eligible(nodes[r]);
    forall k | 0 <= k < |nodes|
      ensures nodes[k] != node
    {
      assert k != r ==> nodes[k].id != nodes[r].id;
    }
    forall x | 0 <= x < |nodes| && nodes[x].id in ast.containedNodeIDs
      ensures x in members
    {
      var y :| y in members && 0 <= y < |nodes| && nodes[y].id == nodes[x].id;
      assert x == y;
    }
  }

  /** A surviving slot is a new fused node exactly when its index roots a cluster. */
  lemma SlotIsCluster(nodes: seq<GraphNode>, outputs: map<string, string>, t: Trace, i: int)
    requires UniqueIds(nodes) && SlotsFrom(nodes, outputs, t) && 0 <= i < |nodes|
    ensures NewCluster(nodes, t.slots[i]) <==> i in t.clusters
    ensures i in t.clusters ==> !Eligible(t.slots[i])
  {
    if i in t.clusters {
      ClusterSlot(nodes, outputs, t.slots[i], i, t.clusters[i]);
    }
  }

  lemma SwallowedInCluster(nodes: seq<GraphNode>, outputs: map<string, string>, t: Trace, a: int, i: int) returns (r: int)
    requires UniqueIds(nodes) && SlotsFrom(nodes, outputs, t) && 0 <= i < |nodes|
    requires Swallowed(nodes, Survivors(t.slots, t.absorbed), a, nodes[i].id)
    ensures r in t.clusters && i in t.clusters[r] && Survivors(t.slots, t.absorbed)[a] == t.slots[r]
  {
    hide ClusterAt, IsElementwiseOp, Survivors;
    r := SurvivorSlot(t.slots, t.absorbed, a);
    SlotIsCluster(nodes, outputs, t, r);
    ClusterSlot(nodes, outputs, t.slots[r], r, t.clusters[r]);
  }

  lemma MemberIsSwallowed(nodes: seq<GraphNode>, outputs: map<string, string>, t: Trace, r: int, i: int) returns (a: int)
    requires UniqueIds(nodes) && SlotsFrom(nodes, outputs, t) && 0 <= i < |nodes|
    requires r in t.clusters && i in t.clusters[r] && (i == r || t.absorbed[i])
    ensures Swallowed(nodes, Survivors(t.slots, t.absorbed), a, nodes[i].id)
    ensures nodes[i] !in Survivors(t.slots, t.absorbed)
  {
    hide ClusterAt, IsElementwiseOp, Survivors;
    var after := Survivors(t.slots, t.absorbed);
    ClusterSlot(nodes, outputs, t.slots[r], r, t.clusters[r]);
    SlotSurvives(t.slots, t.absorbed, r);
    a :| 0 <= a < |after| && after[a] == t.slots[r];
    SlotsKeepIds(nodes, outputs, t);
    forall b | 0 <= b < |after|
      ensures after[b] != nodes[i]
    {
      var k := SurvivorSlot(t.slots, t.absorbed, b);
      assert k != i ==> nodes[k].id != nodes[i].id;
      SlotIsCluster(nodes, outputs, t, k);
    }
  }

  /**
   Nothing is lost and nothing is done twice: each original node either survives
   untouched or sits in exactly one new cluster.
   */
  lemma FusionPartitionsNodes(nodes: seq<GraphNode>, outputs: map<string, string>,
                              after: seq<GraphNode>, stats: FusionStats, i: int)
    requires FusionResult(nodes, outputs, after, stats) && 0 <= i < |nodes|
    ensures nodes[i] in after <==> !exists a :: Swallowed(nodes, after, a, nodes[i].id)
    ensures forall a, b :: Swallowed(nodes, after, a, nodes[i].id) && Swallowed(nodes, after, b, nodes[i].id)
                           ==> after[a] == after[b]
  {
    var t := ObtainTrace(nodes, outputs, after, stats);
    hide SlotsFrom, MaximalFrom, Survivors, Swallowed, UniqueIds;
    forall a, b | Swallowed(nodes, after, a, nodes[i].id) && Swallowed(nodes, after, b, nodes[i].id)
      ensures after[a] == after[b]
    {
      var r := SwallowedInCluster(nodes, outputs, t, a, i);
      var q := SwallowedInCluster(nodes, outputs, t, b, i);
    }
    if r :| r in t.clusters && i in t.clusters[r] {
      var a := MemberIsSwallowed(nodes, outputs, t, r, i);
    } else {
      forall a
        ensures !Swallowed(nodes, after, a, nodes[i].id)
      {
        if Swallowed(nodes, after, a, nodes[i].id) {
          var r := SwallowedInCluster(nodes, outputs, t, a, i);
        }
      }
      assert !t.absorbed[i];
      LoneSlot(nodes, outputs, t, i);
      SlotSurvives(t.slots, t.absorbed, i);
    }
  }

  /** The counters account for every node: the node count drops by exactly the nodes reported removed. */
  lemma FusionConservesNodes(nodes: seq<GraphNode>, outputs: map<string, string>, after: seq<GraphNode>, stats: FusionStats)
    requires FusionResult(nodes, outputs, after, stats)
    ensures |after| + stats.nodesRemoved == |nodes|
    ensures stats.nodesFused == stats.nodesRemoved + stats.clusters
  {
    var t := ObtainTrace(nodes, outputs, after, stats);
    SurvivorsCount(t.slots, t.absorbed);
  }

  lemma LoneSlot(nodes: seq<GraphNode>, outputs: map<string, string>, t: Trace, i: int)
    requires UniqueIds(nodes) && SlotsFrom(nodes, outputs, t) && 0 <= i < |nodes|
    requires forall r | r in t.clusters :: i !in t.clusters[r]
    ensures i !in t.clusters && t.slots[i] == nodes[i]
  {
    if i in t.clusters {
      RootIsMember(nodes, outputs, t.slots[i], i, t.clusters[i]);
    }
  }

  lemma RootIsMember(nodes: seq<GraphNode>, outputs: map<string, string>, node: GraphNode, r: int, members: set<int>)
    requires UniqueIds(nodes) && ClusterAt(nodes, outputs, node, r, members)
    ensures r in members
  {
  }

  /**
   Fusion is maximal: whatever a new cluster or a remaining elementwise node reads
   from outside is not an elementwise value with a single reference.
   */
  lemma FusionIsMaximal(nodes: seq<GraphNode>, outputs: map<string, string>,
                        after: seq<GraphNode>, stats: FusionStats, a: int, name: string)
    requires FusionResult(nodes, outputs, after, stats) && 0 <= a < |after| && name in after[a].inputs
    requires NewCluster(nodes, after[a]) || Eligible(after[a])
    ensures UniqueIds(nodes) && External(nodes, outputs, name)
  {
    var t := ObtainTrace(nodes, outputs, after, stats);
    var i := SurvivorSlot(t.slots, t.absorbed, a);
    SlotIsCluster(nodes, outputs, t, i);
    if i in t.clusters {
      var p :| 0 <= p < |after[a].inputs| && after[a].inputs[p] == name;
      assert ClusterAt(nodes, outputs, t.slots[i], i, t.clusters[i]);
    }
  }

  // ----- a second run finds nothing

  /** The operand of an original node is read by the slot that took the node over. */
  lemma ReferenceSurvives(nodes: seq<GraphNode>, outputs: map<string, string>, t: Trace, p: int, j: int) returns (q: int)
    requires FusionBy(nodes, outputs, t)
    requires 0 <= p < |nodes| && ReadsValueOf(nodes, p, j) && !t.absorbed[j] && j !in t.clusters
    ensures 0 <= q < |nodes| && !t.absorbed[q] && nodes[j].id in t.slots[q].inputs
    ensures q == p || NewCluster(nodes, t.slots[q])
    ensures q in t.clusters || q == p
  {
    hide External, MaximalFrom, IsElementwiseOp;
    if r :| r in t.clusters && p in t.clusters[r] {
      q := r;
      SlotIsCluster(nodes, outputs, t, r);
      assert ClusterAt(nodes, outputs, t.slots[r], r, t.clusters[r]);
      var ast := t.slots[r].attributes[FUSE_AST].ast;
      OperandIsCovered(nodes, ast.inputPorts, ast.root, t.slots[r].id, p, nodes[j].id);
      assert j !in t.clusters[r];
    } else {
      q := p;
      assert p !in t.clusters by {
        if p in t.clusters {
          RootIsMember(nodes, outputs, t.slots[p], p, t.clusters[p]);
        }
      }
    }
  }

  /** In the fused graph, an elementwise value referenced once was referenced once before. */
  lemma SingleBefore(nodes: seq<GraphNode>, outputs: map<string, string>, t: Trace, i: int, j: int)
    requires Ordered(nodes) && FusionBy(nodes, outputs, t)
    requires 0 <= i < |nodes| && !t.absorbed[i] && i !in t.clusters
    requires 0 <= j < |nodes| && !t.absorbed[j] && j !in t.clusters
    requires ReadsValueOf(nodes, i, j)
    requires RefCount(Survivors(t.slots, t.absorbed), outputs, nodes[j].id) == 1
    ensures RefCount(nodes, outputs, nodes[j].id) == 1
  {
    hide External, MaximalFrom, IsElementwiseOp, ClusterAt, PartitionedBy;
    var after, name := Survivors(t.slots, t.absorbed), nodes[j].id;
    SlotSurvives(t.slots, t.absorbed, i);
    var a :| 0 <= a < |after| && after[a] == t.slots[i];
    var s :| 0 <= s < |nodes[i].inputs| && nodes[i].inputs[s] == name;
    assert Occurrences(after[a].inputs, name) > 0;
    NodeRefsOfOne(after, name, a);
    forall p | 0 <= p < |nodes| && p != i
      ensures name !in nodes[p].inputs
    {
      if name in nodes[p].inputs {
        var q := ReferenceSurvives(nodes, outputs, t, p, j);
        SlotSurvives(t.slots, t.absorbed, q);
        var b :| 0 <= b < |after| && after[b] == t.slots[q];
        var u :| 0 <= u < |after[b].inputs| && after[b].inputs[u] == name;
        SingleReference(after, name, a, s, b, u);
        SlotsKeepIds(nodes, outputs, t);
      }
    }
    forall u | 0 <= u < |nodes[i].inputs| && u != s
      ensures nodes[i].inputs[u] != name
    {
      if nodes[i].inputs[u] == name {
        SingleReference(after, name, a, s, a, u);
      }
    }
    OnlyReference(nodes, name, i, s);
  }

  /** Fusing a fused graph changes nothing. */
  lemma FusionIsIdempotent(nodes: seq<GraphNode>, outputs: map<string, string>,
                           mid: seq<GraphNode>, first: FusionStats, after: seq<GraphNode>, second: FusionStats)
    requires Ordered(nodes)
    requires FusionResult(nodes, outputs, mid, first) && FusionResult(mid, outputs, after, second)
    ensures after == mid && second == FusionStats(0, 0, 0)
  {
    var t := ObtainTrace(nodes, outputs, mid, first);
    var u := ObtainTrace(mid, outputs, after, second);
    hide ClusterAt, SlotsFrom, MaximalFrom, External, FusionResult, IsElementwiseOp, RefCount;
    forall r {
      NoSecondCluster(nodes, outputs, t, u, r);
    }
    assert forall j | 0 <= j < |mid| :: !u.absorbed[j];
    assert u.clusters == map[];
    NoneMarked(u.absorbed);
    NothingDropped(u.slots, u.absorbed);
    SlotsWithoutClusters(mid, outputs, u);
  }

  lemma SlotsWithoutClusters(nodes: seq<GraphNode>, outputs: map<string, string>, t: Trace)
    requires UniqueIds(nodes) && SlotsFrom(nodes, outputs, t) && t.clusters == map[]
    ensures t.slots == nodes
  {
  }

  lemma {:induction false} NothingDropped(slots: seq<GraphNode>, absorbed: seq<bool>)
    requires |slots| == |absorbed| && forall j | 0 <= j < |absorbed| :: !absorbed[j]
    ensures Survivors(slots, absorbed) == slots
  {
    if slots != [] {
      NothingDropped(slots[..|slots| - 1], absorbed[..|slots| - 1]);
    }
  }

  /** A cluster of the second run would have an elementwise node absorb a single-reference value. */
  lemma NoSecondCluster(nodes: seq<GraphNode>, outputs: map<string, string>, t: Trace, u: Trace, r: int)
    requires Ordered(nodes) && FusionBy(nodes, outputs, t)
    requires UniqueIds(Survivors(t.slots, t.absorbed)) && SlotsFrom(Survivors(t.slots, t.absorbed), outputs, u)
    ensures r !in u.clusters
  {
    hide ClusterAt, SlotsFrom, PartitionedBy, MaximalFrom, External, IsElementwiseOp, RefCount;
    if r in u.clusters {
      var i, j := SecondClusterPair(nodes, outputs, t, u, r);
      MaximalOperand(nodes, outputs, t, i, nodes[j].id);
    }
  }

  lemma MaximalOperand(nodes: seq<GraphNode>, outputs: map<string, string>, t: Trace, i: int, name: string)
    requires FusionBy(nodes, outputs, t)
    requires 0 <= i < |nodes| && !t.absorbed[i] && i !in t.clusters && Eligible(nodes[i]) && name in nodes[i].inputs
    ensures External(nodes, outputs, name)
  {
  }

  /** Behind such a cluster stand two untouched original nodes, one inlinable into the other. */
  lemma SecondClusterPair(nodes: seq<GraphNode>, outputs: map<string, string>, t: Trace, u: Trace, r: int)
    returns (i: int, j: int)
    requires Ordered(nodes) && FusionBy(nodes, outputs, t)
    requires UniqueIds(Survivors(t.slots, t.absorbed)) && SlotsFrom(Survivors(t.slots, t.absorbed), outputs, u)
    requires r in u.clusters
    ensures 0 <= i < |nodes| && !t.absorbed[i] && i !in t.clusters && Eligible(nodes[i])
    ensures ReadsValueOf(nodes, i, j) && !External(nodes, outputs, nodes[j].id)
  {
    hide MaximalFrom, ClusterAt, IsElementwiseOp, PartitionedBy;
    var mid := Survivors(t.slots, t.absorbed);
    assert ClusterAt(mid, outputs, u.slots[r], r, u.clusters[r]);
    var b, a := AbsorbingPair(mid, outputs, u.slots[r], r, u.clusters[r]);
    hide SlotsFrom;
    i := EligibleSlot(nodes, outputs, t, b);
    j := EligibleSlot(nodes, outputs, t, a);
    SingleBefore(nodes, outputs, t, i, j);
  }

  /** A cluster contains an elementwise node that reads an inlinable one. */
  lemma AbsorbingPair(nodes: seq<GraphNode>, outputs: map<string, string>, node: GraphNode, r: int, members: set<int>)
    returns (m: int, x: int)
    requires UniqueIds(nodes) && ClusterAt(nodes, outputs, node, r, members)
    ensures Inlinable(nodes, outputs, x) && ReadsValueOf(nodes, m, x) && Eligible(nodes[m])
  {
    ClusterSlot(nodes, outputs, node, r, members);
    if members == {r} {
      assert false;
    }
    x :| x in members && x != r;
    m :| m in members && ReadsValueOf(nodes, m, x);
  }

  /** An elementwise survivor is an untouched original node. */
  lemma EligibleSlot(nodes: seq<GraphNode>, outputs: map<string, string>, t: Trace, a: int) returns (i: int)
    requires FusionBy(nodes, outputs, t)
    requires 0 <= a < |Survivors(t.slots, t.absorbed)| && Eligible(Survivors(t.slots, t.absorbed)[a])
    ensures 0 <= i < |nodes| && !t.absorbed[i] && i !in t.clusters
    ensures nodes[i] == Survivors(t.slots, t.absorbed)[a]
  {
    i := SurvivorSlot(t.slots, t.absorbed, a);
    SlotIsCluster(nodes, outputs, t, i);
  }
}
