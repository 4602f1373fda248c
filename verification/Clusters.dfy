/** What a fused graph is: the relation between the node list before and after fusion. */
module Clusters {
  import opened Wrappers
  import opened FusionAst
  import opened Elementwise
  import opened GraphSemantics
  import opened References

  predicate Eligible(node: GraphNode) {
    IsElementwiseOp(node.op).Some?
  }

  /** Elementwise nodes carry exactly the operands their primitive takes. */
  ghost predicate ElementwiseArity(nodes: seq<GraphNode>) {
    forall i | 0 <= i < |nodes| && Eligible(nodes[i]) ::
      |nodes[i].inputs| == Arity(IsElementwiseOp(nodes[i].op).value)
  }

  /** Where each value is produced. */
  ghost function Producers(nodes: seq<GraphNode>): (r: map<string, int>)
    requires UniqueIds(nodes)
    ensures forall i | 0 <= i < |nodes| :: nodes[i].id in r && r[nodes[i].id] == i
    ensures forall name | name in r :: 0 <= r[name] < |nodes| && nodes[r[name]].id == name
  {
    map i | 0 <= i < |nodes| :: nodes[i].id := i
  }

  /** A value no cluster may swallow: not elementwise, or not referenced exactly once. */
  ghost predicate External(nodes: seq<GraphNode>, outputs: map<string, string>, name: string)
    requires UniqueIds(nodes)
  {
    var producers := Producers(nodes);
    name in producers && Eligible(nodes[producers[name]]) ==> RefCount(nodes, outputs, name) != 1
  }

  /** The tree spells out how `name` is computed, down to the values listed in `ports`. */
  ghost predicate Represents(nodes: seq<GraphNode>, ports: seq<string>, tree: ASTNode, name: string)
    requires UniqueIds(nodes)
  {
    if tree.nodeType.NodeInput? then
      0 <= tree.inputIndex < |ports| && ports[tree.inputIndex] == name
    else
      && name in Producers(nodes)
      && var node := nodes[Producers(nodes)[name]];
      && IsElementwiseOp(node.op) == Some(tree.nodeType)
      && |tree.children| == |node.inputs|
      && forall k | 0 <= k < |tree.children| :: Represents(nodes, ports, tree.children[k], node.inputs[k])
  }

  /** The nodes whose operations a tree performs. */
  ghost function Members(nodes: seq<GraphNode>, tree: ASTNode, name: string): set<int>
    requires UniqueIds(nodes)
    decreases tree
  {
    if tree.nodeType.NodeInput? || name !in Producers(nodes) then {}
    else
      var i := Producers(nodes)[name];
      {i} + set k, x | 0 <= k < |tree.children| && k < |nodes[i].inputs|
                       && x in Members(nodes, tree.children[k], nodes[i].inputs[k]) :: x
  }

  function IdsOf(nodes: seq<GraphNode>, indices: set<int>): set<string> {
    set x | x in indices && 0 <= x < |nodes| :: nodes[x].id
  }

  ghost predicate ReadsValueOf(nodes: seq<GraphNode>, m: int, x: int) {
    0 <= m < |nodes| && 0 <= x < |nodes| && nodes[x].id in nodes[m].inputs
  }

  /** Node `x` may be inlined: elementwise, and referenced by one operand slot only. */
  ghost predicate Inlinable(nodes: seq<GraphNode>, outputs: map<string, string>, x: int) {
    && 0 <= x < |nodes|
    && Eligible(nodes[x])
    && RefCount(nodes, outputs, nodes[x].id) == 1
  }

  /** `node` is the fused replacement of the cluster `members` rooted at index `r`. */
  ghost predicate ClusterAt(nodes: seq<GraphNode>, outputs: map<string, string>, node: GraphNode,
                            r: int, members: set<int>)
    requires UniqueIds(nodes)
  {
    && 0 <= r < |nodes| && r in members && |members| >= 2
    && IsFused(node) && node.id == nodes[r].id && node.attributes.Keys == {FUSE_AST}
    && var ast := node.attributes[FUSE_AST].ast;
    && node.inputs == ast.inputPorts && ast.outputPort == node.id
    && Represents(nodes, ast.inputPorts, ast.root, node.id)
    && !ast.root.nodeType.NodeInput?
    && members == Members(nodes, ast.root, node.id)
    && (forall x | x in members :: 0 <= x <= r)
    && ast.containedNodeIDs == IdsOf(nodes, members)
    && (forall k | 0 <= k < |ast.inputPorts| :: k in Leaves(ast.root) && External(nodes, outputs, ast.inputPorts[k]))
    && (forall x | x in members && x != r ::
          Inlinable(nodes, outputs, x) && exists m | m in members :: ReadsValueOf(nodes, m, x))
  }

  /** A fusion run: the rewritten slots, the slots marked for removal, the cluster of each root. */
  datatype Trace = Trace(slots: seq<GraphNode>, absorbed: seq<bool>, clusters: map<int, set<int>>)

  ghost predicate SlotsFrom(nodes: seq<GraphNode>, outputs: map<string, string>, t: Trace)
    requires UniqueIds(nodes)
  {
    && |t.slots| == |t.absorbed| == |nodes|
    && (forall r | r in t.clusters ::
          0 <= r < |nodes| && !t.absorbed[r] && ClusterAt(nodes, outputs, t.slots[r], r, t.clusters[r]))
    && (forall i | 0 <= i < |nodes| && i !in t.clusters :: t.slots[i] == nodes[i])
  }

  /** Clusters are disjoint, and exactly their non-root members are removed. */
  ghost predicate PartitionedBy(t: Trace) {
    && (forall r, q | r in t.clusters && q in t.clusters && r != q :: t.clusters[r] !! t.clusters[q])
    && (forall j | 0 <= j < |t.absorbed| ::
          t.absorbed[j] <==> exists r | r in t.clusters :: j in t.clusters[r] && j != r)
  }

  /** From index `from` on, an elementwise node left alone had nothing it could absorb. */
  ghost predicate MaximalFrom(nodes: seq<GraphNode>, outputs: map<string, string>, t: Trace, from: int)
    requires UniqueIds(nodes) && |t.absorbed| == |nodes|
  {
    forall i, name | 0 <= i < |nodes| && from <= i && i !in t.clusters && !t.absorbed[i]
                     && Eligible(nodes[i]) && name in nodes[i].inputs :: External(nodes, outputs, name)
  }

  ghost predicate FusionBy(nodes: seq<GraphNode>, outputs: map<string, string>, t: Trace) {
    && UniqueIds(nodes)
    && SlotsFrom(nodes, outputs, t)
    && PartitionedBy(t)
    && MaximalFrom(nodes, outputs, t, 0)
  }

  ghost function Survivors(slots: seq<GraphNode>, absorbed: seq<bool>): seq<GraphNode>
    requires |slots| == |absorbed|
  {
    if slots == [] then []
    else
      var n := |slots| - 1;
      Survivors(slots[..n], absorbed[..n]) + if absorbed[n] then [] else [slots[n]]
  }

  datatype FusionStats = FusionStats(clusters: nat, nodesFused: nat, nodesRemoved: nat)

  ghost function CountTrue(flags: seq<bool>): nat {
    if flags == [] then 0
    else CountTrue(flags[..|flags| - 1]) + if flags[|flags| - 1] then 1 else 0
  }

  /** The graph after fusion, together with the counters the pass reports. */
  ghost predicate FusionResult(nodes: seq<GraphNode>, outputs: map<string, string>,
                               after: seq<GraphNode>, stats: FusionStats)
  {
    exists t: Trace ::
      && FusionBy(nodes, outputs, t)
      && after == Survivors(t.slots, t.absorbed)
      && stats == FusionStats(|t.clusters|, |t.clusters| + CountTrue(t.absorbed), CountTrue(t.absorbed))
  }
}
