/** The fusion pass: a reverse walk that swallows elementwise producers into expression trees. */
module Fuse {
  import opened Wrappers
  import opened FusionAst
  import opened Elementwise
  import opened GraphSemantics
  import opened References
  import opened Clusters
  import opened ClusterGrowth
  import opened FusionTrace

  class ClusterBuilder {
    const nodes: seq<GraphNode>
    const producers: map<string, int>
    const consumerCount: map<string, nat>
    const absorbed: seq<bool>
    ghost const site: Site
    var absorbedIndices: set<int>
    var inputs: seq<string>
    var inputIndex: map<string, nat>

    ghost function Growing(): Growth
      reads this
    {
      Growth(absorbedIndices, inputs)
    }

    /** The tables the builder consults describe the graph as it was before the pass. */
    ghost predicate Tables() {
      && ValidSite(site)
      && absorbed == site.absorbed && |absorbed| == |nodes| == |site.nodes| && site.root < |nodes|
      && producers == Producers(site.nodes)
      && (forall i | 0 <= i <= site.root :: nodes[i] == site.nodes[i])
      && (forall name :: Tally(consumerCount, name) == RefCount(site.nodes, site.outputs, name))
    }

    ghost predicate PortsIndexed()
      reads this
    {
      && (forall i | 0 <= i < |inputs| :: inputs[i] in inputIndex && inputIndex[inputs[i]] == i)
      && (forall name | name in inputIndex :: inputIndex[name] < |inputs| && inputs[inputIndex[name]] == name)
    }

    ghost predicate Valid()
      reads this
    {
      Tables() && PortsIndexed() && ValidGrowth(site, Growing())
    }

    constructor (nodes: seq<GraphNode>, producers: map<string, int>, consumerCount: map<string, nat>,
                 absorbed: seq<bool>, ghost site: Site)
      ensures this.nodes == nodes && this.producers == producers && this.consumerCount == consumerCount
      ensures this.absorbed == absorbed && this.site == site
      ensures absorbedIndices == {} && inputs == [] && inputIndex == map[]
    {
      this.nodes, this.producers, this.consumerCount, this.absorbed := nodes, producers, consumerCount, absorbed;
      this.site := site;
      absorbedIndices, inputs, inputIndex := {}, [], map[];
    }

    method ExternalInput(name: string) returns (leaf: ASTNode)
      requires PortsIndexed()
      modifies this
      ensures PortsIndexed() && absorbedIndices == old(absorbedIndices)
      ensures leaf.nodeType.NodeInput? && 0 <= leaf.inputIndex < |inputs| && inputs[leaf.inputIndex] == name
      ensures inputs == if name in old(inputs) then old(inputs) else old(inputs) + [name]
      ensures name !in old(inputs) ==> leaf.inputIndex == |old(inputs)|
    {
      if name in inputIndex {
        return InputLeaf(inputIndex[name]);
      }
      leaf := InputLeaf(|inputs|);
      inputIndex := inputIndex[name := |inputs|];
      inputs := inputs + [name];
    }

    /** The operand is an elementwise value that nothing else reads and no cluster holds yet. */
    ghost predicate Swallowable(inputName: string)
      reads this
    {
      && inputName in producers && 0 <= producers[inputName] < |nodes| == |absorbed|
      && !absorbed[producers[inputName]] && producers[inputName] !in absorbedIndices
      && Tally(consumerCount, inputName) == 1 && Eligible(nodes[producers[inputName]])
    }

    method Build(node: GraphNode) returns (tree: ASTNode)
      requires Valid() && node.id in producers
      requires producers[node.id] <= site.root && node == site.nodes[producers[node.id]]
      requires producers[node.id] !in absorbedIndices && !absorbed[producers[node.id]]
      requires producers[node.id] == site.root || HasParent(site.nodes, absorbedIndices, producers[node.id], -1, 0)
      requires AllParented(site, absorbedIndices, -1, 0)
      modifies this
      ensures Valid() && (tree.nodeType.NodeInput? <==> !Eligible(node))
      ensures Grown(site, old(Growing()), Growing(), tree, node.id)
      ensures NewParented(site, old(absorbedIndices), absorbedIndices, producers[node.id], -1, 0)
      decreases producers[node.id], 2
    {
      hide Grown, NewParented, AllParented, ValidSite, HasParent;
      if !Eligible(node) {
        tree := ExternalInput(node.id);
        GrownByPort(site, old(Growing()), Growing(), tree, node.id);
        NothingNew(site, absorbedIndices, producers[node.id]);
        return;
      }
      tree := BuildOperation(node);
    }

    /** The node of an elementwise operation over its operands, which may grow the cluster in turn. */
    method BuildOperation(node: GraphNode) returns (tree: ASTNode)
      requires Valid() && node.id in producers && Eligible(node)
      requires producers[node.id] <= site.root && node == site.nodes[producers[node.id]]
      requires producers[node.id] !in absorbedIndices && !absorbed[producers[node.id]]
      requires producers[node.id] == site.root || HasParent(site.nodes, absorbedIndices, producers[node.id], -1, 0)
      requires AllParented(site, absorbedIndices, -1, 0)
      modifies this
      ensures Valid() && !tree.nodeType.NodeInput?
      ensures Grown(site, old(Growing()), Growing(), tree, node.id)
      ensures NewParented(site, old(absorbedIndices), absorbedIndices, producers[node.id], -1, 0)
      decreases producers[node.id], 1
    {
      hide GrownOperands, Grown, NewParented, AllParented, ValidSite, HasParent;
      var producerIndex := producers[node.id];
      ghost var entry := Growing();
      absorbedIndices := absorbedIndices + {producerIndex};
      OperandsStart(site, producerIndex, entry);
      var children: seq<ASTNode> := [];
      for s := 0 to |node.inputs|
        invariant Valid() && |children| == s
        invariant GrownOperands(site, producerIndex, entry, Growing(), children)
        invariant entry.indices + {producerIndex} <= absorbedIndices
        invariant NewParented(site, entry.indices, absorbedIndices, producerIndex, producerIndex, s)
      {
        ParentedDuringBuild(site, entry.indices, absorbedIndices, producerIndex, s);
        ghost var before := Growing();
        var child := BuildOperand(node.inputs[s], producerIndex, s);
        OperandsStep(site, producerIndex, entry, before, Growing(), children, child);
        ghost var operand := if node.inputs[s] in producers then producers[node.inputs[s]] else -1;
        ParentedStep(site, entry.indices, before.indices, absorbedIndices, producerIndex, s, operand);
        children := children + [child];
      }
      tree := ASTNode(IsElementwiseOp(node.op).value, 0.0, 0, children);
      OperandsDone(site, producerIndex, entry, Growing(), tree.nodeType, children);
      ParentedAfterBuild(site, entry.indices, absorbedIndices, producerIndex, |node.inputs|);
    }

    method BuildOperand(inputName: string, ghost k: int, ghost s: int) returns (tree: ASTNode)
      requires Valid() && AllParented(site, absorbedIndices, k, s)
      requires k in absorbedIndices && 0 <= s < |site.nodes[k].inputs| && site.nodes[k].inputs[s] == inputName
      modifies this
      ensures Valid()
      ensures Grown(site, old(Growing()), Growing(), tree, inputName)
      ensures NewParented(site, old(absorbedIndices), absorbedIndices,
                          if inputName in producers then producers[inputName] else -1, -1, 0)
      ensures inputName in producers && producers[inputName] in absorbedIndices - old(absorbedIndices) ==>
                Inlinable(site.nodes, site.outputs, producers[inputName])
      ensures tree.nodeType.NodeInput? <==> !old(Swallowable(inputName))
      ensures tree.nodeType.NodeInput? ==>
                absorbedIndices == old(absorbedIndices) && 0 <= tree.inputIndex < |inputs| && inputs[tree.inputIndex] == inputName
      decreases k, 0
    {
      hide GrownOperands, Grown, NewParented, AllParented, ValidSite, HasParent;
      if inputName !in producers {
        tree := ExternalInput(inputName);
        GrownByPort(site, old(Growing()), Growing(), tree, inputName);
        return;
      }
      var producerIndex := producers[inputName];
      OperandIsEarlier(site, k, s, producerIndex);
      if absorbed[producerIndex] {
        AbsorbedHasOtherReference(site, absorbedIndices, k, s, producerIndex);
        tree := ExternalInput(inputName);
        GrownByPort(site, old(Growing()), Growing(), tree, inputName);
        return;
      }
      if producerIndex in absorbedIndices {
        AbsorbedHasOtherReference(site, absorbedIndices, k, s, producerIndex);
        tree := ExternalInput(inputName);
        GrownByPort(site, old(Growing()), Growing(), tree, inputName);
        return;
      }
      if Tally(consumerCount, inputName) != 1 {
        tree := ExternalInput(inputName);
        GrownByPort(site, old(Growing()), Growing(), tree, inputName);
        return;
      }
      var producer := nodes[producerIndex];
      if !Eligible(producer) {
        tree := ExternalInput(inputName);
        GrownByPort(site, old(Growing()), Growing(), tree, inputName);
        return;
      }
      AllParentedWeaken(site, absorbedIndices, k, s, producerIndex);
      tree := Build(producer);
    }
  }

  lemma NothingNew(site: Site, indices: set<int>, operand: int)
    ensures NewParented(site, indices, indices, operand, -1, 0)
  {
  }

  method IndexProducers(nodes: seq<GraphNode>) returns (producers: map<string, int>)
    requires Ordered(nodes)
    ensures producers == Producers(nodes)
  {
    producers := map[];
    for i := 0 to |nodes|
      invariant forall j | 0 <= j < i :: nodes[j].id in producers && producers[nodes[j].id] == j
      invariant forall name | name in producers :: 0 <= producers[name] < i && nodes[producers[name]].id == name
    {
      producers := producers[nodes[i].id := i];
    }
  }

  /** Marks a finished cluster's other members; which one is marked first makes no difference. */
  method MarkAbsorbed(absorbed: seq<bool>, members: set<int>, root: int) returns (marked: seq<bool>)
    ensures Marked(absorbed, marked, members, root)
  {
    marked := absorbed;
    for index := 0 to |absorbed|
      invariant |marked| == |absorbed|
      invariant forall j | 0 <= j < |absorbed| ::
        marked[j] <==> absorbed[j] || (j < index && j in members && j != root)
    {
      if index in members && index != root {
        marked := marked[index := true];
      }
    }
  }

  method DropAbsorbed(slots: seq<GraphNode>, absorbed: seq<bool>) returns (result: seq<GraphNode>)
    requires |slots| == |absorbed|
    ensures result == Survivors(slots, absorbed)
  {
    result := [];
    for index := 0 to |slots|
      invariant result == Survivors(slots[..index], absorbed[..index])
    {
      assert slots[..index + 1][..index] == slots[..index] && absorbed[..index + 1][..index] == absorbed[..index];
      if !absorbed[index] {
        result := result + [slots[index]];
      }
    }
    assert slots[..|slots|] == slots && absorbed[..|slots|] == absorbed;
  }

  /** Grows the cluster rooted at one eligible node: its tree, its members and its external inputs. */
  method GrowCluster(nodes: seq<GraphNode>, producers: map<string, int>, consumerCount: map<string, nat>,
                     absorbed: seq<bool>, index: int, ghost site: Site)
    returns (root: ASTNode, members: set<int>, ports: seq<string>)
    requires ValidSite(site) && site.absorbed == absorbed && site.root == index
    requires |nodes| == |site.nodes| && 0 <= index < |nodes|
    requires forall i | 0 <= i <= index :: nodes[i] == site.nodes[i]
    requires producers == Producers(site.nodes)
    requires forall name :: Tally(consumerCount, name) == RefCount(site.nodes, site.outputs, name)
    requires Eligible(nodes[index]) && !absorbed[index]
    ensures ValidGrowth(site, Growth(members, ports)) && index in members
    ensures forall x | x in members :: 0 <= x <= index && !absorbed[x]
    ensures Grown(site, Growth({}, []), Growth(members, ports), root, nodes[index].id) && !root.nodeType.NodeInput?
    ensures NewParented(site, {}, members, index, -1, 0)
  {
    hide NewParented, AllParented;
    var cluster := new ClusterBuilder(nodes, producers, consumerCount, absorbed, site);
    NoneParented(site);
    root := cluster.Build(nodes[index]);
    members, ports := cluster.absorbedIndices, cluster.inputs;
  }

  /** Clusters elementwise nodes in place. The nodes must be in execution order. */
  method Fuse(graph: Graph) returns (stats: FusionStats)
    requires Ordered(graph.nodes) && ElementwiseArity(graph.nodes)
    modifies graph`nodes
    ensures FusionResult(old(graph.nodes), graph.outputs, graph.nodes, stats)
  {
    hide WalkedTo, ValidSite, ValidGrowth, Grown, NewParented, AllParented, ClusterAt, FusionBy, External;
    hide CountTrue, Marked, Ordered, ElementwiseArity, Producers, RefCount, Survivors, IsElementwiseOp, IdsOf, Eligible, Tally;
    ghost var before, outputs := graph.nodes, graph.outputs;
    var producers := IndexProducers(graph.nodes);
    var consumerCount := CountConsumers(graph.nodes, graph.outputs);
    var absorbed := seq(|graph.nodes|, _ => false);
    ghost var clusters: map<int, set<int>> := map[];
    stats := FusionStats(0, 0, 0);
    NoneMarked(absorbed);
    StartTrace(before, outputs, Trace(graph.nodes, absorbed, clusters));
    var index := |graph.nodes| - 1;
    while index >= 0
      invariant -1 <= index < |before| && |graph.nodes| == |absorbed| == |before| && graph.outputs == outputs
      invariant WalkedTo(before, outputs, Trace(graph.nodes, absorbed, clusters), index)
      invariant forall i | 0 <= i <= index :: graph.nodes[i] == before[i]
      invariant forall r | r in clusters :: r > index
      invariant stats == FusionStats(|clusters|, |clusters| + CountTrue(absorbed), CountTrue(absorbed))
    {
      var node := graph.nodes[index];
      ghost var t := Trace(graph.nodes, absorbed, clusters);
      if absorbed[index] || !Eligible(node) {
        StepPast(before, outputs, t, index);
      } else {
        ghost var site := Site(before, outputs, absorbed, index);
        TraceSite(before, outputs, t, index);
        var root, members, ports := GrowCluster(graph.nodes, producers, consumerCount, absorbed, index, site);
        ghost var g := Growth(members, ports);
        if |members| <= 1 {
          forall name | name in node.inputs {
            LoneRootIsMaximal(site, g, root, name);
          }
          StepPast(before, outputs, t, index);
        } else {
          var fusionAST := FusionAST(root, ports, node.id, IdsOf(graph.nodes, members));
          var fused := GraphNode(node.id, FUSE_OP, ports, map[FUSE_AST := Fusion(fusionAST)]);
          SameIds(graph.nodes, before, members, index);
          ClusterFromGrowth(site, g, root, fused);
          graph.nodes := graph.nodes[index := fused];
          var marked := MarkAbsorbed(absorbed, members, index);
          CountMarked(absorbed, marked, members, index);
          clusters := clusters[index := members];
          absorbed := marked;
          MarkedLength(t.absorbed, absorbed, members, index);
          StepCluster(before, outputs, t, Trace(graph.nodes, absorbed, clusters), index, members, fused);
          stats := FusionStats(
            stats.clusters + 1,
            stats.nodesFused + |members|,
            stats.nodesRemoved + |members| - 1);
        }
      }
      index := index - 1;
    }
    ghost var t := Trace(graph.nodes, absorbed, clusters);
    WalkFinished(before, outputs, t);
    graph.nodes := DropAbsorbed(graph.nodes, absorbed);
  }

  lemma NoneParented(site: Site)
    ensures AllParented(site, {}, -1, 0)
  {
  }

  lemma MarkedLength(before: seq<bool>, after: seq<bool>, members: set<int>, root: int)
    requires Marked(before, after, members, root)
    ensures |after| == |before|
  {
  }

  lemma SameIds(nodes: seq<GraphNode>, before: seq<GraphNode>, members: set<int>, index: int)
    requires |nodes| == |before| && 0 <= index < |nodes|
    requires forall i | 0 <= i <= index :: nodes[i] == before[i]
    requires forall x | x in members :: 0 <= x <= index
    ensures IdsOf(nodes, members) == IdsOf(before, members)
  {
    forall id
      ensures id in IdsOf(nodes, members) <==> id in IdsOf(before, members)
    {
      if id in IdsOf(nodes, members) {
        var x :| x in members && 0 <= x < |nodes| && nodes[x].id == id;
        assert before[x].id == id;
      }
      if id in IdsOf(before, members) {
        var x :| x in members && 0 <= x < |before| && before[x].id == id;
        assert nodes[x].id == id;
      }
    }
  }
}
