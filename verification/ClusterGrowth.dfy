/** How one cluster grows: the facts a recursive build keeps, step by step. */
module ClusterGrowth {
  import opened Wrappers
  import opened FusionAst
  import opened Elementwise
  import opened GraphSemantics
  import opened References
  import opened Clusters

  /** The graph one cluster is grown in: slots already absorbed elsewhere, and the root's index. */
  datatype Site = Site(nodes: seq<GraphNode>, outputs: map<string, string>, absorbed: seq<bool>, root: int)

  ghost predicate ValidSite(site: Site) {
    && Ordered(site.nodes) && ElementwiseArity(site.nodes)
    && |site.absorbed| == |site.nodes| && 0 <= site.root < |site.nodes|
    && (forall x | 0 <= x < |site.nodes| && site.absorbed[x] ::
          exists m | 0 <= m < |site.nodes| :: (site.absorbed[m] || m > site.root) && ReadsValueOf(site.nodes, m, x))
  }

  /** The nodes swallowed and the external values listed so far. */
  datatype Growth = Growth(indices: set<int>, ports: seq<string>)

  ghost predicate ValidGrowth(site: Site, g: Growth)
    requires ValidSite(site)
  {
    forall x | x in g.indices :: 0 <= x <= site.root && !site.absorbed[x]
  }

  /** Some absorbed node reads `x`; if that node is `k` itself, through an operand slot before `s`. */
  ghost predicate HasParent(nodes: seq<GraphNode>, within: set<int>, x: int, k: int, s: int) {
    exists m, t | m in within && 0 <= m < |nodes| && 0 <= t < |nodes[m].inputs| ::
      0 <= x < |nodes| && nodes[m].inputs[t] == nodes[x].id && (m == k ==> t < s)
  }

  /** Every absorbed node but the root is read by an absorbed node, through no slot of `k` from `s` on. */
  ghost predicate AllParented(site: Site, indices: set<int>, k: int, s: int) {
    forall x | x in indices && x != site.root :: HasParent(site.nodes, indices, x, k, s)
  }

  /** The nodes `later` adds to `earlier`, `top` apart, may be inlined and are read by nodes it adds. */
  ghost predicate NewParented(site: Site, earlier: set<int>, later: set<int>, top: int, k: int, s: int) {
    forall x | x in later && x !in earlier && x != top ::
      Inlinable(site.nodes, site.outputs, x) && HasParent(site.nodes, later - earlier, x, k, s)
  }

  lemma HasParentWeaken(nodes: seq<GraphNode>, within: set<int>, larger: set<int>, x: int, k: int, s: int, q: int, t: int)
    requires HasParent(nodes, within, x, k, s) && within <= larger
    requires q !in within || (q == k && s <= t)
    ensures HasParent(nodes, larger, x, q, t)
  {
  }

  /** While node `k` is being built, nothing else claims a slot of `k` that is still to come. */
  lemma ParentedDuringBuild(site: Site, entry: set<int>, indices: set<int>, k: int, s: int)
    requires entry + {k} <= indices && k !in entry
    requires AllParented(site, entry, -1, 0)
    requires k == site.root || HasParent(site.nodes, entry, k, -1, 0)
    requires NewParented(site, entry, indices, k, k, s)
    ensures AllParented(site, indices, k, s)
  {
    forall x | x in indices && x != site.root
      ensures HasParent(site.nodes, indices, x, k, s)
    {
      if x in entry || x == k {
        HasParentWeaken(site.nodes, entry, indices, x, -1, 0, k, s);
      } else {
        HasParentWeaken(site.nodes, indices - entry, indices, x, k, s, k, s);
      }
    }
  }

  lemma ParentedAfterBuild(site: Site, entry: set<int>, indices: set<int>, k: int, s: int)
    requires NewParented(site, entry, indices, k, k, s)
    ensures NewParented(site, entry, indices, k, -1, 0)
  {
    forall x | x in indices && x !in entry && x != k
      ensures Inlinable(site.nodes, site.outputs, x) && HasParent(site.nodes, indices - entry, x, -1, 0)
    {
      var m, t :| m in indices - entry && 0 <= m < |site.nodes| && 0 <= t < |site.nodes[m].inputs|
                  && 0 <= x < |site.nodes| && site.nodes[m].inputs[t] == site.nodes[x].id;
    }
  }

  /** Growing operand `s` of node `k` leaves every new node with a parent. */
  lemma ParentedStep(site: Site, entry: set<int>, b: set<int>, c: set<int>, k: int, s: int, operand: int)
    requires entry + {k} <= b <= c && k !in entry
    requires 0 <= k < |site.nodes| && 0 <= s < |site.nodes[k].inputs|
    requires operand in c - b ==>
      Inlinable(site.nodes, site.outputs, operand) && site.nodes[operand].id == site.nodes[k].inputs[s]
    requires NewParented(site, entry, b, k, k, s)
    requires NewParented(site, b, c, operand, -1, 0)
    ensures NewParented(site, entry, c, k, k, s + 1)
  {
    forall x | x in c && x !in entry && x != k
      ensures Inlinable(site.nodes, site.outputs, x) && HasParent(site.nodes, c - entry, x, k, s + 1)
    {
      if x in b {
        HasParentWeaken(site.nodes, b - entry, c - entry, x, k, s, k, s + 1);
      } else if x != operand {
        HasParentWeaken(site.nodes, c - b, c - entry, x, -1, 0, k, s + 1);
      } else {
        assert k in c - entry && site.nodes[k].inputs[s] == site.nodes[x].id;
      }
    }
  }

  lemma AllParentedWeaken(site: Site, indices: set<int>, k: int, s: int, j: int)
    requires AllParented(site, indices, k, s) && k in indices
    requires 0 <= k < |site.nodes| && 0 <= s < |site.nodes[k].inputs| && 0 <= j < |site.nodes|
    requires site.nodes[k].inputs[s] == site.nodes[j].id
    ensures AllParented(site, indices, -1, 0) && HasParent(site.nodes, indices, j, -1, 0)
  {
    forall x | x in indices && x != site.root
      ensures HasParent(site.nodes, indices, x, -1, 0)
    {
      assert HasParent(site.nodes, indices, x, k, s);
    }
  }

  /** Producers come before the nodes that read them. */
  lemma OperandIsEarlier(site: Site, k: int, s: int, j: int)
    requires ValidSite(site)
    requires 0 <= k < |site.nodes| && 0 <= s < |site.nodes[k].inputs| && 0 <= j < |site.nodes|
    requires site.nodes[k].inputs[s] == site.nodes[j].id
    ensures j < k
  {
    assert site.nodes[j].id in site.nodes[k].inputs;
  }

  /** A producer already absorbed by anyone has another reference than the slot being built. */
  lemma AbsorbedHasOtherReference(site: Site, indices: set<int>, k: int, s: int, j: int)
    requires ValidSite(site) && AllParented(site, indices, k, s)
    requires 0 <= k <= site.root && !site.absorbed[k]
    requires 0 <= s < |site.nodes[k].inputs| && 0 <= j < |site.nodes|
    requires site.nodes[k].inputs[s] == site.nodes[j].id
    requires j in indices || site.absorbed[j]
    ensures RefCount(site.nodes, site.outputs, site.nodes[j].id) != 1
  {
    var name := site.nodes[j].id;
    OperandIsEarlier(site, k, s, j);
    if RefCount(site.nodes, site.outputs, name) == 1 {
      if j in indices {
        assert HasParent(site.nodes, indices, j, k, s);
        var m, t :| m in indices && 0 <= m < |site.nodes| && 0 <= t < |site.nodes[m].inputs|
                    && site.nodes[m].inputs[t] == name && (m == k ==> t < s);
        SingleReference(site.nodes, name, k, s, m, t);
      } else {
        var m :| 0 <= m < |site.nodes| && (site.absorbed[m] || m > site.root) && ReadsValueOf(site.nodes, m, j);
        var t :| 0 <= t < |site.nodes[m].inputs| && site.nodes[m].inputs[t] == name;
        SingleReference(site.nodes, name, k, s, m, t);
      }
    }
  }

  /** A tree for `name` was grown between the two stages. */
  ghost predicate Grown(site: Site, a: Growth, b: Growth, tree: ASTNode, name: string)
    requires ValidSite(site)
  {
    && a.ports <= b.ports
    && Represents(site.nodes, b.ports, tree, name)
    && b.indices == a.indices + Members(site.nodes, tree, name)
    && a.indices !! Members(site.nodes, tree, name)
    && (forall p | |a.ports| <= p < |b.ports| :: External(site.nodes, site.outputs, b.ports[p]) && p in Leaves(tree))
  }

  /** The first operands of node `k` were grown between the two stages, after `k` itself joined. */
  ghost predicate GrownOperands(site: Site, k: int, a: Growth, b: Growth, children: seq<ASTNode>)
    requires ValidSite(site) && 0 <= k < |site.nodes|
  {
    var names := site.nodes[k].inputs;
    && a.ports <= b.ports
    && |children| <= |names|
    && k !in a.indices
    && (forall c | 0 <= c < |children| :: Represents(site.nodes, b.ports, children[c], names[c]))
    && b.indices == a.indices + {k} + OperandMembers(site.nodes, children, names)
    && a.indices !! OperandMembers(site.nodes, children, names)
    && (forall p | |a.ports| <= p < |b.ports| ::
          External(site.nodes, site.outputs, b.ports[p]) && ReadBySome(children, p))
  }

  ghost predicate ReadBySome(children: seq<ASTNode>, p: int) {
    exists c | 0 <= c < |children| :: p in Leaves(children[c])
  }

  ghost function OperandMembers(nodes: seq<GraphNode>, children: seq<ASTNode>, names: seq<string>): set<int>
    requires UniqueIds(nodes) && |children| <= |names|
  {
    set c, x | 0 <= c < |children| && x in Members(nodes, children[c], names[c]) :: x
  }

  lemma {:induction false} RepresentsWithMorePorts(nodes: seq<GraphNode>, ports: seq<string>, more: seq<string>,
                                                   tree: ASTNode, name: string)
    requires UniqueIds(nodes) && ports <= more && Represents(nodes, ports, tree, name)
    ensures Represents(nodes, more, tree, name)
  {
    if !tree.nodeType.NodeInput? {
      var node := nodes[Producers(nodes)[name]];
      forall k | 0 <= k < |tree.children|
        ensures Represents(nodes, more, tree.children[k], node.inputs[k])
      {
        RepresentsWithMorePorts(nodes, ports, more, tree.children[k], node.inputs[k]);
      }
    }
  }

  /** Listing an external value as a port grows a one-leaf tree. */
  lemma GrownByPort(site: Site, a: Growth, b: Growth, leaf: ASTNode, name: string)
    requires ValidSite(site) && External(site.nodes, site.outputs, name)
    requires b.indices == a.indices
    requires leaf.nodeType.NodeInput? && 0 <= leaf.inputIndex < |b.ports| && b.ports[leaf.inputIndex] == name
    requires b.ports == a.ports || (b.ports == a.ports + [name] && leaf.inputIndex == |a.ports|)
    ensures Grown(site, a, b, leaf, name)
    ensures forall k :: NewParented(site, a.indices, b.indices, k, -1, 0)
  {
  }

  lemma OperandsStart(site: Site, k: int, a: Growth)
    requires ValidSite(site) && 0 <= k < |site.nodes| && k !in a.indices
    ensures GrownOperands(site, k, a, Growth(a.indices + {k}, a.ports), [])
    ensures NewParented(site, a.indices, a.indices + {k}, k, k, 0)
  {
    assert OperandMembers(site.nodes, [], site.nodes[k].inputs) == {};
  }

  lemma OperandMembersAppend(nodes: seq<GraphNode>, children: seq<ASTNode>, child: ASTNode, names: seq<string>)
    requires UniqueIds(nodes) && |children| < |names|
    ensures OperandMembers(nodes, children + [child], names) ==
            OperandMembers(nodes, children, names) + Members(nodes, child, names[|children|])
  {
    var longer := children + [child];
    forall x | x in OperandMembers(nodes, children, names)
      ensures x in OperandMembers(nodes, longer, names)
    {
      var c :| 0 <= c < |children| && x in Members(nodes, children[c], names[c]);
      assert longer[c] == children[c];
    }
    forall x | x in OperandMembers(nodes, longer, names)
      ensures x in OperandMembers(nodes, children, names) || x in Members(nodes, child, names[|children|])
    {
      var c :| 0 <= c < |longer| && x in Members(nodes, longer[c], names[c]);
    }
    assert longer[|children|] == child;
  }

  /** New ports stay external and read by some operand when one more operand is grown. */
  lemma PortsStep(site: Site, start: nat, b: seq<string>, c: seq<string>, children: seq<ASTNode>, child: ASTNode)
    requires ValidSite(site) && start <= |b| && b <= c
    requires forall p | start <= p < |b| :: External(site.nodes, site.outputs, b[p]) && ReadBySome(children, p)
    requires forall p | |b| <= p < |c| :: External(site.nodes, site.outputs, c[p]) && p in Leaves(child)
    ensures forall p | start <= p < |c| ::
      External(site.nodes, site.outputs, c[p]) && ReadBySome(children + [child], p)
  {
    var longer := children + [child];
    forall p | start <= p < |c|
      ensures External(site.nodes, site.outputs, c[p]) && ReadBySome(longer, p)
    {
      if p < |b| {
        assert b[p] == c[p];
        var q :| 0 <= q < |children| && p in Leaves(children[q]);
        assert longer[q] == children[q];
      } else {
        assert longer[|children|] == child;
      }
    }
  }

  lemma OperandsStep(site: Site, k: int, a: Growth, b: Growth, c: Growth, children: seq<ASTNode>, child: ASTNode)
    requires ValidSite(site) && 0 <= k < |site.nodes|
    requires GrownOperands(site, k, a, b, children) && |children| < |site.nodes[k].inputs|
    requires Grown(site, b, c, child, site.nodes[k].inputs[|children|])
    ensures GrownOperands(site, k, a, c, children + [child])
    ensures a.indices + {k} <= b.indices <= c.indices
  {
    var names := site.nodes[k].inputs;
    var longer := children + [child];
    forall q | 0 <= q < |longer|
      ensures Represents(site.nodes, c.ports, longer[q], names[q])
    {
      if q < |children| {
        RepresentsWithMorePorts(site.nodes, b.ports, c.ports, children[q], names[q]);
      }
    }
    OperandMembersAppend(site.nodes, children, child, names);
    PortsStep(site, |a.ports|, b.ports, c.ports, children, child);
  }

  lemma OperandsDone(site: Site, k: int, a: Growth, b: Growth, nodeType: NodeType, children: seq<ASTNode>)
    requires ValidSite(site) && 0 <= k < |site.nodes|
    requires GrownOperands(site, k, a, b, children) && |children| == |site.nodes[k].inputs|
    requires IsElementwiseOp(site.nodes[k].op) == Some(nodeType)
    ensures Grown(site, a, b, ASTNode(nodeType, 0.0, 0, children), site.nodes[k].id)
  {
    var tree := ASTNode(nodeType, 0.0, 0, children);
    var names := site.nodes[k].inputs;
    assert Members(site.nodes, tree, site.nodes[k].id) == {k} + OperandMembers(site.nodes, children, names);
  }

  /** A finished build of two nodes or more is a cluster. */
  lemma ClusterFromGrowth(site: Site, g: Growth, tree: ASTNode, node: GraphNode)
    requires ValidSite(site) && ValidGrowth(site, g) && |g.indices| >= 2
    requires Grown(site, Growth({}, []), g, tree, site.nodes[site.root].id) && !tree.nodeType.NodeInput?
    requires NewParented(site, {}, g.indices, site.root, -1, 0)
    requires IsFused(node) && node.id == site.nodes[site.root].id && node.inputs == g.ports
    requires node.attributes.Keys == {FUSE_AST}
    requires node.attributes[FUSE_AST].ast == FusionAST(tree, g.ports, node.id, IdsOf(site.nodes, g.indices))
    ensures ClusterAt(site.nodes, site.outputs, node, site.root, g.indices)
  {
    MembersParented(site, g);
    hide NewParented, HasParent, Inlinable, ReadsValueOf, External, Represents, Ordered, ElementwiseArity, IdsOf, Members, Leaves;
    RootIsGrown(site, g, tree, node.id);
  }

  /** A growth from nothing is the tree's own members and ports. */
  lemma RootIsGrown(site: Site, g: Growth, tree: ASTNode, name: string)
    requires ValidSite(site) && Grown(site, Growth({}, []), g, tree, name) && !tree.nodeType.NodeInput?
    requires name == site.nodes[site.root].id
    ensures Represents(site.nodes, g.ports, tree, name) && g.indices == Members(site.nodes, tree, name)
    ensures site.root in g.indices
    ensures forall p | 0 <= p < |g.ports| :: p in Leaves(tree) && External(site.nodes, site.outputs, g.ports[p])
  {
    hide External, Leaves, ElementwiseArity;
  }

  /** A finished cluster's other members may be inlined, each into another member. */
  lemma MembersParented(site: Site, g: Growth)
    requires NewParented(site, {}, g.indices, site.root, -1, 0)
    ensures forall x | x in g.indices && x != site.root ::
      Inlinable(site.nodes, site.outputs, x) && exists m | m in g.indices :: ReadsValueOf(site.nodes, m, x)
  {
    forall x | x in g.indices && x != site.root
      ensures Inlinable(site.nodes, site.outputs, x) && exists m | m in g.indices :: ReadsValueOf(site.nodes, m, x)
    {
      assert HasParent(site.nodes, g.indices - {}, x, -1, 0);
      var m, t :| m in g.indices && 0 <= m < |site.nodes| && 0 <= t < |site.nodes[m].inputs|
                  && site.nodes[m].inputs[t] == site.nodes[x].id;
      assert ReadsValueOf(site.nodes, m, x);
    }
  }

  /** A build that stops at its root has found every operand external. */
  lemma LoneRootIsMaximal(site: Site, g: Growth, tree: ASTNode, name: string)
    requires ValidSite(site) && |g.indices| <= 1 && name in site.nodes[site.root].inputs
    requires Grown(site, Growth({}, []), g, tree, site.nodes[site.root].id) && !tree.nodeType.NodeInput?
    ensures External(site.nodes, site.outputs, name)
  {
    var nodes, r := site.nodes, site.root;
    var t :| 0 <= t < |nodes[r].inputs| && nodes[r].inputs[t] == name;
    var child := tree.children[t];
    assert Represents(nodes, g.ports, child, name);
    if !child.nodeType.NodeInput? {
      var x := Producers(nodes)[name];
      assert x in Members(nodes, child, name);
      assert x in g.indices && r in g.indices && x != r;
      assert {x, r} <= g.indices;
      assert |{x, r}| <= |g.indices| by {
        SubsetSize({x, r}, g.indices);
      }
      assert false;
    }
  }

  lemma SubsetSize(a: set<int>, b: set<int>)
    requires a <= b
    ensures |a| <= |b|
  {
    assert b == a + (b - a);
  }
}
