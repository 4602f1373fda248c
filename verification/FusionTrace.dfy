/** How the reverse walk of the fusion pass assembles its result, root by root. */
module FusionTrace {
  import opened Wrappers
  import opened FusionAst
  import opened Elementwise
  import opened GraphSemantics
  import opened References
  import opened Clusters
  import opened ClusterGrowth

  /** The walk has dealt with every root above `index`. */
  ghost predicate WalkedTo(nodes: seq<GraphNode>, outputs: map<string, string>, t: Trace, index: int)
    requires UniqueIds(nodes)
  {
    && SlotsFrom(nodes, outputs, t)
    && PartitionedBy(t)
    && MaximalFrom(nodes, outputs, t, index + 1)
    && (forall r | r in t.clusters :: r > index)
  }

  /** The slots of a cluster other than its root are marked. */
  ghost predicate Marked(before: seq<bool>, after: seq<bool>, members: set<int>, root: int) {
    && |after| == |before|
    && forall j | 0 <= j < |before| :: after[j] <==> before[j] || (j in members && j != root)
  }

  lemma StartTrace(nodes: seq<GraphNode>, outputs: map<string, string>, t: Trace)
    requires UniqueIds(nodes)
    requires t.slots == nodes && t.clusters == map[] && |t.absorbed| == |nodes|
    requires forall j | 0 <= j < |nodes| :: !t.absorbed[j]
    ensures WalkedTo(nodes, outputs, t, |nodes| - 1)
  {
  }

  lemma ClusterMember(nodes: seq<GraphNode>, outputs: map<string, string>, node: GraphNode,
                      r: int, members: set<int>, x: int)
    requires UniqueIds(nodes) && ClusterAt(nodes, outputs, node, r, members) && x in members && x != r
    ensures Inlinable(nodes, outputs, x) && exists m | m in members :: ReadsValueOf(nodes, m, x)
  {
  }

  lemma TraceSite(nodes: seq<GraphNode>, outputs: map<string, string>, t: Trace, index: int)
    requires Ordered(nodes) && ElementwiseArity(nodes) && WalkedTo(nodes, outputs, t, index)
    requires 0 <= index < |nodes|
    ensures ValidSite(Site(nodes, outputs, t.absorbed, index))
  {
    hide ClusterAt, MaximalFrom, External;
    forall x | 0 <= x < |nodes| && t.absorbed[x]
      ensures exists m | 0 <= m < |nodes| :: (t.absorbed[m] || m > index) && ReadsValueOf(nodes, m, x)
    {
      var r :| r in t.clusters && x in t.clusters[r] && x != r;
      ClusterMember(nodes, outputs, t.slots[r], r, t.clusters[r], x);
      var m :| m in t.clusters[r] && ReadsValueOf(nodes, m, x);
      assert m != r ==> t.absorbed[m];
    }
  }

  /** An ineligible or already absorbed node takes the walk one step on. */
  lemma StepPast(nodes: seq<GraphNode>, outputs: map<string, string>, t: Trace, index: int)
    requires UniqueIds(nodes) && WalkedTo(nodes, outputs, t, index) && 0 <= index < |nodes|
    requires t.absorbed[index] || !Eligible(nodes[index]) ||
             forall name | name in nodes[index].inputs :: External(nodes, outputs, name)
    ensures WalkedTo(nodes, outputs, t, index - 1)
  {
  }

  lemma PartitionWithCluster(t: Trace, u: Trace, index: int, members: set<int>)
    requires PartitionedBy(t) && 0 <= index < |t.absorbed|
    requires forall r | r in t.clusters :: r > index && r < |t.absorbed|
    requires forall x | x in members :: 0 <= x <= index && !t.absorbed[x]
    requires index in members
    requires Marked(t.absorbed, u.absorbed, members, index) && u.clusters == t.clusters[index := members]
    ensures PartitionedBy(u)
  {
    forall r | r in t.clusters
      ensures t.clusters[r] !! members
    {
      forall x | x in members
        ensures x !in t.clusters[r]
      {
        assert !t.absorbed[x] && x != r;
      }
    }
    forall r, q | r in u.clusters && q in u.clusters && r != q
      ensures u.clusters[r] !! u.clusters[q]
    {
      assert r != index ==> r in t.clusters;
      assert q != index ==> q in t.clusters;
    }
    forall j | 0 <= j < |u.absorbed|
      ensures u.absorbed[j] <==> exists r | r in u.clusters :: j in u.clusters[r] && j != r
    {
      if t.absorbed[j] {
        var r :| r in t.clusters && j in t.clusters[r] && j != r;
        assert r in u.clusters && u.clusters[r] == t.clusters[r];
      }
      if j in members && j != index {
        assert index in u.clusters && u.clusters[index] == members;
      }
      if r :| r in u.clusters && j in u.clusters[r] && j != r {
        assert r != index ==> r in t.clusters && t.clusters[r] == u.clusters[r];
      }
    }
  }

  /** Recording a finished cluster takes the walk one step on. */
  lemma StepCluster(nodes: seq<GraphNode>, outputs: map<string, string>, t: Trace, u: Trace, index: int,
                    members: set<int>, node: GraphNode)
    requires UniqueIds(nodes) && WalkedTo(nodes, outputs, t, index) && 0 <= index < |nodes|
    requires !t.absorbed[index] && ClusterAt(nodes, outputs, node, index, members)
    requires index in members && forall x | x in members :: 0 <= x <= index && !t.absorbed[x]
    requires Marked(t.absorbed, u.absorbed, members, index)
    requires u.slots == t.slots[index := node] && u.clusters == t.clusters[index := members]
    ensures WalkedTo(nodes, outputs, u, index - 1)
  {
    hide ClusterAt, External, PartitionedBy, Eligible, ReadsValueOf;
    PartitionWithCluster(t, u, index, members);
    forall r | r in u.clusters
      ensures 0 <= r < |nodes| && !u.absorbed[r] && ClusterAt(nodes, outputs, u.slots[r], r, u.clusters[r])
    {
      if r != index {
        assert r in t.clusters;
      }
    }
  }

  lemma CountMarked(before: seq<bool>, after: seq<bool>, members: set<int>, root: int)
    requires Marked(before, after, members, root)
    requires forall x | x in members :: 0 <= x < |before| && !before[x]
    requires root in members
    ensures CountTrue(after) == CountTrue(before) + |members| - 1
  {
    CountTrueIsSize(before);
    CountTrueIsSize(after);
    assert TrueIndices(after) == TrueIndices(before) + (members - {root});
  }

  ghost function TrueIndices(flags: seq<bool>): set<int> {
    set j | 0 <= j < |flags| && flags[j]
  }

  lemma {:induction false} CountTrueIsSize(flags: seq<bool>)
    ensures CountTrue(flags) == |TrueIndices(flags)|
  {
    if flags == [] {
      assert TrueIndices(flags) == {};
    } else {
      var n := |flags| - 1;
      CountTrueIsSize(flags[..n]);
      assert TrueIndices(flags) == TrueIndices(flags[..n]) + if flags[n] then {n} else {};
    }
  }

  lemma NoneMarked(flags: seq<bool>)
    requires forall j | 0 <= j < |flags| :: !flags[j]
    ensures CountTrue(flags) == 0
  {
    CountTrueIsSize(flags);
    assert TrueIndices(flags) == {};
  }

  lemma WalkFinished(nodes: seq<GraphNode>, outputs: map<string, string>, t: Trace)
    requires UniqueIds(nodes) && WalkedTo(nodes, outputs, t, -1)
    ensures FusionBy(nodes, outputs, t)
  {
  }
}
