/** Identity elimination: consumers of an identity node are rewired to what it copies. */
module Rewrite {
  import opened Wrappers
  import opened FusionAst
  import opened Elementwise
  import opened GraphSemantics

  // ----- redirect tables

  /** The table never leads back to where it started: every redirect lowers the rank. */
  ghost predicate Ranked(redirect: map<string, string>, rank: map<string, nat>) {
    && rank.Keys == redirect.Keys
    && forall s | s in redirect && redirect[s] in redirect :: rank[redirect[s]] < rank[s]
  }

  /** Where a chain of redirects ends. */
  ghost function Resolve(redirect: map<string, string>, rank: map<string, nat>, name: string): (r: string)
    requires Ranked(redirect, rank)
    ensures r !in redirect
    decreases if name in rank then rank[name] + 1 else 0
  {
    if name in redirect then Resolve(redirect, rank, redirect[name]) else name
  }

  /** `n` steps along the table. */
  ghost function Follow(redirect: map<string, string>, name: string, n: nat): string {
    if n == 0 then name
    else
      var at := Follow(redirect, name, n - 1);
      if at in redirect then redirect[at] else at
  }

  /** A chain that returns to a redirected name never gets out of the table: the pass would not end. */
  lemma {:induction false} CycleNeverResolves(redirect: map<string, string>, name: string, period: nat, n: nat)
    requires period > 0 && Follow(redirect, name, period) == name && name in redirect
    requires forall k | 0 <= k <= period :: Follow(redirect, name, k) in redirect
    ensures Follow(redirect, name, n) in redirect
    decreases n
  {
    if n > period {
      CycleNeverResolves(redirect, name, period, n - period);
      FollowShift(redirect, name, period, n - period);
    }
  }

  lemma {:induction false} FollowShift(redirect: map<string, string>, name: string, a: nat, b: nat)
    ensures Follow(redirect, name, a + b) == Follow(redirect, Follow(redirect, name, a), b)
  {
    if b > 0 {
      FollowShift(redirect, name, a, b - 1);
      assert a + b - 1 == a + (b - 1);
    }
  }

  ghost predicate Escapes(redirect: map<string, string>, name: string) {
    exists n: nat :: Follow(redirect, name, n) !in redirect
  }

  /** The first step at which a chain leaves the table. */
  ghost function Exit(redirect: map<string, string>, name: string): (n: nat)
    requires Escapes(redirect, name)
    ensures Follow(redirect, name, n) !in redirect
    ensures forall k: nat | k < n :: Follow(redirect, name, k) in redirect
  {
    var n: nat :| Follow(redirect, name, n) !in redirect;
    FirstExit(redirect, name, n)
  }

  ghost function FirstExit(redirect: map<string, string>, name: string, bound: nat): (n: nat)
    requires Follow(redirect, name, bound) !in redirect
    ensures n <= bound && Follow(redirect, name, n) !in redirect
    ensures forall k: nat | k < n :: Follow(redirect, name, k) in redirect
  {
    if bound == 0 || Follow(redirect, name, bound - 1) in redirect then
      LongerChain(redirect, name, bound);
      bound
    else FirstExit(redirect, name, bound - 1)
  }

  lemma {:induction false} LongerChain(redirect: map<string, string>, name: string, n: nat)
    requires n == 0 || Follow(redirect, name, n - 1) in redirect
    ensures forall k: nat | k < n :: Follow(redirect, name, k) in redirect
  {
    if n > 1 {
      LongerChain(redirect, name, n - 1);
    }
  }

  lemma {:induction false} RankedEscapes(redirect: map<string, string>, rank: map<string, nat>, name: string)
    requires Ranked(redirect, rank)
    ensures Escapes(redirect, name)
    decreases if name in rank then rank[name] + 1 else 0
  {
    if name in redirect {
      RankedEscapes(redirect, rank, redirect[name]);
      var n: nat :| Follow(redirect, redirect[name], n) !in redirect;
      FollowShift(redirect, name, 1, n);
      assert Follow(redirect, name, 1) == redirect[name];
      assert Follow(redirect, name, n + 1) !in redirect;
    } else {
      assert Follow(redirect, name, 0) !in redirect;
    }
  }

  /** Walking the table ends from every key exactly when the redirects can be ranked, that is, when they have no cycle. */
  lemma WalkEndsIffRanked(redirect: map<string, string>)
    ensures (forall s | s in redirect :: Escapes(redirect, s)) <==> exists rank :: Ranked(redirect, rank)
  {
    if rank :| Ranked(redirect, rank) {
      forall s | s in redirect {
        RankedEscapes(redirect, rank, s);
      }
    }
    if forall s | s in redirect :: Escapes(redirect, s) {
      var rank := map s | s in redirect :: Exit(redirect, s);
      forall s | s in redirect && redirect[s] in redirect
        ensures rank[redirect[s]] < rank[s]
      {
        var t, n := redirect[s], Exit(redirect, s);
        assert Follow(redirect, s, 0) in redirect && Follow(redirect, s, 1) == t;
        FollowShift(redirect, s, 1, n - 1);
        assert Exit(redirect, t) <= n - 1;
      }
      assert Ranked(redirect, rank);
    }
  }

  /**
   Compresses the table in place, one key at a time in whatever order the map yields,
   each time walking the entries already changed.
   */
  method Compress(table: map<string, string>, ghost rank: map<string, nat>) returns (redirect: map<string, string>)
    requires Ranked(table, rank)
    ensures redirect.Keys == table.Keys
    ensures forall s | s in table :: redirect[s] == Resolve(table, rank, s)
  {
    redirect := table;
    var pending := table.Keys;
    while pending != {}
      invariant pending <= table.Keys && redirect.Keys == table.Keys && Ranked(redirect, rank)
      invariant forall s | s in table :: Resolve(table, rank, redirect[s]) == Resolve(table, rank, s)
      invariant forall s | s in table && s !in pending :: redirect[s] == Resolve(table, rank, s)
    {
      var source :| source in pending;
      var current := source;
      while current in redirect
        invariant Resolve(table, rank, current) == Resolve(table, rank, source)
        invariant current == source || (current in rank ==> rank[current] < rank[source])
        decreases if current in rank then rank[current] + 1 else 0
      {
        current := redirect[current];
      }
      redirect := redirect[source := current];
      pending := pending - {source};
    }
  }

  // ----- the pass

  ghost predicate Removable(node: GraphNode) {
    IsIdentityOp(node.op) && |node.inputs| == 1
  }

  ghost function Kept(nodes: seq<GraphNode>): seq<GraphNode> {
    if nodes == [] then []
    else
      var last := nodes[|nodes| - 1];
      Kept(nodes[..|nodes| - 1]) + if Removable(last) then [] else [last]
  }

  ghost function Redirects(nodes: seq<GraphNode>): map<string, string> {
    if nodes == [] then map[]
    else
      var last := nodes[|nodes| - 1];
      var table := Redirects(nodes[..|nodes| - 1]);
      if Removable(last) then table[last.id := last.inputs[0]] else table
  }

  /** Ranks of the redirected names: the index of the identity that defines each. */
  ghost function Ranks(nodes: seq<GraphNode>): map<string, nat> {
    if nodes == [] then map[]
    else
      var n := |nodes| - 1;
      var ranks := Ranks(nodes[..n]);
      if Removable(nodes[n]) then ranks[nodes[n].id := n] else ranks
  }

  lemma {:induction false} RedirectAt(nodes: seq<GraphNode>, i: nat)
    requires UniqueIds(nodes) && i < |nodes| && Removable(nodes[i])
    ensures nodes[i].id in Redirects(nodes) && Redirects(nodes)[nodes[i].id] == nodes[i].inputs[0]
    ensures nodes[i].id in Ranks(nodes) && Ranks(nodes)[nodes[i].id] == i
  {
    var n := |nodes| - 1;
    if i < n {
      RedirectAt(nodes[..n], i);
    }
  }

  lemma {:induction false} RedirectFrom(nodes: seq<GraphNode>, name: string) returns (i: nat)
    requires name in Redirects(nodes)
    ensures i < |nodes| && Removable(nodes[i]) && nodes[i].id == name
  {
    var n := |nodes| - 1;
    if Removable(nodes[n]) && nodes[n].id == name {
      i := n;
    } else {
      i := RedirectFrom(nodes[..n], name);
    }
  }

  lemma {:induction false} RanksKeys(nodes: seq<GraphNode>)
    ensures Ranks(nodes).Keys == Redirects(nodes).Keys
  {
    if nodes != [] {
      RanksKeys(nodes[..|nodes| - 1]);
    }
  }

  lemma RedirectsOf(nodes: seq<GraphNode>)
    requires Ordered(nodes)
    ensures forall name :: name in Redirects(nodes) <==>
              exists i | 0 <= i < |nodes| :: Removable(nodes[i]) && nodes[i].id == name
    ensures forall i | 0 <= i < |nodes| && Removable(nodes[i]) ::
              Redirects(nodes)[nodes[i].id] == nodes[i].inputs[0] && nodes[i].id in Ranks(nodes) && Ranks(nodes)[nodes[i].id] == i
    ensures Ranks(nodes).Keys == Redirects(nodes).Keys
  {
    hide Redirects, Ranks;
    RanksKeys(nodes);
    forall i | 0 <= i < |nodes| && Removable(nodes[i])
      ensures nodes[i].id in Redirects(nodes) && Redirects(nodes)[nodes[i].id] == nodes[i].inputs[0]
      ensures nodes[i].id in Ranks(nodes) && Ranks(nodes)[nodes[i].id] == i
    {
      RedirectAt(nodes, i);
    }
    forall name | name in Redirects(nodes)
      ensures exists i | 0 <= i < |nodes| :: Removable(nodes[i]) && nodes[i].id == name
    {
      var i := RedirectFrom(nodes, name);
    }
  }

  lemma RedirectsRanked(nodes: seq<GraphNode>)
    requires Ordered(nodes)
    ensures Ranked(Redirects(nodes), Ranks(nodes))
  {
    RedirectsOf(nodes);
    var redirect, rank := Redirects(nodes), Ranks(nodes);
    forall s | s in redirect && redirect[s] in redirect
      ensures rank[redirect[s]] < rank[s]
    {
      var i :| 0 <= i < |nodes| && Removable(nodes[i]) && nodes[i].id == s;
      var j :| 0 <= j < |nodes| && Removable(nodes[j]) && nodes[j].id == redirect[s];
      assert nodes[j].id in nodes[i].inputs;
    }
  }

  /** What a name stands for once the identities are gone. */
  ghost function Target(nodes: seq<GraphNode>, name: string): string
    requires Ordered(nodes)
  {
    RedirectsRanked(nodes);
    Resolve(Redirects(nodes), Ranks(nodes), name)
  }

  ghost function Rewired(nodes: seq<GraphNode>, node: GraphNode): GraphNode
    requires Ordered(nodes)
  {
    node.(inputs := seq(|node.inputs|, k requires 0 <= k < |node.inputs| => Target(nodes, node.inputs[k])))
  }

  /** The graph after the pass: identities gone, everything else reading what they copied. */
  ghost predicate RewriteResult(nodes: seq<GraphNode>, outputs: map<string, string>,
                                after: seq<GraphNode>, renamed: map<string, string>)
    requires Ordered(nodes)
  {
    && |after| == |Kept(nodes)|
    && (forall a | 0 <= a < |after| :: after[a] == Rewired(nodes, Kept(nodes)[a]))
    && renamed.Keys == outputs.Keys
    && (forall key | key in outputs :: renamed[key] == Target(nodes, outputs[key]))
  }

  method SplitIdentities(nodes: seq<GraphNode>) returns (survivors: seq<GraphNode>, redirect: map<string, string>, removed: nat)
    ensures survivors == Kept(nodes) && redirect == Redirects(nodes)
    ensures |survivors| + removed == |nodes|
  {
    survivors, redirect, removed := [], map[], 0;
    for i := 0 to |nodes|
      invariant survivors == Kept(nodes[..i]) && redirect == Redirects(nodes[..i])
      invariant |survivors| + removed == i
    {
      assert nodes[..i + 1][..i] == nodes[..i];
      if !IsIdentityOp(nodes[i].op) {
        survivors := survivors + [nodes[i]];
      } else if |nodes[i].inputs| != 1 {
        survivors := survivors + [nodes[i]];
      } else {
        redirect := redirect[nodes[i].id := nodes[i].inputs[0]];
        removed := removed + 1;
      }
    }
    assert nodes[..|nodes|] == nodes;
  }

  method RewireNode(node: GraphNode, redirect: map<string, string>) returns (rewired: GraphNode)
    ensures |rewired.inputs| == |node.inputs| && rewired == node.(inputs := rewired.inputs)
    ensures forall k | 0 <= k < |node.inputs| ::
      rewired.inputs[k] == if node.inputs[k] in redirect then redirect[node.inputs[k]] else node.inputs[k]
  {
    rewired := node;
    for k := 0 to |node.inputs|
      invariant |rewired.inputs| == |node.inputs| && rewired == node.(inputs := rewired.inputs)
      invariant forall j | 0 <= j < |node.inputs| ::
        rewired.inputs[j] == if j < k && node.inputs[j] in redirect then redirect[node.inputs[j]] else node.inputs[j]
    {
      if rewired.inputs[k] in redirect {
        rewired := rewired.(inputs := rewired.inputs[k := redirect[rewired.inputs[k]]]);
      }
    }
  }

  method RewireOutputs(outputs: map<string, string>, redirect: map<string, string>) returns (renamed: map<string, string>)
    ensures renamed.Keys == outputs.Keys
    ensures forall key | key in outputs ::
      renamed[key] == if outputs[key] in redirect then redirect[outputs[key]] else outputs[key]
  {
    renamed := outputs;
    var pending := outputs.Keys;
    while pending != {}
      invariant pending <= outputs.Keys && renamed.Keys == outputs.Keys
      invariant forall key | key in outputs ::
        renamed[key] == if key !in pending && outputs[key] in redirect then redirect[outputs[key]] else outputs[key]
    {
      var key :| key in pending;
      if renamed[key] in redirect {
        renamed := renamed[key := redirect[renamed[key]]];
      }
      pending := pending - {key};
    }
  }

  /** Removes identity nodes in place. */
  method RewriteIdentities(graph: Graph) returns (removed: nat)
    requires Ordered(graph.nodes)
    modifies graph`nodes, graph`outputs
    ensures RewriteResult(old(graph.nodes), old(graph.outputs), graph.nodes, graph.outputs)
    ensures |graph.nodes| + removed == |old(graph.nodes)|
  {
    ghost var before := graph.nodes;
    var survivors, table, count := SplitIdentities(graph.nodes);
    removed := count;
    RedirectsRanked(before);
    if table == map[] {
      NothingToRewire(before, graph.outputs);
      return;
    }
    var redirect := Compress(table, Ranks(before));
    for i := 0 to |survivors|
      invariant |survivors| == |Kept(before)| && graph.outputs == old(graph.outputs)
      invariant forall a | 0 <= a < |survivors| ::
        survivors[a] == if a < i then Rewired(before, Kept(before)[a]) else Kept(before)[a]
    {
      var rewired := RewireNode(survivors[i], redirect);
      assert rewired.inputs == Rewired(before, survivors[i]).inputs;
      survivors := survivors[i := rewired];
    }
    graph.outputs := RewireOutputs(graph.outputs, redirect);
    graph.nodes := survivors;
  }

  lemma {:induction false} NothingRemoved(nodes: seq<GraphNode>)
    ensures Redirects(nodes) == map[] ==> Kept(nodes) == nodes
  {
    if nodes != [] {
      var n := |nodes| - 1;
      NothingRemoved(nodes[..n]);
      if Removable(nodes[n]) {
        assert nodes[n].id in Redirects(nodes);
      }
    }
  }

  lemma NothingToRewire(nodes: seq<GraphNode>, outputs: map<string, string>)
    requires Ordered(nodes) && Redirects(nodes) == map[]
    ensures RewriteResult(nodes, outputs, nodes, outputs)
  {
    NothingRemoved(nodes);
    hide Kept, Redirects, Target, Ordered;
    forall a | 0 <= a < |nodes|
      ensures nodes[a] == Rewired(nodes, nodes[a])
    {
      RewiresToItself(nodes, nodes[a]);
    }
    forall key | key in outputs
      ensures Target(nodes, outputs[key]) == outputs[key]
    {
      TargetIsItself(nodes, outputs[key]);
    }
  }

  lemma TargetIsItself(nodes: seq<GraphNode>, name: string)
    requires Ordered(nodes) && Redirects(nodes) == map[]
    ensures Target(nodes, name) == name
  {
  }

  lemma RewiresToItself(nodes: seq<GraphNode>, node: GraphNode)
    requires Ordered(nodes) && Redirects(nodes) == map[]
    ensures Rewired(nodes, node) == node
  {
    hide Target, Ordered, Redirects;
    forall k | 0 <= k < |node.inputs|
      ensures Target(nodes, node.inputs[k]) == node.inputs[k]
    {
      TargetIsItself(nodes, node.inputs[k]);
    }
    assert Rewired(nodes, node).inputs == node.inputs;
  }

  // ----- what the pass promises

  /** A name and its target hold the same value in every solution. */
  lemma {:induction false} TargetValue(m: Machine, nodes: seq<GraphNode>, v: Env, name: string, rank: map<string, nat>)
    requires Ordered(nodes) && Solves(m, nodes, v) && Ranked(Redirects(nodes), rank)
    ensures Lookup(v, Resolve(Redirects(nodes), rank, name)) == Lookup(v, name)
    decreases if name in rank then rank[name] + 1 else 0
  {
    RedirectsOf(nodes);
    if name in Redirects(nodes) {
      var i :| 0 <= i < |nodes| && Removable(nodes[i]) && nodes[i].id == name;
      IdentityValue(m, nodes[i], v);
      TargetValue(m, nodes, v, nodes[i].inputs[0], rank);
    }
  }

  lemma IdentityValue(m: Machine, node: GraphNode, v: Env)
    requires Removable(node)
    ensures NodeValue(m, node, v) == Lookup(v, node.inputs[0])
  {
  }

  /** Resolving a name never leads to a later node. */
  lemma {:induction false} TargetIsEarlier(nodes: seq<GraphNode>, name: string, rank: map<string, nat>, k: nat)
    requires Ordered(nodes) && Ranked(Redirects(nodes), rank)
    requires forall j | k <= j < |nodes| :: nodes[j].id != name
    ensures forall j | k <= j < |nodes| :: nodes[j].id != Resolve(Redirects(nodes), rank, name)
    decreases if name in rank then rank[name] + 1 else 0
  {
    RedirectsOf(nodes);
    if name in Redirects(nodes) {
      var i :| 0 <= i < |nodes| && Removable(nodes[i]) && nodes[i].id == name;
      assert forall j | k <= j < |nodes| :: nodes[j].id !in nodes[i].inputs;
      TargetIsEarlier(nodes, nodes[i].inputs[0], rank, k);
    }
  }

  lemma {:induction false} KeptNode(nodes: seq<GraphNode>, a: nat) returns (i: nat)
    requires a < |Kept(nodes)|
    ensures i < |nodes| && Kept(nodes)[a] == nodes[i] && !Removable(nodes[i])
  {
    var n := |nodes| - 1;
    if a < |Kept(nodes[..n])| {
      i := KeptNode(nodes[..n], a);
    } else {
      i := n;
    }
  }

  lemma {:induction false} NodeKept(nodes: seq<GraphNode>, i: nat)
    requires i < |nodes| && !Removable(nodes[i])
    ensures nodes[i] in Kept(nodes)
  {
    var n := |nodes| - 1;
    if i < n {
      NodeKept(nodes[..n], i);
    }
  }

  lemma {:induction false} KeptUnique(nodes: seq<GraphNode>)
    requires Ordered(nodes)
    ensures UniqueIds(Kept(nodes))
  {
    if nodes != [] {
      var n := |nodes| - 1;
      OrderedPrefix(nodes, n);
      KeptUnique(nodes[..n]);
      var kept := Kept(nodes[..n]);
      forall a | 0 <= a < |kept|
        ensures kept[a].id != nodes[n].id
      {
        var i := KeptNode(nodes[..n], a);
        assert nodes[i] == kept[a];
      }
    }
  }

  /** Kept nodes keep their relative order. */
  lemma {:induction false} KeptIndex(nodes: seq<GraphNode>, a: nat, b: nat) returns (i: nat, j: nat)
    requires a <= b < |Kept(nodes)|
    ensures i <= j < |nodes| && nodes[i] == Kept(nodes)[a] && nodes[j] == Kept(nodes)[b]
    ensures !Removable(nodes[i]) && !Removable(nodes[j])
  {
    var n := |nodes| - 1;
    if b < |Kept(nodes[..n])| {
      i, j := KeptIndex(nodes[..n], a, b);
    } else if a < b {
      i := KeptNode(nodes[..n], a);
      j := n;
    } else {
      i, j := n, n;
    }
  }

  lemma RewiredInput(nodes: seq<GraphNode>, node: GraphNode, name: string) returns (source: string)
    requires Ordered(nodes) && name in Rewired(nodes, node).inputs
    ensures source in node.inputs && name == Target(nodes, source)
  {
    var k :| 0 <= k < |node.inputs| && Rewired(nodes, node).inputs[k] == name;
    source := node.inputs[k];
  }

  /** The pass keeps execution order, and nothing refers to a removed identity any more. */
  lemma RewriteKeepsStructure(nodes: seq<GraphNode>, outputs: map<string, string>,
                              after: seq<GraphNode>, renamed: map<string, string>)
    requires Ordered(nodes) && RewriteResult(nodes, outputs, after, renamed)
    ensures Ordered(after) && NoDangling(nodes, after, renamed)
    ensures forall a | 0 <= a < |after| :: !Removable(after[a])
  {
    var kept := Kept(nodes);
    KeptUnique(nodes);
    RedirectsRanked(nodes);
    forall a, b | 0 <= a <= b < |after|
      ensures after[b].id !in after[a].inputs
    {
      if after[b].id in after[a].inputs {
        var i, j := KeptIndex(nodes, a, b);
        var source := RewiredInput(nodes, kept[a], after[b].id);
        assert forall k | i <= k < |nodes| :: nodes[k].id != source;
        TargetIsEarlier(nodes, source, Ranks(nodes), i);
      }
    }
    forall a | 0 <= a < |after|
      ensures !Removable(after[a]) && after[a].id in Ids(nodes)
    {
      var i := KeptNode(nodes, a);
      assert nodes[i].id == after[a].id;
    }
    forall name | name in Ids(nodes) && exists source :: name == Target(nodes, source)
      ensures name in Ids(after)
    {
      TargetSurvives(nodes, after, name);
    }
    forall a, name | 0 <= a < |after| && name in after[a].inputs && name in Ids(nodes)
      ensures name in Ids(after)
    {
      var source := RewiredInput(nodes, kept[a], name);
    }
  }

  /** A node goes exactly when it is an identity of one operand; the others keep their operation and attributes. */
  lemma IdentitiesGo(nodes: seq<GraphNode>, outputs: map<string, string>, after: seq<GraphNode>,
                     renamed: map<string, string>, i: nat)
    requires Ordered(nodes) && RewriteResult(nodes, outputs, after, renamed) && i < |nodes|
    ensures (forall a | 0 <= a < |after| :: after[a].id != nodes[i].id)
       <==> (nodes[i].op == "shape.identity" || nodes[i].op == "control.identity") && |nodes[i].inputs| == 1
    ensures forall a | 0 <= a < |after| && after[a].id == nodes[i].id ::
      after[a].op == nodes[i].op && after[a].attributes == nodes[i].attributes && |after[a].inputs| == |nodes[i].inputs|
  {
    hide Target, Kept;
    forall a | 0 <= a < |after| && after[a].id == nodes[i].id
      ensures !Removable(nodes[i]) && Kept(nodes)[a] == nodes[i]
    {
      var j := KeptNode(nodes, a);
      assert j == i;
    }
    if !Removable(nodes[i]) {
      NodeKept(nodes, i);
      var a :| 0 <= a < |Kept(nodes)| && Kept(nodes)[a] == nodes[i];
      assert after[a].id == nodes[i].id;
    }
  }

  lemma TargetSurvives(nodes: seq<GraphNode>, after: seq<GraphNode>, name: string)
    requires Ordered(nodes) && name in Ids(nodes) && exists source :: name == Target(nodes, source)
    requires |after| == |Kept(nodes)| && forall a | 0 <= a < |after| :: after[a].id == Kept(nodes)[a].id
    ensures name in Ids(after)
  {
    RedirectsOf(nodes);
    var i :| 0 <= i < |nodes| && nodes[i].id == name;
    NodeKept(nodes, i);
    var a :| 0 <= a < |Kept(nodes)| && Kept(nodes)[a] == nodes[i];
    assert after[a].id == name;
  }

  lemma RewiredValue(m: Machine, nodes: seq<GraphNode>, node: GraphNode, v: Env)
    requires Ordered(nodes) && Solves(m, nodes, v)
    ensures NodeValue(m, Rewired(nodes, node), v) == NodeValue(m, node, v)
  {
    RedirectsRanked(nodes);
    var rewired := Rewired(nodes, node);
    forall k | 0 <= k < |node.inputs|
      ensures Lookup(v, rewired.inputs[k]) == Lookup(v, node.inputs[k])
    {
      TargetValue(m, nodes, v, node.inputs[k], Ranks(nodes));
    }
    assert Gather(v, rewired.inputs) == Gather(v, node.inputs);
  }

  /** The pass preserves every surviving value and every output, for every machine and every input. */
  lemma RewritePreservesMeaning(m: Machine, env: Env, nodes: seq<GraphNode>, outputs: map<string, string>,
                                after: seq<GraphNode>, renamed: map<string, string>)
    requires Ordered(nodes) && Ids(nodes) !! env.Keys && RewriteResult(nodes, outputs, after, renamed)
    ensures SameValues(m, env, nodes, outputs, after, renamed)
  {
    hide NodeValue;
    RewriteKeepsStructure(nodes, outputs, after, renamed);
    RunSolves(m, nodes, env);
    RedirectsRanked(nodes);
    var v := Run(m, nodes, env);
    forall a | 0 <= a < |after|
      ensures after[a].id in v && v[after[a].id] == NodeValue(m, after[a], v)
    {
      var i := KeptNode(nodes, a);
      RewiredValue(m, nodes, nodes[i], v);
    }
    forall key | key in outputs
      ensures Lookup(v, renamed[key]) == Lookup(v, outputs[key])
    {
      TargetValue(m, nodes, v, outputs[key], Ranks(nodes));
    }
    RewriteKeepsValues(m, env, nodes, after, outputs, renamed);
  }

  /** A target is the name itself or something an identity reads. */
  lemma {:induction false} TargetIsMentioned(nodes: seq<GraphNode>, name: string, rank: map<string, nat>)
    requires Ordered(nodes) && Ranked(Redirects(nodes), rank)
    ensures Resolve(Redirects(nodes), rank, name) == name ||
            exists i | 0 <= i < |nodes| :: Resolve(Redirects(nodes), rank, name) in nodes[i].inputs
    decreases if name in rank then rank[name] + 1 else 0
  {
    RedirectsOf(nodes);
    if name in Redirects(nodes) {
      var i :| 0 <= i < |nodes| && Removable(nodes[i]) && nodes[i].id == name;
      assert nodes[i].inputs[0] in nodes[i].inputs;
      TargetIsMentioned(nodes, nodes[i].inputs[0], rank);
    }
  }

  lemma RewriteMentions(nodes: seq<GraphNode>, outputs: map<string, string>,
                        after: seq<GraphNode>, renamed: map<string, string>)
    requires Ordered(nodes) && RewriteResult(nodes, outputs, after, renamed)
    ensures NoNewNames(nodes, outputs, after, renamed)
  {
    RedirectsRanked(nodes);
    forall a, name | 0 <= a < |after| && name in after[a].inputs
      ensures Mentions(nodes, outputs, name)
    {
      var i := KeptNode(nodes, a);
      var source := RewiredInput(nodes, nodes[i], name);
      TargetIsMentioned(nodes, source, Ranks(nodes));
    }
    forall key | key in renamed
      ensures Mentions(nodes, outputs, renamed[key])
    {
      TargetIsMentioned(nodes, outputs[key], Ranks(nodes));
      assert Mentions(nodes, outputs, outputs[key]);
    }
  }
}
