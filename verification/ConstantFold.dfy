/** Constant folding: elementwise nodes over known scalars become math.constant nodes. */
module ConstantFold {
  import opened Wrappers
  import opened FusionAst
  import opened Reference
  import opened Elementwise
  import opened GraphSemantics

  function EvaluateUnary(libm: Libm, nodeType: NodeType, x: real): Option<real> {
    match nodeType
    case NodeNeg => Some(-x)
    case NodeAbs => Some(if x < 0.0 then -x else x)
    case NodeSqrt => Some(libm.sqrt(x))
    case NodeExp => Some(libm.exp(x))
    case NodeLog => Some(libm.log(x))
    case NodeReLU => Some(if x > 0.0 then x else 0.0)
    case NodeSigmoid => Some(Quotient(libm, 1.0, 1.0 + libm.exp(-x)))
    case NodeTanh => Some(libm.tanh(x))
    case NodeSilu => Some(Quotient(libm, x, 1.0 + libm.exp(-x)))
    case NodeGelu => Some(Gelu(libm, x))
    case NodeLeakyReLU => Some(if x >= 0.0 then x else 0.01 * x)
    case _ => None
  }

  function EvaluateBinary(nodeType: NodeType, left: real, right: real): Option<real> {
    match nodeType
    case NodeAdd => Some(left + right)
    case NodeSub => Some(left - right)
    case NodeMul => Some(left * right)
    case NodeDiv => if right == 0.0 then None else Some(left / right)
    case NodeMax => Some(if left < right then right else left)
    case NodeMin => Some(if right < left then right else left)
    case _ => None
  }

  function EvaluateNodeType(libm: Libm, nodeType: NodeType, operands: seq<real>): Option<real> {
    if |operands| != Arity(nodeType) then None
    else if Arity(nodeType) == 1 then EvaluateUnary(libm, nodeType, operands[0])
    else if Arity(nodeType) == 2 then EvaluateBinary(nodeType, operands[0], operands[1])
    else None
  }

  /** The folder's arithmetic is the reference arithmetic; it declines only a division by zero. */
  lemma FoldAgreesWithReference(libm: Libm, nodeType: NodeType, operands: seq<real>)
    requires IsOperation(nodeType) && |operands| == Arity(nodeType)
    ensures EvaluateNodeType(libm, nodeType, operands) ==
            if nodeType.NodeDiv? && operands[1] == 0.0 then None
            else Some(ApplyPrimitive(libm, nodeType, operands))
  {
  }

  /** A node that already is a scalar constant. */
  ghost predicate IsLiteral(node: GraphNode) {
    node.op == CONSTANT_OP && ConstantValueFrom(node).Some?
  }

  ghost predicate AllKnown(values: map<string, real>, names: seq<string>) {
    forall k | 0 <= k < |names| :: names[k] in values
  }

  ghost function Operands(values: map<string, real>, names: seq<string>): (r: seq<real>)
    requires AllKnown(values, names)
    ensures |r| == |names|
  {
    seq(|names|, k requires 0 <= k < |names| => values[names[k]])
  }

  /** The scalar a node folds to, given the scalars already known; None when it must stay. */
  ghost function FoldedValue(libm: Libm, node: GraphNode, values: map<string, real>): Option<real> {
    var elementwise := IsElementwiseOp(node.op);
    if node.op == CONSTANT_OP || elementwise.None? || !AllKnown(values, node.inputs) then None
    else EvaluateNodeType(libm, elementwise.value, Operands(values, node.inputs))
  }

  function WithConstant(node: GraphNode, value: real): GraphNode {
    GraphNode(node.id, CONSTANT_OP, [], node.attributes[CONSTANT_VALUE := Number(value)])
  }

  /** The known scalars are exactly the literals and the folded nodes. */
  ghost predicate KnownScalars(libm: Libm, nodes: seq<GraphNode>, values: map<string, real>) {
    && (forall i | 0 <= i < |nodes| ::
          var literal := if IsLiteral(nodes[i]) then ConstantValueFrom(nodes[i]) else FoldedValue(libm, nodes[i], values);
          if literal.Some? then nodes[i].id in values && values[nodes[i].id] == literal.value
          else nodes[i].id !in values)
    && values.Keys <= Ids(nodes)
  }

  /**
   The folded graph: against the final set of known scalars, every node that folds is a
   constant of its value and every other node is untouched.
   */
  ghost predicate FoldResult(libm: Libm, nodes: seq<GraphNode>, after: seq<GraphNode>, values: map<string, real>) {
    && KnownScalars(libm, nodes, values)
    && |after| == |nodes|
    && forall i | 0 <= i < |nodes| ::
         var folded := FoldedValue(libm, nodes[i], values);
         after[i] == if folded.Some? then WithConstant(nodes[i], folded.value) else nodes[i]
  }

  ghost function CountFolded(libm: Libm, nodes: seq<GraphNode>, values: map<string, real>): nat {
    if nodes == [] then 0
    else
      var last := nodes[|nodes| - 1];
      CountFolded(libm, nodes[..|nodes| - 1], values) + if FoldedValue(libm, last, values).Some? then 1 else 0
  }

  /** What a node folds to depends only on the scalars known for its operands. */
  lemma FoldedValueLocal(libm: Libm, node: GraphNode, a: map<string, real>, b: map<string, real>)
    requires forall name | name in node.inputs :: (name in a <==> name in b) && (name in a ==> a[name] == b[name])
    ensures FoldedValue(libm, node, a) == FoldedValue(libm, node, b)
  {
    assert AllKnown(a, node.inputs) == AllKnown(b, node.inputs);
    if AllKnown(a, node.inputs) {
      assert Operands(a, node.inputs) == Operands(b, node.inputs);
    }
  }

  /** The scalars known after the first `n` nodes were looked at: later nodes only contribute literals. */
  ghost predicate KnownUpTo(libm: Libm, nodes: seq<GraphNode>, values: map<string, real>, n: int) {
    && (forall i | 0 <= i < |nodes| ::
          var literal := if IsLiteral(nodes[i]) then ConstantValueFrom(nodes[i])
                         else if i < n then FoldedValue(libm, nodes[i], values) else None;
          if literal.Some? then nodes[i].id in values && values[nodes[i].id] == literal.value
          else nodes[i].id !in values)
    && values.Keys <= Ids(nodes)
  }

  lemma LearnScalar(libm: Libm, nodes: seq<GraphNode>, values: map<string, real>, n: nat)
    requires Ordered(nodes) && n < |nodes| && KnownUpTo(libm, nodes, values, n)
    requires !IsLiteral(nodes[n]) && FoldedValue(libm, nodes[n], values).Some?
    ensures KnownUpTo(libm, nodes,
              values[nodes[n].id := FoldedValue(libm, nodes[n], values).value], n + 1)
    ensures forall i | 0 <= i <= n ::
      FoldedValue(libm, nodes[i], values[nodes[n].id := FoldedValue(libm, nodes[n], values).value])
      == FoldedValue(libm, nodes[i], values)
  {
    hide FoldedValue;
    var more := values[nodes[n].id := FoldedValue(libm, nodes[n], values).value];
    forall i | 0 <= i <= n
      ensures FoldedValue(libm, nodes[i], more) == FoldedValue(libm, nodes[i], values)
    {
      assert nodes[n].id !in nodes[i].inputs;
      FoldedValueLocal(libm, nodes[i], more, values);
    }
  }

  method CollectLiterals(nodes: seq<GraphNode>, ghost libm: Libm) returns (values: map<string, real>)
    requires UniqueIds(nodes)
    ensures KnownUpTo(libm, nodes, values, 0)
  {
    values := map[];
    for i := 0 to |nodes|
      invariant forall j | 0 <= j < |nodes| ::
        if j < i && IsLiteral(nodes[j]) then
          nodes[j].id in values && values[nodes[j].id] == ConstantValueFrom(nodes[j]).value
        else nodes[j].id !in values
      invariant values.Keys <= Ids(nodes)
    {
      if nodes[i].op == CONSTANT_OP {
        var value := ConstantValueFrom(nodes[i]);
        if value.Some? {
          values := values[nodes[i].id := value.value];
        }
      }
    }
  }

  method GatherOperands(values: map<string, real>, names: seq<string>) returns (operands: Option<seq<real>>)
    ensures operands.Some? <==> AllKnown(values, names)
    ensures operands.Some? ==> operands.value == Operands(values, names)
  {
    var found: seq<real> := [];
    for k := 0 to |names|
      invariant |found| == k && forall j | 0 <= j < k :: names[j] in values && found[j] == values[names[j]]
    {
      if names[k] !in values {
        return None;
      }
      found := found + [values[names[k]]];
    }
    return Some(found);
  }

  /** Tries to evaluate one node over the scalars known so far. */
  method TryFold(libm: Libm, node: GraphNode, known: map<string, real>) returns (folded: Option<real>)
    ensures folded == FoldedValue(libm, node, known)
  {
    if node.op == CONSTANT_OP {
      return None;
    }
    var elementwise := IsElementwiseOp(node.op);
    if elementwise.None? {
      return None;
    }
    var operands := GatherOperands(known, node.inputs);
    if operands.None? {
      return None;
    }
    folded := EvaluateNodeType(libm, elementwise.value, operands.value);
  }

  /** The first `n` nodes are folded where their operands are known. */
  ghost predicate FoldedTo(libm: Libm, before: seq<GraphNode>, now: seq<GraphNode>, known: map<string, real>, n: nat, count: nat)
    requires n <= |before|
  {
    && |now| == |before| && KnownUpTo(libm, before, known, n) && count == CountFolded(libm, before[..n], known)
    && forall i | 0 <= i < |before| ::
         var folded := FoldedValue(libm, before[i], known);
         now[i] == if i < n && folded.Some? then WithConstant(before[i], folded.value) else before[i]
  }

  lemma FoldNext(libm: Libm, before: seq<GraphNode>, now: seq<GraphNode>, known: map<string, real>, n: nat, count: nat)
    requires Ordered(before) && n < |before| && FoldedTo(libm, before, now, known, n, count)
    ensures |now| == |before| && now[n] == before[n]
    ensures var folded := FoldedValue(libm, before[n], known);
      if folded.Some? then
        FoldedTo(libm, before, now[n := WithConstant(before[n], folded.value)], known[before[n].id := folded.value], n + 1, count + 1)
      else FoldedTo(libm, before, now, known, n + 1, count)
  {
    hide FoldedValue, IsLiteral, WithConstant, Ordered;
    var folded := FoldedValue(libm, before[n], known);
    assert before[..n + 1][..n] == before[..n];
    if folded.Some? {
      var more := known[before[n].id := folded.value];
      LiteralsDoNotFold(libm, before[n], known);
      LearnScalar(libm, before, known, n);
      hide KnownUpTo;
      CountFoldedLocal(libm, before[..n], known, more);
      forall i | 0 <= i < n
        ensures FoldedValue(libm, before[i], more) == FoldedValue(libm, before[i], known)
      {
      }
    }
  }

  lemma FoldStarts(libm: Libm, nodes: seq<GraphNode>, known: map<string, real>)
    requires KnownUpTo(libm, nodes, known, 0)
    ensures FoldedTo(libm, nodes, nodes, known, 0, 0)
  {
    hide KnownUpTo, FoldedValue;
  }

  lemma FoldEnds(libm: Libm, before: seq<GraphNode>, now: seq<GraphNode>, known: map<string, real>, count: nat)
    requires FoldedTo(libm, before, now, known, |before|, count)
    ensures FoldResult(libm, before, now, known) && count == CountFolded(libm, before, known)
  {
    hide FoldedValue, CountFolded;
    assert before[..|before|] == before;
  }

  /** The nodes a pass over the list changed. */
  ghost function Changed(before: seq<GraphNode>, after: seq<GraphNode>): set<int>
    requires |before| == |after|
  {
    set i | 0 <= i < |before| && after[i] != before[i]
  }

  lemma {:induction false} CountIsChanged(libm: Libm, before: seq<GraphNode>, after: seq<GraphNode>, values: map<string, real>)
    requires |before| == |after|
    requires forall i | 0 <= i < |before| :: after[i] != before[i] <==> FoldedValue(libm, before[i], values).Some?
    ensures CountFolded(libm, before, values) == |Changed(before, after)|
  {
    hide FoldedValue;
    if before == [] {
      assert Changed(before, after) == {};
    } else {
      var n := |before| - 1;
      CountIsChanged(libm, before[..n], after[..n], values);
      var earlier := Changed(before[..n], after[..n]);
      assert Changed(before, after) == if after[n] != before[n] then earlier + {n} else earlier;
    }
  }

  lemma FoldedAreChanged(libm: Libm, before: seq<GraphNode>, after: seq<GraphNode>, values: map<string, real>)
    requires FoldResult(libm, before, after, values)
    ensures |before| == |after| && CountFolded(libm, before, values) == |Changed(before, after)|
  {
    hide IsElementwiseOp, EvaluateNodeType, AllKnown, KnownScalars;
    CountIsChanged(libm, before, after, values);
  }

  lemma OrderedUnique(nodes: seq<GraphNode>)
    requires Ordered(nodes)
    ensures UniqueIds(nodes)
  {
  }

  /** Folds in place; IDs stay, so consumers need no rewiring. */
  method ConstantFold(graph: Graph, libm: Libm) returns (nodesFolded: nat, ghost values: map<string, real>)
    requires Ordered(graph.nodes)
    modifies graph`nodes
    ensures FoldResult(libm, old(graph.nodes), graph.nodes, values)
    ensures |graph.nodes| == |old(graph.nodes)| && nodesFolded == |Changed(old(graph.nodes), graph.nodes)|
  {
    hide *;
    ghost var before := graph.nodes;
    OrderedUnique(before);
    var known := CollectLiterals(graph.nodes, libm);
    nodesFolded := 0;
    FoldStarts(libm, before, known);
    for index := 0 to |graph.nodes|
      invariant |graph.nodes| == |before| && FoldedTo(libm, before, graph.nodes, known, index, nodesFolded)
    {
      var node := graph.nodes[index];
      FoldNext(libm, before, graph.nodes, known, index, nodesFolded);
      var folded := TryFold(libm, node, known);
      if folded.Some? {
        graph.nodes := graph.nodes[index := WithConstant(node, folded.value)];
        known := known[node.id := folded.value];
        nodesFolded := nodesFolded + 1;
      }
    }
    FoldEnds(libm, before, graph.nodes, known, nodesFolded);
    FoldedAreChanged(libm, before, graph.nodes, known);
    values := known;
  }

  lemma LiteralsDoNotFold(libm: Libm, node: GraphNode, values: map<string, real>)
    ensures FoldedValue(libm, node, values).Some? ==> !IsLiteral(node)
  {
  }

  lemma {:induction false} CountFoldedLocal(libm: Libm, nodes: seq<GraphNode>, a: map<string, real>, b: map<string, real>)
    requires forall i | 0 <= i < |nodes| :: FoldedValue(libm, nodes[i], a) == FoldedValue(libm, nodes[i], b)
    ensures CountFolded(libm, nodes, a) == CountFolded(libm, nodes, b)
  {
    if nodes != [] {
      CountFoldedLocal(libm, nodes[..|nodes| - 1], a, b);
    }
  }

  // ----- what folding promises

  /** Every known scalar is what the original graph computes for that node. */
  lemma {:induction false} ScalarIsValue(m: Machine, nodes: seq<GraphNode>, values: map<string, real>, v: Env, i: nat)
    requires Ordered(nodes) && KnownScalars(m.libm, nodes, values) && Solves(m, nodes, v)
    requires i < |nodes| && nodes[i].id in values
    ensures v[nodes[i].id] == Some([values[nodes[i].id]])
    decreases i
  {
    if !IsLiteral(nodes[i]) {
      var nodeType := IsElementwiseOp(nodes[i].op).value;
      var names := nodes[i].inputs;
      forall k | 0 <= k < |names|
        ensures Lookup(v, names[k]) == Some([values[names[k]]])
      {
        assert names[k] in Ids(nodes);
        var j :| 0 <= j < |nodes| && nodes[j].id == names[k];
        assert nodes[j].id in nodes[i].inputs;
        ScalarIsValue(m, nodes, values, v, j);
      }
      FoldIsPointwise(m, nodes[i], values, v);
    }
  }

  /** Over one-element operands an elementwise node computes the folded scalar. */
  lemma FoldIsPointwise(m: Machine, node: GraphNode, values: map<string, real>, v: Env)
    requires FoldedValue(m.libm, node, values).Some?
    requires forall name | name in node.inputs :: name in values && Lookup(v, name) == Some([values[name]])
    ensures NodeValue(m, node, v) == Some([FoldedValue(m.libm, node, values).value])
  {
    var nodeType := IsElementwiseOp(node.op).value;
    var args, operands := Gather(v, node.inputs), Operands(values, node.inputs);
    FoldAgreesWithReference(m.libm, nodeType, operands);
    assert SameShape(args) && |args[0].value| == 1;
    assert Column(args, 0) == operands;
    assert Pointwise(m.libm, nodeType, args).value == [ApplyPrimitive(m.libm, nodeType, operands)];
    if IsIdentityOp(node.op) || node.op == FUSE_OP {
      NotElementwise(node.op);
    }
  }

  /** Folding keeps every value, the execution order and the node set, for every machine and every input. */
  lemma FoldPreservesMeaning(m: Machine, env: Env, nodes: seq<GraphNode>, outputs: map<string, string>,
                             after: seq<GraphNode>, values: map<string, real>)
    requires Ordered(nodes) && Ids(nodes) !! env.Keys && FoldResult(m.libm, nodes, after, values)
    ensures Ordered(after) && Ids(after) == Ids(nodes)
    ensures SameValues(m, env, nodes, outputs, after, outputs)
  {
    hide NodeValue, FoldedValue;
    FoldKeepsStructure(m.libm, nodes, after, values);
    var v := Run(m, nodes, env);
    RunSolves(m, nodes, env);
    forall i | 0 <= i < |after|
      ensures after[i].id in v && v[after[i].id] == NodeValue(m, after[i], v)
    {
      if FoldedValue(m.libm, nodes[i], values).Some? {
        FoldedNodeValue(m, nodes, after, values, v, i);
      }
    }
    RewriteKeepsValues(m, env, nodes, after, outputs, outputs);
  }

  lemma FoldedNodeValue(m: Machine, nodes: seq<GraphNode>, after: seq<GraphNode>, values: map<string, real>,
                        v: Env, i: nat)
    requires Ordered(nodes) && FoldResult(m.libm, nodes, after, values) && Solves(m, nodes, v)
    requires i < |nodes| && FoldedValue(m.libm, nodes[i], values).Some?
    ensures v[after[i].id] == NodeValue(m, after[i], v)
  {
    ScalarIsValue(m, nodes, values, v, i);
  }

  /** Each node keeps its ID and either all its inputs or none; order is kept and nothing new is referred to. */
  lemma FoldKeepsStructure(libm: Libm, nodes: seq<GraphNode>, after: seq<GraphNode>, values: map<string, real>)
    requires Ordered(nodes) && FoldResult(libm, nodes, after, values)
    ensures Ordered(after) && Ids(after) == Ids(nodes) && |after| == |nodes|
    ensures forall i | 0 <= i < |nodes| ::
      after[i].id == nodes[i].id && (after[i].inputs == nodes[i].inputs || after[i].inputs == [])
    ensures forall outputs, name | Mentions(after, outputs, name) :: Mentions(nodes, outputs, name)
  {
    hide FoldedValue;
    assert forall i | 0 <= i < |nodes| :: after[i].id == nodes[i].id && (after[i].inputs == nodes[i].inputs || after[i].inputs == []);
    forall outputs, name | Mentions(after, outputs, name)
      ensures Mentions(nodes, outputs, name)
    {
      if i :| 0 <= i < |after| && name in after[i].inputs {
        assert name in nodes[i].inputs;
      }
    }
    forall id
      ensures id in Ids(after) <==> id in Ids(nodes)
    {
      if i :| 0 <= i < |nodes| && nodes[i].id == id {
        assert after[i].id == id;
      }
      if i :| 0 <= i < |nodes| && after[i].id == id {
        assert nodes[i].id == id;
      }
    }
  }
}
