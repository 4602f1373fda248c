/** The compute graph every pass rewrites, and the meaning each pass has to keep. */
module GraphSemantics {
  import opened Wrappers
  import opened FusionAst
  import opened Reference
  import opened Elementwise

  const CONSTANT_OP := "math.constant"
  const CONSTANT_VALUE := "value"
  const FUSE_OP := "optimizer.fusion"
  const FUSE_AST := "fusion_ast"

  datatype Attribute =
    | Number(number: real)
    | Fusion(ast: FusionAST)
    | Opaque(text: string)

  datatype GraphNode = GraphNode(
    id: string,
    op: string,
    inputs: seq<string>,
    attributes: map<string, Attribute>)

  /** The graph the passes rewrite in place. */
  class Graph {
    var nodes: seq<GraphNode>
    var inputs: seq<string>
    var outputs: map<string, string>

    constructor (nodes: seq<GraphNode>, inputs: seq<string>, outputs: map<string, string>)
      ensures this.nodes == nodes && this.inputs == inputs && this.outputs == outputs
    {
      this.nodes, this.inputs, this.outputs := nodes, inputs, outputs;
    }
  }

  /** A tensor is its elements in order; None is a value that could not be computed. */
  type Tensor = Option<seq<real>>

  type Env = map<string, Tensor>

  /**
   What the passes cannot see into: the math library and every non-elementwise operation.
   The latter sees its node's ID, after which its weights may be named.
   */
  datatype Machine = Machine(
    libm: Libm,
    kernel: (string, string, map<string, Attribute>, seq<Tensor>) -> Tensor)

  ghost function Lookup(env: Env, name: string): Tensor {
    if name in env then env[name] else None
  }

  ghost function Gather(env: Env, names: seq<string>): (r: seq<Tensor>)
    ensures |r| == |names|
  {
    seq(|names|, k requires 0 <= k < |names| => Lookup(env, names[k]))
  }

  /** All operands present, all of one length. */
  ghost predicate SameShape(args: seq<Tensor>) {
    && |args| > 0
    && args[0].Some?
    && forall k | 0 <= k < |args| :: args[k].Some? && |args[k].value| == |args[0].value|
  }

  ghost function Column(args: seq<Tensor>, i: nat): (r: seq<real>)
    requires SameShape(args) && i < |args[0].value|
    ensures |r| == |args|
  {
    seq(|args|, k requires 0 <= k < |args| => args[k].value[i])
  }

  /** An elementwise operation applies its primitive at every index of same-shaped operands. */
  ghost function Pointwise(libm: Libm, nodeType: NodeType, args: seq<Tensor>): Tensor
    requires IsOperation(nodeType) && |args| == Arity(nodeType)
  {
    if SameShape(args) then
      Some(seq(|args[0].value|, i requires 0 <= i < |args[0].value| =>
        ApplyPrimitive(libm, nodeType, Column(args, i))))
    else None
  }

  ghost function Buffers(args: seq<Tensor>): (r: seq<seq<real>>)
    requires SameShape(args)
    ensures |r| == |args|
  {
    seq(|args|, k requires 0 <= k < |args| => args[k].value)
  }

  /** A fused kernel runs the reference evaluator once per element of its same-shaped inputs. */
  ghost function FusedKernel(libm: Libm, root: ASTNode, args: seq<Tensor>): Tensor {
    if SameShape(args) && ValidFusionNode(root, |args|) then
      Some(seq(|args[0].value|, i requires 0 <= i < |args[0].value| =>
        EvalScalarReference(libm, root, Buffers(args), i)))
    else None
  }

  function ConstantValueFrom(node: GraphNode): Option<real> {
    if CONSTANT_VALUE in node.attributes && node.attributes[CONSTANT_VALUE].Number? then
      Some(node.attributes[CONSTANT_VALUE].number)
    else None
  }

  predicate IsIdentityOp(op: string) {
    op == "shape.identity" || op == "control.identity"
  }

  ghost predicate IsFused(node: GraphNode) {
    node.op == FUSE_OP && FUSE_AST in node.attributes && node.attributes[FUSE_AST].Fusion?
  }

  /** The names with a meaning of their own are not elementwise. */
  lemma NotElementwise(op: string)
    requires op == CONSTANT_OP || op == FUSE_OP || IsIdentityOp(op)
    ensures IsElementwiseOp(op).None?
  {
    hide TABLE;
    NotInTable(op);
    NormalForm(op);
  }

  ghost function NodeValue(m: Machine, node: GraphNode, env: Env): Tensor {
    var args := Gather(env, node.inputs);
    var elementwise := IsElementwiseOp(node.op);
    if node.op == CONSTANT_OP && ConstantValueFrom(node).Some? then
      Some([ConstantValueFrom(node).value])
    else if IsFused(node) then
      FusedKernel(m.libm, node.attributes[FUSE_AST].ast.root, args)
    else if IsIdentityOp(node.op) && |node.inputs| == 1 then
      args[0]
    else if elementwise.Some? && |args| == Arity(elementwise.value) then
      Pointwise(m.libm, elementwise.value, args)
    else
      m.kernel(node.id, node.op, node.attributes, args)
  }

  const SIGN_OP := "math.sign"

  ghost function SignOf(x: real): real {
    if x > 0.0 then 1.0 else if x < 0.0 then -1.0 else 0.0
  }

  ghost function Signs(xs: seq<real>): (r: seq<real>)
    ensures |r| == |xs|
  {
    seq(|xs|, i requires 0 <= i < |xs| => SignOf(xs[i]))
  }

  /** The table gives `math.sign` the negation, which is the sign of its operand exactly where all elements are zero. */
  lemma SignIsNegation(m: Machine, node: GraphNode, env: Env, xs: seq<real>)
    requires node.op == SIGN_OP && |node.inputs| == 1 && Lookup(env, node.inputs[0]) == Some(xs)
    ensures NodeValue(m, node, env) == Some(Signs(xs)) <==> forall i | 0 <= i < |xs| :: xs[i] == 0.0
  {
    assert SIGN_OP in TABLE;
    NormalForm(SIGN_OP);
    assert IsElementwiseOp(node.op) == Some(NodeNeg);
    var args := Gather(env, node.inputs);
    assert SameShape(args) && args[0] == Some(xs);
    var value := Pointwise(m.libm, NodeNeg, args);
    assert forall i | 0 <= i < |xs| :: value.value[i] == -xs[i];
    forall i | 0 <= i < |xs| && NodeValue(m, node, env) == Some(Signs(xs))
      ensures xs[i] == 0.0
    {
      assert value.value[i] == Signs(xs)[i];
    }
    if forall i | 0 <= i < |xs| :: xs[i] == 0.0 {
      assert value.value == Signs(xs);
    }
  }

  /** Runs the nodes in list order; each stores its value under its own ID. */
  ghost function Run(m: Machine, nodes: seq<GraphNode>, env: Env): Env {
    if nodes == [] then env
    else
      var before := Run(m, nodes[..|nodes| - 1], env);
      var last := nodes[|nodes| - 1];
      before[last.id := NodeValue(m, last, before)]
  }

  ghost predicate UniqueIds(nodes: seq<GraphNode>) {
    forall i, j | 0 <= i < j < |nodes| :: nodes[i].id != nodes[j].id
  }

  ghost function Ids(nodes: seq<GraphNode>): set<string> {
    set i | 0 <= i < |nodes| :: nodes[i].id
  }

  /** Unique IDs, and no node reads its own output or a later node's. */
  ghost predicate Ordered(nodes: seq<GraphNode>) {
    && UniqueIds(nodes)
    && forall i, j | 0 <= i <= j < |nodes| :: nodes[j].id !in nodes[i].inputs
  }

  /** Every node's equation holds of the valuation. */
  ghost predicate Solves(m: Machine, nodes: seq<GraphNode>, v: Env) {
    forall i | 0 <= i < |nodes| ::
      nodes[i].id in v && v[nodes[i].id] == NodeValue(m, nodes[i], v)
  }

  lemma NodeValueLocal(m: Machine, node: GraphNode, a: Env, b: Env)
    requires forall name | name in node.inputs :: Lookup(a, name) == Lookup(b, name)
    ensures NodeValue(m, node, a) == NodeValue(m, node, b)
  {
    assert Gather(a, node.inputs) == Gather(b, node.inputs);
  }

  lemma OrderedPrefix(nodes: seq<GraphNode>, n: nat)
    requires Ordered(nodes) && n <= |nodes|
    ensures Ordered(nodes[..n])
  {
  }

  /** Defining a fresh name that no node reads disturbs no equation. */
  lemma FreshNameKeepsSolution(m: Machine, nodes: seq<GraphNode>, v: Env, name: string, value: Tensor)
    requires Solves(m, nodes, v) && name !in v
    requires forall i | 0 <= i < |nodes| :: name !in nodes[i].inputs
    ensures Solves(m, nodes, v[name := value])
  {
    forall i | 0 <= i < |nodes|
      ensures NodeValue(m, nodes[i], v[name := value]) == NodeValue(m, nodes[i], v)
    {
      NodeValueLocal(m, nodes[i], v[name := value], v);
    }
  }

  lemma SolvesAppend(m: Machine, init: seq<GraphNode>, last: GraphNode, v: Env)
    requires Solves(m, init, v)
    requires last.id in v && v[last.id] == NodeValue(m, last, v)
    ensures Solves(m, init + [last], v)
  {
  }

  /** Running an ordered list yields a valuation that satisfies every node's equation. */
  lemma {:induction false} RunSolves(m: Machine, nodes: seq<GraphNode>, env: Env)
    requires Ordered(nodes) && Ids(nodes) !! env.Keys
    ensures Solves(m, nodes, Run(m, nodes, env))
    ensures Run(m, nodes, env).Keys == env.Keys + Ids(nodes)
    ensures forall name | name in env :: Run(m, nodes, env)[name] == env[name]
  {
    if nodes != [] {
      var n := |nodes| - 1;
      var init, last := nodes[..n], nodes[n];
      OrderedPrefix(nodes, n);
      assert Ids(nodes) == Ids(init) + {last.id};
      RunSolves(m, init, env);
      var before, after := Run(m, init, env), Run(m, nodes, env);
      assert last.id !in nodes[n].inputs;
      assert last.id !in before;
      FreshNameKeepsSolution(m, init, before, last.id, NodeValue(m, last, before));
      NodeValueLocal(m, last, before, after);
      SolvesAppend(m, init, last, after);
      assert init + [last] == nodes;
    }
  }

  /**
   The valuation is unique: any v that extends the environment and satisfies the
   equations is what running computes, wherever running computes anything.
   */
  lemma {:induction false} SolutionUnique(m: Machine, nodes: seq<GraphNode>, env: Env, v: Env)
    requires Ordered(nodes) && Ids(nodes) !! env.Keys
    requires Solves(m, nodes, v)
    requires forall name | name in env :: name in v && v[name] == env[name]
    requires forall i, name | 0 <= i < |nodes| && name in nodes[i].inputs ::
      name in env || name in Ids(nodes) || Lookup(v, name).None?
    ensures Run(m, nodes, env).Keys == env.Keys + Ids(nodes)
    ensures forall name | name in Run(m, nodes, env) :: name in v && v[name] == Run(m, nodes, env)[name]
  {
    if nodes != [] {
      var n := |nodes| - 1;
      var init, last := nodes[..n], nodes[n];
      OrderedPrefix(nodes, n);
      assert Ids(nodes) == Ids(init) + {last.id};
      forall i, name | 0 <= i < |init| && name in init[i].inputs
        ensures name in env || name in Ids(init) || Lookup(v, name).None?
      {
        assert name in nodes[i].inputs;
        assert last.id !in nodes[i].inputs;
      }
      assert Solves(m, init, v) by {
        assert forall i | 0 <= i < n :: init[i] == nodes[i];
      }
      SolutionUnique(m, init, env, v);
      var before := Run(m, init, env);
      forall name | name in last.inputs
        ensures Lookup(before, name) == Lookup(v, name)
      {
        assert name in nodes[n].inputs;
      }
      NodeValueLocal(m, last, before, v);
    }
  }

  /** Every value still computed, and every graph output, is what it was before the pass. */
  ghost predicate SameValues(m: Machine, env: Env, nodes: seq<GraphNode>, outputs: map<string, string>,
                             after: seq<GraphNode>, renamed: map<string, string>)
  {
    && renamed.Keys == outputs.Keys
    && (forall id | id in Ids(after) :: Lookup(Run(m, after, env), id) == Lookup(Run(m, nodes, env), id))
    && (forall key | key in outputs ::
          Lookup(Run(m, after, env), renamed[key]) == Lookup(Run(m, nodes, env), outputs[key]))
  }

  /** No node input and no graph output names a node the pass removed. */
  ghost predicate NoDangling(nodes: seq<GraphNode>, after: seq<GraphNode>, outputs: map<string, string>) {
    && Ids(after) <= Ids(nodes)
    && (forall i, name | 0 <= i < |after| && name in after[i].inputs && name in Ids(nodes) :: name in Ids(after))
    && (forall key | key in outputs && outputs[key] in Ids(nodes) :: outputs[key] in Ids(after))
  }

  /** Some node input or some graph output is this name. */
  ghost predicate Mentions(nodes: seq<GraphNode>, outputs: map<string, string>, name: string) {
    (exists i | 0 <= i < |nodes| :: name in nodes[i].inputs) || (exists key | key in outputs :: outputs[key] == name)
  }

  /** The pass refers to no value the original graph did not refer to. */
  ghost predicate NoNewNames(nodes: seq<GraphNode>, outputs: map<string, string>,
                             after: seq<GraphNode>, renamed: map<string, string>)
  {
    forall name | Mentions(after, renamed, name) :: Mentions(nodes, outputs, name)
  }

  /**
   A rewritten list whose nodes satisfy their equations in the original run, and
   that leaves nothing dangling, computes the original values.
   */
  lemma RewriteKeepsValues(m: Machine, env: Env, nodes: seq<GraphNode>, after: seq<GraphNode>,
                           outputs: map<string, string>, renamed: map<string, string>)
    requires Ordered(nodes) && Ordered(after) && Ids(nodes) !! env.Keys
    requires NoDangling(nodes, after, renamed) && renamed.Keys == outputs.Keys
    requires Solves(m, after, Run(m, nodes, env))
    requires forall key | key in outputs ::
      Lookup(Run(m, nodes, env), renamed[key]) == Lookup(Run(m, nodes, env), outputs[key])
    ensures SameValues(m, env, nodes, outputs, after, renamed)
  {
    var v := Run(m, nodes, env);
    RunSolves(m, nodes, env);
    hide Run, Ordered, Solves;
    InputsCovered(nodes, after, renamed, env.Keys, v);
    SolutionUnique(m, after, env, v);
    hide *;
    LookupsAgree(nodes, after, renamed, env.Keys, v, Run(m, after, env));
    SameValuesWhen(m, env, nodes, outputs, after, renamed);
  }

  /** A smaller valuation that agrees with a larger one answers alike for every name that still means something. */
  lemma LookupsAgree(nodes: seq<GraphNode>, after: seq<GraphNode>, renamed: map<string, string>, given: set<string>,
                     v: Env, w: Env)
    requires NoDangling(nodes, after, renamed)
    requires v.Keys == given + Ids(nodes) && w.Keys == given + Ids(after)
    requires forall name | name in w :: name in v && v[name] == w[name]
    ensures forall id | id in Ids(after) :: Lookup(w, id) == Lookup(v, id)
    ensures forall key | key in renamed :: Lookup(w, renamed[key]) == Lookup(v, renamed[key])
  {
    forall key | key in renamed
      ensures renamed[key] in w <==> renamed[key] in v
    {
    }
  }

  lemma SameValuesWhen(m: Machine, env: Env, nodes: seq<GraphNode>, outputs: map<string, string>,
                       after: seq<GraphNode>, renamed: map<string, string>)
    requires renamed.Keys == outputs.Keys
    requires forall id | id in Ids(after) :: Lookup(Run(m, after, env), id) == Lookup(Run(m, nodes, env), id)
    requires forall key | key in renamed :: Lookup(Run(m, after, env), renamed[key]) == Lookup(Run(m, nodes, env), renamed[key])
    requires forall key | key in outputs ::
      Lookup(Run(m, nodes, env), renamed[key]) == Lookup(Run(m, nodes, env), outputs[key])
    ensures SameValues(m, env, nodes, outputs, after, renamed)
  {
    hide Run, Lookup, Ids;
  }

  /** What a graph without dangling names reads is an input, one of its nodes, or nothing at all. */
  lemma InputsCovered(nodes: seq<GraphNode>, after: seq<GraphNode>, renamed: map<string, string>, given: set<string>, v: Env)
    requires NoDangling(nodes, after, renamed) && v.Keys == given + Ids(nodes)
    ensures forall i, name | 0 <= i < |after| && name in after[i].inputs ::
      name in given || name in Ids(after) || Lookup(v, name).None?
  {
  }
}
