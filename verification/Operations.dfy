/** What each operation computes, by its name, and what folding makes of it. */
module Operations {
  import opened Wrappers
  import opened FusionAst
  import opened Reference
  import opened Elementwise
  import opened GraphSemantics
  import ConstantFold

  /** The element an operation of one operand makes of x. */
  ghost predicate Makes(libm: Libm, op: string, x: real, r: real) {
    && MakesInMath(libm, op, x, r)
    && MakesInActivation(libm, op, x, r)
  }

  ghost predicate MakesInMath(libm: Libm, op: string, x: real, r: real) {
    && ((op == "math.neg" || op == "math.sign") ==> r == -x)
    && (op == "math.abs" ==> r == if x >= 0.0 then x else -x)
    && (op == "math.sqrt" ==> r == libm.sqrt(x))
    && (op == "math.exp" ==> r == libm.exp(x))
    && (op == "math.log" ==> r == libm.log(x))
  }

  ghost predicate MakesInActivation(libm: Libm, op: string, x: real, r: real) {
    && (op == "activation.relu" ==> r == if x > 0.0 then x else 0.0)
    && (op == "activation.sigmoid" ==> r == Over(libm, 1.0, 1.0 + libm.exp(-x)))
    && (op == "activation.tanh" ==> r == libm.tanh(x))
    && (op == "activation.swish" ==> r == Over(libm, x, 1.0 + libm.exp(-x)))
    && (op == "activation.gelu" ==> r == GeluCurve(libm, x))
    && (op == "activation.leaky_relu" ==> r == if x >= 0.0 then x else 0.01 * x)
  }

  /** The element an operation of two operands makes of x and y. */
  ghost predicate MakesOfPair(libm: Libm, op: string, x: real, y: real, r: real) {
    && (op == "math.add" ==> r == x + y)
    && (op == "math.sub" ==> r == x - y)
    && (op == "math.mul" ==> r == x * y)
    && (op == "math.div" ==> r == Over(libm, x, y))
    && (op == "math.max" ==> r == if x < y then y else x)
    && (op == "math.min" ==> r == if x < y then x else y)
  }

  /** The tanh form of the Gaussian error linear unit. */
  ghost function GeluCurve(libm: Libm, x: real): real {
    0.5 * x * (1.0 + libm.tanh(libm.sqrtTwoOverPi * (x + 0.044715 * x * x * x)))
  }

  /** Division, with the value the platform gives to a division by zero. */
  ghost function Over(libm: Libm, x: real, y: real): real {
    if y != 0.0 then x / y else libm.quotientByZero(x)
  }

  /** The names of operations with a primitive are none of those with a meaning of their own. */
  lemma HasPrimitive(op: string)
    requires IsElementwiseOp(op).Some?
    ensures op != CONSTANT_OP && op != FUSE_OP && !IsIdentityOp(op)
  {
    hide IsElementwiseOp;
    if op == CONSTANT_OP || op == FUSE_OP || IsIdentityOp(op) {
      NotElementwise(op);
    }
  }

  lemma OneOperandArity(op: string)
    requires OneOperandOp(op)
    ensures IsElementwiseOp(op).Some? && Arity(IsElementwiseOp(op).value) == 1
  {
    hide IsElementwiseOp;
    NamedPrimitives(op);
  }

  lemma MathElement(libm: Libm, op: string, x: real)
    requires IsElementwiseOp(op).Some? && Arity(IsElementwiseOp(op).value) == 1
    ensures MakesInMath(libm, op, x, ApplyPrimitive(libm, IsElementwiseOp(op).value, [x]))
  {
    hide IsElementwiseOp, Gelu, Quotient, Arity;
    NamedPrimitives(op);
  }

  lemma ActivationElement(libm: Libm, op: string, x: real)
    requires IsElementwiseOp(op).Some? && Arity(IsElementwiseOp(op).value) == 1
    ensures MakesInActivation(libm, op, x, ApplyPrimitive(libm, IsElementwiseOp(op).value, [x]))
  {
    hide IsElementwiseOp, Arity, Gelu, GeluCurve, Over, Quotient;
    NamedPrimitives(op);
    GeluIsCurve(libm, x);
    OverIsQuotient(libm, 1.0, 1.0 + libm.exp(-x));
    OverIsQuotient(libm, x, 1.0 + libm.exp(-x));
  }

  lemma GeluIsCurve(libm: Libm, x: real)
    ensures Gelu(libm, x) == GeluCurve(libm, x)
  {
  }

  lemma OverIsQuotient(libm: Libm, x: real, y: real)
    ensures Quotient(libm, x, y) == Over(libm, x, y)
  {
  }

  lemma OneOperandElement(libm: Libm, op: string, name: string, x: real)
    requires OneOperandOp(name) && Spells(op, name)
    ensures IsElementwiseOp(op).Some? && Arity(IsElementwiseOp(op).value) == 1
    ensures Makes(libm, name, x, ApplyPrimitive(libm, IsElementwiseOp(op).value, [x]))
  {
    hide IsElementwiseOp, ApplyPrimitive, MakesInMath, MakesInActivation, OneOperandOp, TwoOperandOp, Spells;
    SpellingKeepsPrimitive(op, name);
    OneOperandArity(name);
    MathElement(libm, name, x);
    ActivationElement(libm, name, x);
  }

  lemma PairElement(libm: Libm, op: string, x: real, y: real)
    requires TwoOperandOp(op)
    ensures IsElementwiseOp(op).Some? && Arity(IsElementwiseOp(op).value) == 2
    ensures MakesOfPair(libm, op, x, y, ApplyPrimitive(libm, IsElementwiseOp(op).value, [x, y]))
    ensures IsElementwiseOp(op) == Some(NodeDiv) <==> op == "math.div"
  {
    hide IsElementwiseOp, Over, Quotient;
    NamedPrimitives(op);
    OverIsQuotient(libm, x, y);
  }

  lemma TwoOperandElement(libm: Libm, op: string, name: string, x: real, y: real)
    requires TwoOperandOp(name) && Spells(op, name)
    ensures IsElementwiseOp(op).Some? && Arity(IsElementwiseOp(op).value) == 2
    ensures MakesOfPair(libm, name, x, y, ApplyPrimitive(libm, IsElementwiseOp(op).value, [x, y]))
    ensures IsElementwiseOp(op) == Some(NodeDiv) <==> name == "math.div"
  {
    hide IsElementwiseOp, ApplyPrimitive, MakesOfPair, OneOperandOp, TwoOperandOp, Spells;
    SpellingKeepsPrimitive(op, name);
    PairElement(libm, name, x, y);
  }

  // ----- the value of a node

  /** An operation of one operand applies its arithmetic at every index. */
  lemma OneOperandValue(m: Machine, node: GraphNode, name: string, env: Env, a: seq<real>)
    requires OneOperandOp(name) && Spells(node.op, name) && |node.inputs| == 1
    requires node.inputs[0] in env && env[node.inputs[0]] == Some(a)
    ensures NodeValue(m, node, env).Some? && |NodeValue(m, node, env).value| == |a|
    ensures forall i | 0 <= i < |a| :: Makes(m.libm, name, a[i], NodeValue(m, node, env).value[i])
  {
    hide IsElementwiseOp, ApplyPrimitive, Makes, Arity, OneOperandOp, Spells;
    OneOperandElement(m.libm, node.op, name, 0.0);
    HasPrimitive(node.op);
    var args := Gather(env, node.inputs);
    assert args[0] == Some(a) && SameShape(args);
    forall i | 0 <= i < |a|
      ensures Makes(m.libm, name, a[i], ApplyPrimitive(m.libm, IsElementwiseOp(node.op).value, Column(args, i)))
    {
      assert Column(args, i) == [a[i]];
      OneOperandElement(m.libm, node.op, name, a[i]);
    }
  }

  /** An operation of two operands of one length applies its arithmetic at every index; of two lengths, it has no value. */
  lemma TwoOperandValue(m: Machine, node: GraphNode, name: string, env: Env, a: seq<real>, b: seq<real>)
    requires TwoOperandOp(name) && Spells(node.op, name) && |node.inputs| == 2
    requires node.inputs[0] in env && env[node.inputs[0]] == Some(a)
    requires node.inputs[1] in env && env[node.inputs[1]] == Some(b)
    ensures NodeValue(m, node, env).Some? <==> |a| == |b|
    ensures NodeValue(m, node, env).Some? ==>
      && |NodeValue(m, node, env).value| == |a|
      && forall i | 0 <= i < |a| :: MakesOfPair(m.libm, name, a[i], b[i], NodeValue(m, node, env).value[i])
  {
    hide IsElementwiseOp, ApplyPrimitive, MakesOfPair, Arity, TwoOperandOp, Spells;
    TwoOperandElement(m.libm, node.op, name, 0.0, 0.0);
    HasPrimitive(node.op);
    var args := Gather(env, node.inputs);
    assert args[0] == Some(a) && args[1] == Some(b) && (SameShape(args) <==> |a| == |b|);
    forall i | 0 <= i < |a| == |b|
      ensures SameShape(args) &&
        MakesOfPair(m.libm, name, a[i], b[i], ApplyPrimitive(m.libm, IsElementwiseOp(node.op).value, Column(args, i)))
    {
      assert Column(args, i) == [a[i], b[i]];
      TwoOperandElement(m.libm, node.op, name, a[i], b[i]);
    }
  }

  /** Without a value for one of its operands, an operation has none. */
  lemma NoValueWithoutOperands(m: Machine, node: GraphNode, name: string, env: Env, k: nat)
    requires (OneOperandOp(name) && |node.inputs| == 1) || (TwoOperandOp(name) && |node.inputs| == 2)
    requires Spells(node.op, name)
    requires k < |node.inputs| && (node.inputs[k] !in env || env[node.inputs[k]] == None)
    ensures NodeValue(m, node, env) == None
  {
    hide IsElementwiseOp, ApplyPrimitive, Arity, OneOperandOp, TwoOperandOp, Spells, Makes, MakesOfPair;
    if OneOperandOp(name) && |node.inputs| == 1 {
      OneOperandElement(m.libm, node.op, name, 0.0);
    } else {
      TwoOperandElement(m.libm, node.op, name, 0.0, 0.0);
    }
    HasPrimitive(node.op);
    var args := Gather(env, node.inputs);
    assert args[k] == None;
    assert !SameShape(args);
  }

  /** A constant is the tensor of its one number, and an identity of one operand is that operand. */
  lemma ConstantsAndIdentities(m: Machine, node: GraphNode, env: Env)
    ensures node.op == "math.constant" && "value" in node.attributes && node.attributes["value"].Number? ==>
      NodeValue(m, node, env) == Some([node.attributes["value"].number])
    ensures (node.op == "shape.identity" || node.op == "control.identity") && |node.inputs| == 1 ==>
      NodeValue(m, node, env) == if node.inputs[0] in env then env[node.inputs[0]] else None
  {
    hide IsElementwiseOp;
  }

  /** Every other operation is the kernel's on the same operands. */
  lemma OtherwiseKernel(m: Machine, node: GraphNode, env: Env, args: seq<Tensor>)
    requires !HasPrimitiveName(node.op) || node.op in {"math.sin", "math.cos"}
    requires node.op !in {"math.constant", "optimizer.fusion", "shape.identity", "control.identity"}
    requires |args| == |node.inputs|
    requires forall k | 0 <= k < |args| :: args[k] == if node.inputs[k] in env then env[node.inputs[k]] else None
    ensures NodeValue(m, node, env) == m.kernel(node.id, node.op, node.attributes, args)
  {
    hide IsElementwiseOp, HasPrimitiveName;
    SinesHaveNone();
    ElementwiseIffNamed(node.op);
    assert Gather(env, node.inputs) == args;
  }

  /** A fused node evaluates its tree at every index of its operands. */
  lemma FusedValue(m: Machine, node: GraphNode, env: Env, args: seq<seq<real>>)
    requires node.op == "optimizer.fusion" && "fusion_ast" in node.attributes && node.attributes["fusion_ast"].Fusion?
    requires ValidFusionNode(node.attributes["fusion_ast"].ast.root, |args|)
    requires |args| == |node.inputs| > 0
    requires forall k | 0 <= k < |args| :: |args[k]| == |args[0]|
    requires forall k | 0 <= k < |args| :: node.inputs[k] in env && env[node.inputs[k]] == Some(args[k])
    ensures NodeValue(m, node, env).Some? && |NodeValue(m, node, env).value| == |args[0]|
    ensures forall i | 0 <= i < |args[0]| ::
      NodeValue(m, node, env).value[i] == EvalScalarReference(m.libm, node.attributes["fusion_ast"].ast.root, args, i)
  {
    hide IsElementwiseOp, EvalScalarReference;
    var values := Gather(env, node.inputs);
    assert SameShape(values) && Buffers(values) == args;
  }

  // ----- folding

  /** The node is this scalar constant. */
  ghost predicate ConstantOf(node: GraphNode, x: real) {
    node.op == "math.constant" && "value" in node.attributes && node.attributes["value"] == Number(x)
  }

  /** The node became a scalar constant: its ID and its other attributes stay, its inputs go. */
  ghost predicate BecameConstant(before: GraphNode, after: GraphNode) {
    && after.id == before.id && after.op == "math.constant" && after.inputs == []
    && "value" in after.attributes && after.attributes["value"].Number?
    && after.attributes == before.attributes["value" := after.attributes["value"]]
  }

  /** The known scalars are the constants of the folded graph. */
  lemma KnownAreConstants(libm: Libm, nodes: seq<GraphNode>, after: seq<GraphNode>, values: map<string, real>, k: nat)
    requires ConstantFold.FoldResult(libm, nodes, after, values) && k < |nodes|
    ensures nodes[k].id in values ==> ConstantOf(after[k], values[nodes[k].id])
    ensures forall x | ConstantOf(after[k], x) :: nodes[k].id in values && values[nodes[k].id] == x
  {
    hide ConstantFold.FoldedValue;
    ConstantFold.LiteralsDoNotFold(libm, nodes[k], values);
  }

  /** An operation of one operand that ends up constant is folded to what it computes. */
  lemma FoldsOneOperand(libm: Libm, nodes: seq<GraphNode>, after: seq<GraphNode>, values: map<string, real>,
                        k: nat, name: string, j: nat, x: real)
    requires ConstantFold.FoldResult(libm, nodes, after, values) && k < |nodes| && j < |nodes|
    requires OneOperandOp(name) && Spells(nodes[k].op, name)
    requires nodes[k].inputs == [nodes[j].id] && ConstantOf(after[j], x)
    ensures BecameConstant(nodes[k], after[k])
    ensures Makes(libm, name, x, after[k].attributes["value"].number)
  {
    hide ConstantFold.EvaluateNodeType, ConstantFold.KnownScalars, IsElementwiseOp, ApplyPrimitive, Makes, OneOperandOp, Spells;
    KnownAreConstants(libm, nodes, after, values, j);
    OneOperandElement(libm, nodes[k].op, name, x);
    assert ConstantFold.Operands(values, nodes[k].inputs) == [x];
    ConstantFold.FoldAgreesWithReference(libm, IsElementwiseOp(nodes[k].op).value, [x]);
    HasPrimitive(nodes[k].op);
  }

  /**
   An operation of two operands that end up constant is folded to what it computes, except
   that a division by zero stays as it was.
   */
  lemma FoldsTwoOperands(libm: Libm, nodes: seq<GraphNode>, after: seq<GraphNode>, values: map<string, real>,
                         k: nat, name: string, i: nat, j: nat, x: real, y: real)
    requires ConstantFold.FoldResult(libm, nodes, after, values) && k < |nodes| && i < |nodes| && j < |nodes|
    requires TwoOperandOp(name) && Spells(nodes[k].op, name)
    requires nodes[k].inputs == [nodes[i].id, nodes[j].id] && ConstantOf(after[i], x) && ConstantOf(after[j], y)
    ensures
      if name == "math.div" && y == 0.0 then after[k] == nodes[k]
      else
        && BecameConstant(nodes[k], after[k])
        && MakesOfPair(libm, name, x, y, after[k].attributes["value"].number)
  {
    hide ConstantFold.EvaluateNodeType, ConstantFold.KnownScalars, IsElementwiseOp, ApplyPrimitive, MakesOfPair, Arity;
    hide TwoOperandOp, Spells;
    KnownAreConstants(libm, nodes, after, values, i);
    KnownAreConstants(libm, nodes, after, values, j);
    TwoOperandElement(libm, nodes[k].op, name, x, y);
    assert ConstantFold.Operands(values, nodes[k].inputs) == [x, y];
    ConstantFold.FoldAgreesWithReference(libm, IsElementwiseOp(nodes[k].op).value, [x, y]);
    HasPrimitive(nodes[k].op);
  }

  /** Only a listed operation all of whose operands end up constant is changed at all. */
  lemma OnlyConstantsFold(libm: Libm, nodes: seq<GraphNode>, after: seq<GraphNode>, values: map<string, real>, k: nat)
    returns (name: string)
    requires ConstantFold.FoldResult(libm, nodes, after, values) && k < |nodes| && after[k] != nodes[k]
    ensures Spells(nodes[k].op, name)
    ensures (OneOperandOp(name) && |nodes[k].inputs| == 1) || (TwoOperandOp(name) && |nodes[k].inputs| == 2)
    ensures forall input | input in nodes[k].inputs ::
      exists j, x :: 0 <= j < |nodes| && nodes[j].id == input && ConstantOf(after[j], x)
  {
    hide IsElementwiseOp, ApplyPrimitive, ConstantOf, OneOperandOp, TwoOperandOp, Spells, Makes, MakesOfPair;
    OthersHaveNone(nodes[k].op);
    name :| (OneOperandOp(name) || TwoOperandOp(name)) && Spells(nodes[k].op, name);
    if OneOperandOp(name) {
      OneOperandElement(libm, nodes[k].op, name, 0.0);
    } else {
      TwoOperandElement(libm, nodes[k].op, name, 0.0, 0.0);
    }
    forall input | input in nodes[k].inputs
      ensures exists j, x :: 0 <= j < |nodes| && nodes[j].id == input && ConstantOf(after[j], x)
    {
      assert input in values;
      assert input in Ids(nodes);
      var j :| 0 <= j < |nodes| && nodes[j].id == input;
      KnownAreConstants(libm, nodes, after, values, j);
    }
  }
}
