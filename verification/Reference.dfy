/** Scalar meaning of the elementwise primitives, and the reference evaluator built on it. */
module Reference {
  import opened FusionAst

  /** The platform's math library. Division by zero has a value in the source, so it is a member here. */
  datatype Libm = Libm(
    sqrt: real -> real,
    exp: real -> real,
    log: real -> real,
    tanh: real -> real,
    sqrtTwoOverPi: real,
    quotientByZero: real -> real)

  function Quotient(libm: Libm, left: real, right: real): real {
    if right == 0.0 then libm.quotientByZero(left) else left / right
  }

  /** One primitive applied to already evaluated operands. */
  ghost function ApplyPrimitive(libm: Libm, nodeType: NodeType, operands: seq<real>): real
    requires IsOperation(nodeType) && |operands| == Arity(nodeType)
  {
    var x := operands[0];
    match nodeType
    case NodeAdd => x + operands[1]
    case NodeSub => x - operands[1]
    case NodeMul => x * operands[1]
    case NodeDiv => Quotient(libm, x, operands[1])
    case NodeMax => if x > operands[1] then x else operands[1]
    case NodeMin => if x < operands[1] then x else operands[1]
    case NodeNeg => -x
    case NodeAbs => if x < 0.0 then -x else x
    case NodeSqrt => libm.sqrt(x)
    case NodeExp => libm.exp(x)
    case NodeLog => libm.log(x)
    case NodeReLU => if x < 0.0 then 0.0 else x
    case NodeSigmoid => Quotient(libm, 1.0, 1.0 + libm.exp(-x))
    case NodeTanh => libm.tanh(x)
    case NodeSilu => Quotient(libm, x, 1.0 + libm.exp(-x))
    case NodeGelu => Gelu(libm, x)
    case NodeLeakyReLU => if x >= 0.0 then x else 0.01 * x
  }

  function Gelu(libm: Libm, x: real): real {
    0.5 * x * (1.0 + libm.tanh(libm.sqrtTwoOverPi * (x + 0.044715 * x * x * x)))
  }

  /** The reference evaluator: the value of a fused tree at one element index. */
  ghost function EvalScalarReference(libm: Libm, node: ASTNode, inputs: seq<seq<real>>, i: nat): real
    requires ValidFusionNode(node, |inputs|)
    requires forall k | 0 <= k < |inputs| :: i < |inputs[k]|
  {
    if node.nodeType.NodeInput? then inputs[node.inputIndex][i]
    else if node.nodeType.NodeConstant? then node.value
    else ApplyPrimitive(libm, node.nodeType,
        seq(|node.children|, k requires 0 <= k < |node.children| =>
          EvalScalarReference(libm, node.children[k], inputs, i)))
  }
}
