/** The expression trees that fusion builds, and the structural checks made on them. */
module FusionAst {

  datatype NodeType =
    | NodeInvalid
    | NodeInput
    | NodeConstant
    | NodeAdd
    | NodeSub
    | NodeMul
    | NodeDiv
    | NodeMax
    | NodeMin
    | NodeNeg
    | NodeAbs
    | NodeSqrt
    | NodeExp
    | NodeLog
    | NodeReLU
    | NodeSigmoid
    | NodeTanh
    | NodeSilu
    | NodeGelu
    | NodeLeakyReLU

  datatype ASTNode = ASTNode(nodeType: NodeType, value: real, inputIndex: int, children: seq<ASTNode>)

  /** One fused expression. The contained IDs come out of a Go map walk, so they have no order. */
  datatype FusionAST = FusionAST(
    root: ASTNode,
    inputPorts: seq<string>,
    outputPort: string,
    containedNodeIDs: set<string>)

  function Arity(nodeType: NodeType): int {
    match nodeType
    case NodeInput | NodeConstant => 0
    case NodeNeg | NodeAbs | NodeSqrt | NodeExp | NodeLog
      | NodeReLU | NodeSigmoid | NodeTanh | NodeSilu | NodeGelu | NodeLeakyReLU => 1
    case NodeAdd | NodeSub | NodeMul | NodeDiv | NodeMax | NodeMin => 2
    case NodeInvalid => -1
  }

  /** An operation proper: neither a leaf nor the invalid marker. */
  predicate IsOperation(nodeType: NodeType) {
    Arity(nodeType) > 0
  }

  function InputLeaf(index: nat): ASTNode {
    ASTNode(NodeInput, 0.0, index, [])
  }

  /** The validator run before a kernel is generated. */
  predicate ValidFusionNode(node: ASTNode, inputCount: nat) {
    if node.nodeType.NodeInput? then 0 <= node.inputIndex < inputCount
    else if node.nodeType.NodeConstant? then true
    else
      && IsOperation(node.nodeType)
      && |node.children| == Arity(node.nodeType)
      && forall k | 0 <= k < |node.children| :: ValidFusionNode(node.children[k], inputCount)
  }

  /** The input indices a tree reads. */
  ghost function Leaves(node: ASTNode): set<int> {
    if node.nodeType.NodeInput? then {node.inputIndex}
    else set k, leaf | 0 <= k < |node.children| && leaf in Leaves(node.children[k]) :: leaf
  }

  /** No literal leaves: fusion never introduces one. */
  ghost predicate ConstantFree(node: ASTNode) {
    node.nodeType.NodeInput? ||
    (!node.nodeType.NodeConstant? && forall k | 0 <= k < |node.children| :: ConstantFree(node.children[k]))
  }
}
