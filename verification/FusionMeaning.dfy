/** One fused kernel computes what running the tree's operations one tensor at a time would. */
module FusionMeaning {
  import opened Wrappers
  import opened FusionAst
  import opened Reference
  import opened GraphSemantics

  /** The unfused reading of a tree: every operation materializes a whole tensor. */
  ghost function TreeTensor(libm: Libm, node: ASTNode, args: seq<Tensor>): Tensor
    requires ValidFusionNode(node, |args|) && ConstantFree(node)
    decreases node, 1
  {
    if node.nodeType.NodeInput? then args[node.inputIndex]
    else Pointwise(libm, node.nodeType, ChildTensors(libm, node, args))
  }

  ghost function ChildTensors(libm: Libm, node: ASTNode, args: seq<Tensor>): (r: seq<Tensor>)
    requires ValidFusionNode(node, |args|) && ConstantFree(node)
    requires !node.nodeType.NodeInput?
    ensures |r| == Arity(node.nodeType)
    decreases node, 0
  {
    seq(|node.children|, k requires 0 <= k < |node.children| => TreeTensor(libm, node.children[k], args))
  }

  ghost function ReferenceTensor(libm: Libm, node: ASTNode, args: seq<Tensor>): (r: seq<real>)
    requires SameShape(args) && ValidFusionNode(node, |args|)
    ensures |r| == |args[0].value|
  {
    seq(|args[0].value|, i requires 0 <= i < |args[0].value| =>
      EvalScalarReference(libm, node, Buffers(args), i))
  }

  lemma {:induction false} SameShapeTree(libm: Libm, node: ASTNode, args: seq<Tensor>)
    requires ValidFusionNode(node, |args|) && ConstantFree(node) && SameShape(args)
    ensures TreeTensor(libm, node, args) == Some(ReferenceTensor(libm, node, args))
    decreases node
  {
    if node.nodeType.NodeInput? {
      assert args[node.inputIndex].value == ReferenceTensor(libm, node, args);
    } else {
      var children := ChildTensors(libm, node, args);
      var n := |args[0].value|;
      forall k | 0 <= k < |children|
        ensures children[k] == Some(ReferenceTensor(libm, node.children[k], args))
      {
        SameShapeTree(libm, node.children[k], args);
      }
      assert SameShape(children) && |children[0].value| == n;
      forall i | 0 <= i < n
        ensures ApplyPrimitive(libm, node.nodeType, Column(children, i)) == ReferenceTensor(libm, node, args)[i]
      {
        var operands := seq(|node.children|, k requires 0 <= k < |node.children| =>
          EvalScalarReference(libm, node.children[k], Buffers(args), i));
        assert Column(children, i) == operands;
      }
      assert Pointwise(libm, node.nodeType, children).value == ReferenceTensor(libm, node, args);
    }
  }

  /** A tree that yields a tensor read only tensors of that same length. */
  lemma {:induction false} LeavesHaveTreeShape(libm: Libm, node: ASTNode, args: seq<Tensor>, leaf: int)
    requires ValidFusionNode(node, |args|) && ConstantFree(node)
    requires TreeTensor(libm, node, args).Some? && leaf in Leaves(node)
    ensures 0 <= leaf < |args| && args[leaf].Some?
    ensures |args[leaf].value| == |TreeTensor(libm, node, args).value|
    decreases node
  {
    if !node.nodeType.NodeInput? {
      var children := ChildTensors(libm, node, args);
      assert SameShape(children);
      var k :| 0 <= k < |node.children| && leaf in Leaves(node.children[k]);
      assert children[k] == TreeTensor(libm, node.children[k], args);
      LeavesHaveTreeShape(libm, node.children[k], args, leaf);
    }
  }

  /**
   A fused kernel and the tree of separate operations agree, error cases included,
   as soon as the tree reads every one of the kernel's inputs.
   */
  lemma FusedKernelIsTree(libm: Libm, root: ASTNode, args: seq<Tensor>)
    requires ValidFusionNode(root, |args|) && ConstantFree(root)
    requires |args| > 0 && forall k | 0 <= k < |args| :: k in Leaves(root)
    ensures FusedKernel(libm, root, args) == TreeTensor(libm, root, args)
  {
    if SameShape(args) {
      SameShapeTree(libm, root, args);
    } else if TreeTensor(libm, root, args).Some? {
      forall k | 0 <= k < |args|
        ensures args[k].Some? && |args[k].value| == |TreeTensor(libm, root, args).value|
      {
        LeavesHaveTreeShape(libm, root, args, k);
      }
      assert false;
    }
  }
}
