/** Running the generated kernel of a fused node gives the node the value the graph semantics assigns it. */
module FusedExecution {
  import opened Wrappers
  import opened FusionAst
  import opened Reference
  import opened GraphSemantics
  import opened KernelIR
  import opened KernelLoops
  import opened KernelBuilder

  /** Element `i` of the fused node's value, stored at index `i`. */
  ghost function Elements(values: seq<real>): (r: seq<(int, real)>)
    ensures |r| == |values|
  {
    seq(|values|, i requires 0 <= i < |values| => (i, values[i]))
  }

  lemma KernelComputesFusedValue(libm: Libm, root: ASTNode, args: seq<Tensor>, blocks: Blocks)
    requires SameShape(args) && KernelCorrect(blocks, root, |args|) && |args[0].value| < TWO_31
    ensures FusedKernel(libm, root, args).Some?
    ensures Writes(Host(libm, Buffers(args), |args[0].value|), blocks, Elements(FusedKernel(libm, root, args).value))
  {
    var n := |args[0].value|;
    var h := Host(libm, Buffers(args), n);
    assert AgreesOn(h, blocks, root, |args|);
    hide Writes;
    assert ReferenceLog(h, root, 0, n) == Elements(FusedKernel(libm, root, args).value);
  }
}
