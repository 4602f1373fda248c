/** The builder that turns a fused expression into a kernel, block by block. */
module KernelBuilder {
  import opened Wrappers
  import opened FusionAst
  import opened Reference
  import opened KernelIR
  import opened KernelEmit
  import opened KernelLoops

  const VECTOR_LOOP: Label := "vector.loop"
  const VECTOR_BODY: Label := "vector.body"
  const SCALAR_ENTRY: Label := "scalar.entry"
  const SCALAR_LOOP: Label := "scalar.loop"
  const SCALAR_BODY: Label := "scalar.body"

  lemma NumberedNone(n: nat)
    ensures Numbered([], n) == []
  {
  }

  class IRBuilder {
    var blocks: Blocks
    var next: nat
    const root: ASTNode
    const inputCount: nat
    const vectorWidth: nat

    constructor (root: ASTNode, inputCount: nat, vectorWidth: nat)
      ensures this.root == root && this.inputCount == inputCount && this.vectorWidth == vectorWidth
      ensures blocks == map[] && next == 0
    {
      this.root, this.inputCount, this.vectorWidth := root, inputCount, vectorWidth;
      blocks, next := map[], 0;
    }

    method NewBlock(at: Label)
      requires at !in blocks
      modifies `blocks
      ensures blocks == old(blocks)[at := Block(None, [], Open)]
    {
      blocks := blocks[at := Block(None, [], Open)];
    }

    method Terminate(at: Label, terminator: Terminator)
      requires at in blocks
      modifies `blocks
      ensures blocks == old(blocks)[at := old(blocks[at]).(terminator := terminator)]
    {
      blocks := blocks[at := blocks[at].(terminator := terminator)];
    }

    /** Appends one instruction, which defines the next register. */
    method Append(at: Label, op: Op) returns (value: Operand)
      requires at in blocks
      modifies `blocks, `next
      ensures next == old(next) + 1 && value == Local(old(next))
      ensures blocks == AppendTo(old(blocks), at, [Inst(old(next), op)])
      ensures blocks.Keys == old(blocks).Keys
    {
      value := Local(next);
      blocks := AppendTo(blocks, at, [Inst(next, op)]);
      next := next + 1;
    }

    /** Appends instructions that define consecutive registers. */
    method AppendAll(at: Label, ops: seq<Op>)
      requires at in blocks
      modifies `blocks, `next
      ensures next == old(next) + |ops|
      ensures blocks == AppendTo(old(blocks), at, Numbered(ops, old(next)))
      ensures blocks.Keys == old(blocks).Keys
    {
      AppendNothing(blocks, at);
      NumberedNone(next);
      assert ops[..0] == [];
      for k := 0 to |ops|
        invariant at in blocks && blocks.Keys == old(blocks).Keys
        invariant next == old(next) + k
        invariant blocks == AppendTo(old(blocks), at, Numbered(ops[..k], old(next)))
      {
        hide AppendTo, Numbered;
        NumberedNext(ops[..k], old(next), ops[k]);
        AppendTwice(old(blocks), at, Numbered(ops[..k], old(next)), [Inst(next, ops[k])]);
        assert ops[..k + 1] == ops[..k] + [ops[k]];
        var _ := Append(at, ops[k]);
      }
      assert ops[..|ops|] == ops;
    }

    method EmitInput(at: Label, node: ASTNode, index: Operand, lanes: nat) returns (value: Operand, ghost code: seq<Inst>)
      requires at in blocks && node.nodeType.NodeInput? && ValidFusionNode(node, inputCount) && Below(index, next)
      modifies `blocks, `next
      ensures blocks.Keys == old(blocks).Keys && next >= old(next) && Below(value, next)
      ensures blocks == AppendTo(old(blocks), at, code)
      ensures Computes(code, old(next), value, index, node, inputCount, lanes)
    {
      InputComputes(node, next, index, inputCount, lanes);
      value := InputValue(next, lanes);
      code := Numbered(InputOps(next, node.inputIndex, index, lanes), next);
      hide Computes, AppendTo, Numbered;
      AppendAll(at, InputOps(next, node.inputIndex, index, lanes));
    }

    method EmitOperation(at: Label, nodeType: NodeType, x: Operand, y: Operand, lanes: nat)
      returns (value: Operand, ghost code: seq<Inst>)
      requires at in blocks && IsOperation(nodeType) && nodeType != NodeGelu
      modifies `blocks, `next
      ensures blocks.Keys == old(blocks).Keys && next >= old(next) && Below(value, next)
      ensures value == Operation(nodeType, old(next), x, y, lanes).1
      ensures code == Numbered(Operation(nodeType, old(next), x, y, lanes).0, old(next))
      ensures blocks == AppendTo(old(blocks), at, code)
    {
      OperationShape(nodeType, next, x, y, lanes);
      hide Operation, AppendTo, Numbered;
      var (ops, result) := Operation(nodeType, next, x, y, lanes);
      code := Numbered(ops, next);
      AppendAll(at, ops);
      value := result;
    }

    /** Emits the code of one float of the expression, at the given index. */
    method EmitNode(at: Label, node: ASTNode, index: Operand) returns (value: Operand, ghost code: seq<Inst>)
      requires at in blocks && ValidFusionNode(node, inputCount) && GeluFree(node) && Below(index, next)
      modifies `blocks, `next
      ensures blocks.Keys == old(blocks).Keys && next >= old(next) && Below(value, next)
      ensures blocks == AppendTo(old(blocks), at, code)
      ensures Computes(code, old(next), value, index, node, inputCount, 1)
      decreases node
    {
      hide Computes, AppendTo, Numbered, Operation;
      if node.nodeType.NodeInput? {
        value, code := EmitInput(at, node, index, 1);
      } else if node.nodeType.NodeConstant? {
        value, code := FloatConst(node.value, 1), [];
        ConstantComputes(node, next, index, inputCount, 1);
        AppendNothing(blocks, at);
      } else if Arity(node.nodeType) == 1 {
        var x;
        ghost var operand;
        x, operand := EmitNode(at, node.children[0], index);
        UnaryComputes(operand, old(next), next, x, index, node, inputCount, 1);
        ghost var operation;
        value, operation := EmitOperation(at, node.nodeType, x, x, 1);
        code := operand + operation;
        AppendTwice(old(blocks), at, operand, operation);
      } else {
        var x, y;
        ghost var left, right;
        x, left := EmitNode(at, node.children[0], index);
        ghost var mid := next;
        y, right := EmitNode(at, node.children[1], index);
        BinaryComputes(left, right, old(next), mid, next, x, y, index, node, inputCount, 1);
        ghost var operation;
        value, operation := EmitOperation(at, node.nodeType, x, y, 1);
        code := left + right + operation;
        AppendTwice(old(blocks), at, left, right);
        AppendTwice(old(blocks), at, left + right, operation);
      }
    }

    /** Emits the code of one vector of the expression, from the given index on. */
    method EmitVectorNode(at: Label, node: ASTNode, index: Operand) returns (value: Operand, ghost code: seq<Inst>)
      requires at in blocks && ValidFusionNode(node, inputCount) && FusionVectorizable(node) && Below(index, next)
      modifies `blocks, `next
      ensures blocks.Keys == old(blocks).Keys && next >= old(next) && Below(value, next)
      ensures blocks == AppendTo(old(blocks), at, code)
      ensures Computes(code, old(next), value, index, node, inputCount, vectorWidth)
      decreases node
    {
      hide Computes, AppendTo, Numbered, Operation;
      if node.nodeType.NodeInput? {
        value, code := EmitInput(at, node, index, vectorWidth);
      } else if node.nodeType.NodeConstant? {
        value, code := FloatConst(node.value, vectorWidth), [];
        ConstantComputes(node, next, index, inputCount, vectorWidth);
        AppendNothing(blocks, at);
      } else if Arity(node.nodeType) == 1 {
        var x;
        ghost var operand;
        x, operand := EmitVectorNode(at, node.children[0], index);
        UnaryComputes(operand, old(next), next, x, index, node, inputCount, vectorWidth);
        ghost var operation;
        value, operation := EmitOperation(at, node.nodeType, x, x, vectorWidth);
        code := operand + operation;
        AppendTwice(old(blocks), at, operand, operation);
      } else {
        var x, y;
        ghost var left, right;
        x, left := EmitVectorNode(at, node.children[0], index);
        ghost var mid := next;
        y, right := EmitVectorNode(at, node.children[1], index);
        BinaryComputes(left, right, old(next), mid, next, x, y, index, node, inputCount, vectorWidth);
        ghost var operation;
        value, operation := EmitOperation(at, node.nodeType, x, y, vectorWidth);
        code := left + right + operation;
        AppendTwice(old(blocks), at, left, right);
        AppendTwice(old(blocks), at, left + right, operation);
      }
    }

    /** Gives the block a phi of one incoming value, which defines the next register. */
    method NewPhi(at: Label, from: Label, start: Operand) returns (index: nat)
      requires at in blocks
      modifies `blocks, `next
      ensures index == old(next) && next == index + 1
      ensures blocks == old(blocks)[at := old(blocks[at]).(phi := Some(Phi(index, map[from := start])))]
    {
      index := next;
      next := next + 1;
      blocks := blocks[at := blocks[at].(phi := Some(Phi(index, map[from := start])))];
    }

    method AddIncoming(at: Label, from: Label, value: Operand)
      requires at in blocks && blocks[at].phi.Some?
      modifies `blocks
      ensures blocks == old(blocks)[at := old(blocks[at]).(phi :=
        Some(Phi(old(blocks[at]).phi.value.dest, old(blocks[at]).phi.value.incoming[from := value])))]
    {
      var phi := blocks[at].phi.value;
      blocks := blocks[at := blocks[at].(phi := Some(Phi(phi.dest, phi.incoming[from := value])))];
    }

    /** The header of a counted loop: phi, bound test, branch. */
    method EmitHeader(entry: Label, header: Label, body: Label, exit: Label, start: Operand, limit: Operand)
      returns (index: nat, ghost compare: nat)
      requires entry in blocks && header in blocks && entry != header
      requires blocks[header] == Block(None, [], Open)
      modifies `blocks, `next
      ensures index == old(next) && compare == index + 1 && next == compare + 1
      ensures blocks == old(blocks)[entry := old(blocks[entry]).(terminator := Br(header))][header :=
        Block(Some(Phi(index, map[entry := start])), [Inst(compare, IntSGE(Local(index), limit))],
              CondBr(Local(compare), exit, body))]
    {
      Terminate(entry, Br(header));
      index := NewPhi(header, entry, start);
      compare := next;
      var test := Append(header, IntSGE(Local(index), limit));
      assert blocks[header].code == [Inst(compare, IntSGE(Local(index), limit))];
      Terminate(header, CondBr(test, exit, body));
    }

    /** The body of a counted loop: widen the index, compute, store, advance, repeat. */
    method EmitBody(at: Label, header: Label, index: nat, vector: bool)
      returns (ghost wide: nat, ghost code: seq<Inst>, ghost result: Operand, ghost pointer: nat, nextIndex: Operand)
      requires at in blocks && blocks[at] == Block(None, [], Open) && index < next
      requires ValidFusionNode(root, inputCount)
      requires if vector then FusionVectorizable(root) && vectorWidth > 1 else GeluFree(root)
      modifies `blocks, `next
      ensures next > old(next)
      ensures var lanes := if vector then vectorWidth else 1;
        && blocks == old(blocks)[at := Block(None, [Inst(wide, SExt(Local(index)))] + code
                                             + Numbered(StoreOps(pointer, result, wide, index, lanes), pointer), Br(header))]
        && wide == old(next) < pointer && Below(result, pointer)
        && Computes(code, wide + 1, result, Local(wide), root, inputCount, lanes)
        && nextIndex == Local(pointer + if lanes == 1 then 2 else 3)
    {
      var lanes := if vector then vectorWidth else 1;
      wide := next;
      var first := next;
      var index64 := Append(at, SExt(Local(index)));
      var value;
      if vector {
        value, code := EmitVectorNode(at, root, index64);
      } else {
        value, code := EmitNode(at, root, index64);
      }
      result, pointer := value, next;
      hide Computes, AppendTo, StoreOps, Numbered, ValidFusionNode, FusionVectorizable, GeluFree;
      AppendTwice(old(blocks), at, [Inst(wide, SExt(Local(index)))], code);
      nextIndex := Local(next + if lanes == 1 then 2 else 3);
      var stores := StoreOps(next, value, first, index, lanes);
      AppendAll(at, stores);
      AppendTwice(old(blocks), at, [Inst(wide, SExt(Local(index)))] + code, Numbered(stores, pointer));
      BodyIs(old(blocks), at, [Inst(wide, SExt(Local(index)))] + code + Numbered(stores, pointer), header);
      Terminate(at, Br(header));
    }

    /** The scalar loop, from the end of the entry block to the exit. */
    method BuildScalarLoop(entry: Label, exit: Label, start: Operand) returns (ghost s: Loop)
      requires entry in blocks && SCALAR_LOOP !in blocks && SCALAR_BODY !in blocks
      requires ValidFusionNode(root, inputCount) && GeluFree(root)
      modifies `blocks, `next
      ensures IsLoop(blocks, s) && LoopComputes(s, root, inputCount)
      ensures s.entry == entry && s.header == SCALAR_LOOP && s.exit == exit && s.start == start
      ensures s.body == SCALAR_BODY && s.limit == Count && s.lanes == 1 && s.index == old(next)
      ensures entry in blocks && blocks[entry] == old(blocks[entry]).(terminator := Br(SCALAR_LOOP))
      ensures forall l | l in old(blocks) && l != entry :: l in blocks && blocks[l] == old(blocks[l])
    {
      hide Computes, StoreOps, Numbered, ValidFusionNode, GeluFree;
      NewBlock(SCALAR_LOOP);
      NewBlock(SCALAR_BODY);
      ghost var compare;
      var index;
      index, compare := EmitHeader(entry, SCALAR_LOOP, SCALAR_BODY, exit, start, Count);
      ghost var wide, code, value, pointer;
      var nextIndex;
      wide, code, value, pointer, nextIndex := EmitBody(SCALAR_BODY, SCALAR_LOOP, index, false);
      AddIncoming(SCALAR_LOOP, SCALAR_BODY, nextIndex);
      s := Loop(entry, SCALAR_LOOP, SCALAR_BODY, exit, start, Count, 1, index, compare, wide, code, value, pointer);
    }

    /** The vector loop, from the end of the entry block to the block the scalar loop starts from. */
    method BuildVectorLoop(entry: Label, exit: Label, limit: Operand) returns (ghost v: Loop)
      requires entry in blocks && VECTOR_LOOP !in blocks && VECTOR_BODY !in blocks && Below(limit, next)
      requires ValidFusionNode(root, inputCount) && FusionVectorizable(root) && vectorWidth > 1
      modifies `blocks, `next
      ensures IsLoop(blocks, v) && LoopComputes(v, root, inputCount)
      ensures v.entry == entry && v.header == VECTOR_LOOP && v.body == VECTOR_BODY && v.exit == exit
      ensures v.start == IntConst(0) && v.limit == limit && v.lanes == vectorWidth && v.index == old(next) < next
      ensures entry in blocks && blocks[entry] == old(blocks[entry]).(terminator := Br(VECTOR_LOOP))
      ensures forall l | l in old(blocks) && l != entry :: l in blocks && blocks[l] == old(blocks[l])
      ensures blocks.Keys == old(blocks).Keys + {VECTOR_LOOP, VECTOR_BODY}
    {
      hide Computes, StoreOps, Numbered, ValidFusionNode, FusionVectorizable;
      NewBlock(VECTOR_LOOP);
      NewBlock(VECTOR_BODY);
      ghost var compare;
      var index;
      index, compare := EmitHeader(entry, VECTOR_LOOP, VECTOR_BODY, exit, IntConst(0), limit);
      ghost var wide, code, value, pointer;
      var nextIndex;
      wide, code, value, pointer, nextIndex := EmitBody(VECTOR_BODY, VECTOR_LOOP, index, true);
      AddIncoming(VECTOR_LOOP, VECTOR_BODY, nextIndex);
      v := Loop(entry, VECTOR_LOOP, VECTOR_BODY, exit, IntConst(0), limit, vectorWidth,
                index, compare, wide, code, value, pointer);
    }

    /** Whole vectors up to the largest multiple of the width, then the scalar loop for the rest. */
    method BuildVectorThenScalar() returns (ghost v: Loop, ghost s: Loop, ghost remainder: nat)
      requires blocks == map[ENTRY := Block(None, [], Open), LOOP_END := Block(None, [], Open)]
      requires ValidFusionNode(root, inputCount) && FusionVectorizable(root) && GeluFree(root) && vectorWidth > 1
      modifies `blocks, `next
      ensures LOOP_END in blocks && blocks[LOOP_END] == Block(None, [], Open)
      ensures VectorKernel(blocks[LOOP_END := Block(None, [], Ret)], v, s, remainder, root, inputCount, vectorWidth)
    {
      hide LoopComputes, HeaderBlock, BodyBlock, ValidFusionNode, FusionVectorizable, GeluFree;
      remainder := next;
      var vectorRemainder := Append(ENTRY, IntSRem(Count, IntConst(vectorWidth)));
      var vectorLimit := Append(ENTRY, IntSub(Count, vectorRemainder));
      ghost var limits := [Inst(remainder, IntSRem(Count, IntConst(vectorWidth))),
                           Inst(remainder + 1, IntSub(Count, Local(remainder)))];
      assert blocks[ENTRY].code == limits;
      v := BuildVectorLoop(ENTRY, SCALAR_ENTRY, vectorLimit);
      NewBlock(SCALAR_ENTRY);
      s := BuildScalarLoop(SCALAR_ENTRY, LOOP_END, vectorLimit);
      ghost var finished := blocks[LOOP_END := Block(None, [], Ret)];
      assert finished[ENTRY] == Block(None, limits, Br(VECTOR_LOOP));
    }
  }

  lemma BodyIs(blocks: Blocks, at: Label, code: seq<Inst>, header: Label)
    requires at in blocks && blocks[at] == Block(None, [], Open)
    ensures var after := AppendTo(blocks, at, code);
      at in after && after[at := after[at].(terminator := Br(header))] == blocks[at := Block(None, code, Br(header))]
  {
    assert blocks[at].code + code == code;
  }

  /** On this call, if it is one the kernel is for, the kernel writes what the reference evaluator says. */
  ghost predicate AgreesOn(h: Host, blocks: Blocks, root: ASTNode, inputCount: nat)
    requires ValidFusionNode(root, inputCount)
  {
    Callable(h, inputCount) ==>
      && (h.count >= 0 ==> InRange(h, inputCount, 0, h.count))
      && Writes(h, blocks, ReferenceLog(h, root, 0, h.count))
  }

  ghost predicate KernelCorrect(blocks: Blocks, root: ASTNode, inputCount: nat) {
    ValidFusionNode(root, inputCount) && forall h: Host :: AgreesOn(h, blocks, root, inputCount)
  }

  lemma ScalarKernelCorrect(blocks: Blocks, s: Loop, root: ASTNode, inputCount: nat)
    requires ScalarKernel(blocks, s, root, inputCount)
    ensures KernelCorrect(blocks, root, inputCount)
  {
    hide ScalarKernel, Writes, Callable;
    ScalarParts(blocks, s, root, inputCount);
    forall h: Host
      ensures AgreesOn(h, blocks, root, inputCount)
    {
      if Callable(h, inputCount) {
        CallableInputs(h, inputCount);
        ScalarKernelWrites(h, blocks, s, root, inputCount);
      }
    }
  }

  lemma ScalarParts(blocks: Blocks, s: Loop, root: ASTNode, inputCount: nat)
    requires ScalarKernel(blocks, s, root, inputCount)
    ensures ValidFusionNode(root, inputCount)
  {
  }

  lemma VectorParts(blocks: Blocks, v: Loop, s: Loop, remainder: nat, root: ASTNode, inputCount: nat, width: nat)
    requires VectorKernel(blocks, v, s, remainder, root, inputCount, width)
    ensures ValidFusionNode(root, inputCount)
  {
  }

  lemma VectorKernelCorrect(blocks: Blocks, v: Loop, s: Loop, remainder: nat, root: ASTNode, inputCount: nat, width: nat)
    requires VectorKernel(blocks, v, s, remainder, root, inputCount, width) && 0 < width < TWO_31
    ensures KernelCorrect(blocks, root, inputCount)
  {
    hide VectorKernel, Writes, Callable;
    VectorParts(blocks, v, s, remainder, root, inputCount, width);
    forall h: Host
      ensures AgreesOn(h, blocks, root, inputCount)
    {
      if Callable(h, inputCount) {
        CallableInputs(h, inputCount);
        VectorKernelWrites(h, blocks, v, s, remainder, root, inputCount, width);
      }
    }
  }

  /** A tree a kernel can be built for: known inputs, constants, and operations with as many operands as they take. */
  ghost predicate WellFormed(node: ASTNode, inputCount: nat) {
    match node.nodeType
    case NodeInvalid => false
    case NodeInput => 0 <= node.inputIndex < inputCount
    case NodeConstant => true
    case NodeAdd | NodeSub | NodeMul | NodeDiv | NodeMax | NodeMin =>
      |node.children| == 2 && WellFormed(node.children[0], inputCount) && WellFormed(node.children[1], inputCount)
    case NodeNeg | NodeAbs | NodeSqrt | NodeExp | NodeLog
      | NodeReLU | NodeSigmoid | NodeTanh | NodeSilu | NodeGelu | NodeLeakyReLU =>
      |node.children| == 1 && WellFormed(node.children[0], inputCount)
  }

  lemma {:induction false} ValidIffWellFormed(node: ASTNode, inputCount: nat)
    ensures ValidFusionNode(node, inputCount) <==> WellFormed(node, inputCount)
    decreases node
  {
    forall k | 0 <= k < |node.children|
      ensures ValidFusionNode(node.children[k], inputCount) <==> WellFormed(node.children[k], inputCount)
    {
      ValidIffWellFormed(node.children[k], inputCount);
    }
  }

  /** Only arithmetic, comparisons, negation and the two rectifiers are done a vector at a time. */
  ghost predicate VectorForm(node: ASTNode) {
    || node.nodeType.NodeInput? || node.nodeType.NodeConstant?
    || (&& (|| node.nodeType.NodeAdd? || node.nodeType.NodeSub? || node.nodeType.NodeMul? || node.nodeType.NodeDiv?
            || node.nodeType.NodeMax? || node.nodeType.NodeMin? || node.nodeType.NodeNeg? || node.nodeType.NodeAbs?
            || node.nodeType.NodeReLU? || node.nodeType.NodeLeakyReLU?)
        && forall k | 0 <= k < |node.children| :: VectorForm(node.children[k]))
  }

  lemma {:induction false} VectorizableIffForm(node: ASTNode)
    ensures FusionVectorizable(node) <==> VectorForm(node)
    decreases node
  {
    forall k | 0 <= k < |node.children|
      ensures FusionVectorizable(node.children[k]) <==> VectorForm(node.children[k])
    {
      VectorizableIffForm(node.children[k]);
    }
  }

  /** The kernel has a loop over whole vectors of this width before the scalar one. */
  ghost predicate HasVectorLoop(blocks: Blocks, root: ASTNode, inputCount: nat, width: nat) {
    exists v, s, remainder :: VectorKernel(blocks, v, s, remainder, root, inputCount, width)
  }

  ghost predicate HasScalarLoopOnly(blocks: Blocks, root: ASTNode, inputCount: nat) {
    exists s :: ScalarKernel(blocks, s, root, inputCount)
  }

  /**
   Validates the expression and builds its kernel: vectors and a scalar tail when the
   expression has a vector form and the host is wide enough, the scalar loop otherwise.
   */
  method BuildModule(root: ASTNode, inputCount: nat, vectorWidth: nat) returns (r: Option<Blocks>)
    requires GeluFree(root) && vectorWidth < TWO_31
    ensures r.Some? <==> WellFormed(root, inputCount)
    ensures r.Some? ==> KernelCorrect(r.value, root, inputCount)
    ensures r.Some? && VectorForm(root) && vectorWidth > 1 ==> HasVectorLoop(r.value, root, inputCount, vectorWidth)
    ensures r.Some? && !(VectorForm(root) && vectorWidth > 1) ==> HasScalarLoopOnly(r.value, root, inputCount)
  {
    ValidIffWellFormed(root, inputCount);
    VectorizableIffForm(root);
    hide WellFormed, VectorForm;
    if !ValidFusionNode(root, inputCount) {
      return None;
    }
    var builder := new IRBuilder(root, inputCount, vectorWidth);
    builder.NewBlock(ENTRY);
    builder.NewBlock(LOOP_END);
    hide KernelCorrect, VectorKernel, ValidFusionNode, FusionVectorizable, GeluFree;
    if FusionVectorizable(root) && vectorWidth > 1 {
      ghost var v, s, remainder;
      v, s, remainder := builder.BuildVectorThenScalar();
      builder.Terminate(LOOP_END, Ret);
      assert builder.blocks[LOOP_END] == Block(None, [], Ret);
      VectorKernelCorrect(builder.blocks, v, s, remainder, root, inputCount, vectorWidth);
      assert HasVectorLoop(builder.blocks, root, inputCount, vectorWidth);
    } else {
      ghost var s := builder.BuildScalarLoop(ENTRY, LOOP_END, IntConst(0));
      builder.Terminate(LOOP_END, Ret);
      assert IsLoop(builder.blocks, s);
      ScalarKernelCorrect(builder.blocks, s, root, inputCount);
      assert HasScalarLoopOnly(builder.blocks, root, inputCount);
    }
    return Some(builder.blocks);
  }
}
