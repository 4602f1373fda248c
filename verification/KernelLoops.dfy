/** The loops of a fused kernel: what a counted loop over the output writes. */
module KernelLoops {
  import opened Wrappers
  import opened FusionAst
  import opened Reference
  import opened KernelIR
  import opened KernelEmit

  /** A counted loop: where it is entered and left, its registers, and the code of one iteration. */
  datatype Loop = Loop(
    entry: Label, header: Label, body: Label, exit: Label,
    start: Operand, limit: Operand, lanes: nat,
    index: nat, compare: nat, wide: nat, code: seq<Inst>, value: Operand, pointer: nat)

  /** Stores the lanes and advances the index by as many. */
  function StoreOps(n: nat, value: Operand, wide: nat, index: nat, lanes: nat): seq<Op> {
    [FloatPointer(OutputBase, Local(wide))]
    + (if lanes == 1 then [StoreFloats(value, Local(n))] else [BitCast(Local(n)), StoreFloats(value, Local(n + 1))])
    + [IntAdd(Local(index), IntConst(lanes))]
  }

  ghost function NextIndex(loop: Loop): nat {
    loop.pointer + if loop.lanes == 1 then 2 else 3
  }

  ghost function HeaderBlock(loop: Loop): Block {
    Block(Some(Phi(loop.index, map[loop.entry := loop.start, loop.body := Local(NextIndex(loop))])),
          [Inst(loop.compare, IntSGE(Local(loop.index), loop.limit))],
          CondBr(Local(loop.compare), loop.exit, loop.body))
  }

  ghost function BodyBlock(loop: Loop): Block {
    Block(None,
          [Inst(loop.wide, SExt(Local(loop.index)))] + loop.code
          + Numbered(StoreOps(loop.pointer, loop.value, loop.wide, loop.index, loop.lanes), loop.pointer),
          Br(loop.header))
  }

  /** Registers are defined in order, and each iteration computes the expression at the index. */
  ghost predicate LoopComputes(loop: Loop, node: ASTNode, inputCount: nat) {
    && ValidFusionNode(node, inputCount)
    && loop.lanes >= 1 && loop.entry != loop.body
    && Below(loop.limit, loop.index)
    && loop.index < loop.compare < loop.wide < loop.pointer && Below(loop.value, loop.pointer)
    && Computes(loop.code, loop.wide + 1, loop.value, Local(loop.wide), node, inputCount, loop.lanes)
  }

  ghost predicate IsLoop(blocks: Blocks, loop: Loop) {
    && loop.header in blocks && blocks[loop.header] == HeaderBlock(loop)
    && loop.body in blocks && blocks[loop.body] == BodyBlock(loop)
  }

  /** The calls a kernel is for: a 32-bit count, and inputs at least that long. */
  ghost predicate Callable(h: Host, inputCount: nat) {
    && |h.inputs| == inputCount && FitsInt32(h.count)
    && forall k | 0 <= k < inputCount :: h.count <= |h.inputs[k]|
  }

  /** What the reference evaluator says of each index of a range, in order. */
  ghost function ReferenceLog(h: Host, node: ASTNode, from: int, to: int): (r: seq<(int, real)>)
    requires ValidFusionNode(node, |h.inputs|)
    requires 0 <= from <= to ==> InRange(h, |h.inputs|, from, to - from)
  {
    if 0 <= from <= to then
      seq(to - from, k requires 0 <= k < to - from => (from + k, EvalScalarReference(h.libm, node, h.inputs, from + k)))
    else []
  }

  lemma ReferenceLogJoins(h: Host, node: ASTNode, a: nat, b: nat, c: nat)
    requires ValidFusionNode(node, |h.inputs|) && a <= b <= c && InRange(h, |h.inputs|, a, c - a)
    ensures ReferenceLog(h, node, a, b) + ReferenceLog(h, node, b, c) == ReferenceLog(h, node, a, c)
  {
  }

  lemma WrittenLanes(h: Host, node: ASTNode, i: nat, lanes: nat)
    requires ValidFusionNode(node, |h.inputs|) && InRange(h, |h.inputs|, i, lanes)
    ensures Written(i, ReferenceLanes(h, node, i, lanes)) == ReferenceLog(h, node, i, i + lanes)
  {
  }

  /** In the loop's header block, about to test this index. */
  ghost predicate AtIndex(h: Host, loop: Loop, c: Config, i: int, base: Registers, log: seq<(int, real)>) {
    && c.At? && c.at == loop.header && c.st.log == log
    && Agrees(base, c.st.regs, loop.index)
    && c.from in HeaderBlock(loop).phi.value.incoming
    && EvalOperand(h, c.st.regs, HeaderBlock(loop).phi.value.incoming[c.from]) == Some(Int(i))
  }

  /** The registers at the end of the header block. */
  ghost function AfterTest(regs: Registers, loop: Loop, i: int, limit: int): Registers {
    regs[loop.index := Int(i)][loop.compare := Mask([i >= limit])]
  }

  lemma HeaderStep(h: Host, blocks: Blocks, loop: Loop, c: Config, i: int, limit: int, base: Registers, log: seq<(int, real)>)
    requires IsLoop(blocks, loop) && AtIndex(h, loop, c, i, base, log)
    requires Below(loop.limit, loop.index) && EvalOperand(h, base, loop.limit) == Some(Int(limit))
    requires loop.index < loop.compare
    ensures c.At?
    ensures StepBlock(h, blocks, c)
         == Some(At(if i >= limit then loop.exit else loop.body, loop.header, State(AfterTest(c.st.regs, loop, i, limit), log)))
    ensures Agrees(base, AfterTest(c.st.regs, loop, i, limit), loop.index)
  {
    var entered := State(c.st.regs[loop.index := Int(i)], log);
    assert EnterBlock(h, HeaderBlock(loop), c.from, c.st) == Some(entered);
    AgreesKeeps(h, base, entered.regs, loop.index, loop.limit);
    ExecOne(h, Inst(loop.compare, IntSGE(Local(loop.index), loop.limit)), entered);
  }

  lemma ExecCons(h: Host, inst: Inst, rest: seq<Inst>, st: State)
    ensures Exec(h, [inst] + rest, st) ==
      if ExecInst(h, inst, st).Some? then Exec(h, rest, ExecInst(h, inst, st).value) else None
  {
    ExecAppend(h, [inst], rest, st);
    ExecOne(h, inst, st);
  }

  /** The registers and the log after the stores of one iteration. */
  ghost function Stored(st: State, n: nat, i: int, xs: seq<real>, lanes: nat): State {
    var r1 := st.regs[n := Address(Output, i)];
    var log := st.log + Written(i, xs);
    if lanes == 1 then State(r1[n + 2 := Int(i + 1)], log)
    else State(r1[n + 1 := Address(Output, i)][n + 3 := Int(i + lanes)], log)
  }

  lemma ExecPointer(h: Host, st: State, n: nat, wide: nat, i: int)
    requires wide in st.regs && st.regs[wide] == Int(i)
    ensures ExecInst(h, Inst(n, FloatPointer(OutputBase, Local(wide))), st)
         == Some(State(st.regs[n := Address(Output, i)], st.log))
  {
  }

  lemma ExecCast(h: Host, st: State, n: nat, pointer: nat)
    requires pointer in st.regs
    ensures ExecInst(h, Inst(n, BitCast(Local(pointer))), st) == Some(State(st.regs[n := st.regs[pointer]], st.log))
  {
  }

  lemma ExecStore(h: Host, st: State, n: nat, value: Operand, pointer: nat, i: int, xs: seq<real>)
    requires pointer in st.regs && st.regs[pointer] == Address(Output, i)
    requires EvalOperand(h, st.regs, value) == Some(Lanes(xs))
    ensures ExecInst(h, Inst(n, StoreFloats(value, Local(pointer))), st) == Some(State(st.regs, st.log + Written(i, xs)))
  {
  }

  lemma ExecAdvance(h: Host, st: State, n: nat, index: nat, i: int, lanes: nat)
    requires index in st.regs && st.regs[index] == Int(i) && FitsInt32(i + lanes)
    ensures ExecInst(h, Inst(n, IntAdd(Local(index), IntConst(lanes))), st)
         == Some(State(st.regs[n := Int(i + lanes)], st.log))
  {
    WrapFits(i + lanes);
  }

  lemma KeepsBelow(h: Host, regs: Registers, n: nat, k: nat, v: Val, o: Operand)
    requires Below(o, n) && n <= k
    ensures EvalOperand(h, regs[k := v], o) == EvalOperand(h, regs, o)
  {
  }

  lemma StoredScalar(st: State, n: nat, i: int, xs: seq<real>)
    ensures Stored(st, n, i, xs, 1)
         == State(st.regs[n := Address(Output, i)][n + 2 := Int(i + 1)], st.log + Written(i, xs))
  {
  }

  lemma StoredVector(st: State, n: nat, i: int, xs: seq<real>, lanes: nat)
    requires lanes != 1
    ensures Stored(st, n, i, xs, lanes)
         == State(st.regs[n := Address(Output, i)][n + 1 := Address(Output, i)][n + 3 := Int(i + lanes)],
                  st.log + Written(i, xs))
  {
  }

  lemma ScalarStoreCode(n: nat, value: Operand, wide: nat, index: nat)
    ensures Numbered(StoreOps(n, value, wide, index, 1), n) ==
      [Inst(n, FloatPointer(OutputBase, Local(wide)))]
      + ([Inst(n + 1, StoreFloats(value, Local(n)))] + [Inst(n + 2, IntAdd(Local(index), IntConst(1)))])
  {
  }

  lemma ScalarStore(h: Host, st: State, n: nat, value: Operand, wide: nat, index: nat, i: int, xs: seq<real>)
    requires Below(value, n) && wide < n && index < n && FitsInt32(i + 1)
    requires wide in st.regs && st.regs[wide] == Int(i) && index in st.regs && st.regs[index] == Int(i)
    requires EvalOperand(h, st.regs, value) == Some(Lanes(xs))
    ensures Exec(h, Numbered(StoreOps(n, value, wide, index, 1), n), st) == Some(Stored(st, n, i, xs, 1))
  {
    hide *;
    var a, b := Inst(n, FloatPointer(OutputBase, Local(wide))), Inst(n + 1, StoreFloats(value, Local(n)));
    var c := Inst(n + 2, IntAdd(Local(index), IntConst(1)));
    ScalarStoreCode(n, value, wide, index);
    var r1 := st.regs[n := Address(Output, i)];
    var s1, s2 := State(r1, st.log), State(r1, st.log + Written(i, xs));
    StoredScalar(st, n, i, xs);
    KeepsBelow(h, st.regs, n, n, Address(Output, i), value);
    assert index in r1 && r1[index] == Int(i) && r1[n] == Address(Output, i);
    ExecPointer(h, st, n, wide, i);
    ExecStore(h, s1, n + 1, value, n, i, xs);
    ExecAdvance(h, s2, n + 2, index, i, 1);
    ExecCons(h, a, [b] + [c], st);
    ExecTwo(h, b, c, s1);
  }

  lemma VectorStoreCode(n: nat, value: Operand, wide: nat, index: nat, lanes: nat)
    requires lanes != 1
    ensures Numbered(StoreOps(n, value, wide, index, lanes), n) ==
      [Inst(n, FloatPointer(OutputBase, Local(wide)))] + ([Inst(n + 1, BitCast(Local(n)))]
      + ([Inst(n + 2, StoreFloats(value, Local(n + 1)))] + [Inst(n + 3, IntAdd(Local(index), IntConst(lanes)))]))
  {
  }

  lemma VectorStore(h: Host, st: State, n: nat, value: Operand, wide: nat, index: nat, i: int, xs: seq<real>, lanes: nat)
    requires Below(value, n) && wide < n && index < n && FitsInt32(i + lanes) && lanes != 1
    requires wide in st.regs && st.regs[wide] == Int(i) && index in st.regs && st.regs[index] == Int(i)
    requires EvalOperand(h, st.regs, value) == Some(Lanes(xs))
    ensures Exec(h, Numbered(StoreOps(n, value, wide, index, lanes), n), st) == Some(Stored(st, n, i, xs, lanes))
  {
    hide *;
    var a, b := Inst(n, FloatPointer(OutputBase, Local(wide))), Inst(n + 1, BitCast(Local(n)));
    var c, d := Inst(n + 2, StoreFloats(value, Local(n + 1))), Inst(n + 3, IntAdd(Local(index), IntConst(lanes)));
    VectorStoreCode(n, value, wide, index, lanes);
    var r1 := st.regs[n := Address(Output, i)];
    var r2 := r1[n + 1 := Address(Output, i)];
    var s1, s2, s3 := State(r1, st.log), State(r2, st.log), State(r2, st.log + Written(i, xs));
    StoredVector(st, n, i, xs, lanes);
    KeepsBelow(h, st.regs, n, n, Address(Output, i), value);
    KeepsBelow(h, r1, n, n + 1, Address(Output, i), value);
    assert index in r2 && r2[index] == Int(i) && r2[n + 1] == Address(Output, i) && r1[n] == Address(Output, i);
    ExecPointer(h, st, n, wide, i);
    ExecCast(h, s1, n + 1, n);
    ExecStore(h, s2, n + 2, value, n + 1, i, xs);
    ExecAdvance(h, s3, n + 3, index, i, lanes);
    ExecCons(h, a, [b] + ([c] + [d]), st);
    ExecCons(h, b, [c] + [d], s1);
    ExecTwo(h, c, d, s2);
  }

  lemma ExecTwo(h: Host, a: Inst, b: Inst, st: State)
    ensures Exec(h, [a] + [b], st) ==
      if ExecInst(h, a, st).Some? then ExecInst(h, b, ExecInst(h, a, st).value) else None
  {
    ExecCons(h, a, [b], st);
    if ExecInst(h, a, st).Some? {
      ExecOne(h, b, ExecInst(h, a, st).value);
    }
  }

  lemma StoreRuns(h: Host, loop: Loop, node: ASTNode, inputCount: nat, st: State, i: nat, xs: seq<real>)
    requires LoopComputes(loop, node, inputCount) && FitsInt32(i + loop.lanes)
    requires loop.wide in st.regs && st.regs[loop.wide] == Int(i) && loop.index in st.regs && st.regs[loop.index] == Int(i)
    requires EvalOperand(h, st.regs, loop.value) == Some(Lanes(xs))
    ensures Exec(h, Numbered(StoreOps(loop.pointer, loop.value, loop.wide, loop.index, loop.lanes), loop.pointer), st)
         == Some(Stored(st, loop.pointer, i, xs, loop.lanes))
  {
    hide Computes, Exec, StoreOps, Stored;
    if loop.lanes == 1 {
      ScalarStore(h, st, loop.pointer, loop.value, loop.wide, loop.index, i, xs);
    } else {
      VectorStore(h, st, loop.pointer, loop.value, loop.wide, loop.index, i, xs, loop.lanes);
    }
  }

  /** The expression's code leaves its lanes and the index registers in place. */
  lemma CodeRuns(h: Host, loop: Loop, node: ASTNode, inputCount: nat, regs: Registers, log: seq<(int, real)>, i: nat)
    requires LoopComputes(loop, node, inputCount) && InRange(h, inputCount, i, loop.lanes)
    requires loop.index in regs && regs[loop.index] == Int(i)
    ensures var end := Exec(h, loop.code, State(regs[loop.wide := Int(i)], log));
      && end.Some? && end.value.log == log && Agrees(regs, end.value.regs, loop.wide)
      && loop.wide in end.value.regs && end.value.regs[loop.wide] == Int(i)
      && loop.index in end.value.regs && end.value.regs[loop.index] == Int(i)
      && EvalOperand(h, end.value.regs, loop.value) == Some(Lanes(ReferenceLanes(h, node, i, loop.lanes)))
  {
    var st := State(regs[loop.wide := Int(i)], log);
    assert DeliversNode(h, loop.code, st, loop.wide + 1, loop.value, Local(loop.wide), node, inputCount, loop.lanes, i);
  }

  lemma BodyRuns(h: Host, loop: Loop, node: ASTNode, inputCount: nat, regs: Registers, log: seq<(int, real)>, i: nat)
    requires LoopComputes(loop, node, inputCount) && InRange(h, inputCount, i, loop.lanes) && FitsInt32(i + loop.lanes)
    requires loop.index in regs && regs[loop.index] == Int(i)
    ensures var end := Exec(h, BodyBlock(loop).code, State(regs, log));
      && end.Some? && end.value.log == log + ReferenceLog(h, node, i, i + loop.lanes)
      && Agrees(regs, end.value.regs, loop.wide)
      && EvalOperand(h, end.value.regs, Local(NextIndex(loop))) == Some(Int(i + loop.lanes))
  {
    var first := Inst(loop.wide, SExt(Local(loop.index)));
    var tail := Numbered(StoreOps(loop.pointer, loop.value, loop.wide, loop.index, loop.lanes), loop.pointer);
    var st1 := State(regs[loop.wide := Int(i)], log);
    assert BodyBlock(loop).code == [first] + (loop.code + tail);
    ExecCons(h, first, loop.code + tail, State(regs, log));
    assert ExecInst(h, first, State(regs, log)) == Some(st1);
    CodeRuns(h, loop, node, inputCount, regs, log, i);
    ExecAppend(h, loop.code, tail, st1);
    var st2 := Exec(h, loop.code, st1).value;
    var xs := ReferenceLanes(h, node, i, loop.lanes);
    StoreRuns(h, loop, node, inputCount, st2, i, xs);
    WrittenLanes(h, node, i, loop.lanes);
    hide Exec, ExecInst, StoreOps, ReferenceLog, ReferenceLanes, Computes, InRange, BodyBlock, Written;
    StoredIs(h, loop, st2, i, xs);
  }

  lemma StoredIs(h: Host, loop: Loop, st: State, i: int, xs: seq<real>)
    requires loop.wide < loop.pointer
    ensures var end := Stored(st, loop.pointer, i, xs, loop.lanes);
      && end.log == st.log + Written(i, xs)
      && Agrees(st.regs, end.regs, loop.wide)
      && EvalOperand(h, end.regs, Local(NextIndex(loop))) == Some(Int(i + loop.lanes))
  {
  }

  /** After one iteration: back at the header, this range written, the index advanced. */
  lemma BodyStep(h: Host, blocks: Blocks, loop: Loop, node: ASTNode, inputCount: nat, i: nat, regs: Registers,
                 log: seq<(int, real)>, base: Registers)
    requires IsLoop(blocks, loop) && LoopComputes(loop, node, inputCount)
    requires InRange(h, inputCount, i, loop.lanes) && FitsInt32(i + loop.lanes)
    requires Agrees(base, regs, loop.index) && loop.index in regs && regs[loop.index] == Int(i)
    ensures var next := StepBlock(h, blocks, At(loop.body, loop.header, State(regs, log)));
      && next.Some?
      && AtIndex(h, loop, next.value, i + loop.lanes, base, log + ReferenceLog(h, node, i, i + loop.lanes))
  {
    BodyRuns(h, loop, node, inputCount, regs, log, i);
    hide Exec, ReferenceLog, Computes, InRange, EvalOperand;
    var body := BodyBlock(loop);
    assert EnterBlock(h, body, loop.header, State(regs, log)) == Some(State(regs, log));
    var st3 := Exec(h, body.code, State(regs, log)).value;
    assert Agrees(base, st3.regs, loop.index);
  }

  /** What the loop still has to write when it stands at this index. */
  ghost function Rest(h: Host, node: ASTNode, i: int, limit: int): seq<(int, real)>
    requires ValidFusionNode(node, |h.inputs|)
    requires 0 <= i < limit ==> InRange(h, |h.inputs|, i, limit - i)
  {
    if i < limit then ReferenceLog(h, node, i, limit) else []
  }

  /** Whole iterations are left: none, or some inside the count. */
  ghost predicate WholeSteps(h: Host, i: int, limit: int, lanes: nat) {
    i >= limit || (0 <= i && lanes > 0 && (limit - i) % lanes == 0 && limit <= h.count)
  }

  lemma CallableRange(h: Host, inputCount: nat, i: nat, n: nat)
    requires Callable(h, inputCount) && i + n <= h.count
    ensures InRange(h, inputCount, i, n) && FitsInt32(i + n)
  {
  }

  lemma OneStepFits(i: int, limit: int, lanes: nat)
    requires i < limit && lanes > 0 && (limit - i) % lanes == 0
    ensures i + lanes <= limit && (limit - (i + lanes)) % lanes == 0
  {
    var q := (limit - i) / lanes;
    assert limit - i == q * lanes;
    if q <= 0 {
      NoSteps(q, lanes);
    } else {
      MoreSteps(q - 1, lanes);
      assert limit - (i + lanes) == (q - 1) * lanes;
    }
  }

  lemma NoSteps(q: int, lanes: nat)
    requires q <= 0
    ensures q * lanes <= 0
  {
  }

  lemma MoreSteps(q: int, lanes: nat)
    requires q >= 0 && lanes > 0
    ensures q * lanes >= 0 && (q * lanes) % lanes == 0
  {
    MultipleModulo(q, lanes);
  }

  lemma MultipleModulo(q: int, lanes: nat)
    requires q >= 0 && lanes > 0
    ensures (q * lanes) % lanes == 0
  {
    var a := q * lanes;
    var d := q - a / lanes;
    assert a == (a / lanes) * lanes + a % lanes;
    assert d * lanes == a % lanes;
    if d > 0 {
      AtLeastOnce(d, lanes);
    } else {
      NoSteps(d, lanes);
    }
  }

  lemma AtLeastOnce(d: int, lanes: nat)
    requires d > 0
    ensures d * lanes >= lanes
  {
  }

  lemma RestStep(h: Host, node: ASTNode, log: seq<(int, real)>, i: nat, mid: nat, limit: int)
    requires ValidFusionNode(node, |h.inputs|) && i < mid <= limit && InRange(h, |h.inputs|, i, limit - i)
    ensures log + ReferenceLog(h, node, i, mid) + Rest(h, node, mid, limit) == log + Rest(h, node, i, limit)
  {
    ReferenceLogJoins(h, node, i, mid, limit);
    assert ReferenceLog(h, node, limit, limit) == [];
  }

  lemma ReachesStep(h: Host, blocks: Blocks, c: Config, mid: Config, d: Config, n: nat)
    requires StepBlock(h, blocks, c) == Some(mid) && Reaches(h, blocks, mid, d, n)
    ensures Reaches(h, blocks, c, d, n + 1)
  {
  }

  lemma ReachesSelf(h: Host, blocks: Blocks, c: Config)
    ensures Reaches(h, blocks, c, c, 0)
  {
  }

  lemma AfterTestIndex(h: Host, c: Registers, loop: Loop, i: int, limit: int)
    requires loop.index != loop.compare
    ensures loop.index in AfterTest(c, loop, i, limit) && AfterTest(c, loop, i, limit)[loop.index] == Int(i)
  {
  }

  /** A loop entered at an index writes the rest of its range, each index once and in order, and leaves. */
  lemma {:induction false} LoopRuns(h: Host, blocks: Blocks, loop: Loop, node: ASTNode, inputCount: nat, c: Config, i: int,
                                    limit: int, base: Registers, log: seq<(int, real)>)
    returns (n: nat, regs: Registers)
    requires IsLoop(blocks, loop) && LoopComputes(loop, node, inputCount) && Callable(h, inputCount)
    requires AtIndex(h, loop, c, i, base, log) && EvalOperand(h, base, loop.limit) == Some(Int(limit))
    requires WholeSteps(h, i, limit, loop.lanes)
    ensures 0 <= i < limit ==> InRange(h, inputCount, i, limit - i)
    ensures Reaches(h, blocks, c, At(loop.exit, loop.header, State(regs, log + Rest(h, node, i, limit))), n)
    ensures Agrees(base, regs, loop.index)
    decreases if i < limit then limit - i else 0
  {
    hide Reaches, StepBlock, AfterTest, AtIndex, IsLoop, Agrees, EvalOperand, Computes;
    if 0 <= i < limit {
      CallableRange(h, inputCount, i, limit - i);
    }
    HeaderStep(h, blocks, loop, c, i, limit, base, log);
    regs := AfterTest(c.st.regs, loop, i, limit);
    if i >= limit {
      assert log + [] == log;
      var leaving := At(loop.exit, loop.header, State(regs, log));
      ReachesSelf(h, blocks, leaving);
      ReachesStep(h, blocks, c, leaving, leaving, 0);
      n := 1;
    } else {
      OneStepFits(i, limit, loop.lanes);
      CallableRange(h, inputCount, i, loop.lanes);
      AfterTestIndex(h, c.st.regs, loop, i, limit);
      BodyStep(h, blocks, loop, node, inputCount, i, regs, log, base);
      var inBody := At(loop.body, loop.header, State(regs, log));
      var again := StepBlock(h, blocks, inBody).value;
      var mid := i + loop.lanes;
      n, regs := LoopRuns(h, blocks, loop, node, inputCount, again, mid, limit, base, log + ReferenceLog(h, node, i, mid));
      RestStep(h, node, log, i, mid, limit);
      var leaving := At(loop.exit, loop.header, State(regs, log + Rest(h, node, i, limit)));
      ReachesStep(h, blocks, inBody, again, leaving, n);
      ReachesStep(h, blocks, c, inBody, leaving, n + 1);
      n := n + 2;
    }
  }

  // ----- whole kernels

  const ENTRY: Label := "entry"
  const LOOP_END: Label := "loop.end"

  /** The scalar kernel: one loop over the whole count. */
  ghost predicate ScalarKernel(blocks: Blocks, s: Loop, node: ASTNode, inputCount: nat) {
    && ENTRY in blocks && blocks[ENTRY] == Block(None, [], Br(s.header))
    && LOOP_END in blocks && blocks[LOOP_END] == Block(None, [], Ret)
    && IsLoop(blocks, s) && LoopComputes(s, node, inputCount)
    && s.entry == ENTRY && s.exit == LOOP_END && s.lanes == 1 && s.start == IntConst(0) && s.limit == Count
  }

  /** The vector kernel: whole vectors up to the largest multiple of the width, then one float at a time. */
  ghost predicate VectorKernel(blocks: Blocks, v: Loop, s: Loop, remainder: nat, node: ASTNode, inputCount: nat, width: nat) {
    && ENTRY in blocks
    && blocks[ENTRY] == Block(None, [Inst(remainder, IntSRem(Count, IntConst(width))),
                                     Inst(remainder + 1, IntSub(Count, Local(remainder)))], Br(v.header))
    && LOOP_END in blocks && blocks[LOOP_END] == Block(None, [], Ret)
    && IsLoop(blocks, v) && LoopComputes(v, node, inputCount)
    && IsLoop(blocks, s) && LoopComputes(s, node, inputCount)
    && v.entry == ENTRY && v.lanes == width && v.start == IntConst(0) && v.limit == Local(remainder + 1)
    && remainder + 1 < v.index && remainder + 1 < s.index
    && v.exit == s.entry && s.entry in blocks && blocks[s.entry] == Block(None, [], Br(s.header))
    && s.exit == LOOP_END && s.lanes == 1 && s.start == Local(remainder + 1) && s.limit == Count
  }

  lemma ReturnStep(h: Host, blocks: Blocks, from: Label, st: State)
    requires LOOP_END in blocks && blocks[LOOP_END] == Block(None, [], Ret)
    ensures Reaches(h, blocks, At(LOOP_END, from, st), Done(st.log), 1)
  {
    assert Exec(h, [], st) == Some(st);
    ReachesSelf(h, blocks, Done(st.log));
  }

  lemma JumpStep(h: Host, blocks: Blocks, at: Label, from: Label, target: Label, st: State)
    requires at in blocks && blocks[at] == Block(None, [], Br(target))
    ensures StepBlock(h, blocks, At(at, from, st)) == Some(At(target, at, st))
  {
    assert Exec(h, [], st) == Some(st);
  }

  lemma EntersLoop(h: Host, loop: Loop, st: State, base: Registers, i: int)
    requires Agrees(base, st.regs, loop.index) && EvalOperand(h, st.regs, loop.start) == Some(Int(i))
    requires loop.entry != loop.body
    ensures AtIndex(h, loop, At(loop.header, loop.entry, st), i, base, st.log)
  {
  }

  /** The scalar loop, from its entry block to the end of the kernel. */
  lemma ScalarTail(h: Host, blocks: Blocks, s: Loop, node: ASTNode, inputCount: nat, from: Label, st: State, i: int)
    returns (n: nat)
    requires IsLoop(blocks, s) && LoopComputes(s, node, inputCount) && Callable(h, inputCount)
    requires s.entry in blocks && blocks[s.entry] == Block(None, [], Br(s.header)) && s.lanes == 1 && s.limit == Count
    requires s.exit == LOOP_END && LOOP_END in blocks && blocks[LOOP_END] == Block(None, [], Ret)
    requires EvalOperand(h, st.regs, s.start) == Some(Int(i)) && (i >= h.count || i >= 0)
    ensures 0 <= i < h.count ==> InRange(h, inputCount, i, h.count - i)
    ensures Reaches(h, blocks, At(s.entry, from, st), Done(st.log + Rest(h, node, i, h.count)), n)
  {
    hide Reaches, StepBlock, IsLoop, Exec, Computes;
    JumpStep(h, blocks, s.entry, from, s.header, st);
    assert Agrees(st.regs, st.regs, s.index);
    EntersLoop(h, s, st, st.regs, i);
    var steps, regs := LoopRuns(h, blocks, s, node, inputCount, At(s.header, s.entry, st), i, h.count, st.regs, st.log);
    var log := st.log + Rest(h, node, i, h.count);
    ReturnStep(h, blocks, s.header, State(regs, log));
    ReachesTransitive(h, blocks, At(s.header, s.entry, st), At(LOOP_END, s.header, State(regs, log)), Done(log), steps, 1);
    ReachesStep(h, blocks, At(s.entry, from, st), At(s.header, s.entry, st), Done(log), steps + 1);
    n := steps + 2;
  }

  /** The scalar kernel writes exactly what the reference evaluator says, each index once and in order. */
  lemma ScalarKernelWrites(h: Host, blocks: Blocks, s: Loop, node: ASTNode, inputCount: nat)
    requires ScalarKernel(blocks, s, node, inputCount) && Callable(h, inputCount)
    ensures h.count >= 0 ==> InRange(h, inputCount, 0, h.count)
    ensures Writes(h, blocks, ReferenceLog(h, node, 0, h.count))
  {
    hide Reaches, IsLoop, Computes;
    if h.count >= 0 {
      CallableRange(h, inputCount, 0, h.count);
    }
    var n := ScalarTail(h, blocks, s, node, inputCount, "", State(map[], []), 0);
    assert [] + Rest(h, node, 0, h.count) == ReferenceLog(h, node, 0, h.count);
  }

  lemma SRemFacts(count: int, width: nat)
    requires width > 0
    ensures count >= 0 ==> 0 <= count - SRem(count, width) <= count && (count - SRem(count, width)) % width == 0
    ensures count < 0 ==> count <= count - SRem(count, width) <= 0
  {
    if count >= 0 {
      var q := count / width;
      assert count - count % width == q * width;
      MoreSteps(q, width);
    }
  }

  /** The entry block leaves the largest whole number of vectors in the limit register. */
  lemma EntryRuns(h: Host, blocks: Blocks, v: Loop, s: Loop, r: nat, node: ASTNode, inputCount: nat, width: nat)
    requires VectorKernel(blocks, v, s, r, node, inputCount, width) && Callable(h, inputCount) && 0 < width < TWO_31
    ensures var limit := h.count - SRem(h.count, width);
      StepBlock(h, blocks, At(ENTRY, "", State(map[], []))) ==
        Some(At(v.header, ENTRY, State(map[r := Int(SRem(h.count, width)), r + 1 := Int(limit)], [])))
  {
    hide IsLoop, Computes, SRem;
    var st := State(map[], []);
    var a, b := Inst(r, IntSRem(Count, IntConst(width))), Inst(r + 1, IntSub(Count, Local(r)));
    var rem := SRem(h.count, width);
    var s1 := State(map[r := Int(rem)], []);
    ExecCons(h, a, [b], st);
    assert [a] + [b] == [a, b];
    assert ExecInst(h, a, st) == Some(s1);
    ExecOne(h, b, s1);
    SRemFacts(h.count, width);
    WrapFits(h.count - rem);
    assert ExecInst(h, b, s1) == Some(State(map[r := Int(rem), r + 1 := Int(h.count - rem)], []));
  }

  /**
   The vector kernel does what the scalar kernel does: whole vectors, then the tail, each
   index below the count once and in order, and nothing when the count is not positive.
   */
  lemma VectorKernelWrites(h: Host, blocks: Blocks, v: Loop, s: Loop, r: nat, node: ASTNode, inputCount: nat, width: nat)
    requires VectorKernel(blocks, v, s, r, node, inputCount, width) && Callable(h, inputCount) && 0 < width < TWO_31
    ensures ValidFusionNode(node, inputCount) && |h.inputs| == inputCount
    ensures h.count >= 0 ==> InRange(h, inputCount, 0, h.count)
    ensures Writes(h, blocks, ReferenceLog(h, node, 0, h.count))
  {
    hide *;
    var limit := h.count - SRem(h.count, width);
    CallableInputs(h, inputCount);
    if h.count >= 0 {
      CallableRange(h, inputCount, 0, h.count);
    }
    EntryRuns(h, blocks, v, s, r, node, inputCount, width);
    var base: Registers := map[r := Int(SRem(h.count, width)), r + 1 := Int(limit)];
    VectorStart(h, blocks, v, s, r, node, inputCount, width, base, limit);
    VectorLimit(h, blocks, v, s, r, node, inputCount, width, base, limit);
    LoopNode(v, node, inputCount);
    WholeLog(h, node, limit);
    var loopStart := At(v.header, ENTRY, State(base, []));
    var n := TwoLoops(h, blocks, v, s, node, inputCount, loopStart, limit, base);
    var log := [] + Rest(h, node, 0, limit) + Rest(h, node, limit, h.count);
    ReachesStep(h, blocks, At(ENTRY, "", State(map[], [])), loopStart, Done(log), n);
    WritesWhen(h, blocks, log, n + 1);
  }

  /** Two loops, the second entered where the first one stopped. */
  lemma TwoLoops(h: Host, blocks: Blocks, v: Loop, s: Loop, node: ASTNode, inputCount: nat, c: Config, limit: int, base: Registers)
    returns (n: nat)
    requires Callable(h, inputCount)
    requires IsLoop(blocks, v) && LoopComputes(v, node, inputCount) && v.exit == s.entry
    requires AtIndex(h, v, c, 0, base, [])
    requires EvalOperand(h, base, v.limit) == Some(Int(limit)) && WholeSteps(h, 0, limit, v.lanes)
    requires limit >= h.count || limit >= 0
    requires IsLoop(blocks, s) && LoopComputes(s, node, inputCount)
    requires s.entry in blocks && blocks[s.entry] == Block(None, [], Br(s.header)) && s.lanes == 1 && s.limit == Count
    requires s.exit == LOOP_END && LOOP_END in blocks && blocks[LOOP_END] == Block(None, [], Ret)
    requires forall regs | Agrees(base, regs, v.index) :: EvalOperand(h, regs, s.start) == Some(Int(limit))
    ensures 0 < limit ==> InRange(h, inputCount, 0, limit)
    ensures 0 <= limit < h.count ==> InRange(h, inputCount, limit, h.count - limit)
    ensures Reaches(h, blocks, c, Done([] + Rest(h, node, 0, limit) + Rest(h, node, limit, h.count)), n)
  {
    hide IsLoop, LoopComputes, AtIndex, Reaches, InRange, EvalOperand, Callable, Rest, Agrees, WholeSteps;
    LoopNode(v, node, inputCount);
    CallableInputs(h, inputCount);
    var steps, regs := LoopRuns(h, blocks, v, node, inputCount, c, 0, limit, base, []);
    var vectors := [] + Rest(h, node, 0, limit);
    var st := State(regs, vectors);
    var k := ScalarTail(h, blocks, s, node, inputCount, v.header, st, limit);
    var log := vectors + Rest(h, node, limit, h.count);
    ReachesTransitive(h, blocks, c, At(s.entry, v.header, st), Done(log), steps, k);
    n := steps + k;
  }

  lemma LoopNode(loop: Loop, node: ASTNode, inputCount: nat)
    requires LoopComputes(loop, node, inputCount)
    ensures ValidFusionNode(node, inputCount)
  {
  }

  lemma CallableInputs(h: Host, inputCount: nat)
    requires Callable(h, inputCount)
    ensures |h.inputs| == inputCount
  {
  }

  lemma WritesWhen(h: Host, blocks: Blocks, log: seq<(int, real)>, n: nat)
    requires Reaches(h, blocks, At(ENTRY, "", State(map[], [])), Done(log), n)
    ensures Writes(h, blocks, log)
  {
    hide Reaches;
  }

  /** The vector loop is entered at index zero, below a limit that whole vectors reach. */
  lemma VectorStart(h: Host, blocks: Blocks, v: Loop, s: Loop, r: nat, node: ASTNode, inputCount: nat, width: nat,
                    base: Registers, limit: int)
    requires VectorKernel(blocks, v, s, r, node, inputCount, width) && 0 < width
    requires limit == h.count - SRem(h.count, width) && r + 1 in base && base[r + 1] == Int(limit)
    ensures IsLoop(blocks, v) && LoopComputes(v, node, inputCount) && v.exit == s.entry
    ensures AtIndex(h, v, At(v.header, ENTRY, State(base, [])), 0, base, [])
    ensures EvalOperand(h, base, v.limit) == Some(Int(limit)) && WholeSteps(h, 0, limit, v.lanes)
    ensures if h.count >= 0 then 0 <= limit <= h.count else h.count <= limit <= 0
  {
    hide IsLoop, Computes, SRem;
    SRemFacts(h.count, width);
    assert Agrees(base, base, v.index);
    EntersLoop(h, v, State(base, []), base, 0);
  }

  /** The scalar loop starts at that limit. */
  lemma VectorLimit(h: Host, blocks: Blocks, v: Loop, s: Loop, r: nat, node: ASTNode, inputCount: nat, width: nat,
                    base: Registers, limit: int)
    requires VectorKernel(blocks, v, s, r, node, inputCount, width)
    requires r + 1 in base && base[r + 1] == Int(limit)
    ensures forall regs | Agrees(base, regs, v.index) :: EvalOperand(h, regs, s.start) == Some(Int(limit))
    ensures IsLoop(blocks, s) && LoopComputes(s, node, inputCount)
    ensures s.entry in blocks && blocks[s.entry] == Block(None, [], Br(s.header)) && s.lanes == 1 && s.limit == Count
    ensures s.exit == LOOP_END && LOOP_END in blocks && blocks[LOOP_END] == Block(None, [], Ret)
  {
    hide IsLoop, Computes;
  }

  lemma WholeLog(h: Host, node: ASTNode, limit: int)
    requires ValidFusionNode(node, |h.inputs|) && (h.count >= 0 ==> InRange(h, |h.inputs|, 0, h.count))
    requires if h.count >= 0 then 0 <= limit <= h.count else h.count <= limit <= 0
    ensures 0 <= limit < h.count ==> InRange(h, |h.inputs|, limit, h.count - limit)
    ensures 0 < limit ==> InRange(h, |h.inputs|, 0, limit)
    ensures [] + Rest(h, node, 0, limit) + Rest(h, node, limit, h.count) == ReferenceLog(h, node, 0, h.count)
  {
    if h.count >= 0 {
      ReferenceLogJoins(h, node, 0, limit, h.count);
    }
  }
}
