/** Emission of the instructions that evaluate a fused expression, one float or one vector at a time. */
module KernelEmit {
  import opened Wrappers
  import opened FusionAst
  import opened Reference
  import opened KernelIR

  // ----- building blocks

  function AppendTo(blocks: Blocks, at: Label, code: seq<Inst>): Blocks
    requires at in blocks
  {
    blocks[at := blocks[at].(code := blocks[at].code + code)]
  }

  lemma AppendTwice(blocks: Blocks, at: Label, a: seq<Inst>, b: seq<Inst>)
    requires at in blocks
    ensures at in AppendTo(blocks, at, a) && AppendTo(AppendTo(blocks, at, a), at, b) == AppendTo(blocks, at, a + b)
  {
    assert blocks[at].code + a + b == blocks[at].code + (a + b);
  }

  lemma AppendNothing(blocks: Blocks, at: Label)
    requires at in blocks
    ensures AppendTo(blocks, at, []) == blocks
  {
    assert blocks[at].code + [] == blocks[at].code;
  }

  /** The operand is a constant, a parameter or a register defined before register `n`. */
  ghost predicate Below(o: Operand, n: nat) {
    o.Local? ==> o.id < n
  }

  /** The registers below `n` are untouched. */
  ghost predicate Agrees(a: Registers, b: Registers, n: nat) {
    forall id | id in a && id < n :: id in b && b[id] == a[id]
  }

  lemma AgreesKeeps(h: Host, a: Registers, b: Registers, n: nat, o: Operand)
    requires Agrees(a, b, n) && Below(o, n) && EvalOperand(h, a, o).Some?
    ensures EvalOperand(h, b, o) == EvalOperand(h, a, o)
  {
  }

  /** From this state the code runs through, writes nothing, and leaves the lanes in the operand. */
  ghost predicate Delivers(h: Host, code: seq<Inst>, st: State, first: nat, value: Operand, xs: seq<real>) {
    var end := Exec(h, code, st);
    && end.Some? && end.value.log == st.log
    && Agrees(st.regs, end.value.regs, first)
    && EvalOperand(h, end.value.regs, value) == Some(Lanes(xs))
  }

  // ----- one operation

  /** The instructions of one operation whose operands are already computed, and where they leave its value. */
  function Operation(nodeType: NodeType, n: nat, x: Operand, y: Operand, lanes: nat): (seq<Op>, Operand)
    requires IsOperation(nodeType) && nodeType != NodeGelu
  {
    var zero, one := FloatConst(0.0, lanes), FloatConst(1.0, lanes);
    match nodeType
    case NodeAdd => ([Arith(FAdd, x, y)], Local(n))
    case NodeSub => ([Arith(FSub, x, y)], Local(n))
    case NodeMul => ([Arith(FMul, x, y)], Local(n))
    case NodeDiv => ([Arith(FDiv, x, y)], Local(n))
    case NodeMax => ([FCmp(OGT, x, y), Select(Local(n), x, y)], Local(n + 1))
    case NodeMin => ([FCmp(OLT, x, y), Select(Local(n), x, y)], Local(n + 1))
    case NodeNeg => ([FNeg(x)], Local(n))
    case NodeAbs => ([FCmp(OLT, x, zero), FNeg(x), Select(Local(n), Local(n + 1), x)], Local(n + 2))
    case NodeSqrt => ([Call(SqrtF, x)], Local(n))
    case NodeExp => ([Call(ExpF, x)], Local(n))
    case NodeLog => ([Call(LogF, x)], Local(n))
    case NodeTanh => ([Call(TanhF, x)], Local(n))
    case NodeReLU => ([FCmp(OLT, x, zero), Select(Local(n), zero, x)], Local(n + 1))
    case NodeLeakyReLU =>
      ([FCmp(OGE, x, zero), Arith(FMul, x, FloatConst(0.01, lanes)), Select(Local(n), x, Local(n + 1))], Local(n + 2))
    case NodeSigmoid =>
      ([FNeg(x), Call(ExpF, Local(n)), Arith(FAdd, one, Local(n + 1)), Arith(FDiv, one, Local(n + 2))], Local(n + 3))
    case NodeSilu =>
      ([FNeg(x), Call(ExpF, Local(n)), Arith(FAdd, one, Local(n + 1)), Arith(FDiv, x, Local(n + 2))], Local(n + 3))
  }

  /** The operations as instructions that define registers from `n` on. */
  ghost function Numbered(ops: seq<Op>, n: nat): (r: seq<Inst>)
    ensures |r| == |ops|
  {
    seq(|ops|, k requires 0 <= k < |ops| => Inst(n + k, ops[k]))
  }

  lemma NumberedNext(ops: seq<Op>, n: nat, op: Op)
    ensures Numbered(ops + [op], n) == Numbered(ops, n) + [Inst(n + |ops|, op)]
  {
  }

  /** The registers after a run of value-yielding operations: each result under the next number. */
  ghost function Defined(h: Host, regs: Registers, ops: seq<Op>, n: nat): Option<Registers>
    decreases |ops|
  {
    if ops == [] then Some(regs)
    else
      var v := Yields(h, regs, ops[0]);
      if v.Some? then Defined(h, regs[n := v.value], ops[1..], n + 1) else None
  }

  lemma {:induction false} NumberedExec(h: Host, ops: seq<Op>, n: nat, st: State)
    requires forall k | 0 <= k < |ops| :: !ops[k].StoreFloats?
    ensures Exec(h, Numbered(ops, n), st) ==
      if Defined(h, st.regs, ops, n).Some? then Some(State(Defined(h, st.regs, ops, n).value, st.log)) else None
    decreases |ops|
  {
    if ops == [] {
      assert Numbered(ops, n) == [];
    } else {
      assert Numbered(ops, n) == [Inst(n, ops[0])] + Numbered(ops[1..], n + 1);
      ExecAppend(h, [Inst(n, ops[0])], Numbered(ops[1..], n + 1), st);
      ExecOne(h, Inst(n, ops[0]), st);
      var v := Yields(h, st.regs, ops[0]);
      if v.Some? {
        NumberedExec(h, ops[1..], n + 1, State(st.regs[n := v.value], st.log));
      }
    }
  }

  /** What an operation makes of the lanes of its operands. */
  ghost function OperationLanes(libm: Libm, nodeType: NodeType, xs: seq<real>, ys: seq<real>): (r: seq<real>)
    requires IsOperation(nodeType) && |ys| == |xs|
    ensures |r| == |xs|
  {
    seq(|xs|, l requires 0 <= l < |xs| =>
      ApplyPrimitive(libm, nodeType, if Arity(nodeType) == 2 then [xs[l], ys[l]] else [xs[l]]))
  }

  predicate Vectorizes(nodeType: NodeType) {
    nodeType in {NodeAdd, NodeSub, NodeMul, NodeDiv, NodeMax, NodeMin, NodeNeg, NodeAbs, NodeReLU, NodeLeakyReLU}
  }

  /** The registers an operation starts from hold its operands. */
  ghost predicate Holds(h: Host, regs: Registers, n: nat, x: Operand, y: Operand, xs: seq<real>, ys: seq<real>) {
    && Below(x, n) && Below(y, n) && |xs| == |ys|
    && EvalOperand(h, regs, x) == Some(Lanes(xs)) && EvalOperand(h, regs, y) == Some(Lanes(ys))
  }

  /** After the operations, registers below `n` are as before and the value is there. */
  ghost predicate Computed(h: Host, regs: Registers, ops: seq<Op>, n: nat, value: Operand, xs: seq<real>) {
    var end := Defined(h, regs, ops, n);
    && end.Some? && Agrees(regs, end.value, n) && EvalOperand(h, end.value, value) == Some(Lanes(xs))
  }

  lemma DefinedOne(h: Host, regs: Registers, a: Op, n: nat)
    requires Yields(h, regs, a).Some?
    ensures Defined(h, regs, [a], n) == Some(regs[n := Yields(h, regs, a).value])
  {
    assert [a][1..] == [];
  }

  lemma DefinedMore(h: Host, regs: Registers, a: Op, rest: seq<Op>, n: nat)
    requires Yields(h, regs, a).Some?
    ensures Defined(h, regs, [a] + rest, n) == Defined(h, regs[n := Yields(h, regs, a).value], rest, n + 1)
  {
    assert ([a] + rest)[1..] == rest;
  }

  // ----- what each operation yields

  ghost predicate HasLanes(h: Host, regs: Registers, o: Operand, xs: seq<real>) {
    EvalOperand(h, regs, o) == Some(Lanes(xs))
  }

  lemma YieldsArith(h: Host, regs: Registers, kind: Arithmetic, x: Operand, y: Operand, xs: seq<real>, ys: seq<real>)
    requires |xs| == |ys| && HasLanes(h, regs, x, xs) && HasLanes(h, regs, y, ys)
    ensures Yields(h, regs, Arith(kind, x, y)) == Some(Lanes(LanesArith(h.libm, kind, xs, ys)))
  {
  }

  lemma YieldsNeg(h: Host, regs: Registers, x: Operand, xs: seq<real>)
    requires HasLanes(h, regs, x, xs)
    ensures Yields(h, regs, FNeg(x)) == Some(Lanes(LanesNeg(xs)))
  {
  }

  lemma YieldsCompare(h: Host, regs: Registers, p: Predicate, x: Operand, y: Operand, xs: seq<real>, ys: seq<real>)
    requires |xs| == |ys| && HasLanes(h, regs, x, xs) && HasLanes(h, regs, y, ys)
    ensures Yields(h, regs, FCmp(p, x, y)) == Some(Mask(LanesCompare(p, xs, ys)))
  {
  }

  lemma YieldsSelect(h: Host, regs: Registers, n: nat, x: Operand, y: Operand, bits: seq<bool>, xs: seq<real>, ys: seq<real>)
    requires |bits| == |xs| == |ys| && n in regs && regs[n] == Mask(bits)
    requires HasLanes(h, regs, x, xs) && HasLanes(h, regs, y, ys)
    ensures Yields(h, regs, Select(Local(n), x, y)) == Some(Lanes(LanesSelect(bits, xs, ys)))
  {
  }

  /** Defining a later register leaves an operand as it was. */
  lemma StillHas(h: Host, regs: Registers, n: nat, k: nat, v: Val, o: Operand, xs: seq<real>)
    requires HasLanes(h, regs, o, xs) && Below(o, n) && n <= k
    ensures HasLanes(h, regs[k := v], o, xs)
  {
  }

  lemma RegisterHas(h: Host, regs: Registers, n: nat, xs: seq<real>)
    requires n in regs && regs[n] == Lanes(xs)
    ensures HasLanes(h, regs, Local(n), xs)
  {
  }

  lemma ConstantHas(h: Host, regs: Registers, c: real, lanes: nat, xs: seq<real>)
    requires |xs| == lanes && forall l | 0 <= l < lanes :: xs[l] == c
    ensures HasLanes(h, regs, FloatConst(c, lanes), xs)
  {
    assert seq(lanes, l => c) == xs;
  }

  lemma HoldsLanes(h: Host, regs: Registers, n: nat, x: Operand, y: Operand, xs: seq<real>, ys: seq<real>)
    requires Holds(h, regs, n, x, y, xs, ys)
    ensures HasLanes(h, regs, x, xs) && HasLanes(h, regs, y, ys) && Below(x, n) && Below(y, n) && |xs| == |ys|
  {
  }

  /** Two operations in a row whose results are these. */
  lemma TwoComputed(h: Host, regs: Registers, a: Op, b: Op, n: nat, u: Val, xs: seq<real>)
    requires Yields(h, regs, a) == Some(u) && Yields(h, regs[n := u], b) == Some(Lanes(xs))
    ensures Computed(h, regs, [a, b], n, Local(n + 1), xs)
  {
    hide Yields;
    assert [a, b] == [a] + [b];
    DefinedMore(h, regs, a, [b], n);
    DefinedOne(h, regs[n := u], b, n + 1);
  }

  lemma ArithmeticComputes(h: Host, regs: Registers, nodeType: NodeType, n: nat, x: Operand, y: Operand,
                           xs: seq<real>, ys: seq<real>)
    requires nodeType in {NodeAdd, NodeSub, NodeMul, NodeDiv} && Holds(h, regs, n, x, y, xs, ys)
    ensures var (ops, value) := Operation(nodeType, n, x, y, |xs|);
      Computed(h, regs, ops, n, value, OperationLanes(h.libm, nodeType, xs, ys))
  {
    var (ops, value) := Operation(nodeType, n, x, y, |xs|);
    DefinedOne(h, regs, ops[0], n);
    assert ops == [ops[0]];
    assert ops[0].Arith? && Arity(nodeType) == 2;
    ArithmeticLanes(h.libm, nodeType, ops[0].kind, xs, ys);
  }

  lemma ArithmeticLanes(libm: Libm, nodeType: NodeType, kind: Arithmetic, xs: seq<real>, ys: seq<real>)
    requires |xs| == |ys|
    requires nodeType in {NodeAdd, NodeSub, NodeMul, NodeDiv}
    requires kind == if nodeType == NodeAdd then FAdd else if nodeType == NodeSub then FSub
                     else if nodeType == NodeMul then FMul else FDiv
    ensures LanesArith(libm, kind, xs, ys) == OperationLanes(libm, nodeType, xs, ys)
  {
    forall l | 0 <= l < |xs|
      ensures LanesArith(libm, kind, xs, ys)[l] == OperationLanes(libm, nodeType, xs, ys)[l]
    {
      assert OperationLanes(libm, nodeType, xs, ys)[l] == ApplyPrimitive(libm, nodeType, [xs[l], ys[l]]);
    }
  }

  lemma ExtremumLanes(libm: Libm, nodeType: NodeType, xs: seq<real>, ys: seq<real>)
    requires nodeType in {NodeMax, NodeMin} && |xs| == |ys|
    ensures LanesSelect(LanesCompare(if nodeType == NodeMax then OGT else OLT, xs, ys), xs, ys)
         == OperationLanes(libm, nodeType, xs, ys)
  {
    forall l | 0 <= l < |xs|
      ensures OperationLanes(libm, nodeType, xs, ys)[l]
           == LanesSelect(LanesCompare(if nodeType == NodeMax then OGT else OLT, xs, ys), xs, ys)[l]
    {
      assert OperationLanes(libm, nodeType, xs, ys)[l] == ApplyPrimitive(libm, nodeType, [xs[l], ys[l]]);
    }
  }

  lemma ExtremumComputes(h: Host, regs: Registers, nodeType: NodeType, n: nat, x: Operand, y: Operand,
                         xs: seq<real>, ys: seq<real>)
    requires nodeType in {NodeMax, NodeMin} && Holds(h, regs, n, x, y, xs, ys)
    ensures var (ops, value) := Operation(nodeType, n, x, y, |xs|);
      Computed(h, regs, ops, n, value, OperationLanes(h.libm, nodeType, xs, ys))
  {
    hide Yields, EvalOperand, Computed, LanesCompare, LanesSelect, OperationLanes, Holds, HasLanes, Below;
    HoldsLanes(h, regs, n, x, y, xs, ys);
    var p := if nodeType == NodeMax then OGT else OLT;
    var u := Mask(LanesCompare(p, xs, ys));
    YieldsCompare(h, regs, p, x, y, xs, ys);
    StillHas(h, regs, n, n, u, x, xs);
    StillHas(h, regs, n, n, u, y, ys);
    YieldsSelect(h, regs[n := u], n, x, y, u.bits, xs, ys);
    ExtremumLanes(h.libm, nodeType, xs, ys);
    TwoComputed(h, regs, FCmp(p, x, y), Select(Local(n), x, y), n, u, OperationLanes(h.libm, nodeType, xs, ys));
  }

  lemma NegateComputes(h: Host, regs: Registers, n: nat, x: Operand, xs: seq<real>)
    requires Holds(h, regs, n, x, x, xs, xs)
    ensures var (ops, value) := Operation(NodeNeg, n, x, x, |xs|);
      Computed(h, regs, ops, n, value, OperationLanes(h.libm, NodeNeg, xs, xs))
  {
    DefinedOne(h, regs, FNeg(x), n);
    assert LanesNeg(xs) == OperationLanes(h.libm, NodeNeg, xs, xs);
  }

  /** Three operations in a row whose results are these. */
  lemma ThreeComputed(h: Host, regs: Registers, a: Op, b: Op, c: Op, n: nat, u: Val, v: Val, xs: seq<real>)
    requires Yields(h, regs, a) == Some(u)
    requires Yields(h, regs[n := u], b) == Some(v)
    requires Yields(h, regs[n := u][n + 1 := v], c) == Some(Lanes(xs))
    ensures Computed(h, regs, [a, b, c], n, Local(n + 2), xs)
  {
    hide Yields;
    assert [a, b, c] == [a] + ([b] + [c]);
    DefinedMore(h, regs, a, [b] + [c], n);
    DefinedMore(h, regs[n := u], b, [c], n + 1);
    DefinedOne(h, regs[n := u][n + 1 := v], c, n + 2);
  }

  lemma AbsLanes(libm: Libm, xs: seq<real>, zeros: seq<real>)
    requires |zeros| == |xs| && forall l | 0 <= l < |xs| :: zeros[l] == 0.0
    ensures LanesSelect(LanesCompare(OLT, xs, zeros), LanesNeg(xs), xs) == OperationLanes(libm, NodeAbs, xs, xs)
  {
    var r := LanesSelect(LanesCompare(OLT, xs, zeros), LanesNeg(xs), xs);
    forall l | 0 <= l < |xs|
      ensures r[l] == OperationLanes(libm, NodeAbs, xs, xs)[l]
    {
      assert OperationLanes(libm, NodeAbs, xs, xs)[l] == ApplyPrimitive(libm, NodeAbs, [xs[l]]);
    }
  }

  lemma AbsComputes(h: Host, regs: Registers, n: nat, x: Operand, xs: seq<real>)
    requires Holds(h, regs, n, x, x, xs, xs)
    ensures var (ops, value) := Operation(NodeAbs, n, x, x, |xs|);
      Computed(h, regs, ops, n, value, OperationLanes(h.libm, NodeAbs, xs, xs))
  {
    hide Yields, EvalOperand, Computed, LanesCompare, LanesSelect, LanesNeg, OperationLanes, Holds, HasLanes, Below;
    var zeros := seq(|xs|, l => 0.0);
    var bits, negated := LanesCompare(OLT, xs, zeros), LanesNeg(xs);
    var u, v := Mask(bits), Lanes(negated);
    HoldsLanes(h, regs, n, x, x, xs, xs);
    ConstantHas(h, regs, 0.0, |xs|, zeros);
    YieldsCompare(h, regs, OLT, x, FloatConst(0.0, |xs|), xs, zeros);
    StillHas(h, regs, n, n, u, x, xs);
    YieldsNeg(h, regs[n := u], x, xs);
    StillHas(h, regs[n := u], n, n + 1, v, x, xs);
    RegisterHas(h, regs[n := u][n + 1 := v], n + 1, negated);
    YieldsSelect(h, regs[n := u][n + 1 := v], n, Local(n + 1), x, bits, negated, xs);
    AbsLanes(h.libm, xs, zeros);
    ThreeComputed(h, regs, FCmp(OLT, x, FloatConst(0.0, |xs|)), FNeg(x), Select(Local(n), Local(n + 1), x), n, u, v,
                  OperationLanes(h.libm, NodeAbs, xs, xs));
  }

  lemma ReLULanes(libm: Libm, xs: seq<real>, zeros: seq<real>)
    requires |zeros| == |xs| && forall l | 0 <= l < |xs| :: zeros[l] == 0.0
    ensures LanesSelect(LanesCompare(OLT, xs, zeros), zeros, xs) == OperationLanes(libm, NodeReLU, xs, xs)
  {
    forall l | 0 <= l < |xs|
      ensures LanesSelect(LanesCompare(OLT, xs, zeros), zeros, xs)[l] == OperationLanes(libm, NodeReLU, xs, xs)[l]
    {
      assert OperationLanes(libm, NodeReLU, xs, xs)[l] == ApplyPrimitive(libm, NodeReLU, [xs[l]]);
    }
  }

  lemma ReLUComputes(h: Host, regs: Registers, n: nat, x: Operand, xs: seq<real>)
    requires Holds(h, regs, n, x, x, xs, xs)
    ensures var (ops, value) := Operation(NodeReLU, n, x, x, |xs|);
      Computed(h, regs, ops, n, value, OperationLanes(h.libm, NodeReLU, xs, xs))
  {
    hide Yields, EvalOperand, Computed, LanesCompare, LanesSelect, OperationLanes, Holds, HasLanes, Below;
    var zero, zeros := FloatConst(0.0, |xs|), seq(|xs|, l => 0.0);
    var bits := LanesCompare(OLT, xs, zeros);
    HoldsLanes(h, regs, n, x, x, xs, xs);
    ConstantHas(h, regs, 0.0, |xs|, zeros);
    YieldsCompare(h, regs, OLT, x, zero, xs, zeros);
    ConstantHas(h, regs[n := Mask(bits)], 0.0, |xs|, zeros);
    StillHas(h, regs, n, n, Mask(bits), x, xs);
    YieldsSelect(h, regs[n := Mask(bits)], n, zero, x, bits, zeros, xs);
    ReLULanes(h.libm, xs, zeros);
    TwoComputed(h, regs, FCmp(OLT, x, zero), Select(Local(n), zero, x), n, Mask(bits), OperationLanes(h.libm, NodeReLU, xs, xs));
  }

  lemma LeakyReLULanes(libm: Libm, xs: seq<real>, zeros: seq<real>, slopes: seq<real>)
    requires |zeros| == |slopes| == |xs|
    requires forall l | 0 <= l < |xs| :: zeros[l] == 0.0 && slopes[l] == 0.01
    ensures LanesSelect(LanesCompare(OGE, xs, zeros), xs, LanesArith(libm, FMul, xs, slopes))
         == OperationLanes(libm, NodeLeakyReLU, xs, xs)
  {
    var r := LanesSelect(LanesCompare(OGE, xs, zeros), xs, LanesArith(libm, FMul, xs, slopes));
    forall l | 0 <= l < |xs|
      ensures r[l] == OperationLanes(libm, NodeLeakyReLU, xs, xs)[l]
    {
      assert OperationLanes(libm, NodeLeakyReLU, xs, xs)[l] == ApplyPrimitive(libm, NodeLeakyReLU, [xs[l]]);
    }
  }

  lemma LeakyReLUComputes(h: Host, regs: Registers, n: nat, x: Operand, xs: seq<real>)
    requires Holds(h, regs, n, x, x, xs, xs)
    ensures var (ops, value) := Operation(NodeLeakyReLU, n, x, x, |xs|);
      Computed(h, regs, ops, n, value, OperationLanes(h.libm, NodeLeakyReLU, xs, xs))
  {
    hide Yields, EvalOperand, Computed, LanesCompare, LanesSelect, LanesArith, OperationLanes, Holds, HasLanes, Below;
    var zeros, slopes := seq(|xs|, l => 0.0), seq(|xs|, l => 0.01);
    var bits, scaled := LanesCompare(OGE, xs, zeros), LanesArith(h.libm, FMul, xs, slopes);
    var u, v := Mask(bits), Lanes(scaled);
    HoldsLanes(h, regs, n, x, x, xs, xs);
    ConstantHas(h, regs, 0.0, |xs|, zeros);
    YieldsCompare(h, regs, OGE, x, FloatConst(0.0, |xs|), xs, zeros);
    StillHas(h, regs, n, n, u, x, xs);
    ConstantHas(h, regs[n := u], 0.01, |xs|, slopes);
    YieldsArith(h, regs[n := u], FMul, x, FloatConst(0.01, |xs|), xs, slopes);
    StillHas(h, regs[n := u], n, n + 1, v, x, xs);
    RegisterHas(h, regs[n := u][n + 1 := v], n + 1, scaled);
    YieldsSelect(h, regs[n := u][n + 1 := v], n, x, Local(n + 1), bits, xs, scaled);
    LeakyReLULanes(h.libm, xs, zeros, slopes);
    ThreeComputed(h, regs, FCmp(OGE, x, FloatConst(0.0, |xs|)), Arith(FMul, x, FloatConst(0.01, |xs|)),
                  Select(Local(n), x, Local(n + 1)), n, u, v, OperationLanes(h.libm, NodeLeakyReLU, xs, xs));
  }

  ghost function MathOf(nodeType: NodeType): MathFunction
    requires nodeType in {NodeSqrt, NodeExp, NodeLog, NodeTanh}
  {
    if nodeType == NodeSqrt then SqrtF else if nodeType == NodeExp then ExpF else if nodeType == NodeLog then LogF else TanhF
  }

  lemma MathLanes(libm: Libm, nodeType: NodeType, xs: seq<real>)
    requires nodeType in {NodeSqrt, NodeExp, NodeLog, NodeTanh} && |xs| == 1
    ensures LanesMath(libm, MathOf(nodeType), xs) == OperationLanes(libm, nodeType, xs, xs)
  {
    assert OperationLanes(libm, nodeType, xs, xs)[0] == ApplyPrimitive(libm, nodeType, [xs[0]]);
  }

  lemma YieldsMath(h: Host, regs: Registers, f: MathFunction, x: Operand, xs: seq<real>)
    requires |xs| == 1 && HasLanes(h, regs, x, xs)
    ensures Yields(h, regs, Call(f, x)) == Some(Lanes(LanesMath(h.libm, f, xs)))
  {
  }

  lemma OneComputed(h: Host, regs: Registers, a: Op, n: nat, xs: seq<real>)
    requires Yields(h, regs, a) == Some(Lanes(xs))
    ensures Computed(h, regs, [a], n, Local(n), xs)
  {
    hide Yields;
    DefinedOne(h, regs, a, n);
  }

  lemma MathComputes(h: Host, regs: Registers, nodeType: NodeType, n: nat, x: Operand, xs: seq<real>)
    requires nodeType in {NodeSqrt, NodeExp, NodeLog, NodeTanh} && Holds(h, regs, n, x, x, xs, xs) && |xs| == 1
    ensures var (ops, value) := Operation(nodeType, n, x, x, 1);
      Computed(h, regs, ops, n, value, OperationLanes(h.libm, nodeType, xs, xs))
  {
    hide Yields, EvalOperand, Computed, LanesMath, OperationLanes, Holds, HasLanes;
    HoldsLanes(h, regs, n, x, x, xs, xs);
    YieldsMath(h, regs, MathOf(nodeType), x, xs);
    MathLanes(h.libm, nodeType, xs);
    OneComputed(h, regs, Call(MathOf(nodeType), x), n, OperationLanes(h.libm, nodeType, xs, xs));
  }

  /** One lane in register `n`. */
  ghost function Put(regs: Registers, n: nat, v: real): Registers {
    regs[n := Lanes([v])]
  }

  ghost predicate OneLane(h: Host, regs: Registers, o: Operand, v: real) {
    EvalOperand(h, regs, o) == Some(Lanes([v]))
  }

  lemma OneConst(h: Host, regs: Registers, c: real)
    ensures OneLane(h, regs, FloatConst(c, 1), c)
  {
    assert seq(1, l => c) == [c];
  }

  lemma OneArith(h: Host, regs: Registers, kind: Arithmetic, x: Operand, y: Operand, a: real, b: real, rest: seq<Op>, n: nat)
    requires OneLane(h, regs, x, a) && OneLane(h, regs, y, b)
    ensures Defined(h, regs, [Arith(kind, x, y)] + rest, n) == Defined(h, Put(regs, n, ApplyArith(h.libm, kind, a, b)), rest, n + 1)
  {
    DefinedMore(h, regs, Arith(kind, x, y), rest, n);
    assert LanesArith(h.libm, kind, [a], [b]) == [ApplyArith(h.libm, kind, a, b)];
  }

  lemma OneCall(h: Host, regs: Registers, f: MathFunction, x: Operand, a: real, rest: seq<Op>, n: nat)
    requires OneLane(h, regs, x, a)
    ensures Defined(h, regs, [Call(f, x)] + rest, n) == Defined(h, Put(regs, n, ApplyMath(h.libm, f, a)), rest, n + 1)
  {
    DefinedMore(h, regs, Call(f, x), rest, n);
    assert LanesMath(h.libm, f, [a]) == [ApplyMath(h.libm, f, a)];
  }

  lemma OneNeg(h: Host, regs: Registers, x: Operand, a: real, rest: seq<Op>, n: nat)
    requires OneLane(h, regs, x, a)
    ensures Defined(h, regs, [FNeg(x)] + rest, n) == Defined(h, Put(regs, n, -a), rest, n + 1)
  {
    DefinedMore(h, regs, FNeg(x), rest, n);
    assert LanesNeg([a]) == [-a];
  }

  lemma PutKeeps(h: Host, regs: Registers, n: nat, v: real, o: Operand, a: real)
    requires OneLane(h, regs, o, a) && Below(o, n)
    ensures OneLane(h, Put(regs, n, v), o, a)
  {
  }

  lemma PutHas(h: Host, regs: Registers, n: nat, v: real)
    ensures OneLane(h, Put(regs, n, v), Local(n), v)
  {
  }

  lemma PutAgrees(regs: Registers, now: Registers, n: nat, k: nat, v: real)
    requires Agrees(regs, now, n) && n <= k
    ensures Agrees(regs, Put(now, k, v), n)
  {
  }

  lemma DefinedDone(h: Host, regs: Registers, now: Registers, ops: seq<Op>, n: nat, k: nat, value: Operand, v: real)
    requires Defined(h, regs, ops, n) == Defined(h, now, [], k) && Agrees(regs, now, n) && OneLane(h, now, value, v)
    ensures Computed(h, regs, ops, n, value, [v])
  {
  }

  lemma LogisticFacts(h: Host, regs: Registers, n: nat, top: Operand, v: real, t: real)
    requires Below(top, n)
    ensures var e := h.libm.exp(-v);
      && ApplyMath(h.libm, ExpF, -v) == e && ApplyArith(h.libm, FAdd, 1.0, e) == 1.0 + e
      && ApplyArith(h.libm, FDiv, t, 1.0 + e) == Quotient(h.libm, t, 1.0 + e)
    ensures Agrees(regs, regs, n) && Below(top, n + 1) && Below(top, n + 2)
  {
  }

  /** The quotient by one plus an exponential, which sigmoid and SiLU share. */
  lemma LogisticComputes(h: Host, regs: Registers, n: nat, x: Operand, top: Operand, v: real, t: real)
    requires OneLane(h, regs, x, v) && OneLane(h, regs, top, t) && Below(top, n)
    ensures Computed(h, regs,
      [FNeg(x), Call(ExpF, Local(n)), Arith(FAdd, FloatConst(1.0, 1), Local(n + 1)), Arith(FDiv, top, Local(n + 2))],
      n, Local(n + 3), [Quotient(h.libm, t, 1.0 + h.libm.exp(-v))])
  {
    hide *;
    var op1, op2 := Call(ExpF, Local(n)), Arith(FAdd, FloatConst(1.0, 1), Local(n + 1));
    var op3 := Arith(FDiv, top, Local(n + 2));
    var e := h.libm.exp(-v);
    var q := Quotient(h.libm, t, 1.0 + e);
    LogisticFacts(h, regs, n, top, v, t);
    assert [FNeg(x), op1, op2, op3] == [FNeg(x)] + ([op1] + ([op2] + ([op3] + [])));
    OneNeg(h, regs, x, v, [op1] + ([op2] + ([op3] + [])), n);
    var r1 := Put(regs, n, -v);
    PutHas(h, regs, n, -v);
    PutKeeps(h, regs, n, -v, top, t);
    PutAgrees(regs, regs, n, n, -v);
    OneCall(h, r1, ExpF, Local(n), -v, [op2] + ([op3] + []), n + 1);
    var r2 := Put(r1, n + 1, e);
    PutHas(h, r1, n + 1, e);
    PutKeeps(h, r1, n + 1, e, top, t);
    PutAgrees(regs, r1, n, n + 1, e);
    OneConst(h, r2, 1.0);
    OneArith(h, r2, FAdd, FloatConst(1.0, 1), Local(n + 1), 1.0, e, [op3] + [], n + 2);
    var r3 := Put(r2, n + 2, 1.0 + e);
    PutHas(h, r2, n + 2, 1.0 + e);
    PutKeeps(h, r2, n + 2, 1.0 + e, top, t);
    PutAgrees(regs, r2, n, n + 2, 1.0 + e);
    OneArith(h, r3, FDiv, top, Local(n + 2), t, 1.0 + e, [], n + 3);
    var r4 := Put(r3, n + 3, q);
    PutHas(h, r3, n + 3, q);
    PutAgrees(regs, r3, n, n + 3, q);
    DefinedDone(h, regs, r4, [FNeg(x), op1, op2, op3], n, n + 4, Local(n + 3), q);
  }

  lemma SigmoidComputes(h: Host, regs: Registers, nodeType: NodeType, n: nat, x: Operand, xs: seq<real>)
    requires nodeType in {NodeSigmoid, NodeSilu} && Holds(h, regs, n, x, x, xs, xs) && |xs| == 1
    ensures var (ops, value) := Operation(nodeType, n, x, x, 1);
      Computed(h, regs, ops, n, value, OperationLanes(h.libm, nodeType, xs, xs))
  {
    assert xs == [xs[0]];
    OneConst(h, regs, 1.0);
    var t := if nodeType == NodeSigmoid then 1.0 else xs[0];
    LogisticLanes(h.libm, nodeType, xs, t);
    hide OperationLanes, ApplyPrimitive, Computed, Quotient;
    LogisticComputes(h, regs, n, x, if nodeType == NodeSigmoid then FloatConst(1.0, 1) else x, xs[0], t);
  }

  lemma LogisticLanes(libm: Libm, nodeType: NodeType, xs: seq<real>, t: real)
    requires nodeType in {NodeSigmoid, NodeSilu} && |xs| == 1 && t == if nodeType == NodeSigmoid then 1.0 else xs[0]
    ensures OperationLanes(libm, nodeType, xs, xs) == [Quotient(libm, t, 1.0 + libm.exp(-xs[0]))]
  {
    assert OperationLanes(libm, nodeType, xs, xs)[0] == ApplyPrimitive(libm, nodeType, [xs[0]]);
  }

  /** Every operation, over as many lanes as its operands have. */
  lemma OperationComputes(h: Host, regs: Registers, nodeType: NodeType, n: nat, x: Operand, y: Operand,
                          xs: seq<real>, ys: seq<real>)
    requires IsOperation(nodeType) && nodeType != NodeGelu && Holds(h, regs, n, x, y, xs, ys)
    requires Vectorizes(nodeType) || |xs| == 1
    requires Arity(nodeType) == 1 ==> x == y && xs == ys
    ensures var (ops, value) := Operation(nodeType, n, x, y, |xs|);
      Computed(h, regs, ops, n, value, OperationLanes(h.libm, nodeType, xs, ys))
  {
    hide Operation, Computed, Holds, OperationLanes;
    if nodeType in {NodeAdd, NodeSub, NodeMul, NodeDiv} {
      ArithmeticComputes(h, regs, nodeType, n, x, y, xs, ys);
    } else if nodeType in {NodeMax, NodeMin} {
      ExtremumComputes(h, regs, nodeType, n, x, y, xs, ys);
    } else if nodeType == NodeNeg {
      NegateComputes(h, regs, n, x, xs);
    } else if nodeType == NodeAbs {
      AbsComputes(h, regs, n, x, xs);
    } else if nodeType == NodeReLU {
      ReLUComputes(h, regs, n, x, xs);
    } else if nodeType == NodeLeakyReLU {
      LeakyReLUComputes(h, regs, n, x, xs);
    } else if nodeType in {NodeSigmoid, NodeSilu} {
      SigmoidComputes(h, regs, nodeType, n, x, xs);
    } else {
      MathComputes(h, regs, nodeType, n, x, xs);
    }
  }

  lemma OperationShape(nodeType: NodeType, n: nat, x: Operand, y: Operand, lanes: nat)
    requires IsOperation(nodeType) && nodeType != NodeGelu
    ensures var (ops, value) := Operation(nodeType, n, x, y, lanes);
      && Below(value, n + |ops|) && |ops| > 0
      && forall k | 0 <= k < |ops| :: !ops[k].StoreFloats?
  {
  }

  /** The instructions of an operation deliver its lanes. */
  lemma OperationDelivers(h: Host, st: State, nodeType: NodeType, n: nat, x: Operand, y: Operand,
                          xs: seq<real>, ys: seq<real>)
    requires IsOperation(nodeType) && nodeType != NodeGelu && Holds(h, st.regs, n, x, y, xs, ys)
    requires Vectorizes(nodeType) || |xs| == 1
    requires Arity(nodeType) == 1 ==> x == y && xs == ys
    ensures var (ops, value) := Operation(nodeType, n, x, y, |xs|);
      Delivers(h, Numbered(ops, n), st, n, value, OperationLanes(h.libm, nodeType, xs, ys))
  {
    OperationComputes(h, st.regs, nodeType, n, x, y, xs, ys);
    OperationShape(nodeType, n, x, y, |xs|);
    var (ops, value) := Operation(nodeType, n, x, y, |xs|);
    hide Operation, OperationLanes, Holds;
    NumberedExec(h, ops, n, st);
  }

  // ----- expressions

  /** Every call the kernel is generated for: the right inputs, all long enough for these lanes. */
  ghost predicate InRange(h: Host, inputCount: nat, i: int, lanes: nat) {
    && |h.inputs| == inputCount && i >= 0
    && forall k | 0 <= k < inputCount :: i + lanes <= |h.inputs[k]|
  }

  /** What the reference evaluator gives at these indices. */
  ghost function ReferenceLanes(h: Host, node: ASTNode, i: nat, lanes: nat): (r: seq<real>)
    requires ValidFusionNode(node, |h.inputs|) && InRange(h, |h.inputs|, i, lanes)
    ensures |r| == lanes
  {
    seq(lanes, l requires 0 <= l < lanes => EvalScalarReference(h.libm, node, h.inputs, i + l))
  }

  /** From this state and index the code delivers what the reference evaluator says. */
  ghost predicate DeliversNode(h: Host, code: seq<Inst>, st: State, first: nat, value: Operand, index: Operand,
                               node: ASTNode, inputCount: nat, lanes: nat, i: nat)
    requires ValidFusionNode(node, inputCount)
  {
    InRange(h, inputCount, i, lanes) && EvalOperand(h, st.regs, index) == Some(Int(i)) ==>
      Delivers(h, code, st, first, value, ReferenceLanes(h, node, i, lanes))
  }

  /** On every call, from every state, at every index: the code computes the expression. */
  ghost predicate Computes(code: seq<Inst>, first: nat, value: Operand, index: Operand, node: ASTNode,
                           inputCount: nat, lanes: nat)
    requires ValidFusionNode(node, inputCount)
  {
    forall h: Host, st: State, i: nat :: DeliversNode(h, code, st, first, value, index, node, inputCount, lanes, i)
  }

  /** Only expressions without GELU, whose kernel rounds in double precision. */
  ghost predicate GeluFree(node: ASTNode) {
    if node.nodeType.NodeInput? || node.nodeType.NodeConstant? then true
    else node.nodeType != NodeGelu && forall k | 0 <= k < |node.children| :: GeluFree(node.children[k])
  }

  /** Only operations with a vector form; transcendental ones stay on the scalar loop. */
  predicate FusionVectorizable(node: ASTNode) {
    if node.nodeType.NodeInput? || node.nodeType.NodeConstant? then true
    else Vectorizes(node.nodeType) && forall k | 0 <= k < |node.children| :: FusionVectorizable(node.children[k])
  }

  lemma ReferenceOfOperation(h: Host, node: ASTNode, i: nat, lanes: nat)
    requires ValidFusionNode(node, |h.inputs|) && IsOperation(node.nodeType) && InRange(h, |h.inputs|, i, lanes)
    ensures var xs := ReferenceLanes(h, node.children[0], i, lanes);
      var ys := if Arity(node.nodeType) == 2 then ReferenceLanes(h, node.children[1], i, lanes) else xs;
      OperationLanes(h.libm, node.nodeType, xs, ys) == ReferenceLanes(h, node, i, lanes)
  {
    var xs := ReferenceLanes(h, node.children[0], i, lanes);
    var ys := if Arity(node.nodeType) == 2 then ReferenceLanes(h, node.children[1], i, lanes) else xs;
    forall l | 0 <= l < lanes
      ensures OperationLanes(h.libm, node.nodeType, xs, ys)[l] == EvalScalarReference(h.libm, node, h.inputs, i + l)
    {
      ReferenceStep(h, node, i + l);
    }
  }

  lemma ReferenceStep(h: Host, node: ASTNode, i: nat)
    requires ValidFusionNode(node, |h.inputs|) && IsOperation(node.nodeType) && InRange(h, |h.inputs|, i, 1)
    ensures var x := EvalScalarReference(h.libm, node.children[0], h.inputs, i);
      EvalScalarReference(h.libm, node, h.inputs, i) == ApplyPrimitive(h.libm, node.nodeType,
        if Arity(node.nodeType) == 2 then [x, EvalScalarReference(h.libm, node.children[1], h.inputs, i)] else [x])
  {
    var x := EvalScalarReference(h.libm, node.children[0], h.inputs, i);
    var operands := seq(|node.children|, k requires 0 <= k < |node.children| =>
      EvalScalarReference(h.libm, node.children[k], h.inputs, i));
    if Arity(node.nodeType) == 2 {
      assert operands == [x, EvalScalarReference(h.libm, node.children[1], h.inputs, i)];
    } else {
      assert operands == [x];
    }
  }

  // ----- composing expressions

  function InputOps(n: nat, k: int, index: Operand, lanes: nat): seq<Op> {
    [SlotPointer(k), LoadBase(Local(n)), FloatPointer(Local(n + 1), index)]
    + if lanes == 1 then [LoadFloats(Local(n + 2), 1)] else [BitCast(Local(n + 2)), LoadFloats(Local(n + 3), lanes)]
  }

  function InputValue(n: nat, lanes: nat): Operand {
    Local(n + if lanes == 1 then 3 else 4)
  }

  /** The address of element `i` of input `k`, in register `n + 2`. */
  ghost function AtElement(regs: Registers, n: nat, k: nat, i: int): Registers {
    regs[n := Slot(k)][n + 1 := Address(Input(k), 0)][n + 2 := Address(Input(k), i)]
  }

  lemma InputAddress(h: Host, regs: Registers, n: nat, k: nat, index: Operand, i: nat, tail: seq<Op>)
    requires k < |h.inputs| && Below(index, n) && EvalOperand(h, regs, index) == Some(Int(i))
    ensures Defined(h, regs, [SlotPointer(k), LoadBase(Local(n)), FloatPointer(Local(n + 1), index)] + tail, n)
         == Defined(h, AtElement(regs, n, k, i), tail, n + 3)
  {
    var r1 := regs[n := Slot(k)];
    var r2 := r1[n + 1 := Address(Input(k), 0)];
    AgreesKeeps(h, regs, r2, n, index);
    var o1, o2 := LoadBase(Local(n)), FloatPointer(Local(n + 1), index);
    assert [SlotPointer(k), o1, o2] + tail == [SlotPointer(k)] + ([o1] + ([o2] + tail));
    DefinedMore(h, regs, SlotPointer(k), [o1] + ([o2] + tail), n);
    DefinedMore(h, r1, o1, [o2] + tail, n + 1);
    DefinedMore(h, r2, o2, tail, n + 2);
  }

  lemma LoadComputed(h: Host, regs: Registers, n: nat, k: nat, i: nat, lanes: nat)
    requires k < |h.inputs| && i + lanes <= |h.inputs[k]|
    requires n in regs && regs[n] == Address(Input(k), i)
    ensures Computed(h, regs, [LoadFloats(Local(n), lanes)], n + 1, Local(n + 1), h.inputs[k][i..i + lanes])
  {
    DefinedOne(h, regs, LoadFloats(Local(n), lanes), n + 1);
  }

  lemma CastLoadComputed(h: Host, regs: Registers, n: nat, k: nat, i: nat, lanes: nat)
    requires k < |h.inputs| && i + lanes <= |h.inputs[k]|
    requires n in regs && regs[n] == Address(Input(k), i)
    ensures Computed(h, regs, [BitCast(Local(n)), LoadFloats(Local(n + 1), lanes)], n + 1, Local(n + 2), h.inputs[k][i..i + lanes])
  {
    assert [BitCast(Local(n)), LoadFloats(Local(n + 1), lanes)] == [BitCast(Local(n))] + [LoadFloats(Local(n + 1), lanes)];
    DefinedMore(h, regs, BitCast(Local(n)), [LoadFloats(Local(n + 1), lanes)], n + 1);
    DefinedOne(h, regs[n + 1 := Address(Input(k), i)], LoadFloats(Local(n + 1), lanes), n + 2);
  }

  lemma InputComputed(h: Host, regs: Registers, n: nat, k: nat, index: Operand, i: nat, lanes: nat)
    requires k < |h.inputs| && i + lanes <= |h.inputs[k]| && Below(index, n)
    requires EvalOperand(h, regs, index) == Some(Int(i))
    ensures Computed(h, regs, InputOps(n, k, index, lanes), n, InputValue(n, lanes), h.inputs[k][i..i + lanes])
  {
    var at := AtElement(regs, n, k, i);
    assert Agrees(regs, at, n);
    hide EvalOperand, Defined;
    if lanes == 1 {
      InputAddress(h, regs, n, k, index, i, [LoadFloats(Local(n + 2), 1)]);
      LoadComputed(h, at, n + 2, k, i, lanes);
    } else {
      InputAddress(h, regs, n, k, index, i, [BitCast(Local(n + 2)), LoadFloats(Local(n + 3), lanes)]);
      CastLoadComputed(h, at, n + 2, k, i, lanes);
    }
  }

  lemma LeafReference(h: Host, node: ASTNode, i: nat, lanes: nat)
    requires ValidFusionNode(node, |h.inputs|) && !IsOperation(node.nodeType) && InRange(h, |h.inputs|, i, lanes)
    ensures ReferenceLanes(h, node, i, lanes) ==
      if node.nodeType.NodeInput? then h.inputs[node.inputIndex][i..i + lanes] else seq(lanes, l => node.value)
  {
    forall l | 0 <= l < lanes
      ensures ReferenceLanes(h, node, i, lanes)[l] ==
        if node.nodeType.NodeInput? then h.inputs[node.inputIndex][i + l] else node.value
    {
      assert node.nodeType.NodeInput? || node.nodeType.NodeConstant?;
      assert ReferenceLanes(h, node, i, lanes)[l] == EvalScalarReference(h.libm, node, h.inputs, i + l);
    }
  }

  lemma InputComputes(node: ASTNode, n: nat, index: Operand, inputCount: nat, lanes: nat)
    requires node.nodeType.NodeInput? && ValidFusionNode(node, inputCount) && Below(index, n)
    ensures Computes(Numbered(InputOps(n, node.inputIndex, index, lanes), n), n, InputValue(n, lanes), index, node, inputCount, lanes)
  {
    var ops := InputOps(n, node.inputIndex, index, lanes);
    forall h: Host, st: State, i: nat
      ensures DeliversNode(h, Numbered(ops, n), st, n, InputValue(n, lanes), index, node, inputCount, lanes, i)
    {
      if InRange(h, inputCount, i, lanes) && EvalOperand(h, st.regs, index) == Some(Int(i)) {
        InputComputed(h, st.regs, n, node.inputIndex, index, i, lanes);
        NumberedExec(h, ops, n, st);
        LeafReference(h, node, i, lanes);
      }
    }
  }

  lemma ConstantComputes(node: ASTNode, n: nat, index: Operand, inputCount: nat, lanes: nat)
    requires node.nodeType.NodeConstant? && ValidFusionNode(node, inputCount)
    ensures Computes([], n, FloatConst(node.value, lanes), index, node, inputCount, lanes)
  {
    forall h: Host, st: State, i: nat
      ensures DeliversNode(h, [], st, n, FloatConst(node.value, lanes), index, node, inputCount, lanes, i)
    {
      if InRange(h, inputCount, i, lanes) {
        LeafReference(h, node, i, lanes);
      }
    }
  }

  /** Code that delivers, followed by code that delivers from where it ended. */
  lemma DeliversThen(h: Host, a: seq<Inst>, b: seq<Inst>, st: State, first: nat, mid: nat, x: Operand, xs: seq<real>,
                     value: Operand, vs: seq<real>)
    requires first <= mid && Delivers(h, a, st, first, x, xs)
    requires Delivers(h, b, Exec(h, a, st).value, mid, value, vs)
    ensures Delivers(h, a + b, st, first, value, vs)
  {
    ExecAppend(h, a, b, st);
  }

  lemma UnaryDelivers(h: Host, code: seq<Inst>, st: State, first: nat, mid: nat, x: Operand, index: Operand,
                      node: ASTNode, inputCount: nat, lanes: nat, i: nat)
    requires ValidFusionNode(node, inputCount) && node.nodeType != NodeGelu && Arity(node.nodeType) == 1
    requires Vectorizes(node.nodeType) || lanes == 1
    requires first <= mid && Below(x, mid)
    requires DeliversNode(h, code, st, first, x, index, node.children[0], inputCount, lanes, i)
    ensures var (ops, value) := Operation(node.nodeType, mid, x, x, lanes);
      DeliversNode(h, code + Numbered(ops, mid), st, first, value, index, node, inputCount, lanes, i)
  {
    if InRange(h, inputCount, i, lanes) && EvalOperand(h, st.regs, index) == Some(Int(i)) {
      var xs := ReferenceLanes(h, node.children[0], i, lanes);
      var st1 := Exec(h, code, st).value;
      assert Holds(h, st1.regs, mid, x, x, xs, xs);
      ReferenceOfOperation(h, node, i, lanes);
      var (ops, value) := Operation(node.nodeType, mid, x, x, lanes);
      hide Operation, OperationLanes, ReferenceLanes, EvalOperand, ApplyPrimitive;
      OperationDelivers(h, st1, node.nodeType, mid, x, x, xs, xs);
      DeliversThen(h, code, Numbered(ops, mid), st, first, mid, x, xs, value, ReferenceLanes(h, node, i, lanes));
    }
  }

  lemma BinaryDelivers(h: Host, left: seq<Inst>, right: seq<Inst>, st: State, first: nat, mid: nat, last: nat,
                       x: Operand, y: Operand, index: Operand, node: ASTNode, inputCount: nat, lanes: nat, i: nat)
    requires ValidFusionNode(node, inputCount) && node.nodeType != NodeGelu && Arity(node.nodeType) == 2
    requires Vectorizes(node.nodeType)
    requires first <= mid <= last && Below(x, mid) && Below(y, last) && Below(index, first)
    requires DeliversNode(h, left, st, first, x, index, node.children[0], inputCount, lanes, i)
    requires Exec(h, left, st).Some? ==>
      DeliversNode(h, right, Exec(h, left, st).value, mid, y, index, node.children[1], inputCount, lanes, i)
    ensures var (ops, value) := Operation(node.nodeType, last, x, y, lanes);
      DeliversNode(h, left + right + Numbered(ops, last), st, first, value, index, node, inputCount, lanes, i)
  {
    if InRange(h, inputCount, i, lanes) && EvalOperand(h, st.regs, index) == Some(Int(i)) {
      var xs, ys := ReferenceLanes(h, node.children[0], i, lanes), ReferenceLanes(h, node.children[1], i, lanes);
      var st1 := Exec(h, left, st).value;
      AgreesKeeps(h, st.regs, st1.regs, first, index);
      var st2 := Exec(h, right, st1).value;
      AgreesKeeps(h, st1.regs, st2.regs, mid, x);
      assert Holds(h, st2.regs, last, x, y, xs, ys);
      ReferenceOfOperation(h, node, i, lanes);
      var (ops, value) := Operation(node.nodeType, last, x, y, lanes);
      DeliversThen(h, left, right, st, first, mid, x, xs, y, ys);
      ExecAppend(h, left, right, st);
      hide Operation, OperationLanes, ReferenceLanes, EvalOperand, ApplyPrimitive;
      OperationDelivers(h, st2, node.nodeType, last, x, y, xs, ys);
      DeliversThen(h, left + right, Numbered(ops, last), st, first, last, y, ys, value, ReferenceLanes(h, node, i, lanes));
    }
  }

  lemma UnaryComputes(code: seq<Inst>, first: nat, mid: nat, x: Operand, index: Operand, node: ASTNode,
                      inputCount: nat, lanes: nat)
    requires ValidFusionNode(node, inputCount) && node.nodeType != NodeGelu && Arity(node.nodeType) == 1
    requires Vectorizes(node.nodeType) || lanes == 1
    requires first <= mid && Below(x, mid)
    requires Computes(code, first, x, index, node.children[0], inputCount, lanes)
    ensures var (ops, value) := Operation(node.nodeType, mid, x, x, lanes);
      Computes(code + Numbered(ops, mid), first, value, index, node, inputCount, lanes)
  {
    var (ops, value) := Operation(node.nodeType, mid, x, x, lanes);
    hide Operation, DeliversNode;
    forall h: Host, st: State, i: nat
      ensures DeliversNode(h, code + Numbered(ops, mid), st, first, value, index, node, inputCount, lanes, i)
    {
      UnaryDelivers(h, code, st, first, mid, x, index, node, inputCount, lanes, i);
    }
  }

  lemma BinaryComputes(left: seq<Inst>, right: seq<Inst>, first: nat, mid: nat, last: nat, x: Operand, y: Operand,
                       index: Operand, node: ASTNode, inputCount: nat, lanes: nat)
    requires ValidFusionNode(node, inputCount) && node.nodeType != NodeGelu && Arity(node.nodeType) == 2
    requires Vectorizes(node.nodeType)
    requires first <= mid <= last && Below(x, mid) && Below(y, last) && Below(index, first)
    requires Computes(left, first, x, index, node.children[0], inputCount, lanes)
    requires Computes(right, mid, y, index, node.children[1], inputCount, lanes)
    ensures var (ops, value) := Operation(node.nodeType, last, x, y, lanes);
      Computes(left + right + Numbered(ops, last), first, value, index, node, inputCount, lanes)
  {
    var (ops, value) := Operation(node.nodeType, last, x, y, lanes);
    hide Operation, DeliversNode;
    forall h: Host, st: State, i: nat
      ensures DeliversNode(h, left + right + Numbered(ops, last), st, first, value, index, node, inputCount, lanes, i)
    {
      BinaryDelivers(h, left, right, st, first, mid, last, x, y, index, node, inputCount, lanes, i);
    }
  }
}
