/** The instructions a fused kernel is made of, and what running them does. */
module KernelIR {
  import opened Wrappers
  import opened FusionAst
  import opened Reference

  datatype Buffer = Input(k: nat) | Output

  /** A float is one lane, a vector as many as it is wide; a branch condition is one bit. */
  datatype Val =
    | Lanes(xs: seq<real>)
    | Mask(bits: seq<bool>)
    | Int(n: int)
    | Address(buffer: Buffer, offset: int)
    | Slot(k: int)

  datatype Operand =
    | Local(id: nat)
    | Count
    | OutputBase
    | FloatConst(value: real, lanes: nat)
    | IntConst(n: int)

  datatype Arithmetic = FAdd | FSub | FMul | FDiv

  datatype Predicate = OGT | OLT | OGE

  datatype MathFunction = SqrtF | ExpF | LogF | TanhF

  datatype Op =
    | SlotPointer(slotIndex: int)
    | LoadBase(slot: Operand)
    | FloatPointer(base: Operand, index: Operand)
    | BitCast(pointer: Operand)
    | LoadFloats(pointer: Operand, lanes: nat)
    | StoreFloats(value: Operand, pointer: Operand)
    | Arith(kind: Arithmetic, left: Operand, right: Operand)
    | FNeg(operand: Operand)
    | FCmp(comparison: Predicate, left: Operand, right: Operand)
    | Select(mask: Operand, left: Operand, right: Operand)
    | Call(callee: MathFunction, operand: Operand)
    | SExt(operand: Operand)
    | IntAdd(left: Operand, right: Operand)
    | IntSub(left: Operand, right: Operand)
    | IntSRem(left: Operand, right: Operand)
    | IntSGE(left: Operand, right: Operand)

  datatype Inst = Inst(dest: nat, op: Op)

  /** What a call of the kernel is given. */
  datatype Host = Host(libm: Libm, inputs: seq<seq<real>>, count: int)

  type Registers = map<nat, Val>

  /** The registers, and every element written to the output so far, in order. */
  datatype State = State(regs: Registers, log: seq<(int, real)>)

  const TWO_31 := 0x8000_0000
  const TWO_32 := 0x1_0000_0000

  /** Two's-complement wrap-around of 32-bit integers. */
  ghost function Wrap32(n: int): int {
    (n + TWO_31) % TWO_32 - TWO_31
  }

  ghost predicate FitsInt32(n: int) {
    -TWO_31 <= n < TWO_31
  }

  lemma WrapFits(n: int)
    requires FitsInt32(n)
    ensures Wrap32(n) == n
  {
  }

  /** The wrapped number is the one of 32 bits that differs from it by a multiple of 2 to the 32. */
  lemma WrapsAround(n: int, k: int)
    requires -0x8000_0000 <= n - k * 0x1_0000_0000 < 0x8000_0000
    ensures Wrap32(n) == n - k * 0x1_0000_0000
  {
    var m := n + 0x8000_0000;
    assert m == k * 0x1_0000_0000 + (m - k * 0x1_0000_0000);
    assert m / 0x1_0000_0000 == k;
  }

  /** The remainder of a division that truncates toward zero. */
  ghost function SRem(a: int, b: int): int
    requires b != 0
  {
    var m := if b < 0 then -b else b;
    if a < 0 then -((-a) % m) else a % m
  }

  ghost function EvalOperand(h: Host, regs: Registers, o: Operand): Option<Val> {
    match o
    case Local(id) => if id in regs then Some(regs[id]) else None
    case Count => Some(Int(h.count))
    case OutputBase => Some(Address(Output, 0))
    case FloatConst(value, lanes) => Some(Lanes(seq(lanes, l => value)))
    case IntConst(n) => Some(Int(n))
  }

  ghost function ApplyArith(libm: Libm, kind: Arithmetic, x: real, y: real): real {
    match kind
    case FAdd => x + y
    case FSub => x - y
    case FMul => x * y
    case FDiv => Quotient(libm, x, y)
  }

  ghost predicate ApplyCompare(p: Predicate, x: real, y: real) {
    match p
    case OGT => x > y
    case OLT => x < y
    case OGE => x >= y
  }

  ghost function ApplyMath(libm: Libm, f: MathFunction, x: real): real {
    match f
    case SqrtF => libm.sqrt(x)
    case ExpF => libm.exp(x)
    case LogF => libm.log(x)
    case TanhF => libm.tanh(x)
  }

  ghost function LanesArith(libm: Libm, kind: Arithmetic, xs: seq<real>, ys: seq<real>): (r: seq<real>)
    requires |xs| == |ys|
    ensures |r| == |xs| && forall l | 0 <= l < |xs| :: r[l] == ApplyArith(libm, kind, xs[l], ys[l])
  {
    seq(|xs|, l requires 0 <= l < |xs| => ApplyArith(libm, kind, xs[l], ys[l]))
  }

  ghost function LanesCompare(p: Predicate, xs: seq<real>, ys: seq<real>): (r: seq<bool>)
    requires |xs| == |ys|
    ensures |r| == |xs| && forall l | 0 <= l < |xs| :: r[l] == ApplyCompare(p, xs[l], ys[l])
  {
    seq(|xs|, l requires 0 <= l < |xs| => ApplyCompare(p, xs[l], ys[l]))
  }

  ghost function LanesSelect(bits: seq<bool>, xs: seq<real>, ys: seq<real>): (r: seq<real>)
    requires |bits| == |xs| == |ys|
    ensures |r| == |xs| && forall l | 0 <= l < |xs| :: r[l] == if bits[l] then xs[l] else ys[l]
  {
    seq(|xs|, l requires 0 <= l < |xs| => if bits[l] then xs[l] else ys[l])
  }

  ghost function LanesNeg(xs: seq<real>): (r: seq<real>)
    ensures |r| == |xs| && forall l | 0 <= l < |xs| :: r[l] == -xs[l]
  {
    seq(|xs|, l requires 0 <= l < |xs| => -xs[l])
  }

  ghost function LanesMath(libm: Libm, f: MathFunction, xs: seq<real>): (r: seq<real>)
    ensures |r| == |xs| && forall l | 0 <= l < |xs| :: r[l] == ApplyMath(libm, f, xs[l])
  {
    seq(|xs|, l requires 0 <= l < |xs| => ApplyMath(libm, f, xs[l]))
  }

  /** The value an instruction yields; None is an instruction that is stuck, such as a load out of bounds. */
  ghost function Yields(h: Host, regs: Registers, op: Op): Option<Val> {
    match op
    case SlotPointer(index) => Some(Slot(index))
    case LoadBase(slot) =>
      var s := EvalOperand(h, regs, slot);
      if s.Some? && s.value.Slot? && 0 <= s.value.k < |h.inputs| then Some(Address(Input(s.value.k), 0)) else None
    case FloatPointer(base, index) =>
      var b, i := EvalOperand(h, regs, base), EvalOperand(h, regs, index);
      if b.Some? && b.value.Address? && i.Some? && i.value.Int? then
        Some(Address(b.value.buffer, b.value.offset + i.value.n))
      else None
    case BitCast(pointer) => EvalOperand(h, regs, pointer)
    case LoadFloats(pointer, lanes) =>
      var p := EvalOperand(h, regs, pointer);
      if p.Some? && p.value.Address? && p.value.buffer.Input? && p.value.buffer.k < |h.inputs|
         && 0 <= p.value.offset && p.value.offset + lanes <= |h.inputs[p.value.buffer.k]|
      then Some(Lanes(h.inputs[p.value.buffer.k][p.value.offset..p.value.offset + lanes]))
      else None
    case StoreFloats(value, pointer) => None
    case Arith(kind, left, right) =>
      var x, y := EvalOperand(h, regs, left), EvalOperand(h, regs, right);
      if x.Some? && y.Some? && x.value.Lanes? && y.value.Lanes? && |x.value.xs| == |y.value.xs| then
        Some(Lanes(LanesArith(h.libm, kind, x.value.xs, y.value.xs)))
      else None
    case FNeg(operand) =>
      var x := EvalOperand(h, regs, operand);
      if x.Some? && x.value.Lanes? then Some(Lanes(LanesNeg(x.value.xs))) else None
    case FCmp(p, left, right) =>
      var x, y := EvalOperand(h, regs, left), EvalOperand(h, regs, right);
      if x.Some? && y.Some? && x.value.Lanes? && y.value.Lanes? && |x.value.xs| == |y.value.xs| then
        Some(Mask(LanesCompare(p, x.value.xs, y.value.xs)))
      else None
    case Select(mask, left, right) =>
      var c, x, y := EvalOperand(h, regs, mask), EvalOperand(h, regs, left), EvalOperand(h, regs, right);
      if c.Some? && x.Some? && y.Some? && c.value.Mask? && x.value.Lanes? && y.value.Lanes?
         && |c.value.bits| == |x.value.xs| == |y.value.xs|
      then Some(Lanes(LanesSelect(c.value.bits, x.value.xs, y.value.xs)))
      else None
    case Call(f, operand) =>
      var x := EvalOperand(h, regs, operand);
      if x.Some? && x.value.Lanes? && |x.value.xs| == 1 then Some(Lanes(LanesMath(h.libm, f, x.value.xs))) else None
    case SExt(operand) =>
      var x := EvalOperand(h, regs, operand);
      if x.Some? && x.value.Int? then x else None
    case IntAdd(left, right) =>
      var x, y := EvalOperand(h, regs, left), EvalOperand(h, regs, right);
      if x.Some? && y.Some? && x.value.Int? && y.value.Int? then Some(Int(Wrap32(x.value.n + y.value.n))) else None
    case IntSub(left, right) =>
      var x, y := EvalOperand(h, regs, left), EvalOperand(h, regs, right);
      if x.Some? && y.Some? && x.value.Int? && y.value.Int? then Some(Int(Wrap32(x.value.n - y.value.n))) else None
    case IntSRem(left, right) =>
      var x, y := EvalOperand(h, regs, left), EvalOperand(h, regs, right);
      if x.Some? && y.Some? && x.value.Int? && y.value.Int? && y.value.n != 0 then
        Some(Int(SRem(x.value.n, y.value.n)))
      else None
    case IntSGE(left, right) =>
      var x, y := EvalOperand(h, regs, left), EvalOperand(h, regs, right);
      if x.Some? && y.Some? && x.value.Int? && y.value.Int? then Some(Mask([x.value.n >= y.value.n])) else None
  }

  /** The elements a store writes. */
  ghost function Written(offset: int, xs: seq<real>): (r: seq<(int, real)>)
    ensures |r| == |xs|
  {
    seq(|xs|, l requires 0 <= l < |xs| => (offset + l, xs[l]))
  }

  ghost function ExecInst(h: Host, inst: Inst, st: State): Option<State> {
    if inst.op.StoreFloats? then
      var x, p := EvalOperand(h, st.regs, inst.op.value), EvalOperand(h, st.regs, inst.op.pointer);
      if x.Some? && x.value.Lanes? && p.Some? && p.value.Address? && p.value.buffer.Output? then
        Some(State(st.regs, st.log + Written(p.value.offset, x.value.xs)))
      else None
    else
      var v := Yields(h, st.regs, inst.op);
      if v.Some? then Some(State(st.regs[inst.dest := v.value], st.log)) else None
  }

  /** Runs straight-line code. */
  ghost function Exec(h: Host, code: seq<Inst>, st: State): Option<State> {
    if code == [] then Some(st)
    else
      var n := |code| - 1;
      var before := Exec(h, code[..n], st);
      if before.Some? then ExecInst(h, code[n], before.value) else None
  }

  lemma {:induction false} ExecAppend(h: Host, a: seq<Inst>, b: seq<Inst>, st: State)
    ensures Exec(h, a + b, st) ==
      if Exec(h, a, st).Some? then Exec(h, b, Exec(h, a, st).value) else None
  {
    if b == [] {
      assert a + b == a;
    } else {
      var n := |b| - 1;
      ExecAppend(h, a, b[..n], st);
      assert (a + b)[..|a + b| - 1] == a + b[..n];
    }
  }

  lemma ExecOne(h: Host, inst: Inst, st: State)
    ensures Exec(h, [inst], st) == ExecInst(h, inst, st)
  {
    assert [inst][..0] == [];
  }

  // ----- control flow

  type Label = string

  datatype Phi = Phi(dest: nat, incoming: map<Label, Operand>)

  datatype Terminator =
    | Br(target: Label)
    | CondBr(condition: Operand, whenTrue: Label, whenFalse: Label)
    | Ret
    | Open

  /** A block: at most one phi, straight-line code, a terminator. */
  datatype Block = Block(phi: Option<Phi>, code: seq<Inst>, terminator: Terminator)

  type Blocks = map<Label, Block>

  datatype Config = At(at: Label, from: Label, st: State) | Done(log: seq<(int, real)>)

  ghost function EnterBlock(h: Host, block: Block, from: Label, st: State): Option<State> {
    match block.phi
    case None => Some(st)
    case Some(phi) =>
      if from in phi.incoming then
        var v := EvalOperand(h, st.regs, phi.incoming[from]);
        if v.Some? then Some(State(st.regs[phi.dest := v.value], st.log)) else None
      else None
  }

  ghost function LeaveBlock(h: Host, block: Block, here: Label, st: State): Option<Config> {
    match block.terminator
    case Br(target) => Some(At(target, here, st))
    case CondBr(condition, whenTrue, whenFalse) =>
      var c := EvalOperand(h, st.regs, condition);
      if c.Some? && c.value.Mask? && |c.value.bits| == 1 then
        Some(At(if c.value.bits[0] then whenTrue else whenFalse, here, st))
      else None
    case Ret => Some(Done(st.log))
    case Open => None
  }

  /** Runs one block. */
  ghost function StepBlock(h: Host, blocks: Blocks, c: Config): Option<Config> {
    if c.At? && c.at in blocks then
      var block := blocks[c.at];
      var entered := EnterBlock(h, block, c.from, c.st);
      if entered.None? then None
      else
        var ran := Exec(h, block.code, entered.value);
        if ran.None? then None else LeaveBlock(h, block, c.at, ran.value)
    else None
  }

  /** Some number of block steps leads from one configuration to the other. */
  ghost predicate Reaches(h: Host, blocks: Blocks, c: Config, d: Config, n: nat)
    decreases n
  {
    if n == 0 then c == d
    else var next := StepBlock(h, blocks, c); next.Some? && Reaches(h, blocks, next.value, d, n - 1)
  }

  lemma {:induction false} ReachesTransitive(h: Host, blocks: Blocks, c: Config, d: Config, e: Config, n: nat, k: nat)
    requires Reaches(h, blocks, c, d, n) && Reaches(h, blocks, d, e, k)
    ensures Reaches(h, blocks, c, e, n + k)
    decreases n
  {
    if n > 0 {
      ReachesTransitive(h, blocks, StepBlock(h, blocks, c).value, d, e, n - 1, k);
    }
  }

  /** A call of the kernel ends having written exactly this, in this order. */
  ghost predicate Writes(h: Host, blocks: Blocks, log: seq<(int, real)>) {
    exists n: nat :: Reaches(h, blocks, At("entry", "", State(map[], [])), Done(log), n)
  }

  /** Execution is deterministic: a call ends in one way at most. */
  lemma {:induction false} OneOutcome(h: Host, blocks: Blocks, c: Config, a: seq<(int, real)>, b: seq<(int, real)>, n: nat, k: nat)
    requires Reaches(h, blocks, c, Done(a), n) && Reaches(h, blocks, c, Done(b), k)
    ensures a == b
    decreases n
  {
    if n > 0 && k > 0 {
      OneOutcome(h, blocks, StepBlock(h, blocks, c).value, a, b, n - 1, k - 1);
    }
  }
}
