/** What reverse accumulation does to gradients, and why it computes the adjoint. */
module TapeAlgebra {
  import opened Wrappers

  type Tensor = nat

  type Vector = seq<real>

  type Gradients = map<Tensor, Vector>

  datatype TapeError = NoGradient | BackwardFailed | ShapeMismatch

  /** A recorded operation: what it read, what it made, and how gradients flow back. */
  datatype GradFn = GradFn(inputs: seq<Tensor>, output: Tensor, backFn: Vector -> Option<seq<Vector>>)

  ghost function Add(a: Vector, b: Vector): (r: Vector)
    requires |a| == |b|
    ensures |r| == |a|
  {
    seq(|a|, i requires 0 <= i < |a| => a[i] + b[i])
  }

  /** Takes the first contribution whole and adds later ones elementwise. */
  ghost function Accumulate(g: Gradients, target: Tensor, delta: Vector): Result<Gradients, TapeError> {
    if target !in g then Success(g[target := delta])
    else if |g[target]| != |delta| then Failure(ShapeMismatch)
    else Success(g[target := Add(g[target], delta)])
  }

  /** The first `n` inputs of an operation receive their gradients, if they require any. */
  ghost function AccumulateTo(g: Gradients, inputs: seq<Tensor>, deltas: seq<Vector>, needing: set<Tensor>, n: nat):
    Result<Gradients, TapeError>
    requires n <= |inputs| == |deltas|
  {
    if n == 0 then Success(g)
    else
      var before := AccumulateTo(g, inputs, deltas, needing, n - 1);
      if before.Failure? || inputs[n - 1] !in needing then before
      else Accumulate(before.value, inputs[n - 1], deltas[n - 1])
  }

  /** One step of the reverse walk. */
  ghost function StepBack(node: GradFn, g: Gradients, needing: set<Tensor>): Result<Gradients, TapeError> {
    if node.output !in g then Failure(NoGradient)
    else
      var deltas := node.backFn(g[node.output]);
      if deltas.None? then Failure(BackwardFailed)
      else if |deltas.value| != |node.inputs| then Failure(ShapeMismatch)
      else AccumulateTo(g, node.inputs, deltas.value, needing, |node.inputs|)
  }

  /** The reverse walk over the nodes from `n - 1` down. */
  ghost function WalkBack(nodes: seq<GradFn>, n: nat, g: Gradients, needing: set<Tensor>): Result<Gradients, TapeError>
    requires n <= |nodes|
  {
    if n == 0 then Success(g)
    else
      var step := StepBack(nodes[n - 1], g, needing);
      if step.Failure? then step else WalkBack(nodes, n - 1, step.value, needing)
  }

  // ----- inner products

  ghost function Dot(a: Vector, b: Vector): real
    requires |a| == |b|
  {
    if a == [] then 0.0
    else
      var n := |a| - 1;
      Dot(a[..n], b[..n]) + a[n] * b[n]
  }

  lemma {:induction false} DotAdd(a: Vector, b: Vector, v: Vector)
    requires |a| == |b| == |v|
    ensures Dot(Add(a, b), v) == Dot(a, v) + Dot(b, v)
  {
    if a != [] {
      var n := |a| - 1;
      DotAdd(a[..n], b[..n], v[..n]);
      assert Add(a, b)[..n] == Add(a[..n], b[..n]);
    }
  }

  lemma {:induction false} DotZero(a: Vector, v: Vector)
    requires |a| == |v| && forall i | 0 <= i < |v| :: v[i] == 0.0
    ensures Dot(a, v) == 0.0
  {
    if a != [] {
      DotZero(a[..|a| - 1], v[..|a| - 1]);
    }
  }

  ghost predicate SameSizes(a: seq<Vector>, b: seq<Vector>) {
    |a| == |b| && forall k | 0 <= k < |a| :: |a[k]| == |b[k]|
  }

  /** The sum of the inner products of the first `n` pairs. */
  ghost function Dots(a: seq<Vector>, b: seq<Vector>, n: nat): real
    requires SameSizes(a, b) && n <= |a|
  {
    if n == 0 then 0.0 else Dots(a, b, n - 1) + Dot(a[n - 1], b[n - 1])
  }

  // ----- pairing gradients with tangents

  /** Each listed tensor has a tangent, and each gradient the same size as its tangent. */
  ghost predicate Sized(g: Gradients, v: Gradients) {
    forall t | t in g :: t in v && |g[t]| == |v[t]|
  }

  ghost function Term(g: Gradients, v: Gradients, t: Tensor): real
    requires Sized(g, v)
  {
    if t in g then Dot(g[t], v[t]) else 0.0
  }

  /** The inner product of all listed gradients with their tangents. */
  ghost function Pairing(g: Gradients, v: Gradients, tensors: seq<Tensor>): real
    requires Sized(g, v)
  {
    if tensors == [] then 0.0
    else
      var n := |tensors| - 1;
      Pairing(g, v, tensors[..n]) + Term(g, v, tensors[n])
  }

  ghost predicate Distinct(tensors: seq<Tensor>) {
    forall i, j | 0 <= i < j < |tensors| :: tensors[i] != tensors[j]
  }

  lemma {:induction false} PairingUnchanged(g: Gradients, h: Gradients, v: Gradients, tensors: seq<Tensor>, t: Tensor)
    requires Sized(g, v) && Sized(h, v) && t !in tensors
    requires forall s | s != t :: (s in g <==> s in h) && (s in g ==> h[s] == g[s])
    ensures Pairing(h, v, tensors) == Pairing(g, v, tensors)
  {
    if tensors != [] {
      var n := |tensors| - 1;
      assert tensors[n] in tensors;
      PairingUnchanged(g, h, v, tensors[..n], t);
    }
  }

  /** A contribution to one tensor raises the pairing by its own inner product. */
  lemma {:induction false} PairingAccumulates(g: Gradients, v: Gradients, tensors: seq<Tensor>, t: Tensor, delta: Vector)
    requires Sized(g, v) && Distinct(tensors) && t in tensors && t in v && |delta| == |v[t]|
    ensures Accumulate(g, t, delta).Success? && Sized(Accumulate(g, t, delta).value, v)
    ensures Pairing(Accumulate(g, t, delta).value, v, tensors) == Pairing(g, v, tensors) + Dot(delta, v[t])
  {
    var h := Accumulate(g, t, delta).value;
    var n := |tensors| - 1;
    AccumulatedTerm(g, v, t, delta);
    assert tensors == tensors[..n] + [tensors[n]];
    hide Accumulate, Dot, Term;
    if tensors[n] == t {
      PairingUnchanged(g, h, v, tensors[..n], t);
    } else {
      PairingAccumulates(g, v, tensors[..n], t, delta);
    }
  }

  lemma AccumulatedTerm(g: Gradients, v: Gradients, t: Tensor, delta: Vector)
    requires Sized(g, v) && t in v && |delta| == |v[t]|
    ensures Accumulate(g, t, delta).Success? && Sized(Accumulate(g, t, delta).value, v)
    ensures var h := Accumulate(g, t, delta).value;
      && Term(h, v, t) == Term(g, v, t) + Dot(delta, v[t])
      && (forall s | s != t :: (s in g <==> s in h) && (s in g ==> h[s] == g[s]) && Term(h, v, s) == Term(g, v, s))
  {
    hide Dot;
    if t in g {
      DotAdd(g[t], delta, v[t]);
    }
  }

  // ----- forward derivatives

  /** What an operation does to the tangents of its inputs. */
  type LinearMap = seq<Vector> -> Vector

  ghost function Gather(v: Gradients, names: seq<Tensor>): (r: seq<Vector>)
    ensures |r| == |names|
  {
    seq(|names|, k requires 0 <= k < |names| => if names[k] in v then v[names[k]] else [])
  }

  ghost function Outputs(nodes: seq<GradFn>): (r: seq<Tensor>)
    ensures |r| == |nodes|
  {
    seq(|nodes|, k requires 0 <= k < |nodes| => nodes[k].output)
  }

  type Sizes = map<Tensor, nat>

  ghost predicate Fits(vs: seq<Vector>, names: seq<Tensor>, sizes: Sizes) {
    |vs| == |names| && forall k | 0 <= k < |names| :: names[k] in sizes && |vs[k]| == sizes[names[k]]
  }

  /** The backward function returns one gradient of the right size for each input. */
  ghost predicate Total(node: GradFn, sizes: Sizes) {
    && node.output in sizes
    && forall u: Vector | |u| == sizes[node.output] :: node.backFn(u).Some? && Fits(node.backFn(u).value, node.inputs, sizes)
  }

  ghost predicate AdjointAt(node: GradFn, op: LinearMap, sizes: Sizes, u: Vector, xs: seq<Vector>)
    requires Total(node, sizes) && |u| == sizes[node.output] && Fits(xs, node.inputs, sizes)
  {
    |op(xs)| == sizes[node.output] && Dot(u, op(xs)) == Dots(node.backFn(u).value, xs, |xs|)
  }

  /** The backward function is the adjoint of the forward derivative. */
  ghost predicate Adjoint(node: GradFn, op: LinearMap, sizes: Sizes) {
    && Total(node, sizes)
    && forall u: Vector, xs: seq<Vector> | |u| == sizes[node.output] && Fits(xs, node.inputs, sizes) ::
      AdjointAt(node, op, sizes, u, xs)
  }

  ghost predicate AllAdjoint(nodes: seq<GradFn>, ops: seq<LinearMap>, sizes: Sizes) {
    |ops| == |nodes| && forall k | 0 <= k < |nodes| :: Adjoint(nodes[k], ops[k], sizes)
  }

  /** Recorded in forward order: each tensor made once, from leaves and tensors made before. */
  ghost predicate Recorded(nodes: seq<GradFn>, leaves: seq<Tensor>, needing: set<Tensor>) {
    && Distinct(leaves + Outputs(nodes))
    && (forall k, t | 0 <= k < |nodes| && t in nodes[k].inputs :: t in leaves + Outputs(nodes[..k]))
    && (forall k | 0 <= k < |nodes| :: nodes[k].output in needing)
  }

  /** Tangents of every tensor that the forward derivatives relate; only tensors that need gradients vary. */
  ghost predicate Tangents(nodes: seq<GradFn>, ops: seq<LinearMap>, sizes: Sizes, needing: set<Tensor>, v: Gradients)
    requires |ops| == |nodes|
  {
    && v.Keys == sizes.Keys
    && (forall t | t in v :: |v[t]| == sizes[t])
    && (forall k | 0 <= k < |nodes| ::
          nodes[k].output in v && v[nodes[k].output] == ops[k](Gather(v, nodes[k].inputs)))
    && (forall k, t | 0 <= k < |nodes| && t in nodes[k].inputs :: t in v)
    && (forall t, i | t in v && t !in needing && 0 <= i < |v[t]| :: v[t][i] == 0.0)
  }

  // ----- one step conserves the pairing

  /** The tensors among these that receive gradients. */
  ghost function Receivers(inputs: seq<Tensor>, needing: set<Tensor>): set<Tensor> {
    set t | t in inputs && t in needing
  }

  lemma ReceiversNext(inputs: seq<Tensor>, needing: set<Tensor>, n: nat)
    requires n < |inputs|
    ensures Receivers(inputs[..n + 1], needing)
         == Receivers(inputs[..n], needing) + if inputs[n] in needing then {inputs[n]} else {}
  {
    assert inputs[..n + 1] == inputs[..n] + [inputs[n]];
  }

  /** The step of `AccumulateTo` for one input. */
  ghost function AccumulateNext(g: Gradients, t: Tensor, delta: Vector, needing: set<Tensor>): Result<Gradients, TapeError> {
    if t !in needing then Success(g) else Accumulate(g, t, delta)
  }

  lemma NextConserves(g: Gradients, v: Gradients, tensors: seq<Tensor>, t: Tensor, delta: Vector, needing: set<Tensor>)
    requires Sized(g, v) && Distinct(tensors) && t in tensors && t in v && |delta| == |v[t]|
    requires t !in needing ==> forall i | 0 <= i < |v[t]| :: v[t][i] == 0.0
    ensures var r := AccumulateNext(g, t, delta, needing);
      && r.Success? && Sized(r.value, v) && r.value.Keys == g.Keys + (if t in needing then {t} else {})
      && Pairing(r.value, v, tensors) == Pairing(g, v, tensors) + Dot(delta, v[t])
  {
    if t in needing {
      PairingAccumulates(g, v, tensors, t, delta);
    } else {
      DotZero(delta, v[t]);
    }
  }

  lemma AccumulateToNext(g: Gradients, inputs: seq<Tensor>, deltas: seq<Vector>, needing: set<Tensor>, n: nat)
    requires 0 < n <= |inputs| == |deltas| && AccumulateTo(g, inputs, deltas, needing, n - 1).Success?
    ensures AccumulateTo(g, inputs, deltas, needing, n)
         == AccumulateNext(AccumulateTo(g, inputs, deltas, needing, n - 1).value, inputs[n - 1], deltas[n - 1], needing)
  {
  }

  lemma AccumulateToNone(g: Gradients, inputs: seq<Tensor>, deltas: seq<Vector>, needing: set<Tensor>)
    requires |inputs| == |deltas|
    ensures AccumulateTo(g, inputs, deltas, needing, 0) == Success(g)
  {
  }

  lemma DotsNext(us: seq<Vector>, v: Gradients, inputs: seq<Tensor>, n: nat)
    requires 0 < n <= |us| == |inputs| && SameSizes(us, Gather(v, inputs)) && inputs[n - 1] in v
    ensures |us[n - 1]| == |v[inputs[n - 1]]|
    ensures Dots(us, Gather(v, inputs), n) == Dots(us, Gather(v, inputs), n - 1) + Dot(us[n - 1], v[inputs[n - 1]])
  {
    assert Gather(v, inputs)[n - 1] == v[inputs[n - 1]];
  }

  lemma KeysNext(known: set<Tensor>, inputs: seq<Tensor>, needing: set<Tensor>, n: nat)
    requires 0 < n <= |inputs|
    ensures known + Receivers(inputs[..n], needing)
         == known + Receivers(inputs[..n - 1], needing) + (if inputs[n - 1] in needing then {inputs[n - 1]} else {})
  {
    ReceiversNext(inputs, needing, n - 1);
  }

  lemma NothingAccumulated(g: Gradients, v: Gradients, inputs: seq<Tensor>, deltas: seq<Vector>, needing: set<Tensor>)
    requires |inputs| == |deltas| && SameSizes(deltas, Gather(v, inputs))
    ensures AccumulateTo(g, inputs, deltas, needing, 0) == Success(g) && Dots(deltas, Gather(v, inputs), 0) == 0.0
    ensures g.Keys + Receivers(inputs[..0], needing) == g.Keys
  {
  }

  lemma {:induction false} AccumulateConserves(g: Gradients, v: Gradients, tensors: seq<Tensor>, inputs: seq<Tensor>,
                                               deltas: seq<Vector>, needing: set<Tensor>, n: nat)
    requires n <= |inputs| == |deltas| && Sized(g, v) && Distinct(tensors)
    requires forall k | 0 <= k < |inputs| :: inputs[k] in tensors && inputs[k] in v && |deltas[k]| == |v[inputs[k]]|
    requires forall t, i | t in v && t !in needing && 0 <= i < |v[t]| :: v[t][i] == 0.0
    requires SameSizes(deltas, Gather(v, inputs))
    ensures var r := AccumulateTo(g, inputs, deltas, needing, n);
      && r.Success? && Sized(r.value, v)
      && Pairing(r.value, v, tensors) == Pairing(g, v, tensors) + Dots(deltas, Gather(v, inputs), n)
    ensures AccumulateTo(g, inputs, deltas, needing, n).value.Keys == g.Keys + Receivers(inputs[..n], needing)
  {
    hide *;
    if n == 0 {
      NothingAccumulated(g, v, inputs, deltas, needing);
    } else {
      AccumulateConserves(g, v, tensors, inputs, deltas, needing, n - 1);
      AccumulateToNext(g, inputs, deltas, needing, n);
      KeysNext(g.Keys, inputs, needing, n);
      DotsNext(deltas, v, inputs, n);
      NextConserves(AccumulateTo(g, inputs, deltas, needing, n - 1).value, v, tensors, inputs[n - 1], deltas[n - 1], needing);
    }
  }

  lemma DistinctPrefix(tensors: seq<Tensor>, n: nat)
    requires Distinct(tensors) && n <= |tensors|
    ensures Distinct(tensors[..n])
  {
  }

  lemma OutputsNext(nodes: seq<GradFn>, leaves: seq<Tensor>, k: nat)
    requires k < |nodes|
    ensures leaves + Outputs(nodes[..k + 1]) == leaves + Outputs(nodes[..k]) + [nodes[k].output]
  {
    assert Outputs(nodes[..k + 1]) == Outputs(nodes[..k]) + [nodes[k].output];
  }

  lemma ListDistinct(nodes: seq<GradFn>, leaves: seq<Tensor>, k: nat)
    requires Distinct(leaves + Outputs(nodes)) && k <= |nodes|
    ensures Distinct(leaves + Outputs(nodes[..k]))
  {
    assert leaves + Outputs(nodes[..k]) == (leaves + Outputs(nodes))[..|leaves| + k];
    DistinctPrefix(leaves + Outputs(nodes), |leaves| + k);
  }

  lemma GatherFits(nodes: seq<GradFn>, ops: seq<LinearMap>, sizes: Sizes, needing: set<Tensor>, v: Gradients, k: nat)
    requires |ops| == |nodes| && k < |nodes| && Tangents(nodes, ops, sizes, needing, v)
    ensures Fits(Gather(v, nodes[k].inputs), nodes[k].inputs, sizes)
  {
    forall j | 0 <= j < |nodes[k].inputs|
      ensures nodes[k].inputs[j] in sizes && |Gather(v, nodes[k].inputs)[j]| == sizes[nodes[k].inputs[j]]
    {
      assert nodes[k].inputs[j] in nodes[k].inputs;
    }
  }

  /** The gradients an operation hands its inputs pair with their tangents as its own gradient does with its own. */
  lemma NodeIsAdjoint(nodes: seq<GradFn>, ops: seq<LinearMap>, sizes: Sizes, needing: set<Tensor>, v: Gradients,
                      g: Gradients, k: nat)
    requires AllAdjoint(nodes, ops, sizes) && Tangents(nodes, ops, sizes, needing, v)
    requires Sized(g, v) && k < |nodes| && nodes[k].output in g
    ensures nodes[k].backFn(g[nodes[k].output]).Some?
    ensures var deltas := nodes[k].backFn(g[nodes[k].output]).value;
      && Fits(deltas, nodes[k].inputs, sizes) && SameSizes(deltas, Gather(v, nodes[k].inputs))
      && Term(g, v, nodes[k].output) == Dots(deltas, Gather(v, nodes[k].inputs), |deltas|)
  {
    var xs := Gather(v, nodes[k].inputs);
    var u := g[nodes[k].output];
    assert Adjoint(nodes[k], ops[k], sizes);
    GatherFits(nodes, ops, sizes, needing, v, k);
    assert |u| == sizes[nodes[k].output];
    assert AdjointAt(nodes[k], ops[k], sizes, u, xs);
  }

  lemma StepConserves(nodes: seq<GradFn>, ops: seq<LinearMap>, sizes: Sizes, leaves: seq<Tensor>, needing: set<Tensor>,
                      v: Gradients, g: Gradients, k: nat)
    requires AllAdjoint(nodes, ops, sizes) && Recorded(nodes, leaves, needing) && Tangents(nodes, ops, sizes, needing, v)
    requires Sized(g, v) && k < |nodes| && nodes[k].output in g
    ensures var r := StepBack(nodes[k], g, needing);
      && r.Success? && Sized(r.value, v)
      && Pairing(r.value, v, leaves + Outputs(nodes[..k])) == Pairing(g, v, leaves + Outputs(nodes[..k + 1]))
      && r.value.Keys == g.Keys + Receivers(nodes[k].inputs, needing)
  {
    NodeIsAdjoint(nodes, ops, sizes, needing, v, g, k);
    var deltas := nodes[k].backFn(g[nodes[k].output]).value;
    var tensors := leaves + Outputs(nodes[..k]);
    OutputsNext(nodes, leaves, k);
    ListDistinct(nodes, leaves, k);
    var inputs := nodes[k].inputs;
    forall j | 0 <= j < |inputs|
      ensures inputs[j] in tensors && inputs[j] in v && |deltas[j]| == |v[inputs[j]]|
    {
      assert inputs[j] in nodes[k].inputs;
    }
    assert Pairing(g, v, tensors + [nodes[k].output]) == Pairing(g, v, tensors) + Term(g, v, nodes[k].output) by {
      assert (tensors + [nodes[k].output])[..|tensors|] == tensors;
    }
    hide AllAdjoint, Recorded, Pairing, Dots, Term, Adjoint, Fits, Outputs;
    assert inputs[..|inputs|] == inputs;
    AccumulateConserves(g, v, tensors, inputs, deltas, needing, |inputs|);
  }

  /**
   The reverse walk conserves the pairing of gradients with tangents: what the gradients
   it started from pair to over all tensors, the gradients it leaves pair to over the leaves.
   */
  lemma {:induction false} WalkIsAdjoint(nodes: seq<GradFn>, ops: seq<LinearMap>, sizes: Sizes, leaves: seq<Tensor>,
                                         needing: set<Tensor>, v: Gradients, g: Gradients, n: nat)
    requires AllAdjoint(nodes, ops, sizes) && Recorded(nodes, leaves, needing) && Tangents(nodes, ops, sizes, needing, v)
    requires Sized(g, v) && n <= |nodes| && WalkBack(nodes, n, g, needing).Success?
    ensures Sized(WalkBack(nodes, n, g, needing).value, v)
    ensures Pairing(WalkBack(nodes, n, g, needing).value, v, leaves) == Pairing(g, v, leaves + Outputs(nodes[..n]))
    decreases n
  {
    hide AllAdjoint, Recorded, Tangents, Pairing, StepBack;
    if n == 0 {
      assert leaves + Outputs(nodes[..0]) == leaves;
    } else {
      StepNeedsOutput(nodes[n - 1], g, needing);
      StepConserves(nodes, ops, sizes, leaves, needing, v, g, n - 1);
      WalkIsAdjoint(nodes, ops, sizes, leaves, needing, v, StepBack(nodes[n - 1], g, needing).value, n - 1);
    }
  }

  lemma StepNeedsOutput(node: GradFn, g: Gradients, needing: set<Tensor>)
    ensures StepBack(node, g, needing).Success? ==> node.output in g
    ensures node.output !in g ==> StepBack(node, g, needing) == Failure(NoGradient)
  {
  }

  /** Seeding one output: its seed pairs with its tangent as the leaf gradients do with the leaf tangents. */
  lemma BackwardIsAdjoint(nodes: seq<GradFn>, ops: seq<LinearMap>, sizes: Sizes, leaves: seq<Tensor>,
                          needing: set<Tensor>, v: Gradients, output: Tensor, seed: Vector)
    requires AllAdjoint(nodes, ops, sizes) && Recorded(nodes, leaves, needing) && Tangents(nodes, ops, sizes, needing, v)
    requires output in leaves + Outputs(nodes) && output in v && |seed| == |v[output]|
    requires WalkBack(nodes, |nodes|, map[output := seed], needing).Success?
    ensures Sized(WalkBack(nodes, |nodes|, map[output := seed], needing).value, v)
    ensures Pairing(WalkBack(nodes, |nodes|, map[output := seed], needing).value, v, leaves) == Dot(seed, v[output])
  {
    var g := map[output := seed];
    assert nodes[..|nodes|] == nodes;
    ListDistinct(nodes, leaves, |nodes|);
    hide AllAdjoint, Tangents;
    WalkIsAdjoint(nodes, ops, sizes, leaves, needing, v, g, |nodes|);
    PairingOfNothing(v, leaves + Outputs(nodes));
    PairingAccumulates(map[], v, leaves + Outputs(nodes), output, seed);
  }

  lemma {:induction false} PairingOfNothing(v: Gradients, tensors: seq<Tensor>)
    ensures Pairing(map[], v, tensors) == 0.0
  {
    if tensors != [] {
      PairingOfNothing(v, tensors[..|tensors| - 1]);
    }
  }

  // ----- when the walk succeeds

  /** Some operation between the two positions reads the tensor. */
  ghost predicate ReadBetween(nodes: seq<GradFn>, t: Tensor, after: int, before: int) {
    exists j | 0 <= j < |nodes| :: after < j < before && t in nodes[j].inputs
  }

  /** Every output below position `n` is seeded or read by a later operation. */
  ghost predicate Fed(nodes: seq<GradFn>, g: Gradients, n: nat)
    requires n <= |nodes|
  {
    forall k | 0 <= k < n :: nodes[k].output in g || ReadBetween(nodes, nodes[k].output, k, n)
  }

  lemma FedStep(nodes: seq<GradFn>, g: Gradients, h: Gradients, needing: set<Tensor>, n: nat)
    requires 0 < n <= |nodes| && forall k | 0 <= k < |nodes| :: nodes[k].output in needing
    requires h.Keys == g.Keys + Receivers(nodes[n - 1].inputs, needing)
    requires nodes[n - 1].output in g
    ensures Fed(nodes, g, n) <==> Fed(nodes, h, n - 1)
  {
    forall k | 0 <= k < n - 1
      ensures (nodes[k].output in g || ReadBetween(nodes, nodes[k].output, k, n))
         <==> (nodes[k].output in h || ReadBetween(nodes, nodes[k].output, k, n - 1))
    {
      var t := nodes[k].output;
      if t in nodes[n - 1].inputs {
        assert ReadBetween(nodes, t, k, n);
      }
    }
  }

  lemma LastIsNotRead(nodes: seq<GradFn>, n: nat)
    requires 0 < n <= |nodes|
    ensures !ReadBetween(nodes, nodes[n - 1].output, n - 1, n)
  {
  }

  /** The walk succeeds exactly when every operation's output is seeded or read by a later operation. */
  lemma {:induction false} WalkSucceedsIff(nodes: seq<GradFn>, ops: seq<LinearMap>, sizes: Sizes, leaves: seq<Tensor>,
                                           needing: set<Tensor>, v: Gradients, g: Gradients, n: nat)
    requires AllAdjoint(nodes, ops, sizes) && Recorded(nodes, leaves, needing) && Tangents(nodes, ops, sizes, needing, v)
    requires Sized(g, v) && n <= |nodes|
    ensures WalkBack(nodes, n, g, needing).Success? <==> Fed(nodes, g, n)
    ensures WalkBack(nodes, n, g, needing).Failure? ==> WalkBack(nodes, n, g, needing).error == NoGradient
    decreases n
  {
    hide *;
    WalkUnfolds(nodes, n, g, needing);
    if n > 0 {
      StepNeedsOutput(nodes[n - 1], g, needing);
      if nodes[n - 1].output in g {
        StepConserves(nodes, ops, sizes, leaves, needing, v, g, n - 1);
        var h := StepBack(nodes[n - 1], g, needing).value;
        OutputsNeeded(nodes, leaves, needing);
        FedStep(nodes, g, h, needing, n);
        WalkSucceedsIff(nodes, ops, sizes, leaves, needing, v, h, n - 1);
      } else {
        UnfedLast(nodes, g, n);
      }
    } else {
      FedNothing(nodes, g);
    }
  }

  lemma WalkUnfolds(nodes: seq<GradFn>, n: nat, g: Gradients, needing: set<Tensor>)
    requires n <= |nodes|
    ensures n == 0 ==> WalkBack(nodes, n, g, needing) == Success(g)
    ensures n > 0 && StepBack(nodes[n - 1], g, needing).Failure? ==>
      WalkBack(nodes, n, g, needing) == StepBack(nodes[n - 1], g, needing)
    ensures n > 0 && StepBack(nodes[n - 1], g, needing).Success? ==>
      WalkBack(nodes, n, g, needing) == WalkBack(nodes, n - 1, StepBack(nodes[n - 1], g, needing).value, needing)
  {
  }

  lemma OutputsNeeded(nodes: seq<GradFn>, leaves: seq<Tensor>, needing: set<Tensor>)
    requires Recorded(nodes, leaves, needing)
    ensures forall k | 0 <= k < |nodes| :: nodes[k].output in needing
  {
  }

  lemma UnfedLast(nodes: seq<GradFn>, g: Gradients, n: nat)
    requires 0 < n <= |nodes| && nodes[n - 1].output !in g
    ensures !Fed(nodes, g, n)
  {
    LastIsNotRead(nodes, n);
    assert !(nodes[n - 1].output in g || ReadBetween(nodes, nodes[n - 1].output, n - 1, n));
  }

  lemma FedNothing(nodes: seq<GradFn>, g: Gradients)
    ensures Fed(nodes, g, 0)
  {
  }
}
