/** The reverse-mode tape over gradient buffers that are added into in place. */
module Tape {
  import opened Wrappers
  import opened TapeAlgebra

  /** The gradient slot of every tensor: a buffer once a contribution has arrived. */
  class GradientStore {
    var grad: map<Tensor, array<real>>
    const needing: set<Tensor>

    constructor (needing: set<Tensor>)
      ensures this.needing == needing && grad == map[]
    {
      this.needing := needing;
      grad := map[];
    }

    /** No two tensors share a gradient buffer. */
    ghost predicate Valid()
      reads this
    {
      forall s, t | s in grad && t in grad && s != t :: grad[s] != grad[t]
    }

    ghost function Buffers(): set<array<real>>
      reads this
    {
      set t | t in grad :: grad[t]
    }

    /** The gradients the buffers hold. */
    ghost function Contents(): Gradients
      reads this, Buffers()
    {
      map t | t in grad :: grad[t][..]
    }

    lemma Slot(t: Tensor)
      ensures t in grad <==> t in Contents()
      ensures t in grad ==> grad[t] in Buffers() && grad[t][..] == Contents()[t]
    {
    }

    /** Stores the seed of the reverse walk. */
    method SetHostGrad(target: Tensor, seed: array<real>)
      requires Valid() && seed !in Buffers()
      modifies `grad
      ensures Valid() && grad == old(grad)[target := seed]
    {
      grad := grad[target := seed];
    }

    /** Adds a contribution into the target's buffer, or keeps it as the buffer if it is the first. */
    method AccumulateGrad(target: Tensor, delta: array<real>) returns (error: Option<TapeError>)
      requires Valid() && delta !in Buffers()
      modifies this, Buffers()
      ensures Valid() && Buffers() <= old(Buffers()) + {delta}
      ensures match Accumulate(old(Contents()), target, old(delta[..]))
              case Success(g) => error.None? && Contents() == g
              case Failure(e) => error == Some(e) && Contents() == old(Contents())
    {
      ghost var before := Contents();
      if target !in grad {
        grad := grad[target := delta];
        assert Contents() == before[target := delta[..]];
        return None;
      }
      var existing := grad[target];
      assert existing in Buffers();
      if existing.Length != delta.Length {
        return Some(ShapeMismatch);
      }
      ghost var start := existing[..];
      for i := 0 to existing.Length
        invariant grad == old(grad) && Valid()
        invariant existing.Length == |start| == delta.Length && delta[..] == old(delta[..])
        invariant forall j | 0 <= j < i :: existing[j] == start[j] + delta[j]
        invariant forall j | i <= j < existing.Length :: existing[j] == start[j]
        invariant forall t | t in grad && t != target :: grad[t][..] == before[t]
      {
        existing[i] := existing[i] + delta[i];
      }
      assert existing[..] == Add(start, delta[..]);
      assert Contents() == before[target := Add(start, delta[..])];
      return None;
    }
  }

  method NewBuffer(v: Vector) returns (b: array<real>)
    ensures fresh(b) && b[..] == v
  {
    b := new real[|v|](i requires 0 <= i < |v| => v[i]);
    assert b[..] == v;
  }

  /** Buffers of their own for the tensors a backward function returns. */
  method NewBuffers(vs: seq<Vector>) returns (bs: seq<array<real>>)
    ensures |bs| == |vs| && forall k | 0 <= k < |bs| :: fresh(bs[k]) && bs[k][..] == vs[k]
    ensures forall j, k | 0 <= j < k < |bs| :: bs[j] != bs[k]
  {
    bs := [];
    for i := 0 to |vs|
      invariant |bs| == i && forall k | 0 <= k < i :: fresh(bs[k]) && bs[k][..] == vs[k]
      invariant forall j, k | 0 <= j < k < i :: bs[j] != bs[k]
    {
      var b := NewBuffer(vs[i]);
      bs := bs + [b];
    }
  }

  /** Every buffer of the store was there before or is new. */
  twostate predicate OwnBuffers(store: GradientStore)
    reads store
  {
    forall b | b in store.Buffers() :: b in old(store.Buffers()) || fresh(b)
  }

  class Tape {
    var nodes: seq<GradFn>

    constructor ()
      ensures nodes == []
    {
      nodes := [];
    }

    method Record(node: GradFn)
      modifies this
      ensures nodes == old(nodes) + [node]
    {
      nodes := nodes + [node];
    }

    method Clear()
      modifies this
      ensures nodes == []
    {
      nodes := [];
    }

    /** Hands the gradients of one operation to those of its inputs that require them. */
    method Distribute(store: GradientStore, inputs: seq<Tensor>, deltas: seq<Vector>) returns (error: Option<TapeError>)
      requires store.Valid() && |deltas| == |inputs|
      modifies store, store.Buffers()
      ensures store.Valid() && OwnBuffers(store)
      ensures match AccumulateTo(old(store.Contents()), inputs, deltas, store.needing, |inputs|)
              case Success(g) => error.None? && store.Contents() == g
              case Failure(e) => error == Some(e)
    {
      var buffers := NewBuffers(deltas);
      ghost var before := old(store.Contents());
      hide AccumulateTo, Accumulate, GradientStore.Contents;
      AccumulateToNone(before, inputs, deltas, store.needing);
      for k := 0 to |inputs|
        invariant store.Valid() && OwnBuffers(store)
        invariant forall j | k <= j < |buffers| :: buffers[j] !in store.Buffers() && buffers[j][..] == deltas[j]
        invariant AccumulateTo(before, inputs, deltas, store.needing, k) == Success(store.Contents())
      {
        AccumulateToNext(before, inputs, deltas, store.needing, k + 1);
        if inputs[k] in store.needing {
          error := store.AccumulateGrad(inputs[k], buffers[k]);
          if error.Some? {
            AccumulateFails(before, inputs, deltas, store.needing, k + 1);
            return;
          }
        }
      }
      return None;
    }

    /** Walks the tape backwards, adding into the gradient buffers in place. */
    method Backward(store: GradientStore) returns (error: Option<TapeError>)
      requires store.Valid()
      modifies store, store.Buffers()
      ensures nodes == old(nodes) && store.Valid() && OwnBuffers(store)
      ensures match WalkBack(nodes, |nodes|, old(store.Contents()), store.needing)
              case Success(g) => error.None? && store.Contents() == g
              case Failure(e) => error == Some(e)
    {
      if |nodes| == 0 {
        return None;
      }
      var index := |nodes|;
      ghost var before := old(store.Contents());
      hide AccumulateTo, WalkBack, StepBack, GradientStore.Contents, GradientStore.Buffers, GradientStore.Valid;
      while index > 0
        invariant 0 <= index <= |nodes| && nodes == old(nodes)
        invariant store.Valid() && OwnBuffers(store)
        invariant WalkBack(nodes, |nodes|, before, store.needing) == WalkBack(nodes, index, store.Contents(), store.needing)
      {
        var node := nodes[index - 1];
        store.Slot(node.output);
        WalkUnfolds(nodes, index, store.Contents(), store.needing);
        StepResult(node, store.Contents(), store.needing);
        if node.output !in store.grad {
          return Some(NoGradient);
        }
        var upstream := store.grad[node.output];
        var deltas := node.backFn(upstream[..]);
        if deltas.None? {
          return Some(BackwardFailed);
        }
        if |deltas.value| != |node.inputs| {
          return Some(ShapeMismatch);
        }
        error := Distribute(store, node.inputs, deltas.value);
        if error.Some? {
          return;
        }
        index := index - 1;
      }
      WalkUnfolds(nodes, 0, store.Contents(), store.needing);
      return None;
    }

    /**
     Seeds one output and walks back. Where the operations are linear and their backward
     functions adjoint, it succeeds exactly when every operation's output is seeded or read
     later, and the gradients left in the leaves' buffers then pair with any leaf tangents
     as the seed pairs with the tangent they give the output.
     */
    method BackwardFrom(store: GradientStore, output: Tensor, seed: array<real>,
                        ghost ops: seq<LinearMap>, ghost sizes: Sizes, ghost leaves: seq<Tensor>)
      returns (error: Option<TapeError>)
      requires store.Valid() && store.grad == map[]
      requires AllAdjoint(nodes, ops, sizes) && Recorded(nodes, leaves, store.needing)
      requires output in leaves + Outputs(nodes) && output in sizes && seed.Length == sizes[output]
      modifies store, seed
      ensures nodes == old(nodes)
      ensures forall v | Tangents(nodes, ops, sizes, store.needing, v) ::
        error.None? <==> Fed(nodes, map[output := old(seed[..])], |nodes|)
      ensures error.None? ==> forall v | Tangents(nodes, ops, sizes, store.needing, v) ::
        Sized(store.Contents(), v) && Pairing(store.Contents(), v, leaves) == Dot(old(seed[..]), v[output])
    {
      ghost var start := seed[..];
      store.SetHostGrad(output, seed);
      ghost var g: Gradients := map[output := start];
      assert store.Contents() == g;
      error := Backward(store);
      hide AllAdjoint, Recorded, WalkBack, Fed, Pairing, Dot;
      forall v | Tangents(nodes, ops, sizes, store.needing, v)
        ensures error.None? <==> Fed(nodes, g, |nodes|)
        ensures error.None? ==>
          Sized(store.Contents(), v) && Pairing(store.Contents(), v, leaves) == Dot(start, v[output])
      {
        WalkSucceedsIff(nodes, ops, sizes, leaves, store.needing, v, g, |nodes|);
        if error.None? {
          BackwardIsAdjoint(nodes, ops, sizes, leaves, store.needing, v, output, start);
        }
      }
    }
  }

  lemma StepResult(node: GradFn, g: Gradients, needing: set<Tensor>)
    ensures StepBack(node, g, needing) ==
      if node.output !in g then Failure(NoGradient)
      else
        var deltas := node.backFn(g[node.output]);
        if deltas.None? then Failure(BackwardFailed)
        else if |deltas.value| != |node.inputs| then Failure(ShapeMismatch)
        else AccumulateTo(g, node.inputs, deltas.value, needing, |node.inputs|)
  {
  }

  lemma {:induction false} AccumulateFails(g: Gradients, inputs: seq<Tensor>, deltas: seq<Vector>, needing: set<Tensor>, n: nat)
    requires n <= |inputs| == |deltas| && AccumulateTo(g, inputs, deltas, needing, n).Failure?
    ensures AccumulateTo(g, inputs, deltas, needing, |inputs|) == AccumulateTo(g, inputs, deltas, needing, n)
    decreases |inputs| - n
  {
    if n < |inputs| {
      AccumulateFails(g, inputs, deltas, needing, n + 1);
    }
  }
}
