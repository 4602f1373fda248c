/** When two shapes can be made equal at all. */
module ShapeSolutions {
  import opened ShapeUnify

  /** What a dimension stands for. */
  datatype Size = Symbol(name: string) | Static(value: int)

  ghost function SizeOf(d: Dimension): Size {
    if d.Symbolic() then Symbol(d.symbol) else Static(d.size)
  }

  ghost function ValueOf(t: Size, sigma: Assignment): int {
    if t.Symbol? then sigma(t.name) else t.value
  }

  /** Shapes to make equal under bindings made before. */
  datatype Problem = Problem(bindings: Bindings, producer: Shape, consumer: Shape)

  ghost predicate Meet(p: Problem, t: Size, u: Size) {
    || (exists i | 0 <= i < |p.producer| && i < |p.consumer| :: SizeOf(p.producer[i]) == t && SizeOf(p.consumer[i]) == u)
    || (t.Symbol? && t.name in p.bindings && u == Static(p.bindings[t.name]))
  }

  /** The two meet on an axis, or one is bound to the other. */
  ghost predicate Linked(p: Problem, t: Size, u: Size) {
    Meet(p, t, u) || Meet(p, u, t)
  }

  /** Each size of the chain meets the next. */
  ghost predicate Chain(p: Problem, chain: seq<Size>) {
    chain != [] && forall k | 0 <= k < |chain| - 1 :: Linked(p, chain[k], chain[k + 1])
  }

  ghost predicate Joins(p: Problem, chain: seq<Size>, t: Size, u: Size) {
    Chain(p, chain) && chain[0] == t && chain[|chain| - 1] == u
  }

  ghost predicate Joined(p: Problem, t: Size, u: Size) {
    exists chain :: Joins(p, chain, t, u)
  }

  /** No chain of axes joins two different static sizes. */
  ghost predicate ConflictFree(p: Problem) {
    forall u, v | Joined(p, Static(u), Static(v)) :: u == v
  }

  lemma JoinedSelf(p: Problem, t: Size)
    ensures Joined(p, t, t)
  {
    assert Joins(p, [t], t, t);
  }

  lemma JoinedStep(p: Problem, t: Size, u: Size, v: Size)
    requires Linked(p, t, u) && Joined(p, u, v)
    ensures Joined(p, t, v)
  {
    hide Linked;
    var chain :| Joins(p, chain, u, v);
    var longer := [t] + chain;
    forall k | 0 <= k < |longer| - 1
      ensures Linked(p, longer[k], longer[k + 1])
    {
      if k > 0 {
        assert longer[k] == chain[k - 1] && longer[k + 1] == chain[k - 1 + 1];
      }
    }
    assert Joins(p, longer, t, v);
  }

  lemma ChainTail(p: Problem, chain: seq<Size>)
    requires Chain(p, chain) && |chain| > 1
    ensures Linked(p, chain[0], chain[1]) && Chain(p, chain[1..])
  {
    hide Linked;
    assert Linked(p, chain[0], chain[0 + 1]);
    forall k | 0 <= k < |chain| - 2
      ensures Linked(p, chain[1..][k], chain[1..][k + 1])
    {
      assert Linked(p, chain[k + 1], chain[k + 1 + 1]);
    }
  }

  lemma {:induction false} ChainJoins(p: Problem, chain: seq<Size>, t: Size, u: Size, v: Size)
    requires Joins(p, chain, t, u) && Joined(p, t, v)
    ensures Joined(p, u, v)
    decreases |chain|
  {
    hide Linked, Joined;
    if |chain| > 1 {
      ChainTail(p, chain);
      LinkedBack(p, t, chain[1]);
      JoinedStep(p, chain[1], t, v);
      ChainJoins(p, chain[1..], chain[1], u, v);
    }
  }

  lemma LinkedBack(p: Problem, t: Size, u: Size)
    requires Linked(p, t, u)
    ensures Linked(p, u, t)
  {
  }

  /** The static size a size is joined to, and an arbitrary one otherwise. */
  ghost function Inherited(p: Problem, t: Size): int {
    if exists v :: Joined(p, t, Static(v)) then
      var v :| Joined(p, t, Static(v));
      v
    else 0
  }

  lemma InheritedFrom(p: Problem, t: Size, v: int)
    requires ConflictFree(p) && Joined(p, t, Static(v))
    ensures Inherited(p, t) == v
  {
    var w := Inherited(p, t);
    var chain :| Joins(p, chain, t, Static(v));
    ChainJoins(p, chain, t, Static(v), Static(w));
  }

  lemma InheritedSame(p: Problem, t: Size, u: Size)
    requires ConflictFree(p) && Linked(p, t, u)
    ensures Inherited(p, t) == Inherited(p, u)
  {
    hide Joined, Linked, ConflictFree;
    LinkedBack(p, t, u);
    if v :| Joined(p, t, Static(v)) {
      JoinedStep(p, u, t, Static(v));
      InheritedFrom(p, t, v);
      InheritedFrom(p, u, v);
    } else if v :| Joined(p, u, Static(v)) {
      JoinedStep(p, t, u, Static(v));
    }
  }

  lemma StaticInherited(p: Problem, v: int)
    requires ConflictFree(p)
    ensures Inherited(p, Static(v)) == v
  {
    JoinedSelf(p, Static(v));
    InheritedFrom(p, Static(v), v);
  }

  ghost predicate Unifier(p: Problem, sigma: Assignment) {
    Extends(sigma, p.bindings) && Unifies(sigma, p.producer, p.consumer)
  }

  lemma UnifierLinks(p: Problem, sigma: Assignment, t: Size, u: Size)
    requires Unifier(p, sigma) && Linked(p, t, u)
    ensures ValueOf(t, sigma) == ValueOf(u, sigma)
  {
    forall i | 0 <= i < |p.producer|
      ensures ValueOf(SizeOf(p.producer[i]), sigma) == ValueOf(SizeOf(p.consumer[i]), sigma)
    {
      assert Eval(p.producer[i], sigma) == Eval(p.consumer[i], sigma);
    }
  }

  lemma {:induction false} ConstantAlong(p: Problem, sigma: Assignment, chain: seq<Size>)
    requires Unifier(p, sigma) && Chain(p, chain)
    ensures ValueOf(chain[0], sigma) == ValueOf(chain[|chain| - 1], sigma)
    decreases |chain|
  {
    hide Unifier, Linked;
    if |chain| > 1 {
      ChainTail(p, chain);
      UnifierLinks(p, sigma, chain[0], chain[1]);
      ConstantAlong(p, sigma, chain[1..]);
    }
  }

  lemma InheritingUnifies(p: Problem, sigma: Assignment)
    requires |p.producer| == |p.consumer| && ConflictFree(p)
    requires forall s :: sigma(s) == Inherited(p, Symbol(s))
    ensures Unifier(p, sigma)
  {
    hide Inherited, ConflictFree;
    forall t: Size
      ensures ValueOf(t, sigma) == Inherited(p, t)
    {
      if t.Static? {
        StaticInherited(p, t.value);
      }
    }
    forall s | s in p.bindings
      ensures sigma(s) == p.bindings[s]
    {
      InheritedSame(p, Symbol(s), Static(p.bindings[s]));
      StaticInherited(p, p.bindings[s]);
    }
    forall i | 0 <= i < |p.producer|
      ensures Eval(p.producer[i], sigma) == Eval(p.consumer[i], sigma)
    {
      InheritedSame(p, SizeOf(p.producer[i]), SizeOf(p.consumer[i]));
    }
  }

  /**
   Two shapes have a common assignment that extends the bindings exactly when their ranks
   agree and no chain of axes and bindings joins two different static sizes.
   */
  lemma UnifierExistsIff(p: Problem)
    ensures (exists sigma: Assignment :: Unifier(p, sigma)) <==> |p.producer| == |p.consumer| && ConflictFree(p)
  {
    if |p.producer| == |p.consumer| && ConflictFree(p) {
      var sigma: Assignment := (s: string) => Inherited(p, Symbol(s));
      InheritingUnifies(p, sigma);
    }
    if sigma: Assignment :| Unifier(p, sigma) {
      forall u, v | Joined(p, Static(u), Static(v))
        ensures u == v
      {
        var chain :| Joins(p, chain, Static(u), Static(v));
        ConstantAlong(p, sigma, chain);
      }
    }
  }
}
