/** Direct unification of port types. */
module Unify {
  import opened Wrappers
  import opened ShapeUnify
  import opened ShapeSolutions
  import opened Constraints

  type DType = nat

  const INVALID: DType := 0
  const FLOAT32: DType := 2

  datatype Layout = Unspecified | Contiguous | Strided | Tiled | ChannelFirst | ChannelLast

  const GENERIC := ""

  datatype PortType = PortType(dtype: DType, shape: Shape, layout: Layout, kind: string, constraints: seq<Constraint>)

  datatype UnificationError =
    | DTypeMismatch
    | LayoutMismatch
    | BadShape(shape: ShapeError)
    | KindMismatch
    | BadConstraint(constraint: ConstraintError)

  predicate CompatibleDTypes(a: DType, b: DType) {
    a == b || a == INVALID || b == INVALID
  }

  ghost predicate CompatibleLayouts(a: Layout, b: Layout) {
    a == b || a == Unspecified || b == Unspecified
  }

  ghost predicate CompatibleKinds(a: string, b: string) {
    a == b || a == GENERIC || b == GENERIC
  }

  /** Data types, layouts and kinds agree where both ports state them. */
  ghost predicate Compatible(producer: PortType, consumer: PortType) {
    && (producer.dtype == consumer.dtype || producer.dtype == 0 || consumer.dtype == 0)
    && (producer.layout == consumer.layout || producer.layout.Unspecified? || consumer.layout.Unspecified?)
    && (producer.kind == consumer.kind || producer.kind == "" || consumer.kind == "")
  }

  /** The data type, layout and kind are the producer's, or the consumer's where the producer states none. */
  ghost predicate MoreSpecific(producer: PortType, consumer: PortType, unified: PortType) {
    && unified.dtype == (if producer.dtype != 0 then producer.dtype else if consumer.dtype != 0 then consumer.dtype else 2)
    && unified.layout == (if producer.layout.Unspecified? then consumer.layout else producer.layout)
    && unified.kind == (if producer.kind == "" then consumer.kind else producer.kind)
  }

  function UnifiedDType(a: DType, b: DType): (r: DType)
    ensures CompatibleDTypes(a, b) ==> CompatibleDTypes(a, r) && CompatibleDTypes(b, r)
    ensures r != INVALID
  {
    if a != INVALID then a else if b != INVALID then b else FLOAT32
  }

  /** The more specific of two layouts, if they agree. */
  function UnifyLayout(a: Layout, b: Layout): (r: Option<Layout>)
    ensures r.Some? <==> CompatibleLayouts(a, b)
    ensures r.Some? ==> (r.value == a || r.value == b) && (r.value == Unspecified ==> a == b)
  {
    if a == Unspecified then Some(b)
    else if b == Unspecified then Some(a)
    else if a == b then Some(a)
    else None
  }

  /** The more specific of two kinds, if they agree. */
  function UnifyKind(a: string, b: string): (r: Option<string>)
    ensures r.Some? <==> CompatibleKinds(a, b)
    ensures r.Some? ==> (r.value == a || r.value == b) && (r.value == GENERIC ==> a == b)
  {
    if a == GENERIC then Some(b)
    else if b == GENERIC then Some(a)
    else if a == b then Some(a)
    else None
  }

  function EqualityConstraints(equalities: seq<Equality>): (r: seq<Constraint>)
    ensures |r| == |equalities|
  {
    seq(|equalities|, k requires 0 <= k < |equalities| => SymbolEquality(equalities[k].left, equalities[k].right))
  }

  /** An assignment that makes the shapes equal and every constraint of both ports true. */
  ghost predicate Solution(sigma: Assignment, producer: PortType, consumer: PortType) {
    && Unifies(sigma, producer.shape, consumer.shape)
    && (forall c | c in producer.constraints :: Holds(c, producer.shape, sigma))
    && (forall c | c in consumer.constraints :: Holds(c, consumer.shape, sigma))
  }

  ghost predicate NonzeroDivisors(port: PortType) {
    forall c | c in port.constraints :: NonzeroDivisor(c)
  }

  // ----- acceptance, read off the two ports

  /** The constraints of both ports, then an equality for each axis where two symbols meet. */
  ghost function AllConstraints(producer: PortType, consumer: PortType): seq<Constraint>
    requires |producer.shape| == |consumer.shape|
  {
    producer.constraints + consumer.constraints
    + EqualityConstraints(EqualitiesTo(producer.shape, consumer.shape, |producer.shape|))
  }

  /** Some static size fixes the symbol to this size. */
  ghost predicate Fixed(producer: Shape, consumer: Shape, symbol: string, size: int)
    requires |producer| == |consumer|
  {
    Fixes(map[], producer, consumer, |producer|, symbol, size)
  }

  /** The shapes fix the size of this axis. */
  ghost predicate AxisFixed(producer: Shape, consumer: Shape, i: nat, size: int)
    requires i < |producer| == |consumer|
  {
    var d := UnifiedDimension(producer[i], consumer[i]);
    if d.Symbolic() then Fixed(producer, consumer, d.symbol, size) else size == d.size
  }

  /** The constraint names an axis and the shapes fix its size. */
  ghost predicate SizeFixed(producer: Shape, consumer: Shape, axis: int, size: int)
    requires |producer| == |consumer|
  {
    var k := AxisOf(axis, |producer|);
    k.Some? && AxisFixed(producer, consumer, k.value, size)
  }

  /** The sizes the shapes fix meet the constraint. */
  ghost predicate Meets(c: Constraint, producer: Shape, consumer: Shape)
    requires |producer| == |consumer|
  {
    match c
    case Divisibility(axis, divisor) =>
      forall v | SizeFixed(producer, consumer, axis, v) :: divisor != 0 && MultipleOf(v, divisor)
    case Range(axis, min, max) =>
      forall v | SizeFixed(producer, consumer, axis, v) :: min <= v <= max
    case SymbolEquality(left, right) =>
      forall u, v | Fixed(producer, consumer, left, u) && Fixed(producer, consumer, right, v) :: u == v
  }

  /** Ranks agree, and no static size is at odds with another. */
  ghost predicate ShapesMeet(producer: Shape, consumer: Shape) {
    |producer| == |consumer| && AxesAgree(map[], producer, consumer, |producer|)
  }

  /** The ports `Unify` accepts: compatible ones whose static sizes agree and meet every merged constraint. */
  ghost predicate Accepts(producer: PortType, consumer: PortType) {
    && Compatible(producer, consumer)
    && ShapesMeet(producer.shape, consumer.shape)
    && forall c | c in FirstByText(AllConstraints(producer, consumer)) :: Meets(c, producer.shape, consumer.shape)
  }

  /** Checking a constraint under the bindings is meeting it. */
  lemma PassesIffMeets(c: Constraint, producer: Shape, consumer: Shape, bindings: Bindings)
    requires |producer| == |consumer| && Records(map[], producer, consumer, |producer|, bindings)
    ensures Passes(c, UnifiedDimensions(producer, consumer), bindings) <==> Meets(c, producer, consumer)
  {
    hide TruncatedRemainder, MultipleOf, Fixes, UnifiedDimension;
    if c.SymbolEquality? {
      SymbolsMeet(c.left, c.right, producer, consumer, bindings);
    } else {
      ResolvedIffFixed(c.axis, producer, consumer, bindings);
      var v := ResolveDimensionValue(UnifiedDimensions(producer, consumer), c.axis, bindings);
      hide ResolveDimensionValue, SizeFixed;
      if v.Some? {
        assert SizeFixed(producer, consumer, c.axis, v.value);
        if c.Divisibility? && c.divisor != 0 {
          TruncatedRemainderZero(v.value, c.divisor);
        }
      }
    }
  }

  lemma SymbolsMeet(left: string, right: string, producer: Shape, consumer: Shape, bindings: Bindings)
    requires |producer| == |consumer| && Records(map[], producer, consumer, |producer|, bindings)
    ensures (left in bindings && right in bindings ==> bindings[left] == bindings[right])
       <==> forall u, v | Fixed(producer, consumer, left, u) && Fixed(producer, consumer, right, v) :: u == v
  {
    hide Fixes;
    forall symbol, size
      ensures Fixed(producer, consumer, symbol, size) <==> symbol in bindings && bindings[symbol] == size
    {
      assert Bound(bindings, symbol, size) <==> Fixes(map[], producer, consumer, |producer|, symbol, size);
    }
    if left in bindings && right in bindings {
      assert Fixed(producer, consumer, left, bindings[left]) && Fixed(producer, consumer, right, bindings[right]);
    }
  }

  lemma ResolvedIffFixed(axis: int, producer: Shape, consumer: Shape, bindings: Bindings)
    requires |producer| == |consumer| && Records(map[], producer, consumer, |producer|, bindings)
    ensures forall v ::
      SizeFixed(producer, consumer, axis, v)
      <==> ResolveDimensionValue(UnifiedDimensions(producer, consumer), axis, bindings) == Some(v)
  {
    hide Fixes, UnifiedDimension;
    var k := AxisOf(axis, |producer|);
    if k.Some? {
      var d := UnifiedDimension(producer[k.value], consumer[k.value]);
      assert UnifiedDimensions(producer, consumer)[k.value] == d;
      forall v
        ensures Fixed(producer, consumer, d.symbol, v) <==> d.symbol in bindings && bindings[d.symbol] == v
      {
        assert Bound(bindings, d.symbol, v) <==> Fixes(map[], producer, consumer, |producer|, d.symbol, v);
      }
    }
  }

  // ----- solutions are accepted

  /** The ports have a solution, and every divisibility constraint has a meaning. */
  ghost predicate Solvable(producer: PortType, consumer: PortType) {
    && Compatible(producer, consumer) && NonzeroDivisors(producer) && NonzeroDivisors(consumer)
    && exists sigma: Assignment :: Solution(sigma, producer, consumer)
  }

  /** An assignment that makes the shapes equal gives symbols the sizes they are fixed to. */
  lemma UnifierFollows(sigma: Assignment, producer: Shape, consumer: Shape, symbol: string, size: int)
    requires Unifies(sigma, producer, consumer) && Fixed(producer, consumer, symbol, size)
    ensures sigma(symbol) == size
  {
    var i :| 0 <= i < |producer| && Pins(producer[i], consumer[i], symbol, size);
    assert Eval(producer[i], sigma) == Eval(consumer[i], sigma);
  }

  lemma UnifierMeets(sigma: Assignment, producer: Shape, consumer: Shape)
    requires Unifies(sigma, producer, consumer)
    ensures ShapesMeet(producer, consumer)
  {
    hide Fixes;
    var n := |producer|;
    forall symbol, u, v |
      Fixes(map[], producer, consumer, n, symbol, u) && Fixes(map[], producer, consumer, n, symbol, v)
      ensures u == v
    {
      UnifierFollows(sigma, producer, consumer, symbol, u);
      UnifierFollows(sigma, producer, consumer, symbol, v);
    }
    forall i | 0 <= i < |producer| && !producer[i].Symbolic() && !consumer[i].Symbolic()
      ensures producer[i].size == consumer[i].size
    {
      assert Eval(producer[i], sigma) == Eval(consumer[i], sigma);
    }
  }

  lemma FixedIsEval(sigma: Assignment, producer: Shape, consumer: Shape, i: nat, size: int)
    requires Unifies(sigma, producer, consumer) && i < |producer| && AxisFixed(producer, consumer, i, size)
    ensures Eval(producer[i], sigma) == size && Eval(consumer[i], sigma) == size
  {
    hide Fixed;
    assert Eval(producer[i], sigma) == Eval(consumer[i], sigma);
    var d := UnifiedDimension(producer[i], consumer[i]);
    if d.Symbolic() {
      UnifierFollows(sigma, producer, consumer, d.symbol, size);
    }
  }

  /** A constraint true of one of the shapes under an assignment that makes them equal is met. */
  lemma MeetsWhenHolds(c: Constraint, sigma: Assignment, producer: Shape, consumer: Shape)
    requires Unifies(sigma, producer, consumer) && NonzeroDivisor(c)
    requires Holds(c, producer, sigma) || Holds(c, consumer, sigma)
    ensures Meets(c, producer, consumer)
  {
    hide Fixed, AxisFixed, MultipleOf, Eval;
    if c.SymbolEquality? {
      forall u, v | Fixed(producer, consumer, c.left, u) && Fixed(producer, consumer, c.right, v)
        ensures u == v
      {
        UnifierFollows(sigma, producer, consumer, c.left, u);
        UnifierFollows(sigma, producer, consumer, c.right, v);
      }
    } else {
      forall v | SizeFixed(producer, consumer, c.axis, v)
        ensures Eval(producer[AxisOf(c.axis, |producer|).value], sigma) == v
        ensures Eval(consumer[AxisOf(c.axis, |producer|).value], sigma) == v
      {
        FixedIsEval(sigma, producer, consumer, AxisOf(c.axis, |producer|).value, v);
      }
    }
  }

  /** Ports with a solution are accepted. */
  lemma SolvableIsAccepted(producer: PortType, consumer: PortType)
    requires Solvable(producer, consumer)
    ensures Accepts(producer, consumer)
  {
    var sigma: Assignment :| Solution(sigma, producer, consumer);
    UnifierMeets(sigma, producer.shape, consumer.shape);
    var all := AllConstraints(producer, consumer);
    FirstByTextMembers(all);
    forall c | c in FirstByText(all)
      ensures Meets(c, producer.shape, consumer.shape)
    {
      hide Holds, Unifies, FirstByText, Meets;
      assert c in all;
      if c !in producer.constraints && c !in consumer.constraints {
        EqualityHolds(c, sigma, producer.shape, consumer.shape);
      }
      MeetsWhenHolds(c, sigma, producer.shape, consumer.shape);
    }
  }

  lemma EqualityHolds(c: Constraint, sigma: Assignment, producer: Shape, consumer: Shape)
    requires Unifies(sigma, producer, consumer)
    requires c in EqualityConstraints(EqualitiesTo(producer, consumer, |producer|))
    ensures Holds(c, producer, sigma) && NonzeroDivisor(c)
  {
    var equalities := EqualitiesTo(producer, consumer, |producer|);
    var k :| 0 <= k < |equalities| && c == EqualityConstraints(equalities)[k];
    var i := EqualityHasAxis(producer, consumer, |producer|, equalities[k]);
    assert Eval(producer[i], sigma) == Eval(consumer[i], sigma);
  }

  // ----- the method

  datatype Unification = Unification(unified: PortType, bindings: Bindings)

  /** What a successful unification returns. */
  ghost predicate Unified(producer: PortType, consumer: PortType, r: Unification)
    requires |producer.shape| == |consumer.shape|
  {
    var equalities := EqualitiesTo(producer.shape, consumer.shape, |producer.shape|);
    && r.unified.shape == UnifiedDimensions(producer.shape, consumer.shape)
    && Records(map[], producer.shape, consumer.shape, |producer.shape|, r.bindings)
    && MostGeneral(map[], producer.shape, consumer.shape, |producer.shape|, r.bindings, equalities)
    && Evaluates(producer.shape, r.unified.shape, r.bindings, equalities)
    && r.unified.constraints == FirstByText(AllConstraints(producer, consumer))
  }

  /** The error names the first merged constraint that is not met. */
  ghost predicate RefutesConstraints(error: ConstraintError, producer: PortType, consumer: PortType)
    requires |producer.shape| == |consumer.shape|
  {
    var merged := FirstByText(AllConstraints(producer, consumer));
    && (error.ZeroDivisor? <==> error.constraint.Divisibility? && error.constraint.divisor == 0)
    && exists k | 0 <= k < |merged| ::
      && merged[k] == error.constraint && !Meets(merged[k], producer.shape, consumer.shape)
      && forall j | 0 <= j < k :: Meets(merged[j], producer.shape, consumer.shape)
  }

  /** The error is the first reason, in the order of the checks, not to accept the ports. */
  ghost predicate Refutes(error: UnificationError, producer: PortType, consumer: PortType) {
    && (error.DTypeMismatch? <==> producer.dtype != consumer.dtype && producer.dtype != 0 && consumer.dtype != 0)
    && (error.DTypeMismatch? || (error.LayoutMismatch? <==>
          producer.layout != consumer.layout && !producer.layout.Unspecified? && !consumer.layout.Unspecified?))
    && (error.DTypeMismatch? || error.LayoutMismatch? || (error.BadShape? <==> !ShapesMeet(producer.shape, consumer.shape)))
    && (error.BadShape? ==> RefutesShapes(error.shape, producer.shape, consumer.shape, map[]))
    && (error.KindMismatch? ==> producer.kind != consumer.kind && producer.kind != "" && consumer.kind != "")
    && (error.BadConstraint? ==>
          && Compatible(producer, consumer) && ShapesMeet(producer.shape, consumer.shape)
          && RefutesConstraints(error.constraint, producer, consumer))
  }

  /** Unifies two port types. */
  method Unify(producer: PortType, consumer: PortType) returns (r: Result<Unification, UnificationError>)
    ensures r.Success? <==> Accepts(producer, consumer)
    ensures Solvable(producer, consumer) ==> r.Success?
    ensures r.Success? ==> Unified(producer, consumer, r.value)
    ensures r.Success? ==> StaticKept(producer.shape, consumer.shape, r.value.unified.shape)
    ensures r.Success? ==> MoreSpecific(producer, consumer, r.value.unified)
    ensures r.Failure? ==> Refutes(r.error, producer, consumer)
  {
    hide MostGeneral, Evaluates, Records, AxesAgree, Meets, Passes, Solvable, FirstByText, EqualityConstraints, RefutesShapes, StaticKept;
    if Solvable(producer, consumer) {
      SolvableIsAccepted(producer, consumer);
    }
    if !CompatibleDTypes(producer.dtype, consumer.dtype) {
      return Failure(DTypeMismatch);
    }
    var layout := UnifyLayout(producer.layout, consumer.layout);
    if layout.None? {
      return Failure(LayoutMismatch);
    }
    var shape, bindings := UnifyShape(producer.shape, consumer.shape, map[]);
    if shape.Failure? {
      return Failure(BadShape(shape.error));
    }
    var kind := UnifyKind(producer.kind, consumer.kind);
    if kind.None? {
      return Failure(KindMismatch);
    }
    var dimensions := shape.value.dimensions;
    var merged := MergeConstraints(producer.constraints, consumer.constraints, EqualityConstraints(shape.value.equalities));
    forall c | c in merged
      ensures Passes(c, dimensions, bindings) <==> Meets(c, producer.shape, consumer.shape)
    {
      PassesIffMeets(c, producer.shape, consumer.shape, bindings);
    }
    assert merged == FirstByText(AllConstraints(producer, consumer));
    assert forall k | 0 <= k < |merged| :: merged[k] in merged;
    var invalid := ValidateConstraints(merged, dimensions, bindings);
    if invalid.Some? {
      return Failure(BadConstraint(invalid.value));
    }
    var unified := PortType(UnifiedDType(producer.dtype, consumer.dtype), dimensions, layout.value, kind.value, merged);
    return Success(Unification(unified, bindings));
  }

  // ----- what acceptance means

  /** Static sizes fix every symbol of the shape and of the symbol equalities. */
  ghost predicate AllFixed(port: PortType, producer: Shape, consumer: Shape)
    requires |producer| == |consumer|
  {
    && (forall i | 0 <= i < |port.shape| && port.shape[i].Symbolic() :: IsFixed(producer, consumer, port.shape[i].symbol))
    && (forall c | c in port.constraints && c.SymbolEquality? ::
          IsFixed(producer, consumer, c.left) && IsFixed(producer, consumer, c.right))
  }

  ghost predicate IsFixed(producer: Shape, consumer: Shape, symbol: string)
    requires |producer| == |consumer|
  {
    exists size :: Fixed(producer, consumer, symbol, size)
  }

  ghost predicate Follows(sigma: Assignment, producer: Shape, consumer: Shape)
    requires |producer| == |consumer|
  {
    forall symbol, size | Fixed(producer, consumer, symbol, size) :: sigma(symbol) == size
  }

  /** Assignments that follow the fixed sizes make the shapes equal. */
  lemma AcceptedUnifies(producer: PortType, consumer: PortType, sigma: Assignment)
    requires Accepts(producer, consumer) && TextsTell(AllConstraints(producer, consumer))
    requires AllFixed(producer, producer.shape, consumer.shape) && AllFixed(consumer, producer.shape, consumer.shape)
    requires Follows(sigma, producer.shape, consumer.shape)
    ensures Unifies(sigma, producer.shape, consumer.shape)
  {
    var p, c, n := producer.shape, consumer.shape, |producer.shape|;
    MergeLosesNothingIff(AllConstraints(producer, consumer));
    forall i | 0 <= i < n
      ensures Eval(p[i], sigma) == Eval(c[i], sigma)
    {
      hide Fixes, FirstByText, TextsTell;
      if SymbolPair(p[i], c[i]).Some? {
        EqualityListed(p, c, n, i);
        var equality := SymbolPair(p[i], c[i]).value;
        var k :| 0 <= k < |EqualitiesTo(p, c, n)| && EqualitiesTo(p, c, n)[k] == equality;
        var synthesized := EqualityConstraints(EqualitiesTo(p, c, n));
        assert synthesized[k] == SymbolEquality(equality.left, equality.right);
        assert SymbolEquality(equality.left, equality.right) in AllConstraints(producer, consumer);
        assert Meets(SymbolEquality(equality.left, equality.right), p, c);
        assert IsFixed(p, c, equality.left) && IsFixed(p, c, equality.right);
      } else if p[i].Symbolic() != c[i].Symbolic() {
        PinFixes(p, c, i);
      }
    }
  }

  lemma PinFixes(producer: Shape, consumer: Shape, i: nat)
    requires i < |producer| == |consumer|
    ensures producer[i].Symbolic() && !consumer[i].Symbolic() ==> Fixed(producer, consumer, producer[i].symbol, consumer[i].size)
    ensures !producer[i].Symbolic() && consumer[i].Symbolic() ==> Fixed(producer, consumer, consumer[i].symbol, producer[i].size)
  {
    if producer[i].Symbolic() && !consumer[i].Symbolic() {
      assert Pins(producer[i], consumer[i], producer[i].symbol, consumer[i].size);
    }
    if !producer[i].Symbolic() && consumer[i].Symbolic() {
      assert Pins(producer[i], consumer[i], consumer[i].symbol, producer[i].size);
    }
  }

  /** Met by the fixed sizes is true of every assignment that follows them. */
  lemma HoldsWhenMeets(c: Constraint, port: PortType, sigma: Assignment, producer: Shape, consumer: Shape)
    requires Unifies(sigma, producer, consumer) && Follows(sigma, producer, consumer) && Meets(c, producer, consumer)
    requires AllFixed(port, producer, consumer) && c in port.constraints
    requires forall i | 0 <= i < |producer| && producer[i].Symbolic() :: IsFixed(producer, consumer, producer[i].symbol)
    ensures Holds(c, producer, sigma) && Holds(c, consumer, sigma)
  {
    hide Fixes, MultipleOf;
    if c.SymbolEquality? {
      assert IsFixed(producer, consumer, c.left) && IsFixed(producer, consumer, c.right);
    } else if AxisOf(c.axis, |producer|).Some? {
      var k := AxisOf(c.axis, |producer|).value;
      assert Eval(producer[k], sigma) == Eval(consumer[k], sigma);
      var d := UnifiedDimension(producer[k], consumer[k]);
      if d.Symbolic() {
        var v :| Fixed(producer, consumer, d.symbol, v);
        assert SizeFixed(producer, consumer, c.axis, v);
      } else {
        assert SizeFixed(producer, consumer, c.axis, d.size);
      }
    }
  }

  /**
   Where static sizes fix every symbol and texts tell constraints apart, every assignment
   that follows those sizes solves accepted ports.
   */
  lemma AcceptedIsSolved(producer: PortType, consumer: PortType, sigma: Assignment)
    requires Accepts(producer, consumer) && TextsTell(AllConstraints(producer, consumer))
    requires AllFixed(producer, producer.shape, consumer.shape) && AllFixed(consumer, producer.shape, consumer.shape)
    requires Follows(sigma, producer.shape, consumer.shape)
    ensures Solution(sigma, producer, consumer)
  {
    hide Fixed, FirstByText, TextsTell, Meets, Holds, Unifies;
    AcceptedUnifies(producer, consumer, sigma);
    MergeLosesNothingIff(AllConstraints(producer, consumer));
    forall c | c in producer.constraints
      ensures Holds(c, producer.shape, sigma)
    {
      assert c in AllConstraints(producer, consumer);
      HoldsWhenMeets(c, producer, sigma, producer.shape, consumer.shape);
    }
    forall c | c in consumer.constraints
      ensures Holds(c, consumer.shape, sigma)
    {
      assert c in AllConstraints(producer, consumer);
      HoldsWhenMeets(c, consumer, sigma, producer.shape, consumer.shape);
    }
  }

  ghost function FixedSize(producer: Shape, consumer: Shape, symbol: string): int
    requires |producer| == |consumer|
  {
    if size :| Fixed(producer, consumer, symbol, size) then size else 0
  }

  /** For such ports, being accepted and having a solution are the same. */
  lemma AcceptsIffSolvable(producer: PortType, consumer: PortType)
    requires |producer.shape| == |consumer.shape| && TextsTell(AllConstraints(producer, consumer))
    requires AllFixed(producer, producer.shape, consumer.shape) && AllFixed(consumer, producer.shape, consumer.shape)
    requires NonzeroDivisors(producer) && NonzeroDivisors(consumer)
    ensures Accepts(producer, consumer) <==> Solvable(producer, consumer)
  {
    if Accepts(producer, consumer) {
      var p, c := producer.shape, consumer.shape;
      var sigma: Assignment := (s: string) => FixedSize(p, c, s);
      hide Fixes, Meets, AllFixed, TextsTell, AllConstraints;
      forall symbol, size | Fixed(p, c, symbol, size)
        ensures sigma(symbol) == size
      {
        assert Fixes(map[], p, c, |p|, symbol, FixedSize(p, c, symbol));
      }
      AcceptedIsSolved(producer, consumer, sigma);
    }
    if Solvable(producer, consumer) {
      SolvableIsAccepted(producer, consumer);
    }
  }

  /** Accepted shapes can be made equal exactly when no chain of axes joins two different static sizes. */
  lemma AcceptedShapesSolvableIff(producer: PortType, consumer: PortType)
    requires Accepts(producer, consumer)
    ensures (exists sigma: Assignment :: Unifies(sigma, producer.shape, consumer.shape))
       <==> ConflictFree(Problem(map[], producer.shape, consumer.shape))
  {
    hide ConflictFree;
    var p := Problem(map[], producer.shape, consumer.shape);
    UnifierExistsIff(p);
    if sigma: Assignment :| Unifies(sigma, producer.shape, consumer.shape) {
      assert Unifier(p, sigma);
    }
  }

  const CHAIN_LEFT: Shape := [Dimension("a", 0), Dimension("b", 0), Dimension("a", 0), Dimension("c", 0)]
  const CHAIN_RIGHT: Shape := [Dimension("b", 0), Dimension("c", 0), Dimension("", 4), Dimension("", 5)]

  lemma ChainFixes(symbol: string, size: int)
    requires Fixed(CHAIN_LEFT, CHAIN_RIGHT, symbol, size)
    ensures (symbol == "a" && size == 4) || (symbol == "c" && size == 5)
  {
    var i :| 0 <= i < |CHAIN_LEFT| && Pins(CHAIN_LEFT[i], CHAIN_RIGHT[i], symbol, size);
    assert i == 2 || i == 3;
  }

  lemma ChainMeets(c: Constraint)
    requires c in EqualityConstraints(EqualitiesTo(CHAIN_LEFT, CHAIN_RIGHT, 4))
    ensures Meets(c, CHAIN_LEFT, CHAIN_RIGHT)
  {
    var equalities := EqualitiesTo(CHAIN_LEFT, CHAIN_RIGHT, 4);
    var k :| 0 <= k < |equalities| && c == EqualityConstraints(equalities)[k];
    var i := EqualityHasAxis(CHAIN_LEFT, CHAIN_RIGHT, 4, equalities[k]);
    assert i == 0 || i == 1;
    assert c == SymbolEquality("a", "b") || c == SymbolEquality("b", "c");
    hide Fixed;
    forall v
      ensures !Fixed(CHAIN_LEFT, CHAIN_RIGHT, "b", v)
    {
      MiddleIsFree(v);
    }
  }

  lemma MiddleIsFree(size: int)
    ensures !Fixed(CHAIN_LEFT, CHAIN_RIGHT, "b", size)
  {
    hide Fixed;
    if Fixed(CHAIN_LEFT, CHAIN_RIGHT, "b", size) {
      ChainFixes("b", size);
    }
  }

  lemma ChainAgrees()
    ensures ShapesMeet(CHAIN_LEFT, CHAIN_RIGHT)
  {
    hide Fixes;
    forall symbol, u, v | Fixes(map[], CHAIN_LEFT, CHAIN_RIGHT, 4, symbol, u) && Fixes(map[], CHAIN_LEFT, CHAIN_RIGHT, 4, symbol, v)
      ensures u == v
    {
      ChainFixes(symbol, u);
      ChainFixes(symbol, v);
    }
  }

  lemma ChainNeverUnifies(sigma: Assignment)
    ensures !Unifies(sigma, CHAIN_LEFT, CHAIN_RIGHT)
  {
    var p, q := CHAIN_LEFT, CHAIN_RIGHT;
    assert Eval(p[0], sigma) == Eval(p[2], sigma) && Eval(q[0], sigma) == Eval(p[1], sigma);
    assert Eval(q[1], sigma) == Eval(p[3], sigma) && Eval(q[2], sigma) != Eval(q[3], sigma);
  }

  /** Acceptance alone does not promise a solution: here two fixed symbols meet through one that is not. */
  lemma AcceptanceWithoutUnifier() returns (producer: PortType, consumer: PortType)
    ensures Accepts(producer, consumer)
    ensures forall sigma: Assignment :: !Unifies(sigma, producer.shape, consumer.shape)
  {
    producer := PortType(FLOAT32, CHAIN_LEFT, Contiguous, GENERIC, []);
    consumer := PortType(FLOAT32, CHAIN_RIGHT, Contiguous, GENERIC, []);
    ChainAgrees();
    hide ShapesMeet, Meets, FirstByText, EqualitiesTo, EqualityConstraints, Unifies;
    FirstByTextMembers(AllConstraints(producer, consumer));
    forall c | c in FirstByText(AllConstraints(producer, consumer))
      ensures Meets(c, CHAIN_LEFT, CHAIN_RIGHT)
    {
      ChainMeets(c);
    }
    forall sigma: Assignment
      ensures !Unifies(sigma, CHAIN_LEFT, CHAIN_RIGHT)
    {
      ChainNeverUnifies(sigma);
    }
  }
}
