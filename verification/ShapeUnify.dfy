/** Unification of symbolic shapes. */
module ShapeUnify {
  import opened Wrappers

  /** Symbolic when it names a symbol, static otherwise. */
  datatype Dimension = Dimension(symbol: string, size: int) {
    predicate Symbolic() { symbol != "" }
  }

  type Shape = seq<Dimension>

  type Bindings = map<string, int>

  /** What a symbol could stand for. */
  type Assignment = string -> int

  datatype Equality = Equality(left: string, right: string)

  datatype AxisError =
    | SizeMismatch(producer: int, consumer: int)
    | BindingConflict(symbol: string, bound: int, size: int)

  datatype ShapeError = RankMismatch | AxisMismatch(axis: int, cause: AxisError)

  ghost function Eval(d: Dimension, sigma: Assignment): int {
    if d.Symbolic() then sigma(d.symbol) else d.size
  }

  ghost predicate Unifies(sigma: Assignment, producer: Shape, consumer: Shape) {
    |producer| == |consumer| && forall i | 0 <= i < |producer| :: Eval(producer[i], sigma) == Eval(consumer[i], sigma)
  }

  ghost predicate Extends(sigma: Assignment, bindings: Bindings) {
    forall s | s in bindings :: sigma(s) == bindings[s]
  }

  ghost predicate Equates(sigma: Assignment, equalities: seq<Equality>) {
    forall k | 0 <= k < |equalities| :: sigma(equalities[k].left) == sigma(equalities[k].right)
  }

  /** The first `n` axes have the same sizes. */
  ghost predicate AgreeTo(sigma: Assignment, a: Shape, b: Shape, n: int) {
    forall i | 0 <= i < |a| && i < |b| && i < n :: Eval(a[i], sigma) == Eval(b[i], sigma)
  }

  /** Binds a symbol, or reports that it is bound to something else. */
  method BindSymbol(bindings: Bindings, symbol: string, size: int) returns (bound: bool, after: Bindings)
    ensures bound <==> symbol !in bindings || bindings[symbol] == size
    ensures bound ==> forall sigma: Assignment :: Extends(sigma, after) <==> Extends(sigma, bindings) && sigma(symbol) == size
    ensures !bound ==> after == bindings
    ensures bound ==> after == bindings[symbol := size]
  {
    if symbol in bindings {
      return bindings[symbol] == size, bindings;
    }
    after := bindings[symbol := size];
    bound := true;
    forall sigma: Assignment
      ensures Extends(sigma, after) <==> Extends(sigma, bindings) && sigma(symbol) == size
    {
      if Extends(sigma, after) {
        assert after[symbol] == size && sigma(symbol) == after[symbol];
        forall s | s in bindings
          ensures sigma(s) == bindings[s]
        {
          assert s in after && after[s] == bindings[s];
        }
      }
    }
  }

  datatype Axis = Axis(dimension: Dimension, equality: Option<Equality>)

  ghost predicate AxisEquates(sigma: Assignment, equality: Option<Equality>) {
    equality.Some? ==> sigma(equality.value.left) == sigma(equality.value.right)
  }

  /** The axis meets a symbol with a static size. */
  ghost predicate Pins(producer: Dimension, consumer: Dimension, symbol: string, size: int) {
    || (producer.Symbolic() && !consumer.Symbolic() && producer.symbol == symbol && consumer.size == size)
    || (consumer.Symbolic() && !producer.Symbolic() && consumer.symbol == symbol && producer.size == size)
  }

  ghost predicate Bound(bindings: Bindings, symbol: string, size: int) {
    symbol in bindings && bindings[symbol] == size
  }

  /** A static size if there is one, the producer's symbol otherwise. */
  ghost function UnifiedDimension(producer: Dimension, consumer: Dimension): Dimension {
    if producer.Symbolic() && !consumer.Symbolic() then consumer else producer
  }

  /** The unified axis has the static size either side has, and the producer's symbol where both have one. */
  ghost predicate KeepsStatic(producer: Dimension, consumer: Dimension, unified: Dimension) {
    && (producer.symbol == "" ==> unified.symbol == "" && unified.size == producer.size)
    && (consumer.symbol == "" ==> unified.symbol == "" && unified.size == consumer.size)
    && (producer.symbol != "" && consumer.symbol != "" ==> unified.symbol == producer.symbol)
  }

  /** Two different symbols that meet are to be equal. */
  ghost function SymbolPair(producer: Dimension, consumer: Dimension): Option<Equality> {
    if producer.Symbolic() && consumer.Symbolic() && producer.symbol != consumer.symbol
    then Some(Equality(producer.symbol, consumer.symbol))
    else None
  }

  /** What is wrong with the axis. */
  ghost predicate Refutes(error: AxisError, producer: Dimension, consumer: Dimension, bindings: Bindings) {
    match error
    case SizeMismatch(p, c) => producer == Dimension("", p) && consumer == Dimension("", c) && p != c
    case BindingConflict(symbol, bound, size) =>
      Pins(producer, consumer, symbol, size) && Bound(bindings, symbol, bound) && bound != size
  }

  /** The four cases of one axis. */
  method UnifyDimension(producer: Dimension, consumer: Dimension, bindings: Bindings)
    returns (r: Result<Axis, AxisError>, after: Bindings)
    ensures r.Success? ==> forall sigma: Assignment ::
      (Extends(sigma, bindings) && Eval(producer, sigma) == Eval(consumer, sigma))
      <==> (Extends(sigma, after) && AxisEquates(sigma, r.value.equality))
    ensures r.Success? ==> forall sigma: Assignment | Extends(sigma, after) ::
      Eval(r.value.dimension, sigma) == Eval(producer, sigma)
    ensures r.Failure? ==> forall sigma: Assignment | Extends(sigma, bindings) ::
      Eval(producer, sigma) != Eval(consumer, sigma)
    ensures r.Success? ==> forall symbol, size ::
      Bound(after, symbol, size) <==> Bound(bindings, symbol, size) || Pins(producer, consumer, symbol, size)
    ensures r.Success? ==> r.value == Axis(UnifiedDimension(producer, consumer), SymbolPair(producer, consumer))
    ensures r.Success? ==> KeepsStatic(producer, consumer, r.value.dimension)
    ensures r.Success? ==> producer.Symbolic() || consumer.Symbolic() || producer.size == consumer.size
    ensures r.Failure? ==> Refutes(r.error, producer, consumer, bindings)
    ensures r.Failure? ==> after == bindings
  {
    after := bindings;
    if !producer.Symbolic() && !consumer.Symbolic() {
      if producer.size == consumer.size {
        return Success(Axis(producer, None)), after;
      }
      return Failure(SizeMismatch(producer.size, consumer.size)), after;
    }
    if producer.Symbolic() && !consumer.Symbolic() {
      var bound;
      bound, after := BindSymbol(bindings, producer.symbol, consumer.size);
      if !bound {
        return Failure(BindingConflict(producer.symbol, bindings[producer.symbol], consumer.size)), after;
      }
      return Success(Axis(consumer, None)), after;
    }
    if !producer.Symbolic() && consumer.Symbolic() {
      var bound;
      bound, after := BindSymbol(bindings, consumer.symbol, producer.size);
      if !bound {
        return Failure(BindingConflict(consumer.symbol, bindings[consumer.symbol], producer.size)), after;
      }
      return Success(Axis(producer, None)), after;
    }
    if producer.symbol == consumer.symbol {
      return Success(Axis(producer, None)), after;
    }
    return Success(Axis(producer, Some(Equality(producer.symbol, consumer.symbol)))), after;
  }

  datatype UnifiedShape = UnifiedShape(dimensions: Shape, equalities: seq<Equality>)

  /** The assignments that unify the first `n` axes are those that extend the bindings and satisfy the equalities. */
  ghost predicate MostGeneral(before: Bindings, producer: Shape, consumer: Shape, n: int, after: Bindings,
                              equalities: seq<Equality>)
  {
    forall sigma: Assignment ::
      (Extends(sigma, before) && AgreeTo(sigma, producer, consumer, n))
      <==> (Extends(sigma, after) && Equates(sigma, equalities))
  }

  /** Under every such assignment the unified shape is the producer's shape. */
  ghost predicate Evaluates(producer: Shape, dimensions: Shape, after: Bindings, equalities: seq<Equality>) {
    forall sigma: Assignment | Extends(sigma, after) && Equates(sigma, equalities) ::
      AgreeTo(sigma, dimensions, producer, |dimensions|)
  }

  /** The bindings, or one of the first `n` axes, fix the symbol to the size. */
  ghost predicate Fixes(before: Bindings, producer: Shape, consumer: Shape, n: nat, symbol: string, size: int)
    requires n <= |producer| == |consumer|
  {
    Bound(before, symbol, size) || exists i | 0 <= i < n :: Pins(producer[i], consumer[i], symbol, size)
  }

  /** Static sizes that meet are equal, and no symbol is fixed to two sizes. */
  ghost predicate AxesAgree(before: Bindings, producer: Shape, consumer: Shape, n: nat)
    requires n <= |producer| == |consumer|
  {
    && (forall i | 0 <= i < n && !producer[i].Symbolic() && !consumer[i].Symbolic() :: producer[i].size == consumer[i].size)
    && forall symbol, u, v | Fixes(before, producer, consumer, n, symbol, u) && Fixes(before, producer, consumer, n, symbol, v) ::
      u == v
  }

  /** The bindings are what the earlier ones and the first `n` axes fix. */
  ghost predicate Records(before: Bindings, producer: Shape, consumer: Shape, n: nat, after: Bindings)
    requires n <= |producer| == |consumer|
  {
    forall symbol, size :: Bound(after, symbol, size) <==> Fixes(before, producer, consumer, n, symbol, size)
  }

  ghost function UnifiedDimensions(producer: Shape, consumer: Shape): (r: Shape)
    requires |producer| == |consumer|
    ensures |r| == |producer|
  {
    seq(|producer|, i requires 0 <= i < |producer| => UnifiedDimension(producer[i], consumer[i]))
  }

  /** Every axis of the unified shape is static wherever either side's is. */
  ghost predicate StaticKept(producer: Shape, consumer: Shape, unified: Shape) {
    |producer| == |consumer| == |unified| && forall i | 0 <= i < |unified| :: KeepsStatic(producer[i], consumer[i], unified[i])
  }

  /** The equalities of the first `n` axes, in order. */
  ghost function EqualitiesTo(producer: Shape, consumer: Shape, n: nat): seq<Equality>
    requires n <= |producer| == |consumer|
  {
    if n == 0 then []
    else AddEquality(EqualitiesTo(producer, consumer, n - 1), SymbolPair(producer[n - 1], consumer[n - 1]))
  }

  /** Every axis where two different symbols meet has its equality. */
  lemma {:induction false} EqualityListed(producer: Shape, consumer: Shape, n: nat, i: nat)
    requires i < n <= |producer| == |consumer| && SymbolPair(producer[i], consumer[i]).Some?
    ensures SymbolPair(producer[i], consumer[i]).value in EqualitiesTo(producer, consumer, n)
  {
    if i < n - 1 {
      EqualityListed(producer, consumer, n - 1, i);
    }
  }

  /** Every equality is that of an axis. */
  lemma {:induction false} EqualityHasAxis(producer: Shape, consumer: Shape, n: nat, equality: Equality) returns (i: nat)
    requires n <= |producer| == |consumer| && equality in EqualitiesTo(producer, consumer, n)
    ensures i < n && SymbolPair(producer[i], consumer[i]) == Some(equality)
  {
    if SymbolPair(producer[n - 1], consumer[n - 1]) == Some(equality) {
      i := n - 1;
    } else {
      i := EqualityHasAxis(producer, consumer, n - 1, equality);
    }
  }

  ghost predicate Grows(before: Bindings, after: Bindings) {
    forall s | s in before :: s in after && after[s] == before[s]
  }

  /** What one axis contributes, as `UnifyDimension` states it. */
  ghost predicate AxisMostGeneral(before: Bindings, producer: Dimension, consumer: Dimension, after: Bindings,
                                  equality: Option<Equality>)
  {
    forall sigma: Assignment ::
      (Extends(sigma, before) && Eval(producer, sigma) == Eval(consumer, sigma))
      <==> (Extends(sigma, after) && AxisEquates(sigma, equality))
  }

  ghost function AddEquality(equalities: seq<Equality>, equality: Option<Equality>): seq<Equality> {
    if equality.Some? then equalities + [equality.value] else equalities
  }

  lemma EquatesAppend(sigma: Assignment, equalities: seq<Equality>, equality: Option<Equality>)
    ensures Equates(sigma, AddEquality(equalities, equality)) <==> Equates(sigma, equalities) && AxisEquates(sigma, equality)
  {
    var more := AddEquality(equalities, equality);
    if Equates(sigma, more) {
      forall k | 0 <= k < |equalities|
        ensures sigma(equalities[k].left) == sigma(equalities[k].right)
      {
        assert more[k] == equalities[k];
      }
      if equality.Some? {
        assert more[|equalities|] == equality.value;
      }
    }
  }

  lemma AgreeNext(sigma: Assignment, a: Shape, b: Shape, n: nat)
    requires n < |a| && n < |b|
    ensures AgreeTo(sigma, a, b, n + 1) <==> AgreeTo(sigma, a, b, n) && Eval(a[n], sigma) == Eval(b[n], sigma)
  {
  }

  lemma MostGeneralStep(before: Bindings, producer: Shape, consumer: Shape, n: nat, middle: Bindings,
                        equalities: seq<Equality>, after: Bindings, equality: Option<Equality>)
    requires n < |producer| == |consumer|
    requires MostGeneral(before, producer, consumer, n, middle, equalities)
    requires AxisMostGeneral(middle, producer[n], consumer[n], after, equality)
    ensures MostGeneral(before, producer, consumer, n + 1, after, AddEquality(equalities, equality))
  {
    hide Extends, Equates, AgreeTo, AxisEquates, AddEquality;
    forall sigma: Assignment
      ensures (Extends(sigma, before) && AgreeTo(sigma, producer, consumer, n + 1))
         <==> (Extends(sigma, after) && Equates(sigma, AddEquality(equalities, equality)))
    {
      AgreeNext(sigma, producer, consumer, n);
      EquatesAppend(sigma, equalities, equality);
    }
  }

  lemma EvaluatesStep(producer: Shape, n: nat, dimensions: Shape, middle: Bindings, equalities: seq<Equality>,
                      dimension: Dimension, after: Bindings, equality: Option<Equality>)
    requires n < |producer| && |dimensions| == n
    requires Evaluates(producer, dimensions, middle, equalities) && Grows(middle, after)
    requires forall sigma: Assignment | Extends(sigma, after) :: Eval(dimension, sigma) == Eval(producer[n], sigma)
    ensures Evaluates(producer, dimensions + [dimension], after, AddEquality(equalities, equality))
  {
    var longer := dimensions + [dimension];
    forall sigma: Assignment | Extends(sigma, after) && Equates(sigma, AddEquality(equalities, equality))
      ensures AgreeTo(sigma, longer, producer, |longer|)
    {
      EquatesAppend(sigma, equalities, equality);
      GrowsExtends(sigma, middle, after);
      assert AgreeTo(sigma, dimensions, producer, n);
    }
  }

  lemma GrowsExtends(sigma: Assignment, before: Bindings, after: Bindings)
    requires Grows(before, after) && Extends(sigma, after)
    ensures Extends(sigma, before)
  {
  }

  lemma FixesNext(before: Bindings, producer: Shape, consumer: Shape, n: nat, symbol: string, size: int)
    requires n < |producer| == |consumer|
    ensures Fixes(before, producer, consumer, n + 1, symbol, size)
       <==> Fixes(before, producer, consumer, n, symbol, size) || Pins(producer[n], consumer[n], symbol, size)
  {
    hide Pins, Bound;
    if Pins(producer[n], consumer[n], symbol, size) {
      assert Fixes(before, producer, consumer, n + 1, symbol, size);
    }
  }

  lemma RecordsStep(before: Bindings, producer: Shape, consumer: Shape, n: nat, middle: Bindings, after: Bindings)
    requires n < |producer| == |consumer| && Records(before, producer, consumer, n, middle)
    requires forall symbol, size ::
      Bound(after, symbol, size) <==> Bound(middle, symbol, size) || Pins(producer[n], consumer[n], symbol, size)
    ensures Records(before, producer, consumer, n + 1, after)
  {
    hide Fixes, Pins, Bound;
    forall symbol, size
      ensures Bound(after, symbol, size) <==> Fixes(before, producer, consumer, n + 1, symbol, size)
    {
      FixesNext(before, producer, consumer, n, symbol, size);
    }
  }

  lemma AgreeStep(before: Bindings, producer: Shape, consumer: Shape, n: nat, after: Bindings)
    requires n < |producer| == |consumer|
    requires AxesAgree(before, producer, consumer, n) && Records(before, producer, consumer, n + 1, after)
    requires producer[n].Symbolic() || consumer[n].Symbolic() || producer[n].size == consumer[n].size
    ensures AxesAgree(before, producer, consumer, n + 1)
  {
    hide Fixes;
  }

  /** An axis at odds with what is fixed already leaves the shapes at odds. */
  lemma RefutedAxis(before: Bindings, producer: Shape, consumer: Shape, n: nat, middle: Bindings, error: AxisError)
    requires n < |producer| == |consumer|
    requires Records(before, producer, consumer, n, middle) && Refutes(error, producer[n], consumer[n], middle)
    ensures !AxesAgree(before, producer, consumer, n + 1) && !AxesAgree(before, producer, consumer, |producer|)
  {
    if error.BindingConflict? {
      var symbol, u, v := error.symbol, error.bound, error.size;
      hide Pins, Bound;
      assert Fixes(before, producer, consumer, n, symbol, u);
      assert Fixes(before, producer, consumer, n + 1, symbol, u) && Fixes(before, producer, consumer, n + 1, symbol, v);
      assert Fixes(before, producer, consumer, |producer|, symbol, u) && Fixes(before, producer, consumer, |producer|, symbol, v);
    }
  }

  lemma ConflictHasNoUnifier(before: Bindings, producer: Shape, consumer: Shape, n: nat, middle: Bindings,
                             equalities: seq<Equality>, sigma: Assignment)
    requires n < |producer| == |consumer|
    requires MostGeneral(before, producer, consumer, n, middle, equalities)
    requires forall other: Assignment | Extends(other, middle) :: Eval(producer[n], other) != Eval(consumer[n], other)
    ensures !(Extends(sigma, before) && Unifies(sigma, producer, consumer))
  {
    if Extends(sigma, before) && Unifies(sigma, producer, consumer) {
      assert AgreeTo(sigma, producer, consumer, n);
    }
  }

  /** The rank differs, or the axis is the first to be at odds with the bindings and the axes before it. */
  ghost predicate RefutesShapes(error: ShapeError, producer: Shape, consumer: Shape, bindings: Bindings) {
    match error
    case RankMismatch => |producer| != |consumer|
    case AxisMismatch(axis, cause) =>
      && 0 <= axis < |producer| == |consumer|
      && AxesAgree(bindings, producer, consumer, axis) && !AxesAgree(bindings, producer, consumer, axis + 1)
      && exists middle :: Records(bindings, producer, consumer, axis, middle) && Refutes(cause, producer[axis], consumer[axis], middle)
  }

  /**
   Unifies two shapes, extending the bindings. On success the assignments that extend the
   given bindings and make the shapes equal are exactly those that extend the new bindings
   and satisfy the equalities; on failure there are none.
   */
  method UnifyShape(producer: Shape, consumer: Shape, bindings: Bindings)
    returns (r: Result<UnifiedShape, ShapeError>, after: Bindings)
    ensures r.Success? <==> |producer| == |consumer| && AxesAgree(bindings, producer, consumer, |producer|)
    ensures r.Success? ==> r.value.dimensions == UnifiedDimensions(producer, consumer)
    ensures r.Success? ==> StaticKept(producer, consumer, r.value.dimensions)
    ensures r.Success? ==> r.value.equalities == EqualitiesTo(producer, consumer, |producer|)
    ensures r.Success? ==> Records(bindings, producer, consumer, |producer|, after)
    ensures r.Success? ==> MostGeneral(bindings, producer, consumer, |producer|, after, r.value.equalities)
    ensures r.Success? ==> Evaluates(producer, r.value.dimensions, after, r.value.equalities)
    ensures r.Failure? ==> RefutesShapes(r.error, producer, consumer, bindings)
    ensures r.Failure? ==> forall sigma: Assignment :: !(Extends(sigma, bindings) && Unifies(sigma, producer, consumer))
  {
    after := bindings;
    if |producer| != |consumer| {
      return Failure(RankMismatch), after;
    }
    var dimensions: Shape, equalities: seq<Equality> := [], [];
    assert MostGeneral(bindings, producer, consumer, 0, after, equalities);
    hide Extends, Equates, AgreeTo, MostGeneral, Evaluates, Unifies, Eval, AxisEquates, Pins, Bound, Refutes, UnifiedDimension, SymbolPair,
         KeepsStatic;
    for i := 0 to |producer|
      invariant |dimensions| == i && dimensions == UnifiedDimensions(producer, consumer)[..i]
      invariant StaticKept(producer[..i], consumer[..i], dimensions)
      invariant equalities == EqualitiesTo(producer, consumer, i)
      invariant Records(bindings, producer, consumer, i, after) && AxesAgree(bindings, producer, consumer, i)
      invariant MostGeneral(bindings, producer, consumer, i, after, equalities)
      invariant Evaluates(producer, dimensions, after, equalities)
    {
      hide AxesAgree, Records;
      ghost var middle := after;
      var axis;
      axis, after := UnifyDimension(producer[i], consumer[i], after);
      if axis.Failure? {
        forall sigma: Assignment
          ensures !(Extends(sigma, bindings) && Unifies(sigma, producer, consumer))
        {
          ConflictHasNoUnifier(bindings, producer, consumer, i, middle, equalities, sigma);
        }
        RefutedAxis(bindings, producer, consumer, i, middle, axis.error);
        return Failure(AxisMismatch(i, axis.error)), after;
      }
      RecordsStep(bindings, producer, consumer, i, middle, after);
      AgreeStep(bindings, producer, consumer, i, after);
      MostGeneralStep(bindings, producer, consumer, i, middle, equalities, after, axis.value.equality);
      BoundGrows(producer[i], consumer[i], middle, after);
      EvaluatesStep(producer, i, dimensions, middle, equalities, axis.value.dimension, after, axis.value.equality);
      dimensions := dimensions + [axis.value.dimension];
      assert producer[..i + 1] == producer[..i] + [producer[i]] && consumer[..i + 1] == consumer[..i] + [consumer[i]];
      if axis.value.equality.Some? {
        equalities := equalities + [axis.value.equality.value];
      }
    }
    assert producer[..|producer|] == producer && consumer[..|producer|] == consumer;
    return Success(UnifiedShape(dimensions, equalities)), after;
  }

  lemma BoundGrows(producer: Dimension, consumer: Dimension, middle: Bindings, after: Bindings)
    requires forall symbol, size ::
      Bound(after, symbol, size) <==> Bound(middle, symbol, size) || Pins(producer, consumer, symbol, size)
    ensures Grows(middle, after)
  {
    forall s | s in middle
      ensures s in after && after[s] == middle[s]
    {
      assert Bound(middle, s, middle[s]);
    }
  }
}
