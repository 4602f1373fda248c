/** Port constraints: their texts, by which duplicates are found, and their checking. */
module Constraints {
  import opened Wrappers
  import opened ShapeUnify

  datatype Constraint =
    | Divisibility(axis: int, divisor: int)
    | SymbolEquality(left: string, right: string)
    | Range(axis: int, min: int, max: int)

  // ----- texts

  function Digit(n: nat): char
    requires n < 10
  {
    ['0', '1', '2', '3', '4', '5', '6', '7', '8', '9'][n]
  }

  function Digits(n: nat): string {
    if n < 10 then [Digit(n)] else Digits(n / 10) + [Digit(n % 10)]
  }

  function Decimal(i: int): string {
    if i < 0 then "-" + Digits(-i) else Digits(i)
  }

  /** The words of a constraint's text, which single spaces separate. */
  function Words(c: Constraint): seq<string> {
    match c
    case Divisibility(axis, divisor) => ["dim[" + Decimal(axis) + "]", "%", Decimal(divisor), "==", "0"]
    case SymbolEquality(left, right) => [left, "==", right]
    case Range(axis, min, max) => [Decimal(min), "<=", "dim[" + Decimal(axis) + "]", "<=", Decimal(max)]
  }

  function Join(words: seq<string>): string
    requires words != []
  {
    if |words| == 1 then words[0] else words[0] + " " + Join(words[1..])
  }

  function Text(c: Constraint): string {
    Join(Words(c))
  }

  ghost function DigitValue(c: char): int {
    c as int - '0' as int
  }

  ghost function NumberIn(s: string): int {
    if s == "" then 0 else NumberIn(s[..|s| - 1]) * 10 + DigitValue(s[|s| - 1])
  }

  ghost predicate AllDigits(s: string) {
    forall k | 0 <= k < |s| :: '0' <= s[k] <= '9'
  }

  /** Digits read back as the number they render. */
  lemma {:induction false} DigitsReadBack(n: nat)
    ensures NumberIn(Digits(n)) == n && AllDigits(Digits(n)) && Digits(n) != ""
  {
    if n < 10 {
      assert Digits(n)[..0] == "";
    } else {
      DigitsReadBack(n / 10);
      assert Digits(n)[..|Digits(n)| - 1] == Digits(n / 10);
    }
  }

  lemma DecimalInjective(a: int, b: int)
    requires Decimal(a) == Decimal(b)
    ensures a == b
  {
    DigitsReadBack(if a < 0 then -a else a);
    DigitsReadBack(if b < 0 then -b else b);
    if a < 0 {
      assert Decimal(a)[0] == '-' && Decimal(a)[1..] == Digits(-a);
    }
    if b < 0 {
      assert Decimal(b)[0] == '-' && Decimal(b)[1..] == Digits(-b);
    }
  }

  /** A number's text is a minus for a negative one and the digits of its magnitude. */
  lemma DecimalReadsBack(i: int)
    ensures i >= 0 ==> AllDigits(Decimal(i)) && NumberIn(Decimal(i)) == i
    ensures i < 0 ==> Decimal(i) != "" && Decimal(i)[0] == '-'
    ensures i < 0 ==> AllDigits(Decimal(i)[1..]) && NumberIn(Decimal(i)[1..]) == -i
  {
    DigitsReadBack(if i < 0 then -i else i);
    assert i < 0 ==> Decimal(i)[1..] == Digits(-i);
  }

  lemma DivisibilityText(axis: string, divisor: string)
    ensures Join([axis, "%", divisor, "==", "0"]) == axis + " % " + divisor + " == 0"
  {
    assert Join(["==", "0"]) == "== 0";
    assert Join([divisor, "==", "0"]) == divisor + " == 0";
    assert Join(["%", divisor, "==", "0"]) == "% " + divisor + " == 0";
  }

  lemma EqualityText(left: string, right: string)
    ensures Join([left, "==", right]) == left + " == " + right
  {
    assert Join(["==", right]) == "== " + right;
  }

  lemma RangeText(axis: string, min: string, max: string)
    ensures Join([min, "<=", axis, "<=", max]) == min + " <= " + axis + " <= " + max
  {
    assert Join(["<=", max]) == "<= " + max;
    assert Join([axis, "<=", max]) == axis + " <= " + max;
    assert Join(["<=", axis, "<=", max]) == "<= " + axis + " <= " + max;
  }

  /** The texts, by which duplicates are found. */
  lemma Texts(c: Constraint)
    ensures c.Divisibility? ==> Text(c) == "dim[" + Decimal(c.axis) + "] % " + Decimal(c.divisor) + " == 0"
    ensures c.SymbolEquality? ==> Text(c) == c.left + " == " + c.right
    ensures c.Range? ==> Text(c) == Decimal(c.min) + " <= dim[" + Decimal(c.axis) + "] <= " + Decimal(c.max)
  {
    hide Decimal, Join;
    match c
    case Divisibility(axis, divisor) => DivisibilityText("dim[" + Decimal(axis) + "]", Decimal(divisor));
    case SymbolEquality(left, right) => EqualityText(left, right);
    case Range(axis, min, max) => RangeText("dim[" + Decimal(axis) + "]", Decimal(min), Decimal(max));
  }

  lemma DecimalSpaceFree(i: int)
    ensures ' ' !in Decimal(i)
  {
    DigitsReadBack(if i < 0 then -i else i);
  }

  /** Symbol names without spaces; the other constraints have no symbols. */
  ghost predicate SpaceFree(c: Constraint) {
    c.SymbolEquality? ==> ' ' !in c.left && ' ' !in c.right
  }

  ghost predicate AllSpaceFree(constraints: seq<Constraint>) {
    forall k | 0 <= k < |constraints| :: SpaceFree(constraints[k])
  }

  lemma FirstWord(a: string, x: string, b: string, y: string)
    requires ' ' !in a && ' ' !in b && a + " " + x == b + " " + y
    ensures a == b && x == y
  {
    var s := a + " " + x;
    assert s[|a|] == ' ' && s[|b|] == ' ';
    assert s[..|a|] == a && s[..|b|] == b;
    assert s[|a| + 1..] == x && s[|b| + 1..] == y;
  }

  lemma JoinHasSpace(words: seq<string>)
    requires |words| > 1
    ensures ' ' in Join(words)
  {
    assert Join(words)[|words[0]|] == ' ';
  }

  /** A text determines its space-free words. */
  lemma {:induction false} JoinInjective(u: seq<string>, v: seq<string>)
    requires u != [] && v != [] && Join(u) == Join(v)
    requires forall k | 0 <= k < |u| :: ' ' !in u[k]
    requires forall k | 0 <= k < |v| :: ' ' !in v[k]
    ensures u == v
  {
    if |u| > 1 {
      JoinHasSpace(u);
    }
    if |v| > 1 {
      JoinHasSpace(v);
    }
    if |u| > 1 && |v| > 1 {
      FirstWord(u[0], Join(u[1..]), v[0], Join(v[1..]));
      JoinInjective(u[1..], v[1..]);
      assert u == [u[0]] + u[1..] && v == [v[0]] + v[1..];
    }
  }

  lemma WordsSpaceFree(c: Constraint)
    requires SpaceFree(c)
    ensures forall k | 0 <= k < |Words(c)| :: ' ' !in Words(c)[k]
  {
    match c
    case Divisibility(axis, divisor) => DecimalSpaceFree(axis); DecimalSpaceFree(divisor);
    case SymbolEquality(left, right) =>
    case Range(axis, min, max) => DecimalSpaceFree(axis); DecimalSpaceFree(min); DecimalSpaceFree(max);
  }

  lemma AxisWord(a: int, b: int)
    requires "dim[" + Decimal(a) + "]" == "dim[" + Decimal(b) + "]"
    ensures a == b
  {
    var s, t := "dim[" + Decimal(a) + "]", "dim[" + Decimal(b) + "]";
    assert s[4..|s| - 1] == Decimal(a) && t[4..|t| - 1] == Decimal(b);
    DecimalInjective(a, b);
  }

  /** Without spaces in symbol names, different constraints have different texts. */
  lemma TextInjective(a: Constraint, b: Constraint)
    requires SpaceFree(a) && SpaceFree(b) && Text(a) == Text(b)
    ensures a == b
  {
    WordsSpaceFree(a);
    WordsSpaceFree(b);
    JoinInjective(Words(a), Words(b));
    var u, v := Words(a), Words(b);
    assert u[0] == v[0] && u[1] == v[1] && u[2] == v[2];
    if a.Divisibility? && b.Divisibility? {
      AxisWord(a.axis, b.axis);
      DecimalInjective(a.divisor, b.divisor);
    } else if a.Range? && b.Range? {
      assert u[4] == v[4];
      AxisWord(a.axis, b.axis);
      DecimalInjective(a.min, b.min);
      DecimalInjective(a.max, b.max);
    }
  }

  // ----- merging

  /** Every constraint whose text no earlier one has, in order. */
  ghost function FirstByText(all: seq<Constraint>): seq<Constraint> {
    if all == [] then []
    else
      var n := |all| - 1;
      FirstByText(all[..n]) + if exists k | 0 <= k < n :: Text(all[k]) == Text(all[n]) then [] else [all[n]]
  }

  lemma {:induction false} FirstByTextMembers(all: seq<Constraint>)
    ensures forall c | c in FirstByText(all) :: c in all
  {
    if all != [] {
      FirstByTextMembers(all[..|all| - 1]);
    }
  }

  /** Every text is still represented. */
  lemma {:induction false} FirstByTextCovers(all: seq<Constraint>, k: nat) returns (c: Constraint)
    requires k < |all|
    ensures c in FirstByText(all) && Text(c) == Text(all[k])
  {
    hide Text;
    var n := |all| - 1;
    if k < n {
      c := FirstByTextCovers(all[..n], k);
    } else if j :| 0 <= j < n && Text(all[j]) == Text(all[n]) {
      c := FirstByTextCovers(all[..n], j);
    } else {
      c := all[n];
    }
  }

  /** Constraints with one text are one constraint. */
  ghost predicate TextsTell(all: seq<Constraint>) {
    forall i, j | 0 <= i < |all| && 0 <= j < |all| && Text(all[i]) == Text(all[j]) :: all[i] == all[j]
  }

  /** No two of the merged constraints share a text. */
  lemma {:induction false} FirstByTextDistinct(all: seq<Constraint>)
    ensures forall c, d | c in FirstByText(all) && d in FirstByText(all) && Text(c) == Text(d) :: c == d
  {
    hide Text;
    if all != [] {
      var n := |all| - 1;
      FirstByTextDistinct(all[..n]);
      FirstByTextMembers(all[..n]);
      forall c | c in FirstByText(all[..n]) && Text(c) == Text(all[n])
        ensures exists k | 0 <= k < n :: Text(all[k]) == Text(all[n])
      {
        var k :| 0 <= k < n && all[..n][k] == c;
        assert Text(all[k]) == Text(all[n]);
      }
    }
  }

  /** Merging never adds a constraint, and it loses none exactly when different constraints have different texts. */
  lemma MergeLosesNothingIff(all: seq<Constraint>)
    ensures forall c :: c in FirstByText(all) ==> c in all
    ensures (forall c :: c in FirstByText(all) <==> c in all) <==> TextsTell(all)
  {
    hide Text, FirstByText;
    FirstByTextMembers(all);
    if TextsTell(all) {
      forall c | c in all
        ensures c in FirstByText(all)
      {
        var k :| 0 <= k < |all| && all[k] == c;
        var d := FirstByTextCovers(all, k);
        var j :| 0 <= j < |all| && all[j] == d;
      }
    }
    if forall c :: c in FirstByText(all) <==> c in all {
      FirstByTextDistinct(all);
      forall i, j | 0 <= i < |all| && 0 <= j < |all| && Text(all[i]) == Text(all[j])
        ensures all[i] == all[j]
      {
        assert all[i] in all && all[j] in all;
      }
    }
  }

  /** Names without spaces are enough. */
  lemma MergeLosesNothing(all: seq<Constraint>)
    requires AllSpaceFree(all)
    ensures forall c :: c in FirstByText(all) <==> c in all
  {
    forall i, j | 0 <= i < |all| && 0 <= j < |all| && Text(all[i]) == Text(all[j])
      ensures all[i] == all[j]
    {
      TextInjective(all[i], all[j]);
    }
    MergeLosesNothingIff(all);
  }

  /** With spaces it can: this equality takes the text of a divisibility constraint. */
  lemma MergeCanLose()
    ensures var equality, divisibility := SymbolEquality("dim[0] % 4", "0"), Divisibility(0, 4);
      && Text(equality) == Text(divisibility)
      && FirstByText([equality, divisibility]) == [equality]
  {
    var equality, divisibility := SymbolEquality("dim[0] % 4", "0"), Divisibility(0, 4);
    assert Digits(0) == "0" && Digits(4) == "4";
    assert "dim[" + "0" + "]" == "dim[0]";
    assert Words(divisibility) == ["dim[0]", "%", "4", "==", "0"];
    assert Join(["==", "0"]) == "== 0";
    assert Join(["4", "==", "0"]) == "4 == 0";
    assert Join(["%", "4", "==", "0"]) == "% 4 == 0";
    assert Text(divisibility) == "dim[0] % 4 == 0";
    assert Text(equality) == "dim[0] % 4 == 0";
    var all := [equality, divisibility];
    assert all[..0] == [] && all[..1] == [equality] && all[..2] == all;
    FirstByTextNext(all, 0, {});
    FirstByTextNext(all, 1, {Text(equality)});
  }

  lemma FirstByTextNext(all: seq<Constraint>, k: nat, seen: set<string>)
    requires k < |all| && seen == set j | 0 <= j < k :: Text(all[j])
    ensures FirstByText(all[..k + 1]) == FirstByText(all[..k]) + if Text(all[k]) in seen then [] else [all[k]]
    ensures seen + {Text(all[k])} == set j | 0 <= j < k + 1 :: Text(all[j])
  {
    hide Text;
    var prefix := all[..k + 1];
    assert prefix[..k] == all[..k];
    assert forall j | 0 <= j <= k :: prefix[j] == all[j];
    if Text(all[k]) in seen {
      var j :| 0 <= j < k && Text(all[j]) == Text(all[k]);
      assert Text(prefix[j]) == Text(prefix[k]);
    }
  }

  /** Keeps the first constraint of each text, in order. */
  method MergeConstraints(producer: seq<Constraint>, consumer: seq<Constraint>, synthesized: seq<Constraint>)
    returns (merged: seq<Constraint>)
    ensures merged == FirstByText(producer + consumer + synthesized)
  {
    hide Text, FirstByText;
    var seen: set<string> := {};
    var all := producer + consumer + synthesized;
    assert all[..0] == [];
    NothingMerged();
    merged := [];
    for k := 0 to |all|
      invariant merged == FirstByText(all[..k])
      invariant seen == set j | 0 <= j < k :: Text(all[j])
    {
      FirstByTextNext(all, k, seen);
      var key := Text(all[k]);
      if key !in seen {
        seen := seen + {key};
        merged := merged + [all[k]];
      } else {
        assert seen + {key} == seen;
        assert merged + [] == merged;
      }
    }
    assert all[..|all|] == all;
  }

  lemma NothingMerged()
    ensures FirstByText([]) == []
  {
  }

  // ----- checking

  /** The axis a constraint names: from the end when negative, none outside the shape. */
  function AxisOf(axis: int, rank: nat): (r: Option<nat>)
    ensures r.Some? ==> r.value < rank && (r.value == axis || r.value == rank + axis)
    ensures r.None? <==> axis >= rank || axis < 0 - rank
  {
    var k := if axis < 0 then rank + axis else axis;
    if k < 0 || k >= rank then None else Some(k)
  }

  /** The size of an axis, as far as the bindings determine it. */
  function ResolveDimensionValue(shape: Shape, axis: int, bindings: Bindings): Option<int> {
    match AxisOf(axis, |shape|)
    case None => None
    case Some(k) =>
      if !shape[k].Symbolic() then Some(shape[k].size)
      else if shape[k].symbol in bindings then Some(bindings[shape[k].symbol])
      else None
  }

  /** The remainder of a division that truncates toward zero. */
  function TruncatedRemainder(a: int, b: int): int
    requires b != 0
  {
    var m := if b < 0 then -b else b;
    if a < 0 then -((-a) % m) else a % m
  }

  ghost predicate MultipleOf(v: int, d: int) {
    exists k: int :: v == k * d
  }

  lemma RemainderIsUnique(m: int, k: int, q: int, r: int)
    requires m > 0 && 0 <= r < m && k * m == q * m + r
    ensures r == 0 && k == q
  {
    assert (k - q) * m == r;
    if k > q {
      AtLeastOnce(k - q, m);
    } else if k < q {
      AtLeastOnce(q - k, m);
    }
  }

  lemma AtLeastOnce(n: int, m: int)
    requires n >= 1 && m > 0
    ensures n * m >= m
  {
  }

  lemma TruncatedRemainderZero(v: int, d: int)
    requires d != 0
    ensures TruncatedRemainder(v, d) == 0 <==> MultipleOf(v, d)
  {
    var m, a := if d < 0 then -d else d, if v < 0 then -v else v;
    assert a == (a / m) * m + a % m;
    assert TruncatedRemainder(v, d) == 0 <==> a % m == 0;
    if a % m == 0 {
      var q := a / m;
      assert q * m == a;
      SignedQuotient(v, d, q);
    }
    if k: int :| v == k * d {
      MagnitudeQuotient(v, d, k);
      RemainderIsUnique(m, if (v < 0) == (d < 0) then k else -k, a / m, a % m);
    }
  }

  /** A quotient of the magnitudes, with the sign the operands give it. */
  lemma SignedQuotient(v: int, d: int, q: int)
    requires d != 0 && q * (if d < 0 then -d else d) == if v < 0 then -v else v
    ensures MultipleOf(v, d)
  {
    if (v < 0) == (d < 0) {
      assert v == q * d;
    } else {
      assert v == -q * d;
    }
  }

  lemma MagnitudeQuotient(v: int, d: int, k: int)
    requires d != 0 && v == k * d
    ensures (if (v < 0) == (d < 0) then k else -k) * (if d < 0 then -d else d) == if v < 0 then -v else v
  {
  }

  /** What the checker demands of one constraint under partial bindings. */
  ghost predicate Passes(c: Constraint, shape: Shape, bindings: Bindings) {
    match c
    case Divisibility(axis, divisor) =>
      var v := ResolveDimensionValue(shape, axis, bindings);
      v.Some? ==> divisor != 0 && TruncatedRemainder(v.value, divisor) == 0
    case Range(axis, min, max) =>
      var v := ResolveDimensionValue(shape, axis, bindings);
      v.Some? ==> min <= v.value <= max
    case SymbolEquality(left, right) =>
      left in bindings && right in bindings ==> bindings[left] == bindings[right]
  }

  datatype ConstraintError = ZeroDivisor(constraint: Constraint) | Violated(constraint: Constraint)

  /** Checks in order; the error names the first constraint that fails. */
  method ValidateConstraints(constraints: seq<Constraint>, shape: Shape, bindings: Bindings)
    returns (error: Option<ConstraintError>)
    ensures error.None? <==> forall k | 0 <= k < |constraints| :: Passes(constraints[k], shape, bindings)
    ensures error.Some? ==> exists k | 0 <= k < |constraints| ::
      && constraints[k] == error.value.constraint && !Passes(constraints[k], shape, bindings)
      && (error.value.ZeroDivisor? <==> constraints[k].Divisibility? && constraints[k].divisor == 0)
      && forall j | 0 <= j < k :: Passes(constraints[j], shape, bindings)
  {
    for k := 0 to |constraints|
      invariant forall j | 0 <= j < k :: Passes(constraints[j], shape, bindings)
    {
      hide TruncatedRemainder, ResolveDimensionValue;
      var c := constraints[k];
      if c.Divisibility? {
        var v := ResolveDimensionValue(shape, c.axis, bindings);
        if v.Some? {
          if c.divisor == 0 {
            return Some(ZeroDivisor(c));
          }
          if TruncatedRemainder(v.value, c.divisor) != 0 {
            return Some(Violated(c));
          }
        }
      } else if c.Range? {
        var v := ResolveDimensionValue(shape, c.axis, bindings);
        if v.Some? {
          if v.value < c.min || v.value > c.max {
            return Some(Violated(c));
          }
        }
      } else {
        if c.left in bindings && c.right in bindings && bindings[c.left] != bindings[c.right] {
          return Some(Violated(c));
        }
      }
    }
    return None;
  }

  // ----- what constraints mean

  /** The constraint is true of the sizes an assignment gives; one naming no axis of the shape says nothing. */
  ghost predicate Holds(c: Constraint, shape: Shape, sigma: Assignment) {
    match c
    case Divisibility(axis, divisor) =>
      var k := AxisOf(axis, |shape|);
      k.Some? ==> MultipleOf(Eval(shape[k.value], sigma), divisor)
    case Range(axis, min, max) =>
      var k := AxisOf(axis, |shape|);
      k.Some? ==> min <= Eval(shape[k.value], sigma) <= max
    case SymbolEquality(left, right) => sigma(left) == sigma(right)
  }

  ghost predicate NonzeroDivisor(c: Constraint) {
    c.Divisibility? ==> c.divisor != 0
  }

  lemma ResolvedIsEval(shape: Shape, axis: int, bindings: Bindings, sigma: Assignment)
    requires Extends(sigma, bindings) && ResolveDimensionValue(shape, axis, bindings).Some?
    ensures AxisOf(axis, |shape|).Some?
    ensures ResolveDimensionValue(shape, axis, bindings).value == Eval(shape[AxisOf(axis, |shape|).value], sigma)
  {
  }

  /** What is true of some assignment extending the bindings passes the check. */
  lemma PassesWhenHolds(c: Constraint, shape: Shape, bindings: Bindings, sigma: Assignment)
    requires Extends(sigma, bindings) && NonzeroDivisor(c) && Holds(c, shape, sigma)
    ensures Passes(c, shape, bindings)
  {
    hide TruncatedRemainder, MultipleOf;
    if !c.SymbolEquality? {
      var v := ResolveDimensionValue(shape, c.axis, bindings);
      if v.Some? {
        ResolvedIsEval(shape, c.axis, bindings, sigma);
        if c.Divisibility? {
          TruncatedRemainderZero(v.value, c.divisor);
        }
      }
    }
  }

  /** The bindings determine everything the constraint speaks of. */
  ghost predicate Determined(c: Constraint, shape: Shape, bindings: Bindings) {
    match c
    case Divisibility(axis, divisor) =>
      AxisOf(axis, |shape|).Some? ==> ResolveDimensionValue(shape, axis, bindings).Some?
    case Range(axis, min, max) =>
      AxisOf(axis, |shape|).Some? ==> ResolveDimensionValue(shape, axis, bindings).Some?
    case SymbolEquality(left, right) => left in bindings && right in bindings
  }

  /** What passes the check and is determined is true of every assignment extending the bindings. */
  lemma HoldsWhenPasses(c: Constraint, shape: Shape, bindings: Bindings, sigma: Assignment)
    requires Extends(sigma, bindings) && Determined(c, shape, bindings) && Passes(c, shape, bindings)
    ensures Holds(c, shape, sigma)
  {
    hide TruncatedRemainder, MultipleOf;
    if !c.SymbolEquality? && AxisOf(c.axis, |shape|).Some? {
      var v := ResolveDimensionValue(shape, c.axis, bindings);
      ResolvedIsEval(shape, c.axis, bindings, sigma);
      if c.Divisibility? {
        TruncatedRemainderZero(v.value, c.divisor);
      }
    }
  }
}
