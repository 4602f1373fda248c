/** Offsets inside the shared workspace: alignment and the first-fit search. */
module FirstFit {

  /** The bits two numbers share. */
  function BitAnd(a: nat, b: nat): nat {
    if a == 0 then 0 else (a % 2) * (b % 2) + 2 * BitAnd(a / 2, b / 2)
  }

  /** The bits of the first number that the second does not have. */
  function BitClear(a: nat, b: nat): nat {
    if a == 0 then 0 else (a % 2) * (1 - b % 2) + 2 * BitClear(a / 2, b / 2)
  }

  predicate IsPowerOfTwo(value: int) {
    value > 0 && BitAnd(value, value - 1) == 0
  }

  lemma {:induction false} BitAndSelf(a: nat)
    ensures BitAnd(a, a) == a
  {
    if a > 0 {
      BitAndSelf(a / 2);
    }
  }

  /** Powers of two are one and the doubles of powers of two. */
  lemma PowerOfTwoHalves(value: int)
    ensures IsPowerOfTwo(value) <==> value == 1 || (value > 1 && value % 2 == 0 && IsPowerOfTwo(value / 2))
  {
    if value > 1 && value % 2 == 0 {
      assert (value - 1) / 2 == value / 2 - 1;
    } else if value > 1 {
      assert (value - 1) / 2 == value / 2;
      BitAndSelf(value / 2);
    } else if value == 1 {
      assert BitAnd(0, 0) == 0;
    }
  }

  ghost predicate Aligned(offset: int, align: int) {
    align >= 1 && offset % align == 0
  }

  /** Clears the bits of `value + align - 1` below the alignment. */
  function AlignUp(value: nat, align: int): (r: nat)
    requires align <= 1 || IsPowerOfTwo(align)
  {
    if align <= 1 then value else BitClear(value + align - 1, align - 1)
  }

  lemma BitClearZero(a: nat)
    ensures BitClear(a, 0) == a
    decreases a
  {
    if a > 0 {
      BitClearZero(a / 2);
    }
  }

  lemma HalfOfRemainder(a: nat, half: nat)
    requires half >= 1
    ensures a - a % (2 * half) == 2 * (a / 2 - (a / 2) % half)
  {
    var q, r := (a / 2) / half, (a / 2) % half;
    assert a / 2 == half * q + r;
    assert a == (2 * half) * q + (2 * r + a % 2);
    DivisionUnique(2 * half, q, 2 * r + a % 2, a / (2 * half), a % (2 * half));
  }

  /** For a power of two, clearing the low bits drops the remainder. */
  lemma {:induction false} BitClearIsRounding(a: nat, align: nat)
    requires IsPowerOfTwo(align)
    ensures BitClear(a, align - 1) == a - a % align
    decreases align
  {
    PowerOfTwoHalves(align);
    if align == 1 {
      BitClearZero(a);
    } else {
      BitClearIsRounding(a / 2, align / 2);
      assert (align - 1) % 2 == 1 && (align - 1) / 2 == align / 2 - 1;
      HalfOfRemainder(a, align / 2);
    }
  }

  lemma MulSub(d: int, a: int, b: int)
    ensures d * (a - b) == d * a - d * b
  {
  }

  lemma MulAtLeast(d: int, a: int)
    requires d >= 1 && a >= 1
    ensures d * a >= d
  {
  }

  lemma DivisionUnique(d: int, q: int, r: int, p: int, s: int)
    requires d >= 1 && 0 <= r < d && 0 <= s < d && d * q + r == d * p + s
    ensures q == p && r == s
  {
    MulSub(d, q, p);
    MulSub(d, p, q);
    if q > p {
      MulAtLeast(d, q - p);
    } else if q < p {
      MulAtLeast(d, p - q);
    }
  }

  lemma MultipleIsAligned(d: int, q: int)
    requires d >= 1
    ensures (d * q) % d == 0
  {
    var x := d * q;
    DivisionUnique(d, q, 0, x / d, x % d);
  }

  lemma AlignUpRounds(value: nat, align: int)
    requires align > 1 && IsPowerOfTwo(align)
    ensures AlignUp(value, align) == align * ((value + align - 1) / align)
  {
    hide IsPowerOfTwo, BitClear;
    BitClearIsRounding(value + align - 1, align);
  }

  lemma MultipleAbove(d: int, value: int, p: int)
    requires d >= 1 && d * p >= value
    ensures d * p >= d * ((value + d - 1) / d)
  {
    var q := (value + d - 1) / d;
    assert d * q <= value + d - 1;
    if p < q {
      MulSub(d, q, p);
      MulAtLeast(d, q - p);
    } else if p > q {
      MulSub(d, p, q);
      MulAtLeast(d, p - q);
    }
  }

  /** An aligned offset not below `value` is not below its rounding. */
  lemma AlignedAbove(value: nat, align: int, o: int)
    requires align > 1 && IsPowerOfTwo(align) && Aligned(o, align) && o >= value
    ensures o >= AlignUp(value, align)
  {
    hide IsPowerOfTwo, AlignUp;
    AlignUpRounds(value, align);
    assert o == align * (o / align);
    MultipleAbove(align, value, o / align);
  }

  lemma RoundingBounds(d: int, value: int)
    requires d >= 1
    ensures value <= d * ((value + d - 1) / d) < value + d
    ensures (d * ((value + d - 1) / d)) % d == 0
  {
    var x := value + d - 1;
    assert x == d * (x / d) + x % d && 0 <= x % d < d;
    MultipleIsAligned(d, x / d);
  }

  /** Rounding up gives the least aligned offset that is not below the value. */
  lemma AlignUpIsLeast(value: nat, align: int)
    requires align >= 1 && IsPowerOfTwo(align)
    ensures Aligned(AlignUp(value, align), align)
    ensures value <= AlignUp(value, align) < value + align
    ensures forall o | Aligned(o, align) && o >= value :: o >= AlignUp(value, align)
  {
    hide IsPowerOfTwo;
    if align > 1 {
      AlignUpRounds(value, align);
      RoundingBounds(align, value);
      hide AlignUp;
      forall o | Aligned(o, align) && o >= value
        ensures o >= AlignUp(value, align)
      {
        AlignedAbove(value, align, o);
      }
    }
  }

  lemma AlignedSum(a: int, b: int, align: int)
    requires Aligned(a, align) && Aligned(b, align)
    ensures Aligned(a + b, align)
  {
    var p, q := a / align, b / align;
    assert a == align * p && b == align * q;
    MulSub(align, p, -q);
    MultipleIsAligned(align, p + q);
    assert align * (p + q) == align * p + align * q;
  }

  lemma AlignedIsFixed(value: nat, align: int)
    requires align >= 1 && IsPowerOfTwo(align) && Aligned(value, align)
    ensures AlignUp(value, align) == value
  {
    AlignUpIsLeast(value, align);
  }

  datatype LiveBlock = LiveBlock(offset: int, size: int, end: int)

  /** A block of `size` bytes at `offset` would run into `block`. */
  ghost predicate Conflicts(offset: int, size: int, block: LiveBlock) {
    offset < block.offset + block.size && block.offset < offset + size
  }

  ghost predicate ConflictsAny(offset: int, size: int, live: seq<LiveBlock>) {
    exists k | 0 <= k < |live| :: Conflicts(offset, size, live[k])
  }

  /** The smallest aligned offset at which the block fits. */
  ghost predicate LeastFit(offset: int, size: int, live: seq<LiveBlock>, align: int) {
    && 0 <= offset && Aligned(offset, align)
    && !ConflictsAny(offset, size, live)
    && forall o | 0 <= o < offset && Aligned(o, align) :: ConflictsAny(o, size, live)
  }

  ghost predicate NonNegative(live: seq<LiveBlock>) {
    forall k | 0 <= k < |live| :: live[k].offset >= 0 && live[k].size >= 0
  }

  ghost predicate OffsetOrder(blocks: seq<LiveBlock>) {
    forall i, j | 0 <= i < j < |blocks| :: blocks[i].offset <= blocks[j].offset
  }

  lemma InsertKeepsOrder(sorted: seq<LiveBlock>, at: nat, block: LiveBlock)
    requires at <= |sorted| && OffsetOrder(sorted)
    requires at > 0 ==> sorted[at - 1].offset <= block.offset
    requires forall k | at <= k < |sorted| :: block.offset < sorted[k].offset
    ensures OffsetOrder(sorted[..at] + [block] + sorted[at..])
  {
    var longer := sorted[..at] + [block] + sorted[at..];
    forall i, j | 0 <= i < j < |longer|
      ensures longer[i].offset <= longer[j].offset
    {
      assert i < at ==> longer[i] == sorted[i];
      assert j < at ==> longer[j] == sorted[j];
      assert i > at ==> longer[i] == sorted[i - 1];
      assert j > at ==> longer[j] == sorted[j - 1];
    }
  }

  lemma InsertKeepsBlocks(sorted: seq<LiveBlock>, at: nat, block: LiveBlock)
    requires at <= |sorted|
    ensures multiset(sorted[..at] + [block] + sorted[at..]) == multiset(sorted) + multiset{block}
  {
    assert sorted == sorted[..at] + sorted[at..];
  }

  method SortByOffset(live: seq<LiveBlock>) returns (sorted: seq<LiveBlock>)
    ensures multiset(sorted) == multiset(live)
    ensures OffsetOrder(sorted)
  {
    sorted := [];
    for n := 0 to |live|
      invariant multiset(sorted) == multiset(live[..n])
      invariant OffsetOrder(sorted)
    {
      var at := |sorted|;
      while at > 0 && sorted[at - 1].offset > live[n].offset
        invariant 0 <= at <= |sorted|
        invariant forall k | at <= k < |sorted| :: live[n].offset < sorted[k].offset
      {
        at := at - 1;
      }
      InsertKeepsOrder(sorted, at, live[n]);
      InsertKeepsBlocks(sorted, at, live[n]);
      sorted := sorted[..at] + [live[n]] + sorted[at..];
      assert live[..n + 1] == live[..n] + [live[n]];
    }
    assert live[..|live|] == live;
  }

  /** A bound no candidate ever exceeds. */
  ghost function Ceiling(live: seq<LiveBlock>, align: int): (r: nat)
    requires IsPowerOfTwo(align) && NonNegative(live)
    ensures forall k | 0 <= k < |live| :: AlignUp(live[k].offset + live[k].size, align) <= r
  {
    if live == [] then 0
    else
      var last := live[|live| - 1];
      var rest := Ceiling(live[..|live| - 1], align);
      var here := AlignUp(last.offset + last.size, align);
      if here > rest then here else rest
  }

  /** Jumping past a conflicting block skips only offsets that conflict with it. */
  lemma JumpSkipsConflicts(candidate: int, size: nat, block: LiveBlock, align: int, o: int)
    requires align >= 1 && IsPowerOfTwo(align) && block.offset >= 0 && block.size >= 0
    requires Conflicts(candidate, size, block) && Aligned(o, align)
    requires candidate <= o < AlignUp(block.offset + block.size, align)
    ensures Conflicts(o, size, block)
  {
    AlignUpIsLeast(block.offset + block.size, align);
  }

  method ChooseLowestNonConflictingOffset(size: nat, live: seq<LiveBlock>, align: int) returns (candidate: nat)
    requires align >= 1 && IsPowerOfTwo(align) && NonNegative(live)
    ensures LeastFit(candidate, size, live, align)
  {
    hide AlignUp, Aligned, IsPowerOfTwo;
    candidate := 0;
    StartAligned(align);
    if |live| == 0 {
      return;
    }
    var sorted := SortByOffset(live);
    assert forall b :: b in sorted <==> b in multiset(live);
    assert NonNegative(sorted) by {
      forall k | 0 <= k < |sorted|
        ensures sorted[k].offset >= 0 && sorted[k].size >= 0
      {
        assert sorted[k] in multiset(live);
      }
    }
    while true
      invariant Aligned(candidate, align)
      invariant forall o | 0 <= o < candidate && Aligned(o, align) :: ConflictsAny(o, size, sorted)
      decreases if candidate < Ceiling(sorted, align) then Ceiling(sorted, align) - candidate else 0
    {
      var next := FirstConflict(candidate, size, sorted);
      if next == |sorted| {
        SameConflicts(size, sorted, live);
        return;
      }
      Jump(candidate, size, sorted, next, align);
      candidate := AlignUp(sorted[next].offset + sorted[next].size, align);
    }
  }

  lemma StartAligned(align: int)
    requires align >= 1
    ensures Aligned(0, align)
  {
  }

  /** One jump moves up, stays below the ceiling, and passes over conflicting offsets only. */
  lemma Jump(candidate: nat, size: nat, sorted: seq<LiveBlock>, next: nat, align: int)
    requires align >= 1 && IsPowerOfTwo(align) && NonNegative(sorted)
    requires next < |sorted| && Conflicts(candidate, size, sorted[next])
    requires forall o | 0 <= o < candidate && Aligned(o, align) :: ConflictsAny(o, size, sorted)
    ensures candidate < AlignUp(sorted[next].offset + sorted[next].size, align) <= Ceiling(sorted, align)
    ensures Aligned(AlignUp(sorted[next].offset + sorted[next].size, align), align)
    ensures forall o | 0 <= o < AlignUp(sorted[next].offset + sorted[next].size, align) && Aligned(o, align) ::
      ConflictsAny(o, size, sorted)
  {
    hide AlignUp, Aligned, IsPowerOfTwo;
    var block := sorted[next];
    AlignUpIsLeast(block.offset + block.size, align);
    forall o | 0 <= o < AlignUp(block.offset + block.size, align) && Aligned(o, align)
      ensures ConflictsAny(o, size, sorted)
    {
      if o >= candidate {
        JumpSkipsConflicts(candidate, size, block, align, o);
      }
    }
  }

  /** The first block the candidate runs into, or one past the last block. */
  method FirstConflict(candidate: int, size: int, sorted: seq<LiveBlock>) returns (next: nat)
    ensures next <= |sorted|
    ensures next < |sorted| ==> Conflicts(candidate, size, sorted[next])
    ensures forall k | 0 <= k < next :: !Conflicts(candidate, size, sorted[k])
  {
    next := 0;
    while next < |sorted|
      invariant next <= |sorted|
      invariant forall k | 0 <= k < next :: !Conflicts(candidate, size, sorted[k])
    {
      var block := sorted[next];
      if candidate >= block.offset + block.size {
        next := next + 1;
        continue;
      }
      if candidate + size <= block.offset {
        next := next + 1;
        continue;
      }
      return;
    }
  }

  lemma SameConflicts(size: int, a: seq<LiveBlock>, b: seq<LiveBlock>)
    requires multiset(a) == multiset(b)
    ensures forall o :: ConflictsAny(o, size, a) <==> ConflictsAny(o, size, b)
  {
    forall o
      ensures ConflictsAny(o, size, a) <==> ConflictsAny(o, size, b)
    {
      if k :| 0 <= k < |a| && Conflicts(o, size, a[k]) {
        assert a[k] in multiset(b);
      }
      if k :| 0 <= k < |b| && Conflicts(o, size, b[k]) {
        assert b[k] in multiset(a);
      }
    }
  }
}
