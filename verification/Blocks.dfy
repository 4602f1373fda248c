/** Who holds each block of memory: a free list or a live buffer, never both and never two. */
module Blocks {
  import opened Wrappers
  import opened SizeClasses

  datatype Block = Block(id: nat, capacity: int)

  /** The start of a block, of a given length. */
  datatype Buffer = Buffer(block: Block, length: int)

  datatype Location = Slab(class_: int, shard: int) | Medium(class_: int) | Large

  /** Every free list, the blocks in use, and the identity the system's next block will have. */
  datatype State = State(lists: map<Location, seq<Block>>, live: set<Block>, next: nat)

  ghost function List(s: State, at: Location): seq<Block> {
    if at in s.lists then s.lists[at] else []
  }

  /** The capacities a free list holds. */
  ghost predicate FitsLocation(at: Location, capacity: int) {
    match at
    case Slab(c, _) => 0 <= c <= 14 && capacity == Pow2(SLAB_CLASS_MIN + c)
    case Medium(c) => 0 <= c <= 10 && capacity == Pow2(MEDIUM_MIN_CLASS + c)
    case Large => capacity >= LARGE_MIN_BYTES
  }

  /** The capacities blocks have at all. */
  ghost predicate Sized(capacity: int) {
    capacity >= LARGE_MIN_BYTES || exists k: nat :: SLAB_CLASS_MIN <= k < MEDIUM_MAX_CLASS && capacity == Pow2(k)
  }

  lemma FitsIsSized(at: Location, capacity: int)
    requires FitsLocation(at, capacity)
    ensures Sized(capacity)
  {
    TierBounds();
    if at.Slab? {
      assert capacity == Pow2(SLAB_CLASS_MIN + at.class_);
    } else if at.Medium? && at.class_ < 10 {
      assert capacity == Pow2(MEDIUM_MIN_CLASS + at.class_);
    }
  }

  ghost predicate FreeAt(s: State, at: Location, i: int, b: Block) {
    0 <= i < |List(s, at)| && List(s, at)[i] == b
  }

  /** No block is on two free lists, or twice on one. */
  ghost predicate FreeOnce(s: State) {
    forall at, i, b, at', i', b' | FreeAt(s, at, i, b) && FreeAt(s, at', i', b') && b.id == b'.id ::
      at == at' && i == i'
  }

  /** No block is free and in use, and no two blocks in use are one. */
  ghost predicate LiveApart(s: State) {
    && (forall at, i, b, x | FreeAt(s, at, i, b) && x in s.live :: b.id != x.id)
    && (forall x, y | x in s.live && y in s.live && x.id == y.id :: x == y)
  }

  ghost predicate Known(s: State) {
    && (forall at, i, b | FreeAt(s, at, i, b) :: b.id < s.next && FitsLocation(at, b.capacity))
    && (forall x | x in s.live :: x.id < s.next && Sized(x.capacity))
  }

  ghost predicate Safe(s: State) {
    FreeOnce(s) && LiveApart(s) && Known(s)
  }

  // ----- the three ways a block changes hands

  ghost function Without(blocks: seq<Block>, i: int): seq<Block>
    requires 0 <= i < |blocks|
  {
    blocks[..i] + blocks[i + 1..]
  }

  /** A free block goes into use. */
  ghost predicate Taken(s: State, t: State, at: Location, i: int) {
    && 0 <= i < |List(s, at)|
    && t == State(s.lists[at := Without(List(s, at), i)], s.live + {List(s, at)[i]}, s.next)
  }

  /** The system supplies a block never seen before. */
  ghost predicate Supplied(s: State, t: State, capacity: int) {
    Sized(capacity) && t == State(s.lists, s.live + {Block(s.next, capacity)}, s.next + 1)
  }

  /** A block in use goes to the head of a free list. */
  ghost predicate Given(s: State, t: State, at: Location, b: Block) {
    && b in s.live && FitsLocation(at, b.capacity)
    && t == State(s.lists[at := [b] + List(s, at)], s.live - {b}, s.next)
  }

  ghost predicate Next(s: State, t: State) {
    || s == t
    || (exists at, i :: Taken(s, t, at, i))
    || (exists capacity :: Supplied(s, t, capacity))
    || (exists at, b :: Given(s, t, at, b))
  }

  lemma NextStays(s: State)
    ensures Next(s, s)
  {
  }

  lemma TakenOrigin(s: State, t: State, at: Location, i: int, at': Location, j: int, b: Block) returns (k: int)
    requires Taken(s, t, at, i) && FreeAt(t, at', j, b)
    ensures FreeAt(s, at', k, b) && (at' == at ==> k != i && k == if j < i then j else j + 1)
    ensures at' != at ==> k == j
  {
    k := if at' == at && j >= i then j + 1 else j;
  }

  lemma TakenKeeps(s: State, t: State, at: Location, i: int)
    requires Safe(s) && Taken(s, t, at, i)
    ensures Safe(t)
  {
    var b := List(s, at)[i];
    assert FreeAt(s, at, i, b);
    FitsIsSized(at, b.capacity);
    forall a1, i1, b1, a2, i2, b2 | FreeAt(t, a1, i1, b1) && FreeAt(t, a2, i2, b2) && b1.id == b2.id
      ensures a1 == a2 && i1 == i2
    {
      var k1 := TakenOrigin(s, t, at, i, a1, i1, b1);
      var k2 := TakenOrigin(s, t, at, i, a2, i2, b2);
    }
    forall a1, i1, b1, x | FreeAt(t, a1, i1, b1) && x in t.live
      ensures b1.id != x.id
    {
      var k1 := TakenOrigin(s, t, at, i, a1, i1, b1);
    }
    forall a1, i1, b1 | FreeAt(t, a1, i1, b1)
      ensures b1.id < t.next && FitsLocation(a1, b1.capacity)
    {
      var k1 := TakenOrigin(s, t, at, i, a1, i1, b1);
    }
  }

  lemma SuppliedKeeps(s: State, t: State, capacity: int)
    requires Safe(s) && Supplied(s, t, capacity)
    ensures Safe(t)
  {
    forall at, i, b | FreeAt(t, at, i, b)
      ensures FreeAt(s, at, i, b)
    {
    }
    hide FreeAt, FitsLocation, Sized;
  }

  lemma GivenOrigin(s: State, t: State, at: Location, b: Block, at': Location, j: int, c: Block)
    requires Given(s, t, at, b) && FreeAt(t, at', j, c)
    ensures if at' == at && j == 0 then c == b else FreeAt(s, at', if at' == at then j - 1 else j, c)
  {
  }

  lemma GivenKeeps(s: State, t: State, at: Location, b: Block)
    requires Safe(s) && Given(s, t, at, b)
    ensures Safe(t)
  {
    forall a1, i1, b1 | FreeAt(t, a1, i1, b1)
      ensures b1.id < t.next && FitsLocation(a1, b1.capacity)
      ensures forall x | x in t.live :: b1.id != x.id
    {
      GivenOrigin(s, t, at, b, a1, i1, b1);
    }
    forall a1, i1, b1, a2, i2, b2 | FreeAt(t, a1, i1, b1) && FreeAt(t, a2, i2, b2) && b1.id == b2.id
      ensures a1 == a2 && i1 == i2
    {
      GivenOrigin(s, t, at, b, a1, i1, b1);
      GivenOrigin(s, t, at, b, a2, i2, b2);
    }
  }

  lemma NextKeeps(s: State, t: State)
    requires Safe(s) && Next(s, t)
    ensures Safe(t)
  {
    hide Safe, Taken, Supplied, Given;
    if at, i :| Taken(s, t, at, i) {
      TakenKeeps(s, t, at, i);
    } else if capacity :| Supplied(s, t, capacity) {
      SuppliedKeeps(s, t, capacity);
    } else if at, b :| Given(s, t, at, b) {
      GivenKeeps(s, t, at, b);
    }
  }

  /** A run: each state follows from the one before by one block changing hands. */
  ghost predicate IsRun(states: seq<State>) {
    && states != [] && states[0].live == {} && (forall at :: List(states[0], at) == [])
    && (forall k | 0 <= k < |states| - 1 :: Next(states[k], states[k + 1]))
  }

  /** In no run do two live buffers share a block, or a live buffer and a free list. */
  lemma {:induction false} RunsAreSafe(states: seq<State>)
    requires IsRun(states)
    ensures Safe(states[|states| - 1])
  {
    var n := |states| - 1;
    if n > 0 {
      RunsAreSafe(states[..n]);
      assert Next(states[n - 1], states[n - 1 + 1]);
      hide Safe, Next;
      NextKeeps(states[n - 1], states[n]);
    }
  }
}
