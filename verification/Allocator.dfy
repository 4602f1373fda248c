/** The tiered allocator: slab shards, medium classes, and a searched list of large blocks. */
module Allocator {
  import opened Wrappers
  import opened SizeClasses
  import opened Blocks

  class LargeBlock {
    const block: Block
    var next: LargeBlock?

    constructor (block: Block, next: LargeBlock?)
      ensures this.block == block && this.next == next
    {
      this.block, this.next := block, next;
    }
  }

  ghost function Link(spine: seq<LargeBlock>, i: int): LargeBlock? {
    if 0 <= i < |spine| then spine[i] else null
  }

  lemma StillDistinct(spine: seq<LargeBlock>, at: nat)
    requires at < |spine| && forall i, j | 0 <= i < j < |spine| :: spine[i] != spine[j]
    ensures var rest := spine[..at] + spine[at + 1..];
      forall i, j | 0 <= i < j < |rest| :: rest[i] != rest[j]
  {
    var rest := spine[..at] + spine[at + 1..];
    forall i, j | 0 <= i < j < |rest|
      ensures rest[i] != rest[j]
    {
      assert rest[i] == spine[if i < at then i else i + 1] && rest[j] == spine[if j < at then j else j + 1];
    }
  }

  /** The linked list of free large blocks. */
  class LargePool {
    var head: LargeBlock?
    ghost var spine: seq<LargeBlock>

    constructor ()
      ensures Valid() && Contents() == [] && spine == []
    {
      head, spine := null, [];
    }

    ghost predicate Valid()
      reads this, spine
    {
      && head == Link(spine, 0)
      && (forall i | 0 <= i < |spine| :: spine[i].next == Link(spine, i + 1))
      && (forall i, j | 0 <= i < j < |spine| :: spine[i] != spine[j])
    }

    ghost function Contents(): (r: seq<Block>)
      reads this
      ensures |r| == |spine|
    {
      seq(|spine|, i requires 0 <= i < |spine| reads this => spine[i].block)
    }

    method Push(block: Block)
      requires Valid()
      modifies this
      ensures Valid() && Contents() == [block] + old(Contents())
      ensures fresh(set b | b in spine && b !in old(spine))
    {
      var added := new LargeBlock(block, head);
      head := added;
      ghost var longer := [added] + spine;
      forall i | 0 <= i < |longer|
        ensures longer[i].next == Link(longer, i + 1)
      {
        if i > 0 {
          assert longer[i] == spine[i - 1];
        }
      }
      spine := longer;
    }

    /** Takes the cursor's block out of the list. */
    method Unlink(previous: LargeBlock?, cursor: LargeBlock, ghost at: int)
      requires Valid() && 0 <= at < |spine| && spine[at] == cursor && previous == Link(spine, at - 1)
      modifies this, spine
      ensures Valid() && spine == old(spine[..at] + spine[at + 1..])
    {
      ghost var rest := spine[..at] + spine[at + 1..];
      StillDistinct(spine, at);
      if previous == null {
        head := cursor.next;
      } else {
        previous.next := cursor.next;
      }
      forall i | 0 <= i < |rest|
        ensures rest[i].next == Link(rest, i + 1)
      {
        assert rest[i] == if i < at then spine[i] else spine[i + 1];
      }
      spine := rest;
    }

    /** Searches for the first block that is large enough, and the block before it. */
    method Find(bytesNeeded: int) returns (previous: LargeBlock?, cursor: LargeBlock?, ghost at: int)
      requires Valid()
      ensures 0 <= at <= |spine| && cursor == Link(spine, at) && previous == Link(spine, at - 1)
      ensures cursor != null ==> bytesNeeded <= cursor.block.capacity
      ensures cursor == null ==> at == |spine|
      ensures forall j | 0 <= j < at :: spine[j].block.capacity < bytesNeeded
    {
      previous, cursor, at := null, head, 0;
      while cursor != null && cursor.block.capacity < bytesNeeded
        invariant 0 <= at <= |spine| && cursor == Link(spine, at) && previous == Link(spine, at - 1)
        invariant forall j | 0 <= j < at :: spine[j].block.capacity < bytesNeeded
        decreases |spine| - at
      {
        previous := cursor;
        cursor := cursor.next;
        at := at + 1;
      }
    }

    /** Unlinks the first block that is large enough. */
    method Take(bytesNeeded: int) returns (r: Option<Block>, ghost at: int)
      requires Valid()
      modifies this, spine
      ensures Valid() && forall b | b in spine :: b in old(spine)
      ensures r.None? ==> Contents() == old(Contents()) && forall b | b in Contents() :: b.capacity < bytesNeeded
      ensures r.Some? ==> 0 <= at < |old(spine)| && old(Contents())[at] == r.value && bytesNeeded <= r.value.capacity
      ensures r.Some? ==> Contents() == Without(old(Contents()), at)
      ensures r.Some? ==> forall j | 0 <= j < at :: old(Contents())[j].capacity < bytesNeeded
    {
      var previous, cursor;
      previous, cursor, at := Find(bytesNeeded);
      if cursor == null {
        return None, at;
      }
      Unlink(previous, cursor, at);
      assert Contents() == Without(old(Contents()), at);
      return Some(cursor.block), at;
    }
  }

  datatype Outcome =
    | NoBytes
    | Exhausted
    | Allocated(buffer: Buffer)

  /** Where a released block of this capacity goes. */
  ghost predicate RoutedTo(at: Location, capacity: int, shard: int) {
    if capacity < SLAB_MAX_BYTES then at == Slab(SlabClass(capacity), shard)
    else if capacity < LARGE_MIN_BYTES then
      at.Medium? && at.class_ >= 0 && LeastClass(capacity, MEDIUM_MIN_CLASS, at.class_ + MEDIUM_MIN_CLASS)
    else at == Large
  }

  lemma RoutedFits(at: Location, capacity: int, shard: int)
    requires RoutedTo(at, capacity, shard) && Sized(capacity)
    ensures FitsLocation(at, capacity)
  {
    hide Pow2, SlabClass, LeastClass;
    TierBounds();
    if capacity < LARGE_MIN_BYTES {
      var k: nat :| SLAB_CLASS_MIN <= k < MEDIUM_MAX_CLASS && capacity == Pow2(k);
      PowerTier(k);
      if k < MEDIUM_MIN_CLASS {
        SlabClassIsLeast(capacity);
        LeastClassOfPower(SLAB_CLASS_MIN, k);
        LeastClassUnique(capacity, SLAB_CLASS_MIN, SlabClass(capacity) + SLAB_CLASS_MIN, k);
      } else {
        LeastClassOfPower(MEDIUM_MIN_CLASS, k);
        LeastClassUnique(capacity, MEDIUM_MIN_CLASS, at.class_ + MEDIUM_MIN_CLASS, k);
      }
    }
  }

  lemma PowerTier(k: nat)
    requires SLAB_CLASS_MIN <= k < MEDIUM_MAX_CLASS
    ensures Pow2(k) < SLAB_MAX_BYTES <==> k < MEDIUM_MIN_CLASS
  {
    TierBounds();
    hide Pow2;
    if k < MEDIUM_MIN_CLASS {
      Pow2Monotone(k, MEDIUM_MIN_CLASS);
    } else if k > MEDIUM_MIN_CLASS {
      Pow2Monotone(MEDIUM_MIN_CLASS, k);
    }
  }

  /** The class of a small request is within the slab's range, and its blocks hold the request. */
  lemma SlabCapacity(bytesNeeded: int)
    requires 0 < bytesNeeded < SLAB_MAX_BYTES
    ensures var class_ := SlabClass(bytesNeeded);
      0 <= class_ <= 14 && bytesNeeded <= Pow2(SLAB_CLASS_MIN + class_)
  {
    SlabClassIsLeast(bytesNeeded);
    TierBounds();
    var k := SlabClass(bytesNeeded) + SLAB_CLASS_MIN;
    hide Pow2, SlabClass;
  }

  lemma HalfPower(k: nat)
    requires k > 0
    ensures Pow2(k) == 2 * Pow2(k - 1)
  {
  }

  /** The least power of two holding `n` is this bound exactly when `n` is above half of it. */
  lemma LeastClassAtBound(n: int, minimum: nat, k: nat, bound: nat)
    requires LeastClass(n, minimum, k) && minimum < bound && n < Pow2(bound)
    ensures Pow2(k) < Pow2(bound) <==> n <= Pow2(bound - 1)
  {
    HalfPower(bound);
    hide Pow2;
    if k > bound {
      Pow2Monotone(bound, k);
    } else if k < bound - 1 {
      Pow2Monotone(k, bound - 1);
    }
  }

  /** A slab block returns to the slab exactly when the request was at most half a mebibyte; else it changes tier. */
  lemma SlabBlockReturnsIff(bytesNeeded: int, at: Location, shard: int)
    requires 0 < bytesNeeded < SLAB_MAX_BYTES && RoutedTo(at, Pow2(SlabClass(bytesNeeded) + SLAB_CLASS_MIN), shard)
    ensures at.Slab? <==> bytesNeeded <= SLAB_MAX_BYTES / 2
  {
    SlabClassIsLeast(bytesNeeded);
    TierBounds();
    HalfPower(MEDIUM_MIN_CLASS);
    LeastClassAtBound(bytesNeeded, SLAB_CLASS_MIN, SlabClass(bytesNeeded) + SLAB_CLASS_MIN, MEDIUM_MIN_CLASS);
  }

  /** A medium block returns to the medium lists exactly when the request was at most half a gibibyte. */
  lemma MediumBlockReturnsIff(bytesNeeded: int, k: nat, at: Location, shard: int)
    requires SLAB_MAX_BYTES <= bytesNeeded < LARGE_MIN_BYTES && LeastClass(bytesNeeded, MEDIUM_MIN_CLASS, k)
    requires RoutedTo(at, Pow2(k), shard)
    ensures at.Medium? <==> bytesNeeded <= LARGE_MIN_BYTES / 2
  {
    TierBounds();
    HalfPower(MEDIUM_MAX_CLASS);
    LeastClassAtBound(bytesNeeded, MEDIUM_MIN_CLASS, k, MEDIUM_MAX_CLASS);
  }

  /** Blocks for requests of 600 KiB and of 600 MiB do change tier: to the medium lists, and to the large pool. */
  lemma BlocksChangeTier(at: Location, shard: int)
    ensures RoutedTo(at, Pow2(SlabClass(600 * 1024) + SLAB_CLASS_MIN), shard) ==> at.Medium?
    ensures forall k: nat | LeastClass(600 * 1024 * 1024, MEDIUM_MIN_CLASS, k) && RoutedTo(at, Pow2(k), shard) :: at.Large?
  {
    hide Pow2, SlabClass;
    var k := SlabClass(600 * 1024) + SLAB_CLASS_MIN;
    TierBounds();
    SlabClassIsLeast(600 * 1024);
    if k < MEDIUM_MIN_CLASS {
      Pow2Monotone(k, MEDIUM_MIN_CLASS);
    }
    if RoutedTo(at, Pow2(k), shard) {
      SlabBlockReturnsIff(600 * 1024, at, shard);
    }
    forall j: nat | LeastClass(600 * 1024 * 1024, MEDIUM_MIN_CLASS, j) && RoutedTo(at, Pow2(j), shard)
      ensures at.Large?
    {
      MediumBlockReturnsIff(600 * 1024 * 1024, j, at, shard);
    }
  }

  lemma SlabFits(class_: int, shard: int)
    requires 0 <= class_ <= 14
    ensures FitsLocation(Slab(class_, shard), Pow2(SLAB_CLASS_MIN + class_))
  {
  }

  lemma SlabFitsOnly(class_: int, shard: int, capacity: int)
    requires 0 <= class_ && FitsLocation(Slab(class_, shard), capacity)
    ensures capacity == Pow2(SLAB_CLASS_MIN + class_)
  {
  }

  // ----- what an allocation draws

  /** The head of the free list if there is one, a new block from the system otherwise. */
  ghost predicate Drawn(s: State, t: State, at: Location, capacity: int, b: Block) {
    if List(s, at) != [] then b == List(s, at)[0] && Taken(s, t, at, 0)
    else b == Block(s.next, capacity) && Supplied(s, t, capacity)
  }

  /** The least power of two that holds the bytes and is not below the smallest block. */
  ghost predicate LeastBlock(bytesNeeded: int, smallest: int, capacity: int) {
    && smallest <= capacity && bytesNeeded <= capacity
    && (capacity == smallest || capacity < 2 * bytesNeeded)
    && exists k: nat :: capacity == Pow2(k)
  }

  /** A slab request gets a block of at least 64 bytes from the list of its size and shard. */
  ghost predicate SlabDraw(s: State, t: State, bytesNeeded: int, shard: int, b: Block) {
    && LeastBlock(bytesNeeded, 64, b.capacity)
    && exists c: nat :: b.capacity == Pow2(6 + c) && Drawn(s, t, Slab(c, shard), b.capacity, b)
  }

  /** A medium request gets a block of at least one mebibyte from the list of its size. */
  ghost predicate MediumDraw(s: State, t: State, bytesNeeded: int, b: Block) {
    && LeastBlock(bytesNeeded, 0x10_0000, b.capacity)
    && exists c: nat :: b.capacity == Pow2(20 + c) && Drawn(s, t, Medium(c), b.capacity, b)
  }

  /** No free block of the size a medium request takes. */
  ghost predicate MediumEmpty(s: State, bytesNeeded: int) {
    forall c: nat | List(s, Medium(c)) != [] :: !LeastBlock(bytesNeeded, 0x10_0000, Pow2(20 + c))
  }

  ghost predicate LargeFits(s: State, bytesNeeded: int, i: int) {
    && 0 <= i < |List(s, Large)| && bytesNeeded <= List(s, Large)[i].capacity
    && forall j | 0 <= j < i :: List(s, Large)[j].capacity < bytesNeeded
  }

  ghost predicate LargeEmpty(s: State, bytesNeeded: int) {
    forall j | 0 <= j < |List(s, Large)| :: List(s, Large)[j].capacity < bytesNeeded
  }

  /** A large request gets the first free block that holds it, or else a new one of whole two-mebibyte pages. */
  ghost predicate LargeDraw(s: State, t: State, bytesNeeded: int, b: Block) {
    || (exists i :: LargeFits(s, bytesNeeded, i) && b == List(s, Large)[i] && Taken(s, t, Large, i))
    || (LargeEmpty(s, bytesNeeded) && b == Block(s.next, b.capacity) && Supplied(s, t, b.capacity)
        && b.capacity % 0x20_0000 == 0 && bytesNeeded <= b.capacity < bytesNeeded + 0x20_0000)
  }

  /** What a request is answered with: nothing, a block of its tier, or a failure when the tier has none to give. */
  ghost predicate Answered(s: State, t: State, bytesNeeded: int, shard: int, systemOk: bool, r: Outcome) {
    && (r.NoBytes? <==> bytesNeeded <= 0)
    && (r.Exhausted? <==>
          || (0x10_0000 <= bytesNeeded < 0x4000_0000 && !systemOk && MediumEmpty(s, bytesNeeded))
          || (0x4000_0000 <= bytesNeeded && !systemOk && LargeEmpty(s, bytesNeeded))
          || bytesNeeded > 0x7fff_ffff_ffff_ffff - 0x1f_ffff)
    && (!r.Allocated? ==> t == s)
    && (r.Allocated? ==>
          && r.buffer.length == bytesNeeded
          && (bytesNeeded < 0x10_0000 ==> SlabDraw(s, t, bytesNeeded, shard, r.buffer.block))
          && (0x10_0000 <= bytesNeeded < 0x4000_0000 ==> MediumDraw(s, t, bytesNeeded, r.buffer.block))
          && (0x4000_0000 <= bytesNeeded ==> LargeDraw(s, t, bytesNeeded, r.buffer.block)))
  }

  lemma LeastClassIsBlock(bytesNeeded: int, minimum: nat, k: nat)
    requires LeastClass(bytesNeeded, minimum, k)
    ensures LeastBlock(bytesNeeded, Pow2(minimum), Pow2(k))
  {
    if minimum < k {
      Pow2Monotone(minimum, k);
      HalfPower(k);
    }
  }

  /** Two powers of two that are both least for a request are one. */
  lemma LeastBlockUnique(bytesNeeded: int, smallest: int, a: nat, b: nat)
    requires LeastBlock(bytesNeeded, smallest, Pow2(a)) && LeastBlock(bytesNeeded, smallest, Pow2(b))
    ensures a == b
  {
    hide Pow2;
    if a < b {
      Pow2Monotone(a, b);
    } else if b < a {
      Pow2Monotone(b, a);
    }
  }

  lemma SlabDrawn(s: State, t: State, bytesNeeded: int, shard: int, b: Block)
    requires 0 < bytesNeeded < SLAB_MAX_BYTES && b.capacity == Pow2(SLAB_CLASS_MIN + SlabClass(bytesNeeded))
    requires Drawn(s, t, Slab(SlabClass(bytesNeeded), shard), b.capacity, b)
    ensures SlabDraw(s, t, bytesNeeded, shard, b)
  {
    hide Pow2, SlabClass, LeastBlock, Drawn;
    SlabClassIsLeast(bytesNeeded);
    TierBounds();
    LeastClassIsBlock(bytesNeeded, SLAB_CLASS_MIN, SlabClass(bytesNeeded) + SLAB_CLASS_MIN);
  }

  lemma MediumDrawn(s: State, t: State, bytesNeeded: int, class_: nat, b: Block)
    requires LeastClass(bytesNeeded, MEDIUM_MIN_CLASS, class_ + MEDIUM_MIN_CLASS)
    requires b.capacity == Pow2(MEDIUM_MIN_CLASS + class_) && Drawn(s, t, Medium(class_), b.capacity, b)
    ensures MediumDraw(s, t, bytesNeeded, b)
  {
    hide Pow2, LeastBlock, Drawn;
    TierBounds();
    LeastClassIsBlock(bytesNeeded, MEDIUM_MIN_CLASS, class_ + MEDIUM_MIN_CLASS);
  }

  lemma MediumEmptyIff(s: State, bytesNeeded: int, class_: nat)
    requires LeastClass(bytesNeeded, MEDIUM_MIN_CLASS, class_ + MEDIUM_MIN_CLASS)
    ensures MediumEmpty(s, bytesNeeded) <==> List(s, Medium(class_)) == []
  {
    hide Pow2, LeastBlock, List;
    TierBounds();
    LeastClassIsBlock(bytesNeeded, MEDIUM_MIN_CLASS, class_ + MEDIUM_MIN_CLASS);
    forall c: nat | List(s, Medium(c)) != []
      ensures LeastBlock(bytesNeeded, 0x10_0000, Pow2(20 + c)) ==> c == class_
    {
      if LeastBlock(bytesNeeded, 0x10_0000, Pow2(20 + c)) {
        LeastBlockUnique(bytesNeeded, 0x10_0000, 20 + c, class_ + MEDIUM_MIN_CLASS);
      }
    }
  }

  lemma PushedLarge(lists: map<Location, seq<Block>>, parked: seq<Block>, b: Block)
    ensures lists[Large := [b] + parked] == lists[Large := parked][Large := [b] + parked]
  {
  }

  lemma PushedElsewhere(lists: map<Location, seq<Block>>, parked: seq<Block>, at: Location, b: Block)
    requires at != Large
    ensures var free := if at in lists then lists[at] else [];
      lists[at := [b] + free][Large := parked] == lists[Large := parked][at := [b] + free]
  {
  }

  class Allocator {
    var lists: map<Location, seq<Block>>
    const large: LargePool
    var next: nat
    ghost var live: set<Block>

    constructor ()
      ensures Valid() && live == {} && forall at :: List(Snapshot(), at) == []
      ensures fresh(large) && large.spine == []
    {
      lists, next, live := map[], 0, {};
      large := new LargePool();
    }

    /** The free lists of all tiers, the live blocks and the next identity. */
    ghost function Snapshot(): State
      reads this, large
    {
      State(lists[Large := large.Contents()], live, next)
    }

    ghost predicate Valid()
      reads this, large, large.spine
    {
      large.Valid() && Safe(Snapshot())
    }

    function Free(at: Location): seq<Block>
      reads this
    {
      if at in lists then lists[at] else []
    }

    /** Takes the head of a slab or medium list into use. */
    method PopHead(at: Location) returns (b: Block)
      requires Valid() && at != Large && Free(at) != []
      modifies `lists, `live
      ensures Valid() && Next(old(Snapshot()), Snapshot()) && live == old(live) + {b}
      ensures FitsLocation(at, b.capacity) && forall x | x in old(live) :: x.id != b.id
      ensures b == List(old(Snapshot()), at)[0] && Taken(old(Snapshot()), Snapshot(), at, 0)
    {
      ghost var before := Snapshot();
      b := Free(at)[0];
      assert FreeAt(before, at, 0, b);
      lists := lists[at := Free(at)[1..]];
      live := live + {b};
      assert Without(List(before, at), 0) == List(before, at)[1..];
      assert Snapshot().lists == before.lists[at := List(before, at)[1..]];
      assert Taken(before, Snapshot(), at, 0);
      TakenKeeps(before, Snapshot(), at, 0);
    }

    /** Takes a block never seen before into use. */
    method Supply(capacity: int) returns (b: Block)
      requires Valid() && Sized(capacity)
      modifies `next, `live
      ensures Valid() && Next(old(Snapshot()), Snapshot()) && live == old(live) + {b}
      ensures b.capacity == capacity && forall x | x in old(live) :: x.id != b.id
      ensures b == Block(old(Snapshot()).next, capacity) && Supplied(old(Snapshot()), Snapshot(), capacity)
    {
      ghost var before := Snapshot();
      b := Block(next, capacity);
      live := live + {b};
      next := next + 1;
      assert Supplied(before, Snapshot(), capacity);
      SuppliedKeeps(before, Snapshot(), capacity);
    }

    method SlabAlloc(bytesNeeded: int, shard: int) returns (b: Block)
      requires Valid() && 0 < bytesNeeded < SLAB_MAX_BYTES
      modifies this
      ensures Valid() && Next(old(Snapshot()), Snapshot()) && live == old(live) + {b}
      ensures b.capacity == Pow2(SLAB_CLASS_MIN + SlabClass(bytesNeeded)) && bytesNeeded <= b.capacity
      ensures forall x | x in old(live) :: x.id != b.id
      ensures SlabDraw(old(Snapshot()), Snapshot(), bytesNeeded, shard, b)
    {
      hide SlabClass, Pow2, Safe, Next, Sized, FitsLocation, Taken, Supplied, SlabDraw, Snapshot, List;
      var class_ := SlabClass(bytesNeeded);
      SlabCapacity(bytesNeeded);
      var at := Slab(class_, shard);
      SlabFits(class_, shard);
      FreeIsList(at);
      if Free(at) != [] {
        b := PopHead(at);
        SlabFitsOnly(class_, shard, b.capacity);
      } else {
        FitsIsSized(at, Pow2(SLAB_CLASS_MIN + class_));
        b := Supply(Pow2(SLAB_CLASS_MIN + class_));
      }
      SlabDrawn(old(Snapshot()), Snapshot(), bytesNeeded, shard, b);
    }

    /** What the fields hold is what the abstract state lists. */
    lemma FreeIsList(at: Location)
      requires at != Large
      ensures Free(at) == List(Snapshot(), at)
    {
    }

    method MmapMedium(bytesNeeded: int, systemOk: bool) returns (r: Option<Block>)
      requires Valid() && SLAB_MAX_BYTES <= bytesNeeded < LARGE_MIN_BYTES
      modifies this
      ensures Valid() && Next(old(Snapshot()), Snapshot())
      ensures r.Some? ==> live == old(live) + {r.value} && bytesNeeded <= r.value.capacity
      ensures r.Some? ==> forall x | x in old(live) :: x.id != r.value.id
      ensures r.None? <==> !systemOk && MediumEmpty(old(Snapshot()), bytesNeeded)
      ensures r.None? ==> Snapshot() == old(Snapshot())
      ensures r.Some? ==> MediumDraw(old(Snapshot()), Snapshot(), bytesNeeded, r.value)
    {
      hide Next, Pow2, Sized, Safe, LeastClass, Taken, Supplied, MediumDraw, MediumEmpty, Snapshot, List;
      var class_ := MediumClass(bytesNeeded);
      var at := Medium(class_);
      FreeIsList(at);
      MediumEmptyIff(Snapshot(), bytesNeeded, class_);
      if Free(at) != [] {
        var b := PopHead(at);
        MediumDrawn(old(Snapshot()), Snapshot(), bytesNeeded, class_, b);
        return Some(b);
      }
      if !systemOk {
        NextStays(Snapshot());
        return None;
      }
      FitsIsSized(at, Pow2(MEDIUM_MIN_CLASS + class_));
      var b := Supply(Pow2(MEDIUM_MIN_CLASS + class_));
      MediumDrawn(old(Snapshot()), Snapshot(), bytesNeeded, class_, b);
      return Some(b);
    }

    method MmapLarge(bytesNeeded: int, systemOk: bool) returns (r: Option<Block>)
      requires Valid() && bytesNeeded >= LARGE_MIN_BYTES
      modifies this, large, large.spine
      ensures Valid() && Next(old(Snapshot()), Snapshot())
      ensures forall b | b in large.spine :: b in old(large.spine)
      ensures r.Some? ==> live == old(live) + {r.value} && bytesNeeded <= r.value.capacity
      ensures r.Some? ==> forall x | x in old(live) :: x.id != r.value.id
      ensures r.None? <==> bytesNeeded > 0x7fff_ffff_ffff_ffff - 0x1f_ffff || (!systemOk && LargeEmpty(old(Snapshot()), bytesNeeded))
      ensures r.None? ==> Snapshot() == old(Snapshot())
      ensures r.Some? ==> LargeDraw(old(Snapshot()), Snapshot(), bytesNeeded, r.value)
    {
      var rounded := RoundToHugePage(bytesNeeded);
      if rounded.None? {
        return None;
      }
      ghost var before := Snapshot();
      var found;
      ghost var at;
      found, at := large.Take(bytesNeeded);
      if found.Some? {
        assert FreeAt(before, Large, at, found.value);
        live := live + {found.value};
        assert Snapshot().lists == before.lists[Large := Without(List(before, Large), at)];
        assert Taken(before, Snapshot(), Large, at);
        TakenKeeps(before, Snapshot(), Large, at);
        assert LargeFits(before, bytesNeeded, at);
        return found;
      }
      assert Snapshot() == before;
      if !systemOk {
        return None;
      }
      var b := Supply(rounded.value);
      return Some(b);
    }

    /**
     Returns a buffer of the requested length in a block nobody else holds. Which shard is
     used and whether the system can supply a new block are up to the platform.
     */
    method Allocate(bytesNeeded: int, shard: int, systemOk: bool) returns (r: Outcome)
      requires Valid()
      modifies this, large, large.spine
      ensures Valid() && Next(old(Snapshot()), Snapshot())
      ensures forall b | b in large.spine :: b in old(large.spine)
      ensures Answered(old(Snapshot()), Snapshot(), bytesNeeded, shard, systemOk, r)
      ensures r.Allocated? ==> live == old(live) + {r.buffer.block} && r.buffer.length <= r.buffer.block.capacity
      ensures r.Allocated? ==> forall x | x in old(live) :: x.id != r.buffer.block.id
    {
      hide Next, Safe, RoundToHugePage, SlabDraw, MediumDraw, LargeDraw, MediumEmpty, LargeEmpty, Snapshot;
      if bytesNeeded <= 0 {
        NextStays(Snapshot());
        return NoBytes;
      }
      if bytesNeeded < SLAB_MAX_BYTES {
        var b := SlabAlloc(bytesNeeded, shard);
        return Allocated(Buffer(b, bytesNeeded));
      }
      if bytesNeeded < LARGE_MIN_BYTES {
        var b := MmapMedium(bytesNeeded, systemOk);
        return if b.Some? then Allocated(Buffer(b.value, bytesNeeded)) else Exhausted;
      }
      var b := MmapLarge(bytesNeeded, systemOk);
      return if b.Some? then Allocated(Buffer(b.value, bytesNeeded)) else Exhausted;
    }

    /** Picks the free list a capacity selects. */
    method Route(capacity: int, shard: int) returns (at: Location)
      ensures RoutedTo(at, capacity, shard)
    {
      if capacity < SLAB_MAX_BYTES {
        return Slab(SlabClass(capacity), shard);
      }
      if capacity < LARGE_MIN_BYTES {
        var class_ := MediumClass(capacity);
        return Medium(class_);
      }
      return Large;
    }

    /** Returns the buffer's block to a free list its capacity selects. */
    method Release(buffer: Buffer, shard: int)
      requires Valid() && buffer.block in live
      modifies this, large, large.spine
      ensures Valid() && live == old(live) - {buffer.block}
      ensures forall b | b in large.spine :: b in old(large.spine) || fresh(b)
      ensures exists at :: RoutedTo(at, buffer.block.capacity, shard) && Given(old(Snapshot()), Snapshot(), at, buffer.block)
    {
      ghost var before := Snapshot();
      var block := buffer.block;
      var at := Route(block.capacity, shard);
      RoutedFits(at, block.capacity, shard);
      assert Safe(before) && block in before.live;
      hide Safe, RoutedTo, FitsLocation, Sized;
      live := live - {block};
      if at == Large {
        ghost var parked := large.Contents();
        large.Push(block);
        PushedLarge(lists, parked, block);
      } else {
        PushedElsewhere(lists, large.Contents(), at, block);
        lists := lists[at := [block] + Free(at)];
      }
      assert Given(before, Snapshot(), at, block);
      GivenKeeps(before, Snapshot(), at, block);
    }
  }

  // ----- reuse

  /** The list a small or medium block goes to when released is the one a request of its class draws from. */
  lemma ClassOfRelease(at: Location, bytesNeeded: int, capacity: int, shard: int)
    requires RoutedTo(at, capacity, shard) && FitsLocation(at, capacity)
    requires if bytesNeeded < 0x10_0000 then 0 < bytesNeeded && capacity < 0x10_0000 && LeastBlock(bytesNeeded, 64, capacity)
             else capacity < 0x4000_0000 && LeastBlock(bytesNeeded, 0x10_0000, capacity)
    ensures bytesNeeded < 0x10_0000 ==>
      at.Slab? && at.shard == shard && at.class_ >= 0 && capacity == Pow2(6 + at.class_)
    ensures bytesNeeded >= 0x10_0000 ==> at.Medium? && at.class_ >= 0 && capacity == Pow2(20 + at.class_)
    ensures bytesNeeded <= capacity
  {
    hide Pow2, SlabClass;
    TierBounds();
  }

  /** The list the request draws from has the block at its head, so the block is what it gets. */
  lemma HeadIsDrawn(s: State, t: State, at: Location, bytesNeeded: int, shard: int, block: Block, b: Block)
    requires List(s, at) != [] && List(s, at)[0] == block
    requires bytesNeeded < 0x10_0000 ==>
      && at.Slab? && at.shard == shard && at.class_ >= 0 && block.capacity == Pow2(6 + at.class_)
      && LeastBlock(bytesNeeded, 64, block.capacity) && SlabDraw(s, t, bytesNeeded, shard, b)
    requires bytesNeeded >= 0x10_0000 ==>
      && at.Medium? && at.class_ >= 0 && block.capacity == Pow2(20 + at.class_)
      && LeastBlock(bytesNeeded, 0x10_0000, block.capacity) && MediumDraw(s, t, bytesNeeded, b)
    ensures b == block
  {
    hide Pow2, LeastBlock, List, Taken, Supplied;
    if bytesNeeded < 0x10_0000 {
      var c: nat :| b.capacity == Pow2(6 + c) && Drawn(s, t, Slab(c, shard), b.capacity, b);
      LeastBlockUnique(bytesNeeded, 64, 6 + c, 6 + at.class_);
    } else {
      var c: nat :| b.capacity == Pow2(20 + c) && Drawn(s, t, Medium(c), b.capacity, b);
      LeastBlockUnique(bytesNeeded, 0x10_0000, 20 + c, 20 + at.class_);
    }
  }

  lemma NotEmpty(s: State, at: Location, bytesNeeded: int, block: Block)
    requires at.Medium? && at.class_ >= 0 && block.capacity == Pow2(20 + at.class_) && List(s, at) != []
    requires LeastBlock(bytesNeeded, 0x10_0000, block.capacity)
    ensures !MediumEmpty(s, bytesNeeded)
  {
    hide Pow2, LeastBlock, List;
    var c: nat := at.class_;
    assert List(s, Medium(c)) != [];
  }

  /** A released block that stays in its tier is what the next request of its class gets, whatever the system does. */
  lemma ReleasedIsReused(before: State, between: State, after: State, at: Location, block: Block, bytesNeeded: int,
                         shard: int, systemOk: bool, r: Outcome)
    requires RoutedTo(at, block.capacity, shard) && Given(before, between, at, block)
    requires if bytesNeeded < 0x10_0000
             then 0 < bytesNeeded && block.capacity < 0x10_0000 && LeastBlock(bytesNeeded, 64, block.capacity)
             else block.capacity < 0x4000_0000 && LeastBlock(bytesNeeded, 0x10_0000, block.capacity)
    requires Answered(between, after, bytesNeeded, shard, systemOk, r)
    ensures r.Allocated? && r.buffer == Buffer(block, bytesNeeded)
  {
    hide LeastBlock, SlabDraw, MediumDraw, LargeDraw, LargeEmpty, MediumEmpty, RoutedTo, FitsLocation, Pow2;
    ClassOfRelease(at, bytesNeeded, block.capacity, shard);
    assert List(between, at) == [block] + List(before, at);
    if bytesNeeded >= 0x10_0000 {
      NotEmpty(between, at, bytesNeeded, block);
    }
    if r.Allocated? {
      HeadIsDrawn(between, after, at, bytesNeeded, shard, block, r.buffer.block);
    }
  }
}
