/** Interval colouring: tensors whose lifetimes overlap get disjoint aligned ranges of one workspace. */
module OffsetAllocator {
  import opened FirstFit

  /** One port's lifetime (steps inclusive) and its place in the workspace. */
  datatype Interval = Interval(portID: int, start: int, end: int, offset: int, size: int)

  ghost predicate Overlaps(a: Interval, b: Interval) {
    !(a.end < b.start) && !(b.end < a.start)
  }

  /** The byte ranges have no byte in common, and neither starts inside the other. */
  ghost predicate Apart(a: Interval, b: Interval) {
    a.offset >= b.offset + b.size || a.offset + a.size <= b.offset
  }

  predicate Before(a: Interval, b: Interval) {
    a.start < b.start || (a.start == b.start && a.portID <= b.portID)
  }

  ghost predicate InOrder(work: seq<Interval>) {
    forall i, j | 0 <= i < j < |work| ::
      work[i].start < work[j].start || (work[i].start == work[j].start && work[i].portID <= work[j].portID)
  }

  lemma InsertInOrder(sorted: seq<Interval>, at: nat, interval: Interval)
    requires at <= |sorted| && InOrder(sorted)
    requires forall k | 0 <= k < at :: Before(sorted[k], interval)
    requires forall k | at <= k < |sorted| :: Before(interval, sorted[k])
    ensures InOrder(sorted[..at] + [interval] + sorted[at..])
    ensures multiset(sorted[..at] + [interval] + sorted[at..]) == multiset(sorted) + multiset{interval}
  {
    assert sorted == sorted[..at] + sorted[at..];
  }

  /** sort.Slice by (start, port ID). */
  method SortIntervals(intervals: seq<Interval>) returns (sorted: seq<Interval>)
    ensures multiset(sorted) == multiset(intervals) && InOrder(sorted)
  {
    sorted := [];
    for n := 0 to |intervals|
      invariant multiset(sorted) == multiset(intervals[..n]) && InOrder(sorted)
    {
      var at := |sorted|;
      while at > 0 && !Before(sorted[at - 1], intervals[n])
        invariant 0 <= at <= |sorted|
        invariant forall k | at <= k < |sorted| :: Before(intervals[n], sorted[k])
      {
        at := at - 1;
      }
      InsertInOrder(sorted, at, intervals[n]);
      sorted := sorted[..at] + [intervals[n]] + sorted[at..];
      assert intervals[..n + 1] == intervals[..n] + [intervals[n]];
    }
    assert intervals[..|intervals|] == intervals;
  }

  /** The blocks placed so far that are still live at step `now`. */
  ghost function LiveAt(placed: seq<Interval>, now: int): seq<LiveBlock> {
    if placed == [] then []
    else
      var last := placed[|placed| - 1];
      LiveAt(placed[..|placed| - 1], now) +
      if last.end >= now then [LiveBlock(last.offset, last.size, last.end)] else []
  }

  ghost function StillLive(live: seq<LiveBlock>, now: int): seq<LiveBlock> {
    if live == [] then []
    else
      var last := live[|live| - 1];
      StillLive(live[..|live| - 1], now) + if last.end >= now then [last] else []
  }

  lemma {:induction false} StillLiveAppend(a: seq<LiveBlock>, b: LiveBlock, now: int)
    ensures StillLive(a + [b], now) == StillLive(a, now) + if b.end >= now then [b] else []
  {
    assert (a + [b])[..|a|] == a;
  }

  /** Evicting expired blocks early loses nothing that a later step still needs. */
  lemma {:induction false} EvictEarly(live: seq<LiveBlock>, before: int, now: int)
    requires before <= now
    ensures StillLive(StillLive(live, before), now) == StillLive(live, now)
  {
    if live != [] {
      var n := |live| - 1;
      EvictEarly(live[..n], before, now);
      if live[n].end >= before {
        StillLiveAppend(StillLive(live[..n], before), live[n], now);
      } else {
        assert StillLive(live, before) == StillLive(live[..n], before);
      }
    }
  }

  method EvictExpired(live: seq<LiveBlock>, now: int) returns (stillLive: seq<LiveBlock>)
    ensures stillLive == StillLive(live, now)
  {
    stillLive := [];
    for k := 0 to |live|
      invariant stillLive == StillLive(live[..k], now)
    {
      assert live[..k + 1] == live[..k] + [live[k]];
      StillLiveAppend(live[..k], live[k], now);
      if live[k].end >= now {
        stillLive := stillLive + [live[k]];
      }
    }
    assert live[..|live|] == live;
  }

  lemma {:induction false} LiveBlockOf(placed: seq<Interval>, now: int, i: nat)
    requires i < |placed| && placed[i].end >= now
    ensures LiveBlock(placed[i].offset, placed[i].size, placed[i].end) in LiveAt(placed, now)
  {
    var n := |placed| - 1;
    if i < n {
      LiveBlockOf(placed[..n], now, i);
    }
  }

  lemma {:induction false} BlockIsPlaced(placed: seq<Interval>, now: int, k: nat) returns (i: nat)
    requires k < |LiveAt(placed, now)|
    ensures i < |placed| && placed[i].end >= now
    ensures LiveAt(placed, now)[k] == LiveBlock(placed[i].offset, placed[i].size, placed[i].end)
  {
    var n := |placed| - 1;
    if k < |LiveAt(placed[..n], now)| {
      i := BlockIsPlaced(placed[..n], now, k);
    } else {
      i := n;
    }
  }

  ghost function TotalSize(work: seq<Interval>): int {
    if work == [] then 0 else TotalSize(work[..|work| - 1]) + work[|work| - 1].size
  }

  /** The sizes live at one step, summed. */
  ghost function LiveSize(work: seq<Interval>, now: int): int {
    if work == [] then 0
    else
      var last := work[|work| - 1];
      LiveSize(work[..|work| - 1], now) + if last.start <= now <= last.end then last.size else 0
  }

  /** Same ports and lifetimes, sizes rounded up, offsets still to be chosen. */
  ghost predicate Rounded(base: seq<Interval>, work: seq<Interval>, align: int)
    requires IsPowerOfTwo(align)
  {
    && |work| == |base|
    && forall i | 0 <= i < |work| ::
         && base[i].size >= 0
         && work[i] == base[i].(size := AlignUp(base[i].size, align), offset := work[i].offset)
  }

  /** Each placed interval took the least offset free of the intervals placed before it and still live. */
  ghost predicate FirstFitPlaced(placed: seq<Interval>, align: int) {
    forall i | 0 <= i < |placed| ::
      LeastFit(placed[i].offset, placed[i].size, LiveAt(placed[..i], placed[i].start), align)
  }

  /** The workspace is exactly as large as the highest range end. */
  ghost predicate HighWater(placed: seq<Interval>, top: int) {
    && top >= 0
    && (forall i | 0 <= i < |placed| :: placed[i].offset + placed[i].size <= top)
    && (top == 0 || exists i | 0 <= i < |placed| :: placed[i].offset + placed[i].size == top)
  }

  /** What the allocator returns for a list of intervals. */
  ghost predicate Allocation(intervals: seq<Interval>, align: int, total: int, work: seq<Interval>)
    requires IsPowerOfTwo(align)
  {
    && (exists base :: multiset(base) == multiset(intervals) && InOrder(base) && Rounded(base, work, align))
    && FirstFitPlaced(work, align)
    && HighWater(work, total)
  }

  const DEFAULT_ALIGN := 64

  /** Every offset, every size and the total are multiples of the unit. */
  ghost predicate MultiplesOf(work: seq<Interval>, total: int, unit: int)
    requires unit > 0
  {
    total % unit == 0 && forall i | 0 <= i < |work| :: work[i].offset % unit == 0 && work[i].size % unit == 0
  }

  lemma AlignedMultiples(work: seq<Interval>, total: int, unit: int)
    requires Aligned(total, unit)
    requires forall i | 0 <= i < |work| :: Aligned(work[i].offset, unit) && Aligned(work[i].size, unit)
    ensures unit > 0 && MultiplesOf(work, total, unit)
  {
  }

  /** The live list kept by the loop agrees, from step `now` on, with the intervals placed so far. */
  ghost predicate Tracks(live: seq<LiveBlock>, placed: seq<Interval>, now: int) {
    forall later | later >= now :: StillLive(live, later) == LiveAt(placed, later)
  }

  lemma TrackPlaced(live: seq<LiveBlock>, placed: seq<Interval>, now: int, interval: Interval)
    requires Tracks(live, placed, now) && now <= interval.start
    ensures Tracks(StillLive(live, interval.start) + [LiveBlock(interval.offset, interval.size, interval.end)],
                   placed + [interval], interval.start)
  {
    var block := LiveBlock(interval.offset, interval.size, interval.end);
    forall later | later >= interval.start
      ensures StillLive(StillLive(live, interval.start) + [block], later) == LiveAt(placed + [interval], later)
    {
      EvictEarly(live, interval.start, later);
      StillLiveAppend(StillLive(live, interval.start), block, later);
      assert (placed + [interval])[..|placed|] == placed;
    }
  }

  lemma {:induction false} LiveNonNegative(placed: seq<Interval>, now: int)
    requires forall i | 0 <= i < |placed| :: placed[i].offset >= 0 && placed[i].size >= 0
    ensures NonNegative(LiveAt(placed, now))
  {
    forall k | 0 <= k < |LiveAt(placed, now)|
      ensures LiveAt(placed, now)[k].offset >= 0 && LiveAt(placed, now)[k].size >= 0
    {
      var i := BlockIsPlaced(placed, now, k);
    }
  }

  lemma FirstFitAppend(placed: seq<Interval>, interval: Interval, align: int)
    requires FirstFitPlaced(placed, align)
    requires LeastFit(interval.offset, interval.size, LiveAt(placed, interval.start), align)
    ensures FirstFitPlaced(placed + [interval], align)
  {
    var more := placed + [interval];
    forall i | 0 <= i < |more|
      ensures LeastFit(more[i].offset, more[i].size, LiveAt(more[..i], more[i].start), align)
    {
      assert i < |placed| ==> more[..i] == placed[..i];
      assert i == |placed| ==> more[..i] == placed;
    }
  }

  lemma NothingAllocated(intervals: seq<Interval>, align: int)
    requires IsPowerOfTwo(align) && intervals == []
    ensures Allocation(intervals, align, 0, [])
  {
    var base: seq<Interval> := [];
    assert multiset(base) == multiset(intervals) && InOrder(base) && Rounded(base, [], align);
  }

  lemma SameSizes(intervals: seq<Interval>, base: seq<Interval>)
    requires multiset(base) == multiset(intervals)
    requires forall i | 0 <= i < |intervals| :: intervals[i].size >= 0
    ensures |base| == |intervals| && forall i | 0 <= i < |base| :: base[i].size >= 0
  {
    assert |multiset(base)| == |base| && |multiset(intervals)| == |intervals|;
    forall i | 0 <= i < |base|
      ensures base[i].size >= 0
    {
      assert base[i] in multiset(intervals);
    }
  }

  lemma RaiseHighWater(placed: seq<Interval>, top: int, interval: Interval)
    requires HighWater(placed, top) && interval.offset + interval.size >= 0
    ensures HighWater(placed + [interval],
              if top < interval.offset + interval.size then interval.offset + interval.size else top)
  {
    var more := placed + [interval];
    assert more[|placed|] == interval;
    if top != 0 {
      var i :| 0 <= i < |placed| && placed[i].offset + placed[i].size == top;
      assert more[i] == placed[i];
    }
  }

  /** Every range end is aligned, so rounding up the high-water mark changes nothing. */
  lemma HighWaterAligned(placed: seq<Interval>, align: int, top: nat)
    requires align >= 1 && IsPowerOfTwo(align) && HighWater(placed, top)
    requires forall i | 0 <= i < |placed| :: Aligned(placed[i].offset, align) && Aligned(placed[i].size, align)
    ensures AlignUp(top, align) == top
  {
    hide AlignUp, IsPowerOfTwo;
    if top == 0 {
      assert Aligned(0, align);
    } else {
      var i :| 0 <= i < |placed| && placed[i].offset + placed[i].size == top;
      AlignedSum(placed[i].offset, placed[i].size, align);
    }
    AlignedIsFixed(top, align);
  }

  lemma ChosenOffset(offset: int, size: int, live: seq<LiveBlock>, align: int)
    requires LeastFit(offset, size, live, align)
    ensures Aligned(offset, align)
  {
  }

  lemma StartsAscend(base: seq<Interval>)
    requires InOrder(base)
    ensures forall i, j | 0 <= i <= j < |base| :: base[i].start <= base[j].start
  {
  }

  lemma NothingPlaced(now: int, align: int)
    ensures FirstFitPlaced([], align) && HighWater([], 0) && Tracks([], [], now)
  {
  }

  /** Placing one interval keeps every fact about the intervals placed before. */
  lemma PlaceStep(live: seq<LiveBlock>, placed: seq<Interval>, now: int, top: int, chosen: Interval, align: int)
    requires Tracks(live, placed, now) && now <= chosen.start
    requires FirstFitPlaced(placed, align) && HighWater(placed, top)
    requires LeastFit(chosen.offset, chosen.size, StillLive(live, chosen.start), align) && chosen.size >= 0
    ensures Tracks(StillLive(live, chosen.start) + [LiveBlock(chosen.offset, chosen.size, chosen.end)],
                   placed + [chosen], chosen.start)
    ensures FirstFitPlaced(placed + [chosen], align)
    ensures HighWater(placed + [chosen],
              if top < chosen.offset + chosen.size then chosen.offset + chosen.size else top)
    ensures chosen.offset >= 0 && Aligned(chosen.offset, align)
  {
    TrackPlaced(live, placed, now, chosen);
    FirstFitAppend(placed, chosen, align);
    RaiseHighWater(placed, top, chosen);
  }

  lemma TrackedNonNegative(live: seq<LiveBlock>, placed: seq<Interval>, now: int, later: int)
    requires Tracks(live, placed, now) && now <= later
    requires forall i | 0 <= i < |placed| :: placed[i].offset >= 0 && placed[i].size >= 0
    ensures NonNegative(StillLive(live, later))
  {
    LiveNonNegative(placed, later);
  }

  method AllocateOffsets(intervals: seq<Interval>, requested: int) returns (total: int, work: seq<Interval>)
    requires requested > 0 ==> IsPowerOfTwo(requested)
    requires forall i | 0 <= i < |intervals| :: intervals[i].size >= 0
    ensures requested > 0 ==> Allocation(intervals, requested, total, work) && MultiplesOf(work, total, requested)
    ensures requested <= 0 ==> IsPowerOfTwo(64) && Allocation(intervals, 64, total, work) && MultiplesOf(work, total, 64)
  {
    DefaultIsPower();
    hide LeastFit, Aligned, AlignUp, IsPowerOfTwo, Tracks, FirstFitPlaced, HighWater, InOrder, StillLive, LiveAt;
    var align := if requested <= 0 then DEFAULT_ALIGN else requested;
    if |intervals| == 0 {
      total, work := 0, [];
      NothingAllocated(intervals, align);
      StartAligned(align);
      AlignedMultiples(work, total, align);
      return;
    }
    work := SortIntervals(intervals);
    ghost var base := work;
    SameSizes(intervals, base);
    StartsAscend(base);
    var live: seq<LiveBlock> := [];
    var highWater := 0;
    ghost var placed: seq<Interval> := [];
    ghost var now := work[0].start;
    NothingPlaced(now, align);
    for index := 0 to |work|
      invariant |work| == |base| && |placed| == index
      invariant forall i | index <= i < |work| :: work[i] == base[i]
      invariant forall i | 0 <= i < index :: work[i] == placed[i]
      invariant forall i | 0 <= i < index ::
        placed[i] == base[i].(size := AlignUp(base[i].size, align), offset := placed[i].offset)
      invariant forall i | 0 <= i < index :: placed[i].offset >= 0 && placed[i].size >= 0
      invariant forall i | 0 <= i < index :: Aligned(placed[i].offset, align) && Aligned(placed[i].size, align)
      invariant FirstFitPlaced(placed, align) && HighWater(placed, highWater)
      invariant Tracks(live, placed, now) && (index < |work| ==> now <= work[index].start)
    {
      var interval := work[index];
      TrackedNonNegative(live, placed, now, interval.start);
      var stillLive := EvictExpired(live, interval.start);
      AlignUpIsLeast(interval.size, align);
      var size := AlignUp(interval.size, align);
      var offset := ChooseLowestNonConflictingOffset(size, stillLive, align);
      var chosen := interval.(size := size, offset := offset);
      PlaceStep(live, placed, now, highWater, chosen, align);
      if highWater < offset + size {
        highWater := offset + size;
      }
      work := work[index := chosen];
      live := stillLive + [LiveBlock(offset, size, interval.end)];
      placed := placed + [chosen];
      now := interval.start;
    }
    assert work == placed;
    assert Rounded(base, work, align);
    HighWaterIsNat(work, highWater);
    HighWaterAligned(work, align, highWater);
    AlignUpIsLeast(highWater, align);
    total := AlignUp(highWater, align);
    AlignedMultiples(work, total, align);
  }

  lemma DefaultIsPower()
    ensures IsPowerOfTwo(64)
  {
    PowerOfTwoHalves(64);
    PowerOfTwoHalves(32);
    PowerOfTwoHalves(16);
    PowerOfTwoHalves(8);
    PowerOfTwoHalves(4);
    PowerOfTwoHalves(2);
    PowerOfTwoHalves(1);
  }

  lemma HighWaterIsNat(placed: seq<Interval>, top: int)
    requires HighWater(placed, top)
    ensures top >= 0
  {
  }
}
