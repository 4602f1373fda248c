/** What an allocation guarantees: safety, and a size squeezed from both sides. */
module AllocationTheorems {
  import opened FirstFit
  import opened OffsetAllocator

  /** Overlapping lifetimes have disjoint byte ranges. */
  lemma OverlapsAreApart(work: seq<Interval>, align: int, i: nat, j: nat)
    requires FirstFitPlaced(work, align)
    requires i < |work| && j < |work| && i != j && Overlaps(work[i], work[j])
    requires forall a, b | 0 <= a < b < |work| :: work[a].start <= work[b].start
    ensures Apart(work[i], work[j])
  {
    var a, b := if i < j then i else j, if i < j then j else i;
    var earlier := LiveAt(work[..b], work[b].start);
    assert work[..b][a] == work[a];
    LiveBlockOf(work[..b], work[b].start, a);
    var k :| 0 <= k < |earlier| && earlier[k] == LiveBlock(work[a].offset, work[a].size, work[a].end);
    assert !Conflicts(work[b].offset, work[b].size, earlier[k]);
  }

  lemma ObtainBase(intervals: seq<Interval>, align: int, total: int, work: seq<Interval>) returns (base: seq<Interval>)
    requires IsPowerOfTwo(align) && Allocation(intervals, align, total, work)
    ensures multiset(base) == multiset(intervals) && InOrder(base) && Rounded(base, work, align)
    ensures forall a, b | 0 <= a < b < |work| :: work[a].start <= work[b].start
  {
    base :| multiset(base) == multiset(intervals) && InOrder(base) && Rounded(base, work, align);
  }

  /** The allocator is safe: aligned ranges inside the workspace, disjoint whenever two tensors are alive together. */
  lemma AllocationIsSafe(intervals: seq<Interval>, align: int, total: int, work: seq<Interval>)
    requires IsPowerOfTwo(align) && align >= 1 && Allocation(intervals, align, total, work)
    ensures forall i | 0 <= i < |work| ::
      0 <= work[i].offset && Aligned(work[i].offset, align) && work[i].offset + work[i].size <= total
    ensures forall i, j | 0 <= i < |work| && 0 <= j < |work| && i != j && Overlaps(work[i], work[j]) ::
      Apart(work[i], work[j])
  {
    hide Overlaps, Apart, InOrder, Rounded, IsPowerOfTwo, Aligned;
    var base := ObtainBase(intervals, align, total, work);
    forall i, j | 0 <= i < |work| && 0 <= j < |work| && i != j && Overlaps(work[i], work[j])
      ensures Apart(work[i], work[j])
    {
      OverlapsAreApart(work, align, i, j);
    }
    assert forall i | 0 <= i < |work| :: LeastFit(work[i].offset, work[i].size, LiveAt(work[..i], work[i].start), align);
  }

  // ----- the size of the workspace

  ghost function Top(placed: seq<Interval>): int {
    if placed == [] then 0
    else
      var last := placed[|placed| - 1];
      var rest := Top(placed[..|placed| - 1]);
      if rest < last.offset + last.size then last.offset + last.size else rest
  }

  lemma {:induction false} TopBounds(placed: seq<Interval>)
    ensures Top(placed) >= 0
    ensures forall i | 0 <= i < |placed| :: placed[i].offset + placed[i].size <= Top(placed)
    ensures Top(placed) == 0 || exists i | 0 <= i < |placed| :: placed[i].offset + placed[i].size == Top(placed)
  {
    if placed != [] {
      var n := |placed| - 1;
      TopBounds(placed[..n]);
      forall i | 0 <= i < |placed|
        ensures placed[i].offset + placed[i].size <= Top(placed)
      {
        assert i < n ==> placed[..n][i] == placed[i];
      }
      if Top(placed) != 0 && Top(placed) == Top(placed[..n]) {
        var i :| 0 <= i < n && placed[..n][i].offset + placed[..n][i].size == Top(placed[..n]);
        assert placed[i].offset + placed[i].size == Top(placed);
      }
    }
  }

  lemma HighWaterIsTop(placed: seq<Interval>, top: int)
    requires HighWater(placed, top)
    ensures top == Top(placed)
  {
    TopBounds(placed);
  }

  /** First fit never goes past the ranges already placed. */
  lemma FitsBelowTop(placed: seq<Interval>, now: int, offset: int, size: nat, align: int)
    requires LeastFit(offset, size, LiveAt(placed, now), align) && Aligned(Top(placed), align)
    ensures offset <= Top(placed)
  {
    TopBounds(placed);
    var live := LiveAt(placed, now);
    if Top(placed) < offset {
      var k :| 0 <= k < |live| && Conflicts(Top(placed), size, live[k]);
      var i := BlockIsPlaced(placed, now, k);
      assert false;
    }
  }

  lemma FirstFitPrefix(placed: seq<Interval>, align: int)
    requires FirstFitPlaced(placed, align) && placed != []
    ensures FirstFitPlaced(placed[..|placed| - 1], align)
    ensures var last := placed[|placed| - 1];
      LeastFit(last.offset, last.size, LiveAt(placed[..|placed| - 1], last.start), align) && Aligned(last.offset, align)
  {
    hide LeastFit, Aligned;
    var n := |placed| - 1;
    forall i | 0 <= i < n
      ensures LeastFit(placed[..n][i].offset, placed[..n][i].size, LiveAt(placed[..n][..i], placed[..n][i].start), align)
    {
      assert placed[..n][..i] == placed[..i];
    }
    ChosenOffset(placed[n].offset, placed[n].size, LiveAt(placed[..n], placed[n].start), align);
  }

  /** The workspace is never larger than one private buffer per tensor would be. */
  lemma {:induction false} TopAtMostTotal(placed: seq<Interval>, align: int)
    requires align >= 1 && FirstFitPlaced(placed, align)
    requires forall i | 0 <= i < |placed| :: placed[i].size >= 0 && Aligned(placed[i].size, align)
    ensures Top(placed) <= TotalSize(placed) && Aligned(Top(placed), align)
  {
    hide FirstFitPlaced, LeastFit, Aligned, LiveAt;
    if placed == [] {
      StartAligned(align);
    } else {
      var n := |placed| - 1;
      var last := placed[n];
      FirstFitPrefix(placed, align);
      TopAtMostTotal(placed[..n], align);
      FitsBelowTop(placed[..n], last.start, last.offset, last.size, align);
      AlignedSum(last.offset, last.size, align);
    }
  }

  // ----- disjoint ranges fit side by side

  ghost function SumSizes(ranges: seq<Interval>): int {
    if ranges == [] then 0 else SumSizes(ranges[..|ranges| - 1]) + ranges[|ranges| - 1].size
  }

  ghost function Without(ranges: seq<Interval>, k: nat): seq<Interval>
    requires k < |ranges|
  {
    ranges[..k] + ranges[k + 1..]
  }

  lemma {:induction false} SumWithout(ranges: seq<Interval>, k: nat)
    requires k < |ranges|
    ensures SumSizes(ranges) == SumSizes(Without(ranges, k)) + ranges[k].size
  {
    var n := |ranges| - 1;
    if k == n {
      assert Without(ranges, k) == ranges[..n];
    } else {
      SumWithout(ranges[..n], k);
      assert Without(ranges, k)[..n - 1] == Without(ranges[..n], k);
    }
  }

  ghost predicate PairwiseApart(ranges: seq<Interval>) {
    forall i, j | 0 <= i < |ranges| && 0 <= j < |ranges| && i != j :: Apart(ranges[i], ranges[j])
  }

  ghost predicate Within(ranges: seq<Interval>, limit: int) {
    forall i | 0 <= i < |ranges| :: 0 <= ranges[i].offset && 0 <= ranges[i].size && ranges[i].offset + ranges[i].size <= limit
  }

  lemma {:induction false} LastRange(ranges: seq<Interval>) returns (k: nat)
    requires ranges != []
    ensures k < |ranges|
    ensures forall i | 0 <= i < |ranges| :: ranges[i].offset <= ranges[k].offset
  {
    k := 0;
    for n := 1 to |ranges|
      invariant k < |ranges| && forall i | 0 <= i < n :: ranges[i].offset <= ranges[k].offset
    {
      if ranges[n].offset > ranges[k].offset {
        k := n;
      }
    }
  }

  /** Pairwise disjoint ranges inside [0, limit] add up to at most the limit. */
  lemma {:induction false} DisjointRangesFit(ranges: seq<Interval>, limit: int)
    requires limit >= 0 && PairwiseApart(ranges) && Within(ranges, limit)
    ensures SumSizes(ranges) <= limit
    decreases |ranges|
  {
    if ranges != [] {
      if k :| 0 <= k < |ranges| && ranges[k].size == 0 {
        SumWithout(ranges, k);
        DisjointRangesFit(Without(ranges, k), limit);
      } else {
        var k := LastRange(ranges);
        SumWithout(ranges, k);
        DisjointRangesFit(Without(ranges, k), ranges[k].offset);
      }
    }
  }

  ghost function LiveIntervals(work: seq<Interval>, now: int): seq<Interval> {
    if work == [] then []
    else
      var last := work[|work| - 1];
      LiveIntervals(work[..|work| - 1], now) + if last.start <= now <= last.end then [last] else []
  }

  lemma {:induction false} LiveIntervalIndex(work: seq<Interval>, now: int, a: nat, b: nat) returns (i: nat, j: nat)
    requires a <= b < |LiveIntervals(work, now)|
    ensures i <= j < |work| && (a < b ==> i < j)
    ensures LiveIntervals(work, now)[a] == work[i] && work[i].start <= now <= work[i].end
    ensures LiveIntervals(work, now)[b] == work[j] && work[j].start <= now <= work[j].end
  {
    var n := |work| - 1;
    if b < |LiveIntervals(work[..n], now)| {
      i, j := LiveIntervalIndex(work[..n], now, a, b);
    } else if a < b {
      i, j := LiveIntervalIndex(work[..n], now, a, a);
      j := n;
    } else {
      i, j := n, n;
    }
  }

  lemma {:induction false} LiveSizeIsSum(work: seq<Interval>, now: int)
    ensures LiveSize(work, now) == SumSizes(LiveIntervals(work, now))
  {
    if work != [] {
      var n := |work| - 1;
      LiveSizeIsSum(work[..n], now);
      if work[n].start <= now <= work[n].end {
        assert LiveIntervals(work, now)[..|LiveIntervals(work, now)| - 1] == LiveIntervals(work[..n], now);
      } else {
        assert LiveIntervals(work, now) == LiveIntervals(work[..n], now);
      }
    }
  }

  /** At every step the tensors alive then fit in the workspace; and the workspace is no larger than all tensors together. */
  lemma WorkspaceSizeBounds(intervals: seq<Interval>, align: int, total: int, work: seq<Interval>, now: int)
    requires IsPowerOfTwo(align) && align >= 1 && Allocation(intervals, align, total, work)
    ensures LiveSize(work, now) <= total <= TotalSize(work)
  {
    hide IsPowerOfTwo, Aligned, LeastFit, Overlaps, Apart;
    var base := ObtainBase(intervals, align, total, work);
    AllocationIsSafe(intervals, align, total, work);
    forall i | 0 <= i < |work|
      ensures work[i].size >= 0 && Aligned(work[i].size, align)
    {
      AlignUpIsLeast(base[i].size, align);
    }
    HighWaterIsTop(work, total);
    TopAtMostTotal(work, align);
    LiveSizeIsSum(work, now);
    LiveApart(work, now, total);
    DisjointRangesFit(LiveIntervals(work, now), total);
  }

  lemma LiveApart(work: seq<Interval>, now: int, total: int)
    requires Within(work, total)
    requires forall i, j | 0 <= i < |work| && 0 <= j < |work| && i != j && Overlaps(work[i], work[j]) ::
      Apart(work[i], work[j])
    ensures PairwiseApart(LiveIntervals(work, now)) && Within(LiveIntervals(work, now), total)
  {
    var alive := LiveIntervals(work, now);
    forall a, b | 0 <= a < |alive| && 0 <= b < |alive| && a != b
      ensures Apart(alive[a], alive[b])
    {
      var i, j := LiveIntervalIndex(work, now, if a < b then a else b, if a < b then b else a);
      assert Overlaps(work[i], work[j]);
    }
    forall a | 0 <= a < |alive|
      ensures 0 <= alive[a].offset && 0 <= alive[a].size && alive[a].offset + alive[a].size <= total
    {
      var i, j := LiveIntervalIndex(work, now, a, a);
    }
  }
}
