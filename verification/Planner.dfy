/** The static memory planner: port IDs, lifetimes, offsets, and the layout the executor runs on. */
module Planner {
  import opened Wrappers
  import opened FirstFit
  import opened OffsetAllocator
  import opened AllocationTheorems
  import opened Liveness
  import opened WorkspaceExecution

  /** The identity of a port object: producer and consumer share it. */
  type Port = nat

  datatype TopologyNode = TopologyNode(inputs: seq<Port>, outputs: seq<Port>)

  datatype PlanError = BadAlign(align: int) | UnsizedPort(id: int)

  ghost predicate UsesPort(nodes: seq<TopologyNode>, port: Port) {
    exists s | 0 <= s < |nodes| :: port in nodes[s].inputs || port in nodes[s].outputs
  }

  // ----- port IDs

  /** Ports that already carry an ID keep it; all others get IDs above every ID in use. */
  ghost predicate IdsAssigned(before: map<Port, int>, after: map<Port, int>, touched: iset<Port>) {
    && after.Keys == before.Keys
    && (forall p | p in before && (before[p] != 0 || p !in touched) :: after[p] == before[p])
    && (forall p | p in before && before[p] == 0 && p in touched :: after[p] > 0)
    && (forall p, q | p in before && q in before && p in touched && q in touched && p != q
                      && before[p] == 0 :: after[p] != after[q])
  }

  /** New IDs leave no gap, starting above the largest ID present, or at 1. */
  ghost predicate Consecutive(before: map<Port, int>, after: map<Port, int>, touched: iset<Port>) {
    after.Keys == before.Keys && exists first ::
      && Starts(before, touched, first)
      && forall p, n | p in before && p in touched && before[p] == 0 && first <= n < after[p] :: Taken(before, after, touched, n)
  }

  ghost predicate Starts(before: map<Port, int>, touched: iset<Port>, first: int) {
    && first >= 1 && (forall p | p in before && p in touched :: before[p] < first)
    && (first == 1 || exists p | p in before && p in touched :: before[p] == first - 1)
  }

  /** Some port that had no ID now has this one. */
  ghost predicate Taken(before: map<Port, int>, after: map<Port, int>, touched: iset<Port>, n: int)
    requires after.Keys == before.Keys
  {
    exists p | p in before && p in touched :: before[p] == 0 && after[p] == n
  }

  /** IDs handed out so far lie in [first, next); everything else touched has an ID below first or none yet. */
  ghost predicate Numbering(before: map<Port, int>, current: map<Port, int>, seen: set<Port>, first: int, next: int) {
    && current.Keys == before.Keys && 1 <= first <= next
    && (forall p | p in before && (before[p] != 0 || p !in seen) :: current[p] == before[p])
    && (forall p | p in before && before[p] == 0 && p in seen :: first <= current[p] < next)
    && (forall p, q | p in before && q in before && p in seen && q in seen && p != q
                      && before[p] == 0 && before[q] == 0 :: current[p] != current[q])
    && (forall n | first <= n < next :: GivenTo(before, current, seen, n))
  }

  ghost predicate GivenTo(before: map<Port, int>, current: map<Port, int>, seen: set<Port>, n: int)
    requires current.Keys == before.Keys
  {
    exists p | p in seen && p in before :: before[p] == 0 && current[p] == n
  }

  method BumpPast(ports: seq<Port>, ids: map<Port, int>, start: int, seen0: set<Port>) returns (next: int, seen: set<Port>)
    requires forall p | p in ports :: p in ids
    requires forall p | p in seen0 :: p in ids && ids[p] < start
    requires start == 1 || exists p | p in seen0 :: ids[p] == start - 1
    ensures next >= start && seen == seen0 + (set p | p in ports)
    ensures forall p | p in seen :: p in ids && ids[p] < next
    ensures next == 1 || exists p | p in seen :: ids[p] == next - 1
  {
    next, seen := start, seen0;
    for k := 0 to |ports|
      invariant next >= start && seen == seen0 + (set p | p in ports[..k])
      invariant forall p | p in seen :: p in ids && ids[p] < next
      invariant next == 1 || exists p | p in seen :: ids[p] == next - 1
    {
      assert ports[..k + 1] == ports[..k] + [ports[k]];
      if ports[k] !in seen {
        if ids[ports[k]] >= next {
          next := ids[ports[k]] + 1;
        }
        seen := seen + {ports[k]};
      }
    }
    assert ports[..|ports|] == ports;
  }

  /** Numbering one more port, which takes the next number if it has none. */
  lemma NumberNext(before: map<Port, int>, ids: map<Port, int>, seen: set<Port>, first: int, next: int, port: Port)
    requires Numbering(before, ids, seen, first, next) && port in before && port !in seen
    ensures port in ids
    ensures if ids[port] == 0 then Numbering(before, ids[port := next], seen + {port}, first, next + 1)
            else Numbering(before, ids, seen + {port}, first, next)
  {
    var more := if ids[port] == 0 then ids[port := next] else ids;
    var last := if ids[port] == 0 then next + 1 else next;
    forall n | first <= n < last
      ensures GivenTo(before, more, seen + {port}, n)
    {
      if n < next {
        assert GivenTo(before, ids, seen, n);
        var p :| p in seen && p in before && before[p] == 0 && ids[p] == n;
        assert more[p] == n;
      } else {
        assert more[port] == n && before[port] == 0;
      }
    }
  }

  method NumberPorts(ports: seq<Port>, ghost before: map<Port, int>, ids0: map<Port, int>, ghost first: int, start: int, seen0: set<Port>)
    returns (ids: map<Port, int>, next: int, seen: set<Port>)
    requires Numbering(before, ids0, seen0, first, start) && forall p | p in ports :: p in before
    ensures seen == seen0 + (set p | p in ports) && Numbering(before, ids, seen, first, next)
  {
    ids, next, seen := ids0, start, seen0;
    for k := 0 to |ports|
      invariant seen == seen0 + (set p | p in ports[..k]) && ids.Keys == before.Keys
      invariant Numbering(before, ids, seen, first, next)
    {
      hide Numbering;
      assert ports[..k + 1] == ports[..k] + [ports[k]];
      assert ports[k] in before;
      if ports[k] !in seen {
        NumberNext(before, ids, seen, first, next, ports[k]);
        if ids[ports[k]] == 0 {
          ids := ids[ports[k] := next];
          next := next + 1;
        }
        seen := seen + {ports[k]};
      }
    }
    assert ports[..|ports|] == ports;
  }

  ghost predicate NodeUses(node: TopologyNode, port: Port) {
    port in node.inputs || port in node.outputs
  }

  method FirstFreeID(nodes: seq<TopologyNode>, ids: map<Port, int>) returns (next: int)
    requires forall p | UsesPort(nodes, p) :: p in ids
    ensures next >= 1 && forall p | UsesPort(nodes, p) :: ids[p] < next
    ensures next == 1 || exists p | UsesPort(nodes, p) :: ids[p] == next - 1
  {
    next := 1;
    var seen: set<Port> := {};
    for s := 0 to |nodes|
      invariant next >= 1
      invariant forall p | p in seen :: p in ids && ids[p] < next
      invariant forall t, p | 0 <= t < s && NodeUses(nodes[t], p) :: p in seen
      invariant forall p | p in seen :: UsesPort(nodes, p)
      invariant next == 1 || exists p | p in seen :: ids[p] == next - 1
    {
      assert forall p | NodeUses(nodes[s], p) :: UsesPort(nodes, p);
      assert forall p | p in nodes[s].outputs || p in nodes[s].inputs :: NodeUses(nodes[s], p);
      next, seen := BumpPast(nodes[s].outputs, ids, next, seen);
      next, seen := BumpPast(nodes[s].inputs, ids, next, seen);
    }
    assert forall p | UsesPort(nodes, p) :: exists t | 0 <= t < |nodes| :: NodeUses(nodes[t], p);
  }

  method NumberAll(nodes: seq<TopologyNode>, before: map<Port, int>, first: int)
    returns (ids: map<Port, int>, ghost next: int, ghost seen: set<Port>)
    requires first >= 1 && forall p | UsesPort(nodes, p) :: p in before
    ensures Numbering(before, ids, seen, first, next)
    ensures forall p :: p in seen <==> UsesPort(nodes, p)
  {
    hide Numbering;
    ids := before;
    var free, numbered: set<Port> := first, {};
    NothingNumbered(before, first);
    for s := 0 to |nodes|
      invariant Numbering(before, ids, numbered, first, free)
      invariant forall t, p | 0 <= t < s && NodeUses(nodes[t], p) :: p in numbered
      invariant forall p | p in numbered :: UsesPort(nodes, p)
    {
      assert forall p | p in nodes[s].outputs || p in nodes[s].inputs :: NodeUses(nodes[s], p) && UsesPort(nodes, p);
      ids, free, numbered := NumberPorts(nodes[s].outputs, before, ids, first, free, numbered);
      ids, free, numbered := NumberPorts(nodes[s].inputs, before, ids, first, free, numbered);
    }
    next, seen := free, numbered;
    assert forall p | UsesPort(nodes, p) :: exists t | 0 <= t < |nodes| :: NodeUses(nodes[t], p);
  }

  lemma NothingNumbered(before: map<Port, int>, first: int)
    requires first >= 1
    ensures Numbering(before, before, {}, first, first)
  {
  }

  lemma NumberedConsecutively(before: map<Port, int>, after: map<Port, int>, touched: iset<Port>, seen: set<Port>, first: int, next: int)
    requires Numbering(before, after, seen, first, next) && Starts(before, touched, first)
    requires forall p :: p in seen <==> p in touched
    ensures Consecutive(before, after, touched)
  {
    forall p, n | p in before && p in touched && before[p] == 0 && first <= n < after[p]
      ensures Taken(before, after, touched, n)
    {
      assert GivenTo(before, after, seen, n);
    }
  }

  /** The planner's IDs tell ports apart exactly when the IDs present beforehand did. */
  lemma UniqueIffUniqueBefore(before: map<Port, int>, after: map<Port, int>, touched: iset<Port>)
    requires IdsAssigned(before, after, touched) && forall p | p in touched :: p in before
    ensures (forall p, q | p in touched && q in touched && p != q :: after[p] != after[q])
            <==> (forall p, q | p in touched && q in touched && p != q && before[p] != 0 :: before[p] != before[q])
    ensures (forall p | p in touched :: before[p] != 0) ==> after == before
  {
  }

  // ----- steps by port ID

  function IdsOf(ports: seq<Port>, ids: map<Port, int>): (r: seq<int>)
    requires forall p | p in ports :: p in ids
    ensures |r| == |ports|
  {
    seq(|ports|, k requires 0 <= k < |ports| => ids[ports[k]])
  }

  ghost predicate Numbered(nodes: seq<TopologyNode>, ids: map<Port, int>) {
    forall s, p | 0 <= s < |nodes| && NodeUses(nodes[s], p) :: p in ids
  }

  function IdStep(node: TopologyNode, ids: map<Port, int>): PlanNode
    requires forall p | NodeUses(node, p) :: p in ids
  {
    assert forall p | p in node.inputs || p in node.outputs :: NodeUses(node, p);
    PlanNode(IdsOf(node.inputs, ids), IdsOf(node.outputs, ids))
  }

  /** The same steps, with each port replaced by its ID. */
  function IdSteps(nodes: seq<TopologyNode>, ids: map<Port, int>): (r: seq<PlanNode>)
    requires Numbered(nodes, ids)
    ensures |r| == |nodes|
  {
    seq(|nodes|, s requires 0 <= s < |nodes| => IdStep(nodes[s], ids))
  }

  /** The byte size of the port carrying an ID. */
  function SizeById(ports: seq<Port>, ids: map<Port, int>, bytes: Port -> Option<nat>, id: int): Option<nat> {
    if ports == [] then None
    else if ports[0] in ids && ids[ports[0]] == id then bytes(ports[0])
    else SizeById(ports[1..], ids, bytes, id)
  }

  function AllPorts(nodes: seq<TopologyNode>): seq<Port> {
    if nodes == [] then [] else nodes[0].outputs + nodes[0].inputs + AllPorts(nodes[1..])
  }

  // ----- the layout

  /** The placed interval of each port ID. */
  ghost predicate ByPortID(placed: seq<Interval>, byID: map<int, Interval>) {
    && (forall i | 0 <= i < |placed| :: placed[i].portID in byID && byID[placed[i].portID] == placed[i])
    && (forall id | id in byID :: byID[id] in placed && byID[id].portID == id)
  }

  method IndexByPortID(placed: seq<Interval>) returns (byID: map<int, Interval>)
    requires forall i, j | 0 <= i < j < |placed| :: placed[i].portID != placed[j].portID
    ensures ByPortID(placed, byID)
  {
    byID := map[];
    for i := 0 to |placed|
      invariant forall j | 0 <= j < i :: placed[j].portID in byID && byID[placed[j].portID] == placed[j]
      invariant forall id | id in byID :: byID[id] in placed[..i] && byID[id].portID == id
    {
      byID := byID[placed[i].portID := placed[i]];
      assert placed[..i + 1] == placed[..i] + [placed[i]];
    }
    assert placed[..|placed|] == placed;
  }

  /** Each port's bytes: its placed offset and its unrounded size. */
  ghost function LayoutOf(intervals: map<int, Interval>, byID: map<int, Interval>): (layout: Layout)
    requires forall id | id in intervals :: id in byID && byID[id].offset >= 0 && intervals[id].size >= 0
    ensures layout.Keys == intervals.Keys
  {
    map id | id in intervals :: Place(byID[id].offset, intervals[id].size)
  }

  /** The placed interval of a port keeps its lifetime and has room for its bytes. */
  ghost predicate PlacedLike(intervals: map<int, Interval>, interval: Interval) {
    && interval.portID in intervals
    && var lifetime := intervals[interval.portID];
    && interval.start == lifetime.start && interval.end == lifetime.end
    && 0 <= lifetime.size <= interval.size
  }

  lemma PlacedLikeBase(listed: seq<Interval>, base: seq<Interval>, work: seq<Interval>, align: int, intervals: map<int, Interval>)
    requires IsPowerOfTwo(align) && align >= 1 && Lists(intervals, listed)
    requires forall id | id in intervals :: intervals[id].portID == id
    requires multiset(base) == multiset(listed) && Rounded(base, work, align)
    ensures forall i | 0 <= i < |work| :: PlacedLike(intervals, work[i])
    ensures forall i, j | 0 <= i < j < |work| :: work[i].portID != work[j].portID
    ensures forall id | id in intervals :: exists i | 0 <= i < |work| :: work[i].portID == id
  {
    SortedLists(intervals, listed, base);
    forall i | 0 <= i < |work|
      ensures base[i].size <= work[i].size
    {
      AlignUpIsLeast(base[i].size, align);
    }
    forall id | id in intervals
      ensures exists i | 0 <= i < |work| :: work[i].portID == id
    {
      var i :| 0 <= i < |base| && base[i] == intervals[id];
      assert work[i].portID == base[i].portID == id;
    }
  }

  lemma PlacedPort(intervals: map<int, Interval>, work: seq<Interval>, byID: map<int, Interval>, id: int) returns (i: nat)
    requires ByPortID(work, byID) && id in intervals
    requires exists i | 0 <= i < |work| :: work[i].portID == id
    ensures i < |work| && id in byID && byID[id] == work[i] && work[i].portID == id
  {
    i :| 0 <= i < |work| && work[i].portID == id;
  }

  /** Lifetimes plus an allocation of them give a sound layout of the workspace. */
  lemma AllocationGivesSoundLayout(steps: seq<PlanNode>, sizes: Sizes, intervals: map<int, Interval>,
                                   listed: seq<Interval>, align: int, total: int, work: seq<Interval>, byID: map<int, Interval>)
    requires LiveMap(steps, sizes, intervals) && Lists(intervals, listed)
    requires IsPowerOfTwo(align) && align >= 1 && Allocation(listed, align, total, work) && ByPortID(work, byID)
    ensures total >= 0 && forall id | id in intervals :: id in byID && byID[id].offset >= 0 && intervals[id].size >= 0
    ensures Fits(LayoutOf(intervals, byID), total) && SoundLayout(LayoutOf(intervals, byID), intervals)
  {
    hide LeastFit, IsPowerOfTwo, Aligned, AlignUp, FirstFitPlaced, LivesOver, ByPortID, Rounded, Lists, InOrder;
    var base := ObtainBase(listed, align, total, work);
    PlacedLikeBase(listed, base, work, align, intervals);
    AllocationIsSafe(listed, align, total, work);
    HighWaterIsNat(work, total);
    forall id | id in intervals
      ensures id in byID && byID[id].offset >= 0 && intervals[id].size >= 0
      ensures byID[id].offset + intervals[id].size <= total
    {
      var i := PlacedPort(intervals, work, byID, id);
    }
    var layout := LayoutOf(intervals, byID);
    forall a, b | a in layout && b in layout && a != b && Overlaps(intervals[a], intervals[b])
      ensures ApartPlaces(layout[a], layout[b])
    {
      var i := PlacedPort(intervals, work, byID, a);
      var j := PlacedPort(intervals, work, byID, b);
      assert Overlaps(work[i], work[j]);
      assert Apart(work[i], work[j]);
    }
  }

  function SizesOf(nodes: seq<TopologyNode>, ids: map<Port, int>, bytes: Port -> Option<nat>): Sizes {
    id => SizeById(AllPorts(nodes), ids, bytes, id)
  }

  /** A successful plan: exact lifetimes, a first-fit allocation of them, and offsets attached to every port. */
  ghost predicate Planned(nodes: seq<TopologyNode>, ids: map<Port, int>, bytes: Port -> Option<nat>, align: int, size: int,
                          allocations: seq<Interval>, baseOffset: map<Port, int>,
                          intervals: map<int, Interval>, byID: map<int, Interval>)
  {
    && Numbered(nodes, ids) && IsPowerOfTwo(align) && size >= 0
    && LiveMap(IdSteps(nodes, ids), SizesOf(nodes, ids, bytes), intervals)
    && (exists listed :: Lists(intervals, listed) && Allocation(listed, align, size, allocations))
    && ByPortID(allocations, byID)
    && (forall id | id in intervals :: id in byID && byID[id].offset >= 0 && intervals[id].size >= 0)
    && Fits(LayoutOf(intervals, byID), size) && SoundLayout(LayoutOf(intervals, byID), intervals)
    && (forall p | UsesPort(nodes, p) && ids[p] in byID :: p in baseOffset && baseOffset[p] == byID[ids[p]].offset)
  }

  class Topology {
    var nodes: seq<TopologyNode>
    var portID: map<Port, int>
    var baseOffset: map<Port, int>
    var size: int
    var align: int
    var allocations: seq<Interval>

    constructor (nodes: seq<TopologyNode>, portID: map<Port, int>)
      ensures this.nodes == nodes && this.portID == portID && baseOffset == map[]
    {
      this.nodes, this.portID, this.baseOffset := nodes, portID, map[];
      size, align, allocations := 0, 0, [];
    }

    method AssignPortIDs()
      requires forall p | UsesPort(nodes, p) :: p in portID
      modifies this`portID
      ensures IdsAssigned(old(portID), portID, iset p | UsesPort(nodes, p))
      ensures Consecutive(old(portID), portID, iset p | UsesPort(nodes, p))
    {
      var next := FirstFreeID(nodes, portID);
      var ids;
      ghost var last, seen;
      ids, last, seen := NumberAll(nodes, portID, next);
      NumberedConsecutively(portID, ids, (iset p | UsesPort(nodes, p)), seen, next, last);
      portID := ids;
    }

    /** Every port the steps use got the offset of its interval. */
    method AttachAllocations(byID: map<int, Interval>)
      requires Numbered(nodes, portID)
      modifies this`baseOffset
      ensures forall p :: p in baseOffset <==>
                p in old(baseOffset) || (UsesPort(nodes, p) && portID[p] in byID)
      ensures forall p | UsesPort(nodes, p) && portID[p] in byID :: baseOffset[p] == byID[portID[p]].offset
    {
      for s := 0 to |nodes|
        invariant nodes == old(nodes) && portID == old(portID)
        invariant forall p :: p in baseOffset <==>
                    p in old(baseOffset) || exists t | 0 <= t < s :: NodeUses(nodes[t], p) && portID[p] in byID
        invariant forall t, p | 0 <= t < s && NodeUses(nodes[t], p) && portID[p] in byID ::
                    baseOffset[p] == byID[portID[p]].offset
      {
        AttachPorts(nodes[s].outputs + nodes[s].inputs, byID);
      }
    }

    method AttachPorts(ports: seq<Port>, byID: map<int, Interval>)
      requires forall p | p in ports :: p in portID
      modifies this`baseOffset
      ensures forall p :: p in baseOffset <==> p in old(baseOffset) || (p in ports && portID[p] in byID)
      ensures forall p | p in baseOffset ::
                baseOffset[p] == if p in ports && portID[p] in byID then byID[portID[p]].offset else old(baseOffset)[p]
    {
      for k := 0 to |ports|
        invariant portID == old(portID)
        invariant forall p :: p in baseOffset <==> p in old(baseOffset) || (p in ports[..k] && portID[p] in byID)
        invariant forall p | p in baseOffset ::
          baseOffset[p] == if p in ports[..k] && portID[p] in byID then byID[portID[p]].offset else old(baseOffset)[p]
      {
        assert ports[..k + 1] == ports[..k] + [ports[k]];
        if portID[ports[k]] in byID {
          baseOffset := baseOffset[ports[k] := byID[portID[ports[k]]].offset];
        }
      }
      assert ports[..|ports|] == ports;
    }

    /**
     Plans the workspace: IDs, lifetimes and offsets; on success the layout is sound for
     the steps, so running them in the shared workspace reads what private buffers would.
     */
    method PlanWorkspace(bytes: Port -> Option<nat>, requested: int)
      returns (error: Option<PlanError>, ghost intervals: map<int, Interval>, ghost byID: map<int, Interval>)
      requires Numbered(nodes, portID)
      modifies this`portID, this`baseOffset, this`size, this`align, this`allocations
      ensures Numbered(nodes, portID)
      ensures error.Some? && error.value.BadAlign? <==> requested > 0 && !IsPowerOfTwo(requested)
      ensures error.Some? && error.value.BadAlign? ==> error.value.align == requested && portID == old(portID)
      ensures requested <= 0 || IsPowerOfTwo(requested) ==>
                IdsAssigned(old(portID), portID, iset p | UsesPort(nodes, p))
      ensures error.None? <==>
                && (requested <= 0 || IsPowerOfTwo(requested))
                && AllSized(IdSteps(nodes, portID), SizesOf(nodes, portID, bytes))
      ensures error.Some? && error.value.UnsizedPort? ==>
                Touched(IdSteps(nodes, portID), error.value.id) && SizesOf(nodes, portID, bytes)(error.value.id).None?
      ensures error.None? ==> align == if requested > 0 then requested else 64
      ensures error.None? && requested > 0 ==> MultiplesOf(allocations, size, requested)
      ensures error.None? && requested <= 0 ==> MultiplesOf(allocations, size, 64)
      ensures error.None? ==>
                Planned(nodes, portID, bytes, align, size, allocations, baseOffset, intervals, byID)
      ensures error.None? ==> forall p :: p in baseOffset <==>
                p in old(baseOffset) || (UsesPort(nodes, p) && portID[p] in byID)
    {
      hide IsPowerOfTwo, Numbered, IdsAssigned, Allocation, LiveMap, Lists, AllSized;
      intervals, byID := map[], map[];
      DefaultIsPower();
      var effective := if requested <= 0 then DEFAULT_ALIGN else requested;
      if !IsPowerOfTwo(effective) {
        error := Some(BadAlign(requested));
        return;
      }
      AllPortsNumbered(nodes, portID);
      AssignPortIDs();
      StillNumbered(nodes, old(portID), portID);
      var steps, sizes := IdSteps(nodes, portID), SizesOf(nodes, portID, bytes);
      var result;
      result, intervals := AnalyzeLiveness(steps, sizes);
      if result.Failure? {
        error := Some(UnsizedPort(result.error));
        return;
      }
      ListedSizes(steps, sizes, intervals, result.value);
      var total, work := AllocateOffsets(result.value, effective);
      size, align, allocations := total, effective, work;
      UniquePlaced(steps, sizes, intervals, result.value, effective, total, work);
      var index := IndexByPortID(work);
      byID := index;
      AllocationGivesSoundLayout(steps, sizes, intervals, result.value, effective, total, work, index);
      AttachAllocations(index);
      error := None;
    }
  }

  lemma AllPortsNumbered(nodes: seq<TopologyNode>, ids: map<Port, int>)
    requires Numbered(nodes, ids)
    ensures forall p | UsesPort(nodes, p) :: p in ids
  {
    forall p | UsesPort(nodes, p)
      ensures p in ids
    {
      var s :| 0 <= s < |nodes| && (p in nodes[s].inputs || p in nodes[s].outputs);
      assert NodeUses(nodes[s], p);
    }
  }

  lemma StillNumbered(nodes: seq<TopologyNode>, before: map<Port, int>, after: map<Port, int>)
    requires Numbered(nodes, before) && IdsAssigned(before, after, iset p | UsesPort(nodes, p))
    ensures Numbered(nodes, after)
  {
  }

  lemma ListedSizes(steps: seq<PlanNode>, sizes: Sizes, intervals: map<int, Interval>, listed: seq<Interval>)
    requires LiveMap(steps, sizes, intervals) && Lists(intervals, listed)
    ensures forall i | 0 <= i < |listed| :: listed[i].size >= 0
  {
  }

  lemma UniquePlaced(steps: seq<PlanNode>, sizes: Sizes, intervals: map<int, Interval>, listed: seq<Interval>,
                     align: int, total: int, work: seq<Interval>)
    requires LiveMap(steps, sizes, intervals) && Lists(intervals, listed)
    requires IsPowerOfTwo(align) && align >= 1 && Allocation(listed, align, total, work)
    ensures forall i, j | 0 <= i < j < |work| :: work[i].portID != work[j].portID
  {
    var base := ObtainBase(listed, align, total, work);
    PlacedLikeBase(listed, base, work, align, intervals);
  }

  // ----- what a plan is good for

  /** At port level: one producer per port, before every reader. */
  ghost predicate PortsSingleProducer(nodes: seq<TopologyNode>) {
    && (forall s, t, p | 0 <= s < |nodes| && 0 <= t < |nodes| && p in nodes[s].outputs && p in nodes[t].outputs :: s == t)
    && (forall s, a, b | 0 <= s < |nodes| && 0 <= a < b < |nodes[s].outputs| :: nodes[s].outputs[a] != nodes[s].outputs[b])
    && (forall s, t, p | 0 <= s < |nodes| && 0 <= t < |nodes| && p in nodes[s].outputs && p in nodes[t].inputs :: s < t)
  }

  ghost predicate DistinctIds(nodes: seq<TopologyNode>, ids: map<Port, int>) {
    forall p, q | p in ids && q in ids && UsesPort(nodes, p) && UsesPort(nodes, q) && p != q :: ids[p] != ids[q]
  }

  lemma PortOfId(ports: seq<Port>, ids: map<Port, int>, id: int) returns (p: Port)
    requires (forall q | q in ports :: q in ids) && id in IdsOf(ports, ids)
    ensures p in ports && ids[p] == id
  {
    var k :| 0 <= k < |ports| && IdsOf(ports, ids)[k] == id;
    p := ports[k];
  }

  lemma NodePorts(nodes: seq<TopologyNode>, ids: map<Port, int>, s: int)
    requires Numbered(nodes, ids) && 0 <= s < |nodes|
    ensures forall p | p in nodes[s].inputs || p in nodes[s].outputs :: p in ids && UsesPort(nodes, p)
  {
    assert forall p | p in nodes[s].inputs || p in nodes[s].outputs :: NodeUses(nodes[s], p);
  }

  /** Distinct IDs carry the single-producer property from ports to IDs. */
  lemma IdStepsSingleProducer(nodes: seq<TopologyNode>, ids: map<Port, int>)
    requires Numbered(nodes, ids) && DistinctIds(nodes, ids) && PortsSingleProducer(nodes)
    ensures SingleProducer(IdSteps(nodes, ids))
  {
    var steps := IdSteps(nodes, ids);
    forall s, t, id | 0 <= s < |steps| && 0 <= t < |steps| && id in steps[s].outputs && id in steps[t].outputs
      ensures s == t
    {
      NodePorts(nodes, ids, s);
      NodePorts(nodes, ids, t);
      var p := PortOfId(nodes[s].outputs, ids, id);
      var q := PortOfId(nodes[t].outputs, ids, id);
    }
    forall s, a, b | 0 <= s < |steps| && 0 <= a < b < |steps[s].outputs|
      ensures steps[s].outputs[a] != steps[s].outputs[b]
    {
      NodePorts(nodes, ids, s);
    }
    forall s, t, id | 0 <= s < |steps| && 0 <= t < |steps| && id in steps[s].outputs && id in steps[t].inputs
      ensures s < t
    {
      NodePorts(nodes, ids, s);
      NodePorts(nodes, ids, t);
      var p := PortOfId(nodes[s].outputs, ids, id);
      var q := PortOfId(nodes[t].inputs, ids, id);
    }
  }

  /**
   The planner's promise: run the topology in order in the planned workspace, and every
   step reads the bytes its producers, or the initial load, wrote.
   */
  lemma PlannedRunReadsPrivateBytes(nodes: seq<TopologyNode>, ids: map<Port, int>, bytes: Port -> Option<nat>,
                                    align: int, size: int, allocations: seq<Interval>, baseOffset: map<Port, int>,
                                    intervals: map<int, Interval>, byID: map<int, Interval>,
                                    kernel: Kernel, memory: Bytes, initial: map<int, Bytes>, n: nat)
    requires Planned(nodes, ids, bytes, align, size, allocations, baseOffset, intervals, byID)
    requires DistinctIds(nodes, ids) && PortsSingleProducer(nodes) && n < |nodes| && |memory| == size
    requires Loaded(IdSteps(nodes, ids), LayoutOf(intervals, byID), memory, initial)
    ensures var steps, layout := IdSteps(nodes, ids), LayoutOf(intervals, byID);
      SharedReads(layout, SharedRun(kernel, layout, steps, memory, n), steps[n].inputs) ==
      PrivateReads(PrivateRun(kernel, layout, steps, initial, n), steps[n].inputs)
  {
    IdStepsSingleProducer(nodes, ids);
    SharedExecutionReadsPrivateBytes(kernel, IdSteps(nodes, ids), LayoutOf(intervals, byID), intervals,
                                     SizesOf(nodes, ids, bytes), memory, initial, n);
  }
}
