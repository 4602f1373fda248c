/** Which graph outputs the planner's own layouts keep to the end of a run. */
module PlannedOutputs {
  import opened Wrappers
  import opened FirstFit
  import opened OffsetAllocator
  import opened AllocationTheorems
  import opened Liveness
  import opened WorkspaceExecution
  import opened WorkspaceOutputs
  import opened Planner

  /** In a planned layout a port survives, whatever the kernels compute, exactly when no later step writes over its bytes. */
  lemma PlannedOutputSurvivesIff(nodes: seq<TopologyNode>, ids: map<Port, int>, bytes: Port -> Option<nat>,
                                 align: int, size: int, allocations: seq<Interval>, baseOffset: map<Port, int>,
                                 intervals: map<int, Interval>, byID: map<int, Interval>, id: int)
    requires Planned(nodes, ids, bytes, align, size, allocations, baseOffset, intervals, byID)
    requires DistinctIds(nodes, ids) && PortsSingleProducer(nodes) && id in intervals
    ensures var steps, layout := IdSteps(nodes, ids), LayoutOf(intervals, byID);
      (forall kernel, memory, initial | |memory| == size && Loaded(steps, layout, memory, initial) ::
         EndsIntact(kernel, steps, layout, memory, initial, id))
      <==> (forall s, q :: !ClobberedBy(steps, layout, intervals, id, s, q))
  {
    IdStepsSingleProducer(nodes, ids);
    OutputSurvivesIffUnclobbered(IdSteps(nodes, ids), LayoutOf(intervals, byID), intervals, SizesOf(nodes, ids, bytes), size, id);
  }

  // ----- read off the steps alone

  /** From step `s` on nothing touches the port, and step `s` writes bytes of another. */
  ghost predicate WritesAfter(steps: seq<PlanNode>, sizes: Sizes, id: int, s: int, q: int) {
    && 0 <= s < |steps| && q in steps[s].outputs && q != 0
    && sizes(q).Some? && sizes(q).value > 0
    && forall t | s <= t < |steps| :: !Touches(steps[t], id)
  }

  lemma ClobberWritesAfter(steps: seq<PlanNode>, sizes: Sizes, layout: Layout, intervals: map<int, Interval>,
                           id: int, s: int, q: int)
    requires SingleProducer(steps) && LiveMap(steps, sizes, intervals) && layout.Keys == intervals.Keys
    requires forall p | p in layout :: layout[p].size == intervals[p].size
    requires ClobberedBy(steps, layout, intervals, id, s, q)
    ensures WritesAfter(steps, sizes, id, s, q)
  {
    forall t | s <= t < |steps|
      ensures !Touches(steps[t], id)
    {
      if Touches(steps[t], id) {
        LifetimeCovers(steps, sizes, intervals, id, t);
      }
    }
  }

  /** Whatever the layout, a port survives if no step writes a nonempty port after the last step that touches this one. */
  lemma OutputSurvivesIfWrittenLast(nodes: seq<TopologyNode>, ids: map<Port, int>, bytes: Port -> Option<nat>,
                                    align: int, size: int, allocations: seq<Interval>, baseOffset: map<Port, int>,
                                    intervals: map<int, Interval>, byID: map<int, Interval>, id: int,
                                    kernel: Kernel, memory: Bytes, initial: map<int, Bytes>)
    requires Planned(nodes, ids, bytes, align, size, allocations, baseOffset, intervals, byID)
    requires DistinctIds(nodes, ids) && PortsSingleProducer(nodes) && id in intervals && |memory| == size
    requires Loaded(IdSteps(nodes, ids), LayoutOf(intervals, byID), memory, initial)
    requires forall s, q :: !WritesAfter(IdSteps(nodes, ids), SizesOf(nodes, ids, bytes), id, s, q)
    ensures EndsIntact(kernel, IdSteps(nodes, ids), LayoutOf(intervals, byID), memory, initial, id)
  {
    var steps, layout, sizes := IdSteps(nodes, ids), LayoutOf(intervals, byID), SizesOf(nodes, ids, bytes);
    IdStepsSingleProducer(nodes, ids);
    forall s, q
      ensures !ClobberedBy(steps, layout, intervals, id, s, q)
    {
      if ClobberedBy(steps, layout, intervals, id, s, q) {
        ClobberWritesAfter(steps, sizes, layout, intervals, id, s, q);
      }
    }
    PlannedOutputSurvivesIff(nodes, ids, bytes, align, size, allocations, baseOffset, intervals, byID, id);
  }

  // ----- an output that is lost

  /** A port that starts when every earlier one is dead is placed at offset 0. */
  lemma LonePortAtZero(steps: seq<PlanNode>, sizes: Sizes, intervals: map<int, Interval>, listed: seq<Interval>,
                       align: int, total: int, work: seq<Interval>, byID: map<int, Interval>, id: int)
    requires LiveMap(steps, sizes, intervals) && Lists(intervals, listed) && id in intervals
    requires IsPowerOfTwo(align) && align >= 1 && Allocation(listed, align, total, work) && ByPortID(work, byID)
    requires forall other | other in intervals && other != id && intervals[other].start <= intervals[id].start ::
      intervals[other].end < intervals[id].start
    ensures id in byID && byID[id].offset == 0
  {
    hide LeastFit, IsPowerOfTwo, ByPortID, Rounded, Lists, InOrder, LivesOver;
    var base := ObtainBase(listed, align, total, work);
    PlacedLikeBase(listed, base, work, align, intervals);
    var i := PlacedPort(intervals, work, byID, id);
    var live := LiveAt(work[..i], work[i].start);
    assert LeastFit(work[i].offset, work[i].size, live, align);
    if live != [] {
      var j := BlockIsPlaced(work[..i], work[i].start, 0);
      assert false;
    }
    ZeroFitsEmpty(work[i].offset, work[i].size, align);
  }

  lemma ZeroFitsEmpty(offset: int, size: int, align: int)
    requires LeastFit(offset, size, [], align)
    ensures offset == 0
  {
    StartAligned(align);
    assert !ConflictsAny(0, size, []);
  }

  /** Two constants live for their own step each. */
  lemma TwoSources(steps: seq<PlanNode>, sizes: Sizes, intervals: map<int, Interval>, a: int, b: int)
    requires a != 0 && b != 0 && a != b && steps == [PlanNode([], [a]), PlanNode([], [b])]
    requires LiveMap(steps, sizes, intervals)
    ensures forall id :: id in intervals <==> id == a || id == b
    ensures intervals[a].start == intervals[a].end == 0 && intervals[b].start == intervals[b].end == 1
  {
    assert Touches(steps[0], a) && Touches(steps[1], b);
  }

  /** Two nodes without operands share offset 0, so the second writes over the first one's output. */
  lemma SourcesShareBytes(steps: seq<PlanNode>, sizes: Sizes, intervals: map<int, Interval>, listed: seq<Interval>,
                          align: int, total: int, work: seq<Interval>, byID: map<int, Interval>, a: int, b: int)
    requires a != 0 && b != 0 && a != b && steps == [PlanNode([], [a]), PlanNode([], [b])]
    requires LiveMap(steps, sizes, intervals) && Lists(intervals, listed)
    requires IsPowerOfTwo(align) && align >= 1 && Allocation(listed, align, total, work) && ByPortID(work, byID)
    requires sizes(a).Some? && sizes(a).value > 0 && sizes(b).Some? && sizes(b).value > 0
    requires forall id | id in intervals :: id in byID && byID[id].offset >= 0
    ensures ClobberedBy(steps, LayoutOf(intervals, byID), intervals, a, 1, b)
  {
    hide LiveMap, Allocation, Lists, ByPortID, IsPowerOfTwo;
    TwoSources(steps, sizes, intervals, a, b);
    LonePortAtZero(steps, sizes, intervals, listed, align, total, work, byID, a);
    LonePortAtZero(steps, sizes, intervals, listed, align, total, work, byID, b);
    SizesKept(steps, sizes, intervals);
  }

  lemma SizesKept(steps: seq<PlanNode>, sizes: Sizes, intervals: map<int, Interval>)
    requires LiveMap(steps, sizes, intervals)
    ensures forall id | id in intervals :: sizes(id) == Some(intervals[id].size)
  {
  }

  /** A topology of two constants, each on a port of its own. */
  const TWO_CONSTANTS := [TopologyNode([], [0]), TopologyNode([], [1])]

  /** The sizes of the two ports, by ID. */
  lemma ConstantSizes(ids: map<Port, int>, bytes: Port -> Option<nat>)
    requires 0 in ids && 1 in ids && ids[0] != ids[1]
    ensures Numbered(TWO_CONSTANTS, ids)
    ensures IdSteps(TWO_CONSTANTS, ids) == [PlanNode([], [ids[0]]), PlanNode([], [ids[1]])]
    ensures SizesOf(TWO_CONSTANTS, ids, bytes)(ids[0]) == bytes(0)
    ensures SizesOf(TWO_CONSTANTS, ids, bytes)(ids[1]) == bytes(1)
  {
    var first, second := TWO_CONSTANTS[0], TWO_CONSTANTS[1];
    assert TWO_CONSTANTS[1..] == [second] && TWO_CONSTANTS[1..][1..] == [];
    assert AllPorts([second]) == [1] + AllPorts([]);
    assert AllPorts(TWO_CONSTANTS) == [0, 1];
    assert [0, 1][1..] == [1];
    assert SizeById([0, 1], ids, bytes, ids[1]) == SizeById([1], ids, bytes, ids[1]);
    var steps := IdSteps(TWO_CONSTANTS, ids);
    assert steps[0] == IdStep(first, ids) && steps[1] == IdStep(second, ids);
    assert IdsOf([], ids) == [] && IdsOf([0], ids) == [ids[0]] && IdsOf([1], ids) == [ids[1]];
  }

  /** However two constants are planned, some run loses the first one's value. */
  lemma FirstConstantIsLost(ids: map<Port, int>, bytes: Port -> Option<nat>, align: int, size: int,
                            allocations: seq<Interval>, baseOffset: map<Port, int>,
                            intervals: map<int, Interval>, byID: map<int, Interval>)
    returns (kernel: Kernel, memory: Bytes, initial: map<int, Bytes>)
    requires 0 in ids && 1 in ids && ids[0] != 0 && ids[1] != 0 && ids[0] != ids[1] && align >= 1
    requires bytes(0).Some? && bytes(0).value > 0 && bytes(1).Some? && bytes(1).value > 0
    requires Planned(TWO_CONSTANTS, ids, bytes, align, size, allocations, baseOffset, intervals, byID)
    ensures ids[0] in intervals && |memory| == size
    ensures var steps, layout := IdSteps(TWO_CONSTANTS, ids), LayoutOf(intervals, byID);
      Loaded(steps, layout, memory, initial) && !EndsIntact(kernel, steps, layout, memory, initial, ids[0])
  {
    hide *;
    ConstantSizes(ids, bytes);
    var listed := PlannedParts(TWO_CONSTANTS, ids, bytes, align, size, allocations, baseOffset, intervals, byID);
    var steps, sizes, layout := IdSteps(TWO_CONSTANTS, ids), SizesOf(TWO_CONSTANTS, ids, bytes), LayoutOf(intervals, byID);
    SourcesShareBytes(steps, sizes, intervals, listed, align, size, allocations, byID, ids[0], ids[1]);
    SourcesApart(steps, ids[0], ids[1]);
    kernel, memory, initial := ClobberedIsLost(steps, layout, intervals, sizes, size, ids[0], 1, ids[1]);
    InLayout(steps, layout, intervals, ids[0], 1, ids[1]);
  }

  lemma PlannedParts(nodes: seq<TopologyNode>, ids: map<Port, int>, bytes: Port -> Option<nat>, align: int, size: int,
                     allocations: seq<Interval>, baseOffset: map<Port, int>,
                     intervals: map<int, Interval>, byID: map<int, Interval>)
    returns (listed: seq<Interval>)
    requires Planned(nodes, ids, bytes, align, size, allocations, baseOffset, intervals, byID)
    ensures LiveMap(IdSteps(nodes, ids), SizesOf(nodes, ids, bytes), intervals) && Lists(intervals, listed)
    ensures IsPowerOfTwo(align) && size >= 0 && Allocation(listed, align, size, allocations) && ByPortID(allocations, byID)
    ensures forall id | id in intervals :: id in byID && byID[id].offset >= 0 && intervals[id].size >= 0
    ensures Fits(LayoutOf(intervals, byID), size) && SoundLayout(LayoutOf(intervals, byID), intervals)
  {
    listed :| Lists(intervals, listed) && Allocation(listed, align, size, allocations);
  }

  lemma SourcesApart(steps: seq<PlanNode>, a: int, b: int)
    requires a != b && steps == [PlanNode([], [a]), PlanNode([], [b])]
    ensures SingleProducer(steps)
  {
  }

  lemma InLayout(steps: seq<PlanNode>, layout: Layout, intervals: map<int, Interval>, id: int, s: int, q: int)
    requires layout.Keys == intervals.Keys && ClobberedBy(steps, layout, intervals, id, s, q)
    ensures id in intervals
  {
  }

  /** The planner accepts the two constants, and some run in the workspace it plans loses the first one's value. */
  method PlanLosesOutput(bytes: Port -> Option<nat>, requested: int)
    returns (topology: Topology, ghost intervals: map<int, Interval>, ghost byID: map<int, Interval>,
             ghost kernel: Kernel, ghost memory: Bytes, ghost initial: map<int, Bytes>)
    requires bytes(0).Some? && bytes(0).value > 0 && bytes(1).Some? && bytes(1).value > 0
    requires requested > 0 ==> IsPowerOfTwo(requested)
    ensures topology.nodes == TWO_CONSTANTS && 0 in topology.portID && |memory| == topology.size
    ensures Planned(TWO_CONSTANTS, topology.portID, bytes, if requested > 0 then requested else 64, topology.size,
                    topology.allocations, topology.baseOffset, intervals, byID)
    ensures topology.portID[0] in intervals
    ensures var steps, layout := IdSteps(TWO_CONSTANTS, topology.portID), LayoutOf(intervals, byID);
      Loaded(steps, layout, memory, initial) && !EndsIntact(kernel, steps, layout, memory, initial, topology.portID[0])
  {
    hide Planned, EndsIntact, Loaded, IsPowerOfTwo, LayoutOf;
    topology := new Topology(TWO_CONSTANTS, map[0 := 0, 1 := 0]);
    assert Numbered(topology.nodes, topology.portID);
    assert NodeUses(TWO_CONSTANTS[0], 0) && NodeUses(TWO_CONSTANTS[1], 1);
    assert UsesPort(TWO_CONSTANTS, 0) && UsesPort(TWO_CONSTANTS, 1);
    var error;
    error, intervals, byID := topology.PlanWorkspace(bytes, requested);
    var ids := topology.portID;
    ConstantSizes(ids, bytes);
    assert AllSized(IdSteps(TWO_CONSTANTS, ids), SizesOf(TWO_CONSTANTS, ids, bytes));
    kernel, memory, initial := FirstConstantIsLost(ids, bytes, topology.align, topology.size, topology.allocations,
                                                   topology.baseOffset, intervals, byID);
  }
}
