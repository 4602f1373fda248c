/** Liveness analysis: from which step to which step each port's bytes are needed. */
module Liveness {
  import opened Wrappers
  import opened FirstFit
  import opened OffsetAllocator

  /** One step of the topology, by port ID; ID 0 marks a port without one. */
  datatype PlanNode = PlanNode(inputs: seq<int>, outputs: seq<int>)

  /** Byte sizes resolved for each port, or None where a dimension symbol is unbound. */
  type Sizes = int -> Option<nat>

  ghost predicate Touches(node: PlanNode, id: int) {
    id in node.inputs || id in node.outputs
  }

  ghost predicate FirstTouch(steps: seq<PlanNode>, id: int, s: int) {
    && 0 <= s < |steps|
    && Touches(steps[s], id)
    && forall t | 0 <= t < s :: !Touches(steps[t], id)
  }

  ghost predicate Touched(steps: seq<PlanNode>, id: int) {
    exists s | 0 <= s < |steps| :: Touches(steps[s], id)
  }

  /**
   A port starts to live where its producer runs, or at step 0 when it is read before
   anything wrote it, and lives until the last step that reads it.
   */
  ghost predicate LivesOver(steps: seq<PlanNode>, id: int, start: int, end: int) {
    exists s ::
      && FirstTouch(steps, id, s)
      && start == (if id in steps[s].outputs then s else 0)
      && s <= end < |steps|
      && (end == s || id in steps[end].inputs)
      && forall t | end < t < |steps| :: id !in steps[t].inputs
  }

  ghost predicate IntervalOf(steps: seq<PlanNode>, sizes: Sizes, id: int, interval: Interval) {
    && interval.portID == id
    && interval.offset == 0
    && sizes(id) == Some(interval.size)
    && LivesOver(steps, id, interval.start, interval.end)
  }

  ghost predicate LiveMap(steps: seq<PlanNode>, sizes: Sizes, intervals: map<int, Interval>) {
    && (forall id :: id in intervals <==> id != 0 && Touched(steps, id))
    && forall id | id in intervals :: intervals[id].size >= 0 && IntervalOf(steps, sizes, id, intervals[id])
  }

  ghost function WithOutput(steps: seq<PlanNode>, id: int): (r: seq<PlanNode>)
    requires steps != []
    ensures |r| == |steps|
  {
    var n := |steps| - 1;
    steps[n := PlanNode(steps[n].inputs, steps[n].outputs + [id])]
  }

  ghost function WithInput(steps: seq<PlanNode>, id: int): (r: seq<PlanNode>)
    requires steps != []
    ensures |r| == |steps|
  {
    var n := |steps| - 1;
    steps[n := PlanNode(steps[n].inputs + [id], steps[n].outputs)]
  }

  /** Reading or writing one port changes no other port's lifetime. */
  lemma OtherPort(steps: seq<PlanNode>, more: seq<PlanNode>, other: int, start: int, end: int)
    requires |steps| == |more|
    requires forall s | 0 <= s < |steps| ::
      (other in steps[s].inputs <==> other in more[s].inputs) && (other in steps[s].outputs <==> other in more[s].outputs)
    ensures LivesOver(steps, other, start, end) ==> LivesOver(more, other, start, end)
    ensures Touched(steps, other) <==> Touched(more, other)
  {
    if LivesOver(steps, other, start, end) {
      var s :| FirstTouch(steps, other, s) && start == (if other in steps[s].outputs then s else 0)
               && s <= end < |steps| && (end == s || other in steps[end].inputs)
               && forall t | end < t < |steps| :: other !in steps[t].inputs;
      assert FirstTouch(more, other, s);
    }
    if Touched(steps, other) {
      var s :| 0 <= s < |steps| && Touches(steps[s], other);
      assert Touches(more[s], other);
    }
    if Touched(more, other) {
      var s :| 0 <= s < |steps| && Touches(more[s], other);
      assert Touches(steps[s], other);
    }
  }

  lemma KnownOutput(steps: seq<PlanNode>, id: int, start: int, end: int)
    requires steps != [] && steps[|steps| - 1].inputs == [] && LivesOver(steps, id, start, end)
    ensures LivesOver(WithOutput(steps, id), id, start, end)
  {
    var more := WithOutput(steps, id);
    var s :| FirstTouch(steps, id, s) && start == (if id in steps[s].outputs then s else 0)
             && s <= end < |steps| && (end == s || id in steps[end].inputs)
             && forall t | end < t < |steps| :: id !in steps[t].inputs;
    assert FirstTouch(more, id, s);
  }

  lemma NewOutput(steps: seq<PlanNode>, id: int)
    requires steps != [] && !Touched(steps, id)
    ensures LivesOver(WithOutput(steps, id), id, |steps| - 1, |steps| - 1)
  {
    var more, n := WithOutput(steps, id), |steps| - 1;
    assert forall t | 0 <= t < n :: more[t] == steps[t] && !Touches(steps[t], id);
    assert !Touches(steps[n], id);
    assert FirstTouch(more, id, n);
  }

  lemma KnownInput(steps: seq<PlanNode>, id: int, start: int, end: int)
    requires steps != [] && LivesOver(steps, id, start, end)
    ensures LivesOver(WithInput(steps, id), id, start, |steps| - 1)
  {
    var more := WithInput(steps, id);
    var s :| FirstTouch(steps, id, s) && start == (if id in steps[s].outputs then s else 0)
             && s <= end < |steps| && (end == s || id in steps[end].inputs)
             && forall t | end < t < |steps| :: id !in steps[t].inputs;
    assert FirstTouch(more, id, s);
  }

  lemma NewInput(steps: seq<PlanNode>, id: int)
    requires steps != [] && !Touched(steps, id)
    ensures LivesOver(WithInput(steps, id), id, 0, |steps| - 1)
  {
    var more, n := WithInput(steps, id), |steps| - 1;
    assert forall t | 0 <= t < n :: more[t] == steps[t] && !Touches(steps[t], id);
    assert !Touches(steps[n], id);
    assert FirstTouch(more, id, n);
  }

  /** Every port touched so far has a known size. */
  ghost predicate AllSized(steps: seq<PlanNode>, sizes: Sizes) {
    forall id | id != 0 && Touched(steps, id) :: sizes(id).Some?
  }

  lemma TouchedAfter(steps: seq<PlanNode>, more: seq<PlanNode>, id: int)
    requires steps != [] && (more == WithOutput(steps, id) || more == WithInput(steps, id))
    ensures forall other :: Touched(more, other) <==> Touched(steps, other) || other == id
    ensures forall other, start, end | other != id && LivesOver(steps, other, start, end) ::
      LivesOver(more, other, start, end)
  {
    forall other
      ensures Touched(more, other) <==> Touched(steps, other) || other == id
    {
      if other == id {
        assert Touches(more[|steps| - 1], id);
      } else {
        OtherPort(steps, more, other, 0, 0);
      }
    }
    forall other, start, end | other != id && LivesOver(steps, other, start, end)
      ensures LivesOver(more, other, start, end)
    {
      OtherPort(steps, more, other, start, end);
    }
  }

  /** Meeting an output port: its lifetime starts here unless it is known already. */
  lemma OutputStep(steps: seq<PlanNode>, sizes: Sizes, intervals: map<int, Interval>, id: int)
    requires steps != [] && steps[|steps| - 1].inputs == [] && LiveMap(steps, sizes, intervals)
    ensures id == 0 || id in intervals ==> LiveMap(WithOutput(steps, id), sizes, intervals)
    ensures id != 0 && id !in intervals && sizes(id).Some? ==>
      LiveMap(WithOutput(steps, id), sizes,
              intervals[id := Interval(id, |steps| - 1, |steps| - 1, 0, sizes(id).value)])
  {
    TouchedAfter(steps, WithOutput(steps, id), id);
    if id in intervals {
      KnownOutput(steps, id, intervals[id].start, intervals[id].end);
    } else if id != 0 {
      NewOutput(steps, id);
    }
    hide LivesOver, Touched, WithOutput;
  }

  /** Meeting an input port: its lifetime reaches this step, and began at step 0 if nothing produced it. */
  lemma InputStep(steps: seq<PlanNode>, sizes: Sizes, intervals: map<int, Interval>, id: int)
    requires steps != [] && LiveMap(steps, sizes, intervals)
    ensures id == 0 ==> LiveMap(WithInput(steps, id), sizes, intervals)
    ensures id in intervals ==>
      LiveMap(WithInput(steps, id), sizes, intervals[id := intervals[id].(end := |steps| - 1)])
    ensures id != 0 && id !in intervals && sizes(id).Some? ==>
      LiveMap(WithInput(steps, id), sizes, intervals[id := Interval(id, 0, |steps| - 1, 0, sizes(id).value)])
  {
    hide *;
    var more, n := WithInput(steps, id), |steps| - 1;
    TouchedAfter(steps, more, id);
    if id == 0 {
      LiveMapSame(steps, more, sizes, intervals);
    } else if id in intervals {
      LiveInterval(steps, sizes, intervals, id);
      KnownInput(steps, id, intervals[id].start, intervals[id].end);
      LiveMapSet(steps, more, sizes, intervals, id, intervals[id].(end := n));
    } else if sizes(id).Some? {
      LiveIds(steps, sizes, intervals, id);
      NewInput(steps, id);
      LiveMapSet(steps, more, sizes, intervals, id, Interval(id, 0, n, 0, sizes(id).value));
    }
  }

  lemma LiveIds(steps: seq<PlanNode>, sizes: Sizes, intervals: map<int, Interval>, id: int)
    requires LiveMap(steps, sizes, intervals) && id != 0
    ensures id in intervals <==> Touched(steps, id)
  {
  }

  lemma LiveInterval(steps: seq<PlanNode>, sizes: Sizes, intervals: map<int, Interval>, id: int)
    requires LiveMap(steps, sizes, intervals) && id in intervals
    ensures id != 0 && intervals[id].portID == id && intervals[id].offset == 0 && sizes(id) == Some(intervals[id].size)
    ensures intervals[id].size >= 0 && LivesOver(steps, id, intervals[id].start, intervals[id].end)
  {
  }

  /** After a step that touches one more port, the map is right once that port's lifetime is. */
  lemma LiveMapSet(steps: seq<PlanNode>, more: seq<PlanNode>, sizes: Sizes, intervals: map<int, Interval>, id: int,
                   interval: Interval)
    requires LiveMap(steps, sizes, intervals) && id != 0
    requires forall other :: Touched(more, other) <==> Touched(steps, other) || other == id
    requires forall other, start, end | other != id && LivesOver(steps, other, start, end) :: LivesOver(more, other, start, end)
    requires interval.portID == id && interval.offset == 0 && sizes(id) == Some(interval.size) && interval.size >= 0
    requires LivesOver(more, id, interval.start, interval.end)
    ensures LiveMap(more, sizes, intervals[id := interval])
  {
    hide LivesOver, Touched;
  }

  lemma LiveMapSame(steps: seq<PlanNode>, more: seq<PlanNode>, sizes: Sizes, intervals: map<int, Interval>)
    requires LiveMap(steps, sizes, intervals)
    requires forall other :: Touched(more, other) <==> Touched(steps, other) || other == 0
    requires forall other, start, end | other != 0 && LivesOver(steps, other, start, end) :: LivesOver(more, other, start, end)
    ensures LiveMap(more, sizes, intervals) && 0 !in intervals
  {
    hide LivesOver, Touched;
  }

  lemma EndInside(steps: seq<PlanNode>, sizes: Sizes, intervals: map<int, Interval>, id: int)
    requires LiveMap(steps, sizes, intervals) && id in intervals
    ensures 0 <= intervals[id].start <= intervals[id].end < |steps|
  {
    var interval := intervals[id];
    var s :| FirstTouch(steps, id, s) && interval.start == (if id in steps[s].outputs then s else 0)
             && s <= interval.end < |steps|;
  }

  method RegisterOutputs(ghost done: seq<PlanNode>, outputs: seq<int>, step: nat, sizes: Sizes, start: map<int, Interval>)
    returns (intervals: map<int, Interval>, failed: Option<int>)
    requires |done| == step && LiveMap(done + [PlanNode([], [])], sizes, start)
    ensures failed.None? ==> LiveMap(done + [PlanNode([], outputs)], sizes, intervals)
    ensures failed.Some? ==> failed.value in outputs && failed.value != 0 && sizes(failed.value).None?
  {
    hide LiveMap;
    intervals, failed := start, None;
    for k := 0 to |outputs|
      invariant failed.None? && LiveMap(done + [PlanNode([], outputs[..k])], sizes, intervals)
    {
      var id := outputs[k];
      ghost var steps := done + [PlanNode([], outputs[..k])];
      OutputStep(steps, sizes, intervals, id);
      assert WithOutput(steps, id) == done + [PlanNode([], outputs[..k + 1])] by {
        assert outputs[..k + 1] == outputs[..k] + [id];
      }
      if id != 0 && id !in intervals {
        var size := sizes(id);
        if size.None? {
          failed := Some(id);
          return;
        }
        intervals := intervals[id := Interval(id, step, step, 0, size.value)];
      }
    }
    assert outputs[..|outputs|] == outputs;
  }

  method ExtendForConsumers(ghost done: seq<PlanNode>, node: PlanNode, step: nat, sizes: Sizes, start: map<int, Interval>)
    returns (intervals: map<int, Interval>, failed: Option<int>)
    requires |done| == step && LiveMap(done + [PlanNode([], node.outputs)], sizes, start)
    ensures failed.None? ==> LiveMap(done + [node], sizes, intervals)
    ensures failed.Some? ==> failed.value in node.inputs && failed.value != 0 && sizes(failed.value).None?
  {
    hide LiveMap;
    intervals, failed := start, None;
    for k := 0 to |node.inputs|
      invariant failed.None? && LiveMap(done + [PlanNode(node.inputs[..k], node.outputs)], sizes, intervals)
    {
      var id := node.inputs[k];
      ghost var steps := done + [PlanNode(node.inputs[..k], node.outputs)];
      InputStep(steps, sizes, intervals, id);
      assert WithInput(steps, id) == done + [PlanNode(node.inputs[..k + 1], node.outputs)] by {
        assert node.inputs[..k + 1] == node.inputs[..k] + [id];
      }
      if id != 0 {
        if id !in intervals {
          var size := sizes(id);
          if size.None? {
            failed := Some(id);
            return;
          }
          intervals := intervals[id := Interval(id, 0, step, 0, size.value)];
        } else {
          EndInside(steps, sizes, intervals, id);
          var existing := intervals[id];
          if step > existing.end {
            intervals := intervals[id := existing.(end := step)];
          } else {
            assert intervals == intervals[id := existing.(end := step)];
          }
        }
      }
    }
    assert node.inputs[..|node.inputs|] == node.inputs;
  }

  lemma NoStepsLive(sizes: Sizes)
    ensures LiveMap([], sizes, map[])
  {
  }

  lemma BlankStep(steps: seq<PlanNode>, sizes: Sizes, intervals: map<int, Interval>)
    requires LiveMap(steps, sizes, intervals)
    ensures LiveMap(steps + [PlanNode([], [])], sizes, intervals)
  {
    var more := steps + [PlanNode([], [])];
    assert forall s | 0 <= s < |steps| :: more[s] == steps[s];
    forall id
      ensures Touched(more, id) <==> Touched(steps, id)
    {
      if Touched(steps, id) {
        var s :| 0 <= s < |steps| && Touches(steps[s], id);
        assert Touches(more[s], id);
      }
      if Touched(more, id) {
        var s :| 0 <= s < |more| && Touches(more[s], id);
        assert Touches(steps[s], id);
      }
    }
    forall id, start, end | LivesOver(steps, id, start, end)
      ensures LivesOver(more, id, start, end)
    {
      var s :| FirstTouch(steps, id, s) && start == (if id in steps[s].outputs then s else 0)
               && s <= end < |steps| && (end == s || id in steps[end].inputs)
               && forall t | end < t < |steps| :: id !in steps[t].inputs;
      assert FirstTouch(more, id, s);
    }
  }

  /** The list holds each interval of the map exactly once. */
  ghost predicate Lists(intervals: map<int, Interval>, listed: seq<Interval>) {
    && (forall i | 0 <= i < |listed| :: listed[i].portID in intervals && intervals[listed[i].portID] == listed[i])
    && (forall i, j | 0 <= i < j < |listed| :: listed[i].portID != listed[j].portID)
    && (forall id | id in intervals :: intervals[id] in listed)
  }

  lemma HasElement(ids: set<int>)
    ensures ids == {} || exists id :: id in ids
  {
    if forall id :: id !in ids {
      assert ids == {};
    }
  }

  method ListIntervals(intervals: map<int, Interval>) returns (listed: seq<Interval>)
    requires forall id | id in intervals :: intervals[id].portID == id
    ensures Lists(intervals, listed)
  {
    listed := [];
    var pending := intervals.Keys;
    while pending != {}
      invariant pending <= intervals.Keys
      invariant forall i | 0 <= i < |listed| ::
        listed[i].portID in intervals && listed[i].portID !in pending && intervals[listed[i].portID] == listed[i]
      invariant forall i, j | 0 <= i < j < |listed| :: listed[i].portID != listed[j].portID
      invariant forall id | id in intervals && id !in pending :: intervals[id] in listed
    {
      HasElement(pending);
      var id :| id in pending;
      listed := listed + [intervals[id]];
      pending := pending - {id};
    }
  }

  lemma SortedLists(intervals: map<int, Interval>, listed: seq<Interval>, sorted: seq<Interval>)
    requires Lists(intervals, listed) && multiset(sorted) == multiset(listed)
    ensures Lists(intervals, sorted)
  {
    forall i | 0 <= i < |sorted|
      ensures sorted[i] in listed && sorted[i].portID in intervals && intervals[sorted[i].portID] == sorted[i]
    {
      assert sorted[i] in multiset(listed);
    }
    forall i, j | 0 <= i < j < |sorted|
      ensures sorted[i].portID != sorted[j].portID
    {
      if sorted[i].portID == sorted[j].portID {
        assert sorted[i] == sorted[j];
        TwiceInList(sorted, i, j);
        OnceInList(listed, sorted[i]);
      }
    }
    forall id | id in intervals
      ensures intervals[id] in sorted
    {
      assert intervals[id] in multiset(listed);
    }
  }

  lemma TwiceInList(sorted: seq<Interval>, i: nat, j: nat)
    requires i < j < |sorted| && sorted[i] == sorted[j]
    ensures multiset(sorted)[sorted[i]] >= 2
  {
    assert sorted == sorted[..j] + [sorted[j]] + sorted[j + 1..];
    assert sorted[i] in sorted[..j];
  }

  lemma {:induction false} OnceInList(listed: seq<Interval>, interval: Interval)
    requires forall i, j | 0 <= i < j < |listed| :: listed[i].portID != listed[j].portID
    ensures multiset(listed)[interval] <= 1
  {
    if listed != [] {
      var n := |listed| - 1;
      OnceInList(listed[..n], interval);
      assert listed == listed[..n] + [listed[n]];
      if listed[n] == interval {
        assert interval !in listed[..n];
      }
    }
  }

  method AnalyzeLiveness(nodes: seq<PlanNode>, sizes: Sizes)
    returns (result: Result<seq<Interval>, int>, ghost intervals: map<int, Interval>)
    ensures result.Success? <==> AllSized(nodes, sizes)
    ensures result.Success? ==> LiveMap(nodes, sizes, intervals) && Lists(intervals, result.value) && InOrder(result.value)
    ensures result.Failure? ==> result.error != 0 && Touched(nodes, result.error) && sizes(result.error).None?
  {
    var live: map<int, Interval> := map[];
    intervals := live;
    NoStepsLive(sizes);
    for step := 0 to |nodes|
      invariant LiveMap(nodes[..step], sizes, live)
    {
      ghost var done := nodes[..step];
      BlankStep(done, sizes, live);
      var failed;
      live, failed := RegisterOutputs(done, nodes[step].outputs, step, sizes, live);
      if failed.Some? {
        assert Touches(nodes[step], failed.value);
        return Failure(failed.value), intervals;
      }
      live, failed := ExtendForConsumers(done, nodes[step], step, sizes, live);
      if failed.Some? {
        assert Touches(nodes[step], failed.value);
        return Failure(failed.value), intervals;
      }
      assert nodes[..step + 1] == done + [nodes[step]];
    }
    assert nodes[..|nodes|] == nodes;
    intervals := live;
    SizedWhenLive(nodes, sizes, live);
    var listed := ListIntervals(live);
    var ordered := SortIntervals(listed);
    SortedLists(live, listed, ordered);
    return Success(ordered), intervals;
  }

  lemma SizedWhenLive(steps: seq<PlanNode>, sizes: Sizes, intervals: map<int, Interval>)
    requires LiveMap(steps, sizes, intervals)
    ensures AllSized(steps, sizes)
    ensures forall id | id in intervals :: intervals[id].portID == id
  {
  }

  // ----- what a lifetime means for a topology in execution order

  /** Each port has at most one producer, which comes before its readers. */
  ghost predicate SingleProducer(steps: seq<PlanNode>) {
    && (forall s, t, id | 0 <= s < |steps| && 0 <= t < |steps| && id != 0
                          && id in steps[s].outputs && id in steps[t].outputs :: s == t)
    && (forall s, a, b | 0 <= s < |steps| && 0 <= a < b < |steps[s].outputs| && steps[s].outputs[a] != 0 ::
          steps[s].outputs[a] != steps[s].outputs[b])
    && (forall s, t, id | 0 <= s < |steps| && 0 <= t < |steps| && id != 0
                          && id in steps[s].outputs && id in steps[t].inputs :: s < t)
  }

  ghost predicate Unproduced(steps: seq<PlanNode>, id: int) {
    forall s | 0 <= s < |steps| :: id !in steps[s].outputs
  }

  /** The lifetime of a produced port runs from its producer over all its readers; of any other port, from step 0. */
  lemma LifetimeCovers(steps: seq<PlanNode>, sizes: Sizes, intervals: map<int, Interval>, id: int, s: int)
    requires SingleProducer(steps) && LiveMap(steps, sizes, intervals)
    requires id != 0 && 0 <= s < |steps| && Touches(steps[s], id)
    ensures id in intervals && intervals[id].start <= s <= intervals[id].end
    ensures id in steps[s].outputs ==> intervals[id].start == s
    ensures Unproduced(steps, id) ==> intervals[id].start == 0
  {
    assert Touched(steps, id);
    var interval := intervals[id];
    var f :| FirstTouch(steps, id, f) && interval.start == (if id in steps[f].outputs then f else 0)
             && f <= interval.end < |steps| && forall t | interval.end < t < |steps| :: id !in steps[t].inputs;
    assert f <= s;
  }
}
