/** Every way the hardware may interleave the scheduled streams. */
module StreamExecution {
  import opened Wrappers
  import opened Streams

  datatype Action = Start(node: int) | Finish(node: int)

  datatype State = State(running: set<int>, done: set<int>, signalled: set<int>)

  const INITIAL := State({}, {}, {})

  ghost function Signals(node: Node): set<int> {
    set e | e in node.barriers && !e.wait :: e.eventID
  }

  /** Streams run their nodes first in, first out; a node waits for its events; anything else may happen at any time. */
  ghost predicate Enabled(nodes: seq<Node>, s: State, a: Action) {
    match a
    case Start(i) =>
      && 0 <= i < |nodes| && i !in s.running && i !in s.done
      && (forall j | 0 <= j < i && nodes[j].streamID == nodes[i].streamID :: j in s.done)
      && (forall e | e in nodes[i].barriers && e.wait :: e.eventID in s.signalled)
    case Finish(i) =>
      0 <= i < |nodes| && i in s.running
  }

  ghost function Apply(nodes: seq<Node>, s: State, a: Action): State {
    match a
    case Start(i) => s.(running := s.running + {i})
    case Finish(i) =>
      State(s.running - {i}, s.done + {i}, s.signalled + if 0 <= i < |nodes| then Signals(nodes[i]) else {})
  }

  ghost function StateAfter(nodes: seq<Node>, trace: seq<Action>): State {
    if trace == [] then INITIAL
    else Apply(nodes, StateAfter(nodes, trace[..|trace| - 1]), trace[|trace| - 1])
  }

  /** An interleaving the hardware can produce. */
  ghost predicate Legal(nodes: seq<Node>, trace: seq<Action>) {
    trace == [] ||
    (Legal(nodes, trace[..|trace| - 1])
     && Enabled(nodes, StateAfter(nodes, trace[..|trace| - 1]), trace[|trace| - 1]))
  }

  /** What holds in every state an interleaving can reach. */
  ghost predicate Invariant(nodes: seq<Node>, s: State) {
    && (forall i | i in s.running + s.done :: 0 <= i < |nodes|)
    && s.running !! s.done
    && (forall i, j | i in s.running + s.done && 0 <= j < i && nodes[j].streamID == nodes[i].streamID :: j in s.done)
    && (forall id | id in s.signalled :: exists i | i in s.done :: id in Signals(nodes[i]))
    && (forall i, id | i in s.done && id in Signals(nodes[i]) :: id in s.signalled)
  }

  lemma StepKeepsInvariant(nodes: seq<Node>, s: State, a: Action)
    requires Invariant(nodes, s) && Enabled(nodes, s, a)
    ensures Invariant(nodes, Apply(nodes, s, a))
  {
    hide Signals;
    var after := Apply(nodes, s, a);
    forall id | id in after.signalled
      ensures exists i | i in after.done :: id in Signals(nodes[i])
    {
      if id in s.signalled {
        var i :| i in s.done && id in Signals(nodes[i]);
        assert i in after.done;
      }
    }
  }

  lemma {:induction false} ReachableInvariant(nodes: seq<Node>, trace: seq<Action>)
    requires Legal(nodes, trace)
    ensures Invariant(nodes, StateAfter(nodes, trace))
  {
    if trace != [] {
      ReachableInvariant(nodes, trace[..|trace| - 1]);
      StepKeepsInvariant(nodes, StateAfter(nodes, trace[..|trace| - 1]), trace[|trace| - 1]);
    }
  }

  // ----- barriers and links

  lemma {:induction false} BarrierIsLink(links: seq<Link>, i: int, e: SyncEvent)
    requires e in Barriers(links, i)
    ensures 1 <= e.eventID <= |links| && e.streamID == links[e.eventID - 1].stream
    ensures i == if e.wait then links[e.eventID - 1].waiter else links[e.eventID - 1].signaller
  {
    var k := |links| - 1;
    if e in Barriers(links[..k], i) {
      BarrierIsLink(links[..k], i, e);
    }
  }

  /** Each link puts one wait on its waiter and one signal on its signaller. */
  lemma {:induction false} LinkIsBarrier(links: seq<Link>, k: nat)
    requires k < |links|
    ensures SyncEvent(k + 1, links[k].stream, true) in Barriers(links, links[k].waiter)
    ensures SyncEvent(k + 1, links[k].stream, false) in Barriers(links, links[k].signaller)
  {
    if k < |links| - 1 {
      LinkIsBarrier(links[..|links| - 1], k);
    }
  }

  /** No node lists the same event twice. */
  lemma {:induction false} BarrierOnce(links: seq<Link>, i: int, p: nat, q: nat)
    requires p < q < |Barriers(links, i)|
    requires forall k | 0 <= k < |links| :: links[k].waiter != links[k].signaller
    ensures Barriers(links, i)[p].eventID < Barriers(links, i)[q].eventID
  {
    var k := |links| - 1;
    var init := Barriers(links[..k], i);
    if q < |init| {
      BarrierOnce(links[..k], i, p, q);
    } else {
      assert init[p] in init;
      BarrierIsLink(links[..k], i, init[p]);
    }
  }

  /** A schedule is what ScheduleStreams leaves behind. */
  ghost predicate IsSchedule(nodes: seq<Node>, producerOf: map<Port, int>, links: seq<Link>, cap: int) {
    && ProducerIndex(nodes, producerOf) && InOrder(nodes, producerOf)
    && Settled(nodes, producerOf, links, |nodes|, cap)
  }

  /**
   Events pair up: every event any node carries has exactly one wait and one signal,
   on different streams, and it names the stream of the node that signals it.
   */
  lemma EventsPairUp(nodes: seq<Node>, producerOf: map<Port, int>, links: seq<Link>, cap: int, i: nat, p: nat)
    requires IsSchedule(nodes, producerOf, links, cap)
    requires i < |nodes| && p < |nodes[i].barriers|
    ensures exists w, s | 0 <= s < w < |nodes| ::
      var e := nodes[i].barriers[p];
      && SyncEvent(e.eventID, e.streamID, true) in nodes[w].barriers
      && SyncEvent(e.eventID, e.streamID, false) in nodes[s].barriers
      && nodes[s].streamID == e.streamID && nodes[w].streamID != e.streamID
      && (forall j, q | 0 <= j < |nodes| && 0 <= q < |nodes[j].barriers| && nodes[j].barriers[q].eventID == e.eventID ::
            j == if nodes[j].barriers[q].wait then w else s)
    ensures forall q | 0 <= q < |nodes[i].barriers| && q != p :: nodes[i].barriers[q].eventID != nodes[i].barriers[p].eventID
  {
    hide *;
    ScheduleLinks(nodes, producerOf, links, cap);
    var e := nodes[i].barriers[p];
    BarrierIsLink(links, i, e);
    var k := e.eventID - 1;
    LinkIsBarrier(links, k);
    forall j, q | 0 <= j < |nodes| && 0 <= q < |nodes[j].barriers| && nodes[j].barriers[q].eventID == e.eventID
      ensures j == if nodes[j].barriers[q].wait then links[k].waiter else links[k].signaller
    {
      BarrierIsLink(links, j, nodes[j].barriers[q]);
    }
    forall q | 0 <= q < |nodes[i].barriers| && q != p
      ensures nodes[i].barriers[q].eventID != e.eventID
    {
      BarrierOnce(links, i, if p < q then p else q, if p < q then q else p);
    }
  }

  /** What a schedule says of its links: each joins two nodes on different streams, and the barriers are theirs. */
  lemma ScheduleLinks(nodes: seq<Node>, producerOf: map<Port, int>, links: seq<Link>, cap: int)
    requires IsSchedule(nodes, producerOf, links, cap)
    ensures forall j | 0 <= j < |nodes| :: nodes[j].barriers == Barriers(links, j)
    ensures forall k | 0 <= k < |links| ::
      && 0 <= links[k].signaller < links[k].waiter < |nodes|
      && nodes[links[k].signaller].streamID == links[k].stream != nodes[links[k].waiter].streamID
  {
    hide Assigned, Covered, InOrder, ProducerIndex;
    forall k | 0 <= k < |links|
      ensures 0 <= links[k].signaller < links[k].waiter < |nodes|
      ensures nodes[links[k].signaller].streamID == links[k].stream != nodes[links[k].waiter].streamID
    {
      assert SoundLink(nodes, producerOf, links[k], |nodes|);
    }
  }

  // ----- safety

  lemma ProducerDone(nodes: seq<Node>, producerOf: map<Port, int>, links: seq<Link>, cap: int, s: State, i: nat, j: int)
    requires IsSchedule(nodes, producerOf, links, cap) && Invariant(nodes, s)
    requires Enabled(nodes, s, Start(i)) && Feeds(nodes, producerOf, j, i)
    ensures j in s.done
  {
    assert 0 <= j < i;
    hide InOrder, ProducerIndex, Covered, SoundLink, Assigned;
    if nodes[j].streamID != nodes[i].streamID {
      var k := CoveringLink(nodes, producerOf, links, cap, i, j);
      SignallerDone(nodes, producerOf, links, cap, s, i, k);
    }
  }

  /** A node that may start has had its waits signalled, by the nodes its links name. */
  lemma SignallerDone(nodes: seq<Node>, producerOf: map<Port, int>, links: seq<Link>, cap: int, s: State, i: nat, k: nat)
    requires IsSchedule(nodes, producerOf, links, cap) && Invariant(nodes, s)
    requires Enabled(nodes, s, Start(i)) && k < |links| && links[k].waiter == i && i < |nodes|
    ensures links[k].signaller in s.done
  {
    hide InOrder, ProducerIndex, Covered, SoundLink, Assigned;
    LinkIsBarrier(links, k);
    assert SyncEvent(k + 1, links[k].stream, true) in nodes[i].barriers;
    assert k + 1 in s.signalled;
    var m :| m in s.done && k + 1 in Signals(nodes[m]);
    var e :| e in nodes[m].barriers && !e.wait && e.eventID == k + 1;
    BarrierIsLink(links, m, e);
  }

  lemma CoveringLink(nodes: seq<Node>, producerOf: map<Port, int>, links: seq<Link>, cap: int, i: nat, j: nat) returns (k: nat)
    requires IsSchedule(nodes, producerOf, links, cap)
    requires i < |nodes| && j < i && Feeds(nodes, producerOf, j, i) && nodes[j].streamID != nodes[i].streamID
    ensures k < |links| && links[k].waiter == i && links[k].stream == nodes[j].streamID && j <= links[k].signaller < i
    ensures nodes[links[k].signaller].streamID == nodes[j].streamID
  {
    assert Covered(nodes, producerOf, links, i, {});
    k :| 0 <= k < |links| && links[k].waiter == i && links[k].stream == nodes[j].streamID && j <= links[k].signaller;
    assert SoundLink(nodes, producerOf, links[k], |nodes|);
  }

  /**
   Safety: in no interleaving does a node start before every producer of its inputs has
   finished, although it waits for one producer per stream only.
   */
  lemma NoNodeStartsEarly(nodes: seq<Node>, producerOf: map<Port, int>, links: seq<Link>, cap: int,
                          trace: seq<Action>, i: nat, port: Port)
    requires IsSchedule(nodes, producerOf, links, cap)
    requires Legal(nodes, trace + [Start(i)]) && i < |nodes|
    requires port in nodes[i].inputs && port in producerOf
    ensures producerOf[port] in StateAfter(nodes, trace).done
  {
    assert (trace + [Start(i)])[..|trace|] == trace;
    ReachableInvariant(nodes, trace);
    assert Feeds(nodes, producerOf, producerOf[port], i);
    ProducerDone(nodes, producerOf, links, cap, StateAfter(nodes, trace), i, producerOf[port]);
  }

  // ----- progress

  lemma {:induction false} FirstUndone(s: State, n: nat) returns (i: nat)
    requires exists i | 0 <= i < n :: i !in s.done
    ensures i < n && i !in s.done && forall j | 0 <= j < i :: j in s.done
  {
    if k :| 0 <= k < n - 1 && k !in s.done {
      i := FirstUndone(s, n - 1);
    } else {
      i := n - 1;
    }
  }

  /** When everything before a node is done, all the events it waits for have been signalled. */
  lemma WaitsSignalled(nodes: seq<Node>, producerOf: map<Port, int>, links: seq<Link>, cap: int, s: State, i: nat, e: SyncEvent)
    requires IsSchedule(nodes, producerOf, links, cap) && Invariant(nodes, s)
    requires i < |nodes| && forall j | 0 <= j < i :: j in s.done
    requires e in nodes[i].barriers && e.wait
    ensures e.eventID in s.signalled
  {
    hide Assigned, Covered;
    assert e in Barriers(links, i);
    BarrierIsLink(links, i, e);
    var k := e.eventID - 1;
    assert SoundLink(nodes, producerOf, links[k], |nodes|);
    LinkIsBarrier(links, k);
    assert SyncEvent(k + 1, links[k].stream, false) in nodes[links[k].signaller].barriers;
    assert k + 1 in Signals(nodes[links[k].signaller]);
  }

  /** Progress: an interleaving that has not finished every node can always go on. */
  lemma NoDeadlock(nodes: seq<Node>, producerOf: map<Port, int>, links: seq<Link>, cap: int, trace: seq<Action>)
    requires IsSchedule(nodes, producerOf, links, cap) && Legal(nodes, trace)
    requires exists i | 0 <= i < |nodes| :: i !in StateAfter(nodes, trace).done
    ensures exists a :: Legal(nodes, trace + [a])
  {
    hide IsSchedule, Invariant, Signals;
    var s := StateAfter(nodes, trace);
    ReachableInvariant(nodes, trace);
    var i := FirstUndone(s, |nodes|);
    var a := if i in s.running then Finish(i) else Start(i);
    forall e | e in nodes[i].barriers && e.wait {
      WaitsSignalled(nodes, producerOf, links, cap, s, i, e);
    }
    assert (trace + [a])[..|trace|] == trace;
    assert Enabled(nodes, s, a);
    assert Legal(nodes, trace + [a]);
  }

  /** Every interleaving ends: each node starts once and finishes once. */
  lemma {:induction false} TraceLength(nodes: seq<Node>, trace: seq<Action>)
    requires Legal(nodes, trace)
    ensures |trace| == |StateAfter(nodes, trace).running| + 2 * |StateAfter(nodes, trace).done|
  {
    if trace != [] {
      TraceLength(nodes, trace[..|trace| - 1]);
      ReachableInvariant(nodes, trace[..|trace| - 1]);
    }
  }

  lemma {:induction false} RangeSize(ids: set<int>, n: nat)
    requires forall i | i in ids :: 0 <= i < n
    ensures |ids| <= n
  {
    if n > 0 {
      RangeSize(ids - {n - 1}, n - 1);
    } else {
      assert forall i :: i !in ids;
      assert ids == {};
    }
  }

  lemma TracesAreBounded(nodes: seq<Node>, trace: seq<Action>)
    requires Legal(nodes, trace)
    ensures |trace| <= 2 * |nodes|
  {
    var s := StateAfter(nodes, trace);
    ReachableInvariant(nodes, trace);
    TraceLength(nodes, trace);
    RangeSize(s.running + s.done, |nodes|);
  }

  // ----- every interleaving computes the same values

  type Value = seq<int>

  /** What a node computes from the values on its input ports; None is a port no node writes. */
  type Compute = (int, seq<Option<Value>>) -> Value

  ghost function ReadPort(producerOf: map<Port, int>, values: map<int, Value>, port: Port): Option<Value> {
    if port in producerOf && producerOf[port] in values then Some(values[producerOf[port]]) else None
  }

  ghost function Reads(producerOf: map<Port, int>, values: map<int, Value>, inputs: seq<Port>): (r: seq<Option<Value>>)
    ensures |r| == |inputs|
  {
    seq(|inputs|, k requires 0 <= k < |inputs| => ReadPort(producerOf, values, inputs[k]))
  }

  /** Node after node, in list order. */
  ghost function SerialValues(nodes: seq<Node>, producerOf: map<Port, int>, compute: Compute, n: nat): map<int, Value>
    requires n <= |nodes|
  {
    if n == 0 then map[]
    else
      var before := SerialValues(nodes, producerOf, compute, n - 1);
      before[n - 1 := compute(n - 1, Reads(producerOf, before, nodes[n - 1].inputs))]
  }

  /** A node reads its inputs when it starts, whatever the other streams are doing. */
  ghost function TraceValues(nodes: seq<Node>, producerOf: map<Port, int>, compute: Compute, trace: seq<Action>): map<int, Value> {
    if trace == [] then map[]
    else
      var before := TraceValues(nodes, producerOf, compute, trace[..|trace| - 1]);
      match trace[|trace| - 1]
      case Start(i) =>
        if 0 <= i < |nodes| then before[i := compute(i, Reads(producerOf, before, nodes[i].inputs))] else before
      case Finish(_) => before
  }

  lemma {:induction false} SerialPrefix(nodes: seq<Node>, producerOf: map<Port, int>, compute: Compute, m: nat, n: nat)
    requires m <= n <= |nodes|
    ensures forall j :: j in SerialValues(nodes, producerOf, compute, n) <==> 0 <= j < n
    ensures forall j | 0 <= j < m ::
      j in SerialValues(nodes, producerOf, compute, m) && j in SerialValues(nodes, producerOf, compute, n)
      && SerialValues(nodes, producerOf, compute, n)[j] == SerialValues(nodes, producerOf, compute, m)[j]
  {
    if m < n {
      SerialPrefix(nodes, producerOf, compute, m, n - 1);
    } else if n > 0 {
      SerialPrefix(nodes, producerOf, compute, n - 1, n - 1);
    }
  }

  lemma SerialValueOf(nodes: seq<Node>, producerOf: map<Port, int>, compute: Compute, i: nat)
    requires i < |nodes|
    ensures i in SerialValues(nodes, producerOf, compute, |nodes|)
    ensures SerialValues(nodes, producerOf, compute, |nodes|)[i] ==
            compute(i, Reads(producerOf, SerialValues(nodes, producerOf, compute, i), nodes[i].inputs))
  {
    SerialPrefix(nodes, producerOf, compute, i + 1, |nodes|);
  }

  ghost predicate MatchesSerial(nodes: seq<Node>, producerOf: map<Port, int>, compute: Compute, values: map<int, Value>) {
    var serial := SerialValues(nodes, producerOf, compute, |nodes|);
    forall i | i in values :: 0 <= i < |nodes| && i in serial && values[i] == serial[i]
  }

  /** Any interleaving gives every node the value the serial run gives it. */
  lemma {:induction false} InterleavingsAgree(nodes: seq<Node>, producerOf: map<Port, int>, links: seq<Link>, cap: int,
                                              compute: Compute, trace: seq<Action>)
    requires IsSchedule(nodes, producerOf, links, cap) && Legal(nodes, trace)
    ensures TraceValues(nodes, producerOf, compute, trace).Keys ==
            StateAfter(nodes, trace).running + StateAfter(nodes, trace).done
    ensures MatchesSerial(nodes, producerOf, compute, TraceValues(nodes, producerOf, compute, trace))
    decreases |trace|
  {
    hide IsSchedule, Invariant, SerialValues;
    SerialPrefix(nodes, producerOf, compute, |nodes|, |nodes|);
    if trace != [] {
      var init, last := trace[..|trace| - 1], trace[|trace| - 1];
      InterleavingsAgree(nodes, producerOf, links, cap, compute, init);
      if last.Start? {
        var i := last.node;
        ReachableInvariant(nodes, init);
        StartReadsSerial(nodes, producerOf, links, cap, compute, StateAfter(nodes, init),
                         TraceValues(nodes, producerOf, compute, init), i);
        SerialValueOf(nodes, producerOf, compute, i);
      }
    }
  }

  lemma StartReadsSerial(nodes: seq<Node>, producerOf: map<Port, int>, links: seq<Link>, cap: int, compute: Compute,
                         s: State, values: map<int, Value>, i: nat)
    requires IsSchedule(nodes, producerOf, links, cap) && Invariant(nodes, s) && Enabled(nodes, s, Start(i))
    requires values.Keys == s.running + s.done
    requires MatchesSerial(nodes, producerOf, compute, values)
    ensures Reads(producerOf, values, nodes[i].inputs) ==
            Reads(producerOf, SerialValues(nodes, producerOf, compute, i), nodes[i].inputs)
  {
    SerialPrefix(nodes, producerOf, compute, i, |nodes|);
    forall k | 0 <= k < |nodes[i].inputs|
      ensures ReadPort(producerOf, values, nodes[i].inputs[k]) ==
              ReadPort(producerOf, SerialValues(nodes, producerOf, compute, i), nodes[i].inputs[k])
    {
      var port := nodes[i].inputs[k];
      if port in producerOf {
        assert Feeds(nodes, producerOf, producerOf[port], i);
        ProducerDone(nodes, producerOf, links, cap, s, i, producerOf[port]);
      }
    }
  }

  // ----- how many streams

  /** One stream means serial execution: no second stream, no event. */
  lemma SingleStreamIsSerial(nodes: seq<Node>, producerOf: map<Port, int>, links: seq<Link>)
    requires IsSchedule(nodes, producerOf, links, 1)
    ensures forall i | 0 <= i < |nodes| :: nodes[i].streamID == 0 && nodes[i].barriers == []
  {
    hide Covered, PredecessorStreams, Chosen;
    forall i | 0 <= i < |nodes|
      ensures nodes[i].streamID == 0
    {
      assert Assigned(nodes, producerOf, i, 1);
    }
    if links != [] {
      LinkCrossesStreams(nodes, producerOf, links, 1, 0);
    }
  }

  lemma LinkCrossesStreams(nodes: seq<Node>, producerOf: map<Port, int>, links: seq<Link>, cap: int, k: nat)
    requires IsSchedule(nodes, producerOf, links, cap) && k < |links|
    ensures 0 <= links[k].signaller < links[k].waiter < |nodes|
    ensures nodes[links[k].signaller].streamID != nodes[links[k].waiter].streamID
  {
    assert SoundLink(nodes, producerOf, links[k], |nodes|);
  }

  lemma {:induction false} OpenedAtMost(nodes: seq<Node>, producerOf: map<Port, int>, links: seq<Link>, cap: int, n: nat)
    requires IsSchedule(nodes, producerOf, links, cap) && n <= |nodes| && |nodes| <= cap
    ensures Opened(nodes, n) <= n
  {
    if n > 0 {
      OpenedAtMost(nodes, producerOf, links, cap, n - 1);
      StreamAtMostOpened(nodes, producerOf, links, cap, n - 1);
    }
  }

  lemma StreamAtMostOpened(nodes: seq<Node>, producerOf: map<Port, int>, links: seq<Link>, cap: int, i: nat)
    requires IsSchedule(nodes, producerOf, links, cap) && i < |nodes| && Opened(nodes, i) < cap
    ensures nodes[i].streamID == Opened(nodes, i) ||
            exists j | 0 <= j < i :: Feeds(nodes, producerOf, j, i) && nodes[j].streamID == nodes[i].streamID
    ensures nodes[i].streamID <= Opened(nodes, i)
  {
    hide Covered, SoundLink, LastOn, ProducerIndex;
    assert Assigned(nodes, producerOf, i, cap);
    var latest :| PredecessorStreams(nodes, producerOf, i, latest) && Chosen(nodes, latest, i, cap);
    if nodes[i].streamID in latest {
      var j :| 0 <= j < |nodes| && Feeds(nodes, producerOf, j, i) && nodes[j].streamID == nodes[i].streamID;
      OpenedBounds(nodes, i, j);
    }
  }

  /**
   Without a cap, a node is queued behind others only where it depends on one of them:
   it opens a stream of its own, or shares the stream of one of its producers.
   */
  lemma UncappedFollowsDependencies(nodes: seq<Node>, producerOf: map<Port, int>, links: seq<Link>, cap: int, i: nat)
    requires IsSchedule(nodes, producerOf, links, cap) && i < |nodes| && |nodes| <= cap
    ensures (forall j | 0 <= j < i :: nodes[j].streamID < nodes[i].streamID) ||
            exists j | 0 <= j < i :: Feeds(nodes, producerOf, j, i) && nodes[j].streamID == nodes[i].streamID
  {
    OpenedAtMost(nodes, producerOf, links, cap, i);
    StreamAtMostOpened(nodes, producerOf, links, cap, i);
    if nodes[i].streamID == Opened(nodes, i) {
      forall j | 0 <= j < i
        ensures nodes[j].streamID < nodes[i].streamID
      {
        OpenedBounds(nodes, i, j);
      }
    }
  }

  /**
   A node whose producers are on two streams joins the lowest stream any producer is on,
   even where the cap would leave room for a new one.
   */
  lemma MergeJoinsLowest(nodes: seq<Node>, producerOf: map<Port, int>, links: seq<Link>, cap: int, i: nat, j: nat, k: nat)
    requires IsSchedule(nodes, producerOf, links, cap) && i < |nodes|
    requires Feeds(nodes, producerOf, j, i) && Feeds(nodes, producerOf, k, i) && j < |nodes| && k < |nodes|
    requires nodes[j].streamID != nodes[k].streamID
    ensures exists p | 0 <= p < |nodes| :: Feeds(nodes, producerOf, p, i) && nodes[p].streamID == nodes[i].streamID
    ensures forall p | 0 <= p < |nodes| && Feeds(nodes, producerOf, p, i) :: nodes[i].streamID <= nodes[p].streamID
  {
    hide Covered, DistinctLinks, SoundLink, Feeds, Opened;
    assert Assigned(nodes, producerOf, i, cap);
    var latest :| PredecessorStreams(nodes, producerOf, i, latest) && Chosen(nodes, latest, i, cap);
    TwoKeys(latest, nodes[j].streamID, nodes[k].streamID);
  }

  lemma TwoKeys(table: map<int, int>, a: int, b: int)
    requires a in table && b in table && a != b
    ensures |table| > 1
  {
    assert table.Keys == {a, b} + (table.Keys - {a, b});
  }
}
