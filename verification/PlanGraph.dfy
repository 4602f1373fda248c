/** From a graph to a placed workspace: ordering, bridging, planning and the offsets of the graph's inputs and outputs. */
module PlanGraph {
  import opened Wrappers
  import opened GraphSemantics
  import opened FirstFit
  import opened OffsetAllocator
  import opened Liveness
  import opened WorkspaceExecution
  import GraphOrder
  import Lowering
  import Optimizer
  import Compile
  import Digraph
  import opened Planner
  import opened PlanningBridge

  datatype PlanGraphError =
    | NotOrdered(order: GraphOrder.OrderError)
    | NotBridged(bridge: BridgeError)
    | NotPlanned(plan: PlanError)
    | UnplacedInput(input: string)
    | UnplacedOutput(output: string)

  /** What planning a graph yields: the bridge, the planned topology, and where graph inputs and outputs are. */
  datatype PlannedGraph = PlannedGraph(bridge: Bridge, topology: Topology, inputPorts: map<string, int>,
                                       outputPorts: map<string, int>)

  // ----- port IDs of a bridged topology

  /** No port has an ID yet. */
  function FreshIds(b: Bridge): map<Port, int> {
    map p | p in b.boundary.Values + b.producer.Values :: 0
  }

  /** Ports in use belong to a graph input or to a node. */
  lemma BridgedPorts(nodes: seq<GraphNode>, inputs: seq<string>, b: Bridge)
    requires BridgedTo(nodes, inputs, b, |nodes|)
    ensures forall p | UsesPort(b.topology, p) :: p in FreshIds(b)
    ensures Numbered(b.topology, FreshIds(b))
  {
    forall s, p | 0 <= s < |nodes| && NodeUses(b.topology[s], p)
      ensures p in FreshIds(b)
    {
      assert NodeBridged(nodes, b, s);
      if p in b.topology[s].inputs {
        var k :| 0 <= k < |b.topology[s].inputs| && b.topology[s].inputs[k] == p;
        assert ReadsFrom(nodes, b, s, nodes[s].inputs[k], p);
      }
    }
    forall p | UsesPort(b.topology, p)
      ensures p in FreshIds(b)
    {
      var s :| 0 <= s < |b.topology| && (p in b.topology[s].inputs || p in b.topology[s].outputs);
      assert NodeUses(b.topology[s], p);
    }
  }

  /** Ports that had no ID get one each. */
  lemma FreshIdsDistinct(nodes: seq<TopologyNode>, before: map<Port, int>, after: map<Port, int>)
    requires forall p | UsesPort(nodes, p) :: p in before
    requires forall p | p in before :: before[p] == 0
    requires IdsAssigned(before, after, iset p | UsesPort(nodes, p))
    ensures DistinctIds(nodes, after) && forall p | UsesPort(nodes, p) :: p in after && after[p] != 0
  {
  }

  lemma {:induction false} SizeByIdIs(ports: seq<Port>, ids: map<Port, int>, bytes: Port -> Option<nat>, p: Port)
    requires p in ports && p in ids
    requires forall q | q in ports && q in ids && ids[q] == ids[p] :: q == p
    ensures SizeById(ports, ids, bytes, ids[p]) == bytes(p)
  {
    if !(ports[0] in ids && ids[ports[0]] == ids[p]) {
      assert p in ports[1..];
      SizeByIdIs(ports[1..], ids, bytes, p);
    }
  }

  lemma {:induction false} AllPortsAre(nodes: seq<TopologyNode>, p: Port)
    ensures p in AllPorts(nodes) <==> UsesPort(nodes, p)
  {
    if nodes != [] {
      AllPortsAre(nodes[1..], p);
      if s :| 0 <= s < |nodes| && (p in nodes[s].inputs || p in nodes[s].outputs) {
        if s > 0 {
          assert nodes[1..][s - 1] == nodes[s];
        }
      }
    }
  }

  /** With distinct IDs, the size found for an ID is the size of its port. */
  lemma SizeOfPort(nodes: seq<TopologyNode>, ids: map<Port, int>, bytes: Port -> Option<nat>, p: Port)
    requires DistinctIds(nodes, ids) && UsesPort(nodes, p) && p in ids
    ensures SizesOf(nodes, ids, bytes)(ids[p]) == bytes(p)
  {
    AllPortsAre(nodes, p);
    forall q | q in AllPorts(nodes) && q in ids && ids[q] == ids[p]
      ensures q == p
    {
      AllPortsAre(nodes, q);
    }
    SizeByIdIs(AllPorts(nodes), ids, bytes, p);
  }

  /** A step touches exactly the IDs of the ports its node uses. */
  lemma StepTouches(nodes: seq<TopologyNode>, ids: map<Port, int>, s: nat, p: Port)
    requires Numbered(nodes, ids) && s < |nodes| && NodeUses(nodes[s], p)
    ensures p in ids && Touches(IdSteps(nodes, ids)[s], ids[p])
    ensures p in nodes[s].outputs ==> ids[p] in IdSteps(nodes, ids)[s].outputs
  {
    NodePorts(nodes, ids, s);
    if p in nodes[s].inputs {
      var k :| 0 <= k < |nodes[s].inputs| && nodes[s].inputs[k] == p;
      assert IdsOf(nodes[s].inputs, ids)[k] == ids[p];
    }
    if p in nodes[s].outputs {
      var k :| 0 <= k < |nodes[s].outputs| && nodes[s].outputs[k] == p;
      assert IdsOf(nodes[s].outputs, ids)[k] == ids[p];
    }
  }

  lemma StepPort(nodes: seq<TopologyNode>, ids: map<Port, int>, s: nat, id: int) returns (p: Port)
    requires Numbered(nodes, ids) && s < |nodes| && Touches(IdSteps(nodes, ids)[s], id)
    ensures NodeUses(nodes[s], p) && UsesPort(nodes, p) && p in ids && ids[p] == id
    ensures id in IdSteps(nodes, ids)[s].outputs ==> p in nodes[s].outputs
  {
    NodePorts(nodes, ids, s);
    if id in IdSteps(nodes, ids)[s].outputs {
      p := PortOfId(nodes[s].outputs, ids, id);
    } else {
      p := PortOfId(nodes[s].inputs, ids, id);
    }
  }

  lemma UsedBy(nodes: seq<TopologyNode>, p: Port) returns (s: nat)
    requires UsesPort(nodes, p)
    ensures s < |nodes| && NodeUses(nodes[s], p)
  {
    s :| 0 <= s < |nodes| && (p in nodes[s].inputs || p in nodes[s].outputs);
  }

  /** Every port in use has a known size. */
  ghost predicate PortsSized(nodes: seq<TopologyNode>, bytes: Port -> Option<nat>) {
    forall p | UsesPort(nodes, p) :: bytes(p).Some?
  }

  lemma SizedIffPortsSized(nodes: seq<TopologyNode>, ids: map<Port, int>, bytes: Port -> Option<nat>)
    requires Numbered(nodes, ids) && DistinctIds(nodes, ids)
    requires forall p | UsesPort(nodes, p) :: p in ids && ids[p] != 0
    ensures AllSized(IdSteps(nodes, ids), SizesOf(nodes, ids, bytes)) <==> PortsSized(nodes, bytes)
  {
    hide SizesOf, IdSteps, DistinctIds, UsesPort;
    var steps, sizes := IdSteps(nodes, ids), SizesOf(nodes, ids, bytes);
    if AllSized(steps, sizes) {
      forall p | UsesPort(nodes, p)
        ensures bytes(p).Some?
      {
        var s := UsedBy(nodes, p);
        StepTouches(nodes, ids, s, p);
        assert Touched(steps, ids[p]);
        SizeOfPort(nodes, ids, bytes, p);
      }
    }
    if PortsSized(nodes, bytes) {
      forall id | id != 0 && Touched(steps, id)
        ensures sizes(id).Some?
      {
        var s :| 0 <= s < |steps| && Touches(steps[s], id);
        var p := StepPort(nodes, ids, s, id);
        SizeOfPort(nodes, ids, bytes, p);
      }
    }
  }

  // ----- graph inputs and outputs

  /** The offset of every named graph input; an input no node uses has none. */
  method AttachInputs(inputs: seq<string>, boundary: map<string, Port>, offsets: map<Port, int>)
    returns (error: Option<PlanGraphError>, placed: map<string, int>)
    requires boundary.Keys == GraphOrder.BoundaryInputs(inputs)
    ensures error.None? <==> forall name | name in boundary :: boundary[name] in offsets
    ensures error.None? ==> placed.Keys == boundary.Keys && forall name | name in placed :: placed[name] == offsets[boundary[name]]
    ensures error.Some? ==> error.value.UnplacedInput? && error.value.input in boundary && boundary[error.value.input] !in offsets
  {
    placed := map[];
    for i := 0 to |inputs|
      invariant placed.Keys == GraphOrder.BoundaryInputs(inputs[..i])
      invariant forall name | name in placed :: name in boundary && boundary[name] in offsets && placed[name] == offsets[boundary[name]]
    {
      assert inputs[..i + 1] == inputs[..i] + [inputs[i]];
      if inputs[i] != "" {
        assert inputs[i] in boundary;
        if boundary[inputs[i]] !in offsets {
          return Some(UnplacedInput(inputs[i])), placed;
        }
        placed := placed[inputs[i] := offsets[boundary[inputs[i]]]];
      }
    }
    assert inputs[..|inputs|] == inputs;
    return None, placed;
  }

  ghost predicate OutputPlaced(outputs: map<string, string>, producer: map<string, Port>, offsets: map<Port, int>, key: string)
    requires key in outputs
  {
    outputs[key] in producer && producer[outputs[key]] in offsets
  }

  /** The offset of every named graph output's producer; an output that is a graph input has none. */
  method AttachOutputs(outputs: map<string, string>, producer: map<string, Port>, offsets: map<Port, int>)
    returns (error: Option<PlanGraphError>, placed: map<string, int>)
    ensures error.None? <==> forall key | key in outputs && key != "" :: OutputPlaced(outputs, producer, offsets, key)
    ensures error.None? ==> placed.Keys == outputs.Keys - {""}
    ensures error.None? ==> forall key | key in placed :: placed[key] == offsets[producer[outputs[key]]]
    ensures error.Some? ==> error.value.UnplacedOutput? && error.value.output in outputs && error.value.output != ""
    ensures error.Some? ==> !OutputPlaced(outputs, producer, offsets, error.value.output)
  {
    placed := map[];
    var pending := outputs.Keys;
    while pending != {}
      invariant pending <= outputs.Keys && placed.Keys == outputs.Keys - pending - {""}
      invariant forall key | key in placed ::
        OutputPlaced(outputs, producer, offsets, key) && placed[key] == offsets[producer[outputs[key]]]
    {
      var key :| key in pending;
      pending := pending - {key};
      if key != "" {
        if outputs[key] !in producer || producer[outputs[key]] !in offsets {
          return Some(UnplacedOutput(key)), placed;
        }
        placed := placed[key := offsets[producer[outputs[key]]]];
      }
    }
    return None, placed;
  }

  /** What is wrong with the graph when a graph input or output has no offset. */
  ghost predicate Unplaced(error: PlanGraphError, outputs: map<string, string>, b: Bridge, offsets: map<Port, int>) {
    || (error.UnplacedInput? && error.input in b.boundary && b.boundary[error.input] !in offsets)
    || (error.UnplacedOutput? && error.output in outputs && error.output != ""
        && !OutputPlaced(outputs, b.producer, offsets, error.output))
  }

  /** Each graph input has its port's offset, and each named graph output that of its producer's port. */
  ghost predicate Attached(outputs: map<string, string>, b: Bridge, offsets: map<Port, int>,
                           inputPorts: map<string, int>, outputPorts: map<string, int>)
  {
    && inputPorts.Keys == b.boundary.Keys && outputPorts.Keys == outputs.Keys - {""}
    && (forall name | name in inputPorts :: b.boundary[name] in offsets && inputPorts[name] == offsets[b.boundary[name]])
    && (forall key | key in outputPorts ::
          OutputPlaced(outputs, b.producer, offsets, key) && outputPorts[key] == offsets[b.producer[outputs[key]]])
  }

  /** The offsets of graph inputs and outputs. */
  method AttachGraphIOPorts(inputs: seq<string>, outputs: map<string, string>, b: Bridge, offsets: map<Port, int>)
    returns (error: Option<PlanGraphError>, inputPorts: map<string, int>, outputPorts: map<string, int>)
    requires b.boundary.Keys == GraphOrder.BoundaryInputs(inputs)
    ensures error.None? <==>
      && (forall name | name in b.boundary :: b.boundary[name] in offsets)
      && (forall key | key in outputs && key != "" :: OutputPlaced(outputs, b.producer, offsets, key))
    ensures error.None? ==> Attached(outputs, b, offsets, inputPorts, outputPorts)
    ensures error.Some? ==> Unplaced(error.value, outputs, b, offsets)
  {
    outputPorts := map[];
    error, inputPorts := AttachInputs(inputs, b.boundary, offsets);
    if error.Some? {
      return;
    }
    error, outputPorts := AttachOutputs(outputs, b.producer, offsets);
  }

  // ----- which graphs can be planned

  /** Some node reads the input. */
  ghost predicate IsRead(nodes: seq<GraphNode>, name: string) {
    exists node :: node in nodes && name in node.inputs
  }

  /** Each graph input is read by a node and each graph output is a node's, so both have a port in the workspace. */
  ghost predicate BoundaryUsed(nodes: seq<GraphNode>, inputs: seq<string>, outputs: map<string, string>) {
    && (forall name | name in GraphOrder.BoundaryInputs(inputs) :: IsRead(nodes, name))
    && (forall key | key in outputs && key != "" :: outputs[key] in Ids(nodes))
  }

  /** The byte sizes of values are known; the output of an alias has its operand's. */
  ghost predicate ValuesSized(nodes: seq<GraphNode>, inputs: seq<string>, sizeOf: string -> Option<nat>) {
    && (forall name | name in GraphOrder.BoundaryInputs(inputs) && IsRead(nodes, name) :: sizeOf(name).Some?)
    && (forall node | node in nodes :: sizeOf(node.id).Some? ||
          (node.op in {"shape.view_as_heads", "shape.merge_heads"} && node.inputs != []))
  }

  /** No input of any node is left blank. */
  ghost predicate InputsNamed(nodes: seq<GraphNode>) {
    forall node | node in nodes :: "" !in node.inputs
  }

  /** Exactly the graphs that can be planned. */
  ghost predicate Plannable(nodes: seq<GraphNode>, inputs: seq<string>, outputs: map<string, string>,
                            sizeOf: string -> Option<nat>, align: int)
  {
    && GraphOrder.Normalizable(nodes, GraphOrder.BoundaryInputs(inputs), outputs) && InputsNamed(nodes)
    && (align <= 0 || IsPowerOfTwo(align)) && ValuesSized(nodes, inputs, sizeOf) && BoundaryUsed(nodes, inputs, outputs)
  }

  lemma SameNodes(nodes: seq<GraphNode>, sorted: seq<GraphNode>)
    requires multiset(sorted) == multiset(nodes)
    ensures forall node :: node in sorted <==> node in nodes
    ensures Ids(sorted) == Ids(nodes)
  {
    assert forall node :: node in nodes <==> node in multiset(nodes);
    assert forall node :: node in sorted <==> node in multiset(sorted);
    GraphOrder.SameIds(nodes, sorted);
  }

  /** An ordered graph can be bridged exactly when no input is blank. */
  lemma ResolvableIffNamed(nodes: seq<GraphNode>, inputs: seq<string>, outputs: map<string, string>, sorted: seq<GraphNode>)
    requires GraphOrder.Normalizable(nodes, GraphOrder.BoundaryInputs(inputs), outputs)
    requires GraphOrder.SortOf(nodes, GraphOrder.BoundaryInputs(inputs), sorted)
    ensures UniqueIds(sorted) && (Resolvable(sorted, GraphOrder.BoundaryInputs(inputs)) <==> InputsNamed(nodes))
  {
    var boundary := GraphOrder.BoundaryInputs(inputs);
    Compile.SortKnown(nodes, boundary, sorted);
    Compile.IdsNonempty(sorted);
    SameNodes(nodes, sorted);
    if InputsNamed(nodes) {
      forall i, name | 0 <= i < |sorted| && name in sorted[i].inputs
        ensures name in boundary || name in Ids(sorted[..i])
      {
        assert sorted[i] in nodes;
      }
    }
    if Resolvable(sorted, boundary) {
      forall node | node in nodes
        ensures "" !in node.inputs
      {
        var i :| 0 <= i < |sorted| && sorted[i] == node;
        IdsPrefix(sorted, i);
        assert "" !in boundary && "" !in Ids(sorted[..i]);
      }
    }
  }

  lemma IdsPrefix(nodes: seq<GraphNode>, i: nat)
    requires i <= |nodes|
    ensures Ids(nodes[..i]) <= Ids(nodes)
  {
    forall id | id in Ids(nodes[..i])
      ensures id in Ids(nodes)
    {
      var j :| 0 <= j < i && nodes[..i][j].id == id;
      assert nodes[j].id == id;
    }
  }

  /** A compiled graph, whose nodes read only inputs and earlier nodes, has nothing in its names to keep it from being planned. */
  lemma CompiledGraphsBridge(nodes: seq<GraphNode>, inputs: seq<string>, outputs: map<string, string>)
    requires Lowering.SingleAssignment(inputs, nodes)
    requires GraphOrder.OutputsKnown(nodes, GraphOrder.BoundaryInputs(inputs), outputs)
    ensures GraphOrder.Normalizable(nodes, GraphOrder.BoundaryInputs(inputs), outputs) && InputsNamed(nodes)
    ensures Ids(nodes) !! GraphOrder.BoundaryInputs(inputs)
  {
    var boundary := GraphOrder.BoundaryInputs(inputs);
    Lowering.SingleAssignmentOrdered(inputs, nodes);
    Compile.IdsNonempty(nodes);
    forall deps | GraphOrder.Depends(nodes, boundary, deps)
      ensures Digraph.Acyclic(deps)
    {
      Compile.OrderedIsAcyclic(nodes, boundary, deps);
    }
    forall i, name | 0 <= i < |nodes| && name in nodes[i].inputs
      ensures name != "" && (name in boundary || name in Ids(nodes))
    {
      IdsPrefix(nodes, i);
      assert "" !in boundary && "" !in Ids(nodes);
    }
    assert InputsNamed(nodes) by {
      forall node | node in nodes
        ensures "" !in node.inputs
      {
        var i :| 0 <= i < |nodes| && nodes[i] == node;
      }
    }
  }

  // ----- whose bytes a port holds

  /** Each port of a graph input, and each new port of a node, belongs to the value it was made for. */
  ghost predicate Owns(nodes: seq<GraphNode>, b: Bridge, owners: map<Port, string>) {
    && (forall name | name in b.boundary :: b.boundary[name] in owners && owners[b.boundary[name]] == name)
    && (forall i | 0 <= i < |nodes| && !Aliases(nodes[i]) && nodes[i].id in b.producer ::
          b.producer[nodes[i].id] in owners && owners[b.producer[nodes[i].id]] == nodes[i].id)
  }

  method OwnersOf(nodes: seq<GraphNode>, inputs: seq<string>, b: Bridge) returns (owners: map<Port, string>)
    requires BridgedTo(nodes, inputs, b, |nodes|)
    ensures Owns(nodes, b, owners)
  {
    owners := map[];
    var pending := b.boundary.Keys;
    while pending != {}
      invariant pending <= b.boundary.Keys
      invariant forall name | name in b.boundary && name !in pending ::
        b.boundary[name] in owners && owners[b.boundary[name]] == name
    {
      var name :| name in pending;
      owners := owners[b.boundary[name] := name];
      pending := pending - {name};
    }
    for i := 0 to |nodes|
      invariant forall name | name in b.boundary :: b.boundary[name] in owners && owners[b.boundary[name]] == name
      invariant forall j | 0 <= j < i && !Aliases(nodes[j]) && nodes[j].id in b.producer ::
        b.producer[nodes[j].id] in owners && owners[b.producer[nodes[j].id]] == nodes[j].id
    {
      assert NodeBridged(nodes, b, i);
      if !(PlanningAliasOp(nodes[i].op) && |nodes[i].inputs| > 0) {
        owners := owners[b.producer[nodes[i].id] := nodes[i].id];
      }
    }
  }

  function PortBytes(owners: map<Port, string>, sizeOf: string -> Option<nat>): Port -> Option<nat> {
    p => if p in owners then sizeOf(owners[p]) else None
  }

  /** Every port a node uses is owned: by a node that is no alias, or by a graph input some node reads. */
  lemma {:induction false} UsedPortOwner(nodes: seq<GraphNode>, inputs: seq<string>, b: Bridge, s: nat, p: Port)
    requires BridgedTo(nodes, inputs, b, |nodes|) && s < |nodes| && NodeUses(b.topology[s], p)
    ensures (exists i | 0 <= i < |nodes| :: !Aliases(nodes[i]) && b.topology[i].outputs == [p])
         || (exists name | name in b.boundary :: b.boundary[name] == p && IsRead(nodes, name))
    decreases s
  {
    assert NodeBridged(nodes, b, s);
    if p in b.topology[s].inputs {
      var k :| 0 <= k < |b.topology[s].inputs| && b.topology[s].inputs[k] == p;
      var name := nodes[s].inputs[k];
      assert ReadsFrom(nodes, b, s, name, p);
      assert nodes[s] in nodes;
      if name in Ids(nodes[..s]) {
        var j :| 0 <= j < s && nodes[..s][j].id == name;
        assert NodeBridged(nodes, b, j);
        UsedPortOwner(nodes, inputs, b, j, p);
      } else {
        assert IsRead(nodes, name) && b.boundary[name] == p;
      }
    }
  }

  /** The port of a graph input is in use exactly when a node reads the input. */
  lemma InputUsedIffRead(nodes: seq<GraphNode>, inputs: seq<string>, b: Bridge, name: string)
    requires BridgedTo(nodes, inputs, b, |nodes|) && Ids(nodes) !! b.boundary.Keys && name in b.boundary
    ensures UsesPort(b.topology, b.boundary[name]) <==> IsRead(nodes, name)
  {
    var p := b.boundary[name];
    if IsRead(nodes, name) {
      var i :| 0 <= i < |nodes| && name in nodes[i].inputs;
      var k :| 0 <= k < |nodes[i].inputs| && nodes[i].inputs[k] == name;
      assert NodeBridged(nodes, b, i) && ReadsFrom(nodes, b, i, name, b.topology[i].inputs[k]);
      IdsPrefix(nodes, i);
      assert b.topology[i].inputs[k] == p;
    }
    if UsesPort(b.topology, p) {
      var s := UsedBy(b.topology, p);
      UsedPortOwner(nodes, inputs, b, s, p);
      if i :| 0 <= i < |nodes| && !Aliases(nodes[i]) && b.topology[i].outputs == [p] {
        OneOutput(nodes, inputs, b, i);
        assert false;
      }
    }
  }

  lemma OutputUsed(nodes: seq<GraphNode>, inputs: seq<string>, b: Bridge, i: nat)
    requires BridgedTo(nodes, inputs, b, |nodes|) && i < |nodes|
    ensures nodes[i].id in b.producer && UsesPort(b.topology, b.producer[nodes[i].id])
    ensures b.topology[i].outputs == [b.producer[nodes[i].id]]
  {
    assert NodeBridged(nodes, b, i);
    assert b.producer[nodes[i].id] in b.topology[i].outputs;
  }

  /** Ports have known sizes exactly when values do. */
  lemma SizedIffValuesSized(nodes: seq<GraphNode>, inputs: seq<string>, b: Bridge, owners: map<Port, string>,
                            sizeOf: string -> Option<nat>)
    requires BridgedTo(nodes, inputs, b, |nodes|) && Ids(nodes) !! b.boundary.Keys && Owns(nodes, b, owners)
    ensures PortsSized(b.topology, PortBytes(owners, sizeOf)) <==> ValuesSized(nodes, inputs, sizeOf)
  {
    hide UsesPort, BridgedTo;
    var bytes := PortBytes(owners, sizeOf);
    BridgeShape(nodes, inputs, b);
    if PortsSized(b.topology, bytes) {
      forall name | name in b.boundary && IsRead(nodes, name)
        ensures sizeOf(name).Some?
      {
        InputUsedIffRead(nodes, inputs, b, name);
      }
      forall node | node in nodes && !Aliases(node)
        ensures sizeOf(node.id).Some?
      {
        var i :| 0 <= i < |nodes| && nodes[i] == node;
        OutputUsed(nodes, inputs, b, i);
      }
    }
    if ValuesSized(nodes, inputs, sizeOf) {
      forall p: Port | UsesPort(b.topology, p)
        ensures bytes(p).Some?
      {
        var s := UsedBy(b.topology, p);
        UsedPortOwner(nodes, inputs, b, s, p);
        if i :| 0 <= i < |nodes| && !Aliases(nodes[i]) && b.topology[i].outputs == [p] {
          OutputUsed(nodes, inputs, b, i);
        }
      }
    }
  }

  lemma BridgeShape(nodes: seq<GraphNode>, inputs: seq<string>, b: Bridge)
    requires BridgedTo(nodes, inputs, b, |nodes|)
    ensures |b.topology| == |nodes| && b.boundary.Keys == GraphOrder.BoundaryInputs(inputs)
    ensures b.producer.Keys == Ids(nodes)
  {
    assert nodes[..|nodes|] == nodes;
  }

  // ----- the whole of it

  /** Why the graph cannot be planned. */
  ghost predicate Refuses(error: PlanGraphError, nodes: seq<GraphNode>, inputs: seq<string>, outputs: map<string, string>,
                          sizeOf: string -> Option<nat>, align: int)
  {
    match error
    case NotOrdered(order) => GraphOrder.Explains(order, nodes, GraphOrder.BoundaryInputs(inputs), outputs)
    case NotBridged(_) => !InputsNamed(nodes)
    case NotPlanned(plan) =>
      if plan.BadAlign? then plan.align == align > 0 && !IsPowerOfTwo(align) else !ValuesSized(nodes, inputs, sizeOf)
    case UnplacedInput(input) => input in GraphOrder.BoundaryInputs(inputs) && !IsRead(nodes, input)
    case UnplacedOutput(output) => output in outputs && output != "" && outputs[output] !in Ids(nodes)
  }

  /** The offset at which a port is placed. */
  ghost predicate PlacedAt(b: Bridge, ids: map<Port, int>, byID: map<int, Interval>, p: Port, offset: int) {
    p in ids && ids[p] in byID && byID[ids[p]].offset == offset
  }

  /** A sound plan of the bridged graph, with the offsets of its inputs and outputs. */
  ghost predicate PlansGraph(nodes: seq<GraphNode>, inputs: seq<string>, outputs: map<string, string>,
                             sizeOf: string -> Option<nat>, b: Bridge, ids: map<Port, int>, align: int, size: int,
                             allocations: seq<Interval>, baseOffset: map<Port, int>,
                             intervals: map<int, Interval>, byID: map<int, Interval>,
                             inputPorts: map<string, int>, outputPorts: map<string, int>)
  {
    && BridgedTo(nodes, inputs, b, |nodes|) && DistinctIds(b.topology, ids)
    && (exists owners :: Owns(nodes, b, owners) &&
          Planned(b.topology, ids, PortBytes(owners, sizeOf), align, size, allocations, baseOffset, intervals, byID))
    && inputPorts.Keys == GraphOrder.BoundaryInputs(inputs) && outputPorts.Keys == outputs.Keys - {""}
    && (forall name | name in inputPorts :: name in b.boundary && PlacedAt(b, ids, byID, b.boundary[name], inputPorts[name]))
    && (forall key | key in outputPorts :: key in outputs && outputs[key] in b.producer
          && PlacedAt(b, ids, byID, b.producer[outputs[key]], outputPorts[key]))
  }

  /** In a planned topology every port in use, and no other, has the offset of its place. */
  lemma OffsetsPlaced(b: Bridge, ids: map<Port, int>, bytes: Port -> Option<nat>, align: int, size: int,
                      allocations: seq<Interval>, baseOffset: map<Port, int>,
                      intervals: map<int, Interval>, byID: map<int, Interval>, p: Port)
    requires Planned(b.topology, ids, bytes, align, size, allocations, baseOffset, intervals, byID)
    requires forall q | UsesPort(b.topology, q) :: q in ids && ids[q] != 0
    requires forall q :: q in baseOffset <==> UsesPort(b.topology, q) && ids[q] in byID
    ensures p in baseOffset <==> UsesPort(b.topology, p)
    ensures p in baseOffset ==> PlacedAt(b, ids, byID, p, baseOffset[p])
  {
    hide Allocation, Lists, SoundLayout, Fits, ByPortID, IsPowerOfTwo;
    if UsesPort(b.topology, p) {
      var s := UsedBy(b.topology, p);
      StepTouches(b.topology, ids, s, p);
      assert Touched(IdSteps(b.topology, ids), ids[p]);
    }
  }

  /** Orders, bridges and places a graph. It succeeds exactly on the graphs that can be planned. */
  method PlanGraph(graph: Graph, sizeOf: string -> Option<nat>, align: int)
    returns (r: Result<PlannedGraph, PlanGraphError>, ghost intervals: map<int, Interval>, ghost byID: map<int, Interval>)
    requires Ids(graph.nodes) !! GraphOrder.BoundaryInputs(graph.inputs)
    modifies graph`nodes
    ensures r.Success? <==> Plannable(old(graph.nodes), graph.inputs, graph.outputs, sizeOf, align)
    ensures r.Success? ==> GraphOrder.SortOf(old(graph.nodes), GraphOrder.BoundaryInputs(graph.inputs), graph.nodes)
    ensures r.Success? ==> fresh(r.value.topology) && r.value.topology.nodes == r.value.bridge.topology
    ensures r.Success? ==> var t := r.value.topology;
      PlansGraph(graph.nodes, graph.inputs, graph.outputs, sizeOf, r.value.bridge, t.portID,
                 if align > 0 then align else 64, t.size, t.allocations, t.baseOffset, intervals, byID, r.value.inputPorts, r.value.outputPorts)
    ensures r.Success? && align > 0 ==> MultiplesOf(r.value.topology.allocations, r.value.topology.size, align)
    ensures r.Success? && align <= 0 ==> MultiplesOf(r.value.topology.allocations, r.value.topology.size, 64)
    ensures r.Failure? ==> Refuses(r.error, old(graph.nodes), graph.inputs, graph.outputs, sizeOf, align)
  {
    hide *;
    intervals, byID := map[], map[];
    ghost var before := graph.nodes;
    var inputs, outputs := graph.inputs, graph.outputs;
    var disorder := GraphOrder.NormalizeGraph(graph);
    if disorder.Some? {
      RefusedOrder(before, inputs, outputs, sizeOf, align, disorder.value);
      return Failure(NotOrdered(disorder.value)), intervals, byID;
    }
    var nodes := graph.nodes;
    ResolvableIffNamed(before, inputs, outputs, nodes);
    SortedSame(before, nodes, inputs, outputs, sizeOf);
    var bridged := BuildPlanningTopology(nodes, inputs);
    if bridged.Failure? {
      RefusedBridge(before, inputs, outputs, sizeOf, align, bridged.error);
      return Failure(NotBridged(bridged.error)), intervals, byID;
    }
    var b := bridged.value;
    BridgedPorts(nodes, inputs, b);
    BridgeShape(nodes, inputs, b);
    var owners := OwnersOf(nodes, inputs, b);
    var bytes := PortBytes(owners, sizeOf);
    var topology := new Topology(b.topology, FreshIds(b));
    var failed;
    failed, intervals, byID := topology.PlanWorkspace(bytes, align);
    if failed.None? || failed.value.UnsizedPort? {
      SizesDecide(nodes, inputs, b, owners, sizeOf, topology.portID);
    }
    if failed.Some? {
      RefusedPlan(before, inputs, outputs, sizeOf, align, failed.value);
      return Failure(NotPlanned(failed.value)), intervals, byID;
    }
    forall p
      ensures p in topology.baseOffset <==> UsesPort(b.topology, p)
      ensures p in topology.baseOffset ==> PlacedAt(b, topology.portID, byID, p, topology.baseOffset[p])
    {
      OffsetsPlaced(b, topology.portID, bytes, topology.align, topology.size, topology.allocations, topology.baseOffset,
                    intervals, byID, p);
    }
    BoundaryUsedIff(nodes, inputs, outputs, b, topology.baseOffset);
    var unplaced, inputPorts, outputPorts := AttachGraphIOPorts(inputs, outputs, b, topology.baseOffset);
    if unplaced.Some? {
      RefusedPlacement(before, inputs, outputs, sizeOf, align, b, topology.baseOffset, unplaced.value);
      return Failure(unplaced.value), intervals, byID;
    }
    PlanSucceeds(before, nodes, inputs, outputs, sizeOf, align, b, owners, topology.portID, topology.size, topology.allocations,
                 topology.baseOffset, intervals, byID, inputPorts, outputPorts);
    return Success(PlannedGraph(b, topology, inputPorts, outputPorts)), intervals, byID;
  }

  lemma RefusedOrder(nodes: seq<GraphNode>, inputs: seq<string>, outputs: map<string, string>, sizeOf: string -> Option<nat>,
                     align: int, error: GraphOrder.OrderError)
    requires !GraphOrder.Normalizable(nodes, GraphOrder.BoundaryInputs(inputs), outputs)
    requires GraphOrder.Explains(error, nodes, GraphOrder.BoundaryInputs(inputs), outputs)
    ensures !Plannable(nodes, inputs, outputs, sizeOf, align)
    ensures Refuses(NotOrdered(error), nodes, inputs, outputs, sizeOf, align)
  {
    hide GraphOrder.Normalizable, GraphOrder.Explains;
  }

  lemma RefusedBridge(nodes: seq<GraphNode>, inputs: seq<string>, outputs: map<string, string>, sizeOf: string -> Option<nat>,
                      align: int, error: BridgeError)
    requires !InputsNamed(nodes)
    ensures !Plannable(nodes, inputs, outputs, sizeOf, align)
    ensures Refuses(NotBridged(error), nodes, inputs, outputs, sizeOf, align)
  {
    hide InputsNamed;
  }

  lemma RefusedPlan(nodes: seq<GraphNode>, inputs: seq<string>, outputs: map<string, string>, sizeOf: string -> Option<nat>,
                    align: int, error: PlanError)
    requires error.BadAlign? ==> error.align == align > 0 && !IsPowerOfTwo(align)
    requires error.UnsizedPort? ==> !ValuesSized(nodes, inputs, sizeOf)
    ensures !Plannable(nodes, inputs, outputs, sizeOf, align)
    ensures Refuses(NotPlanned(error), nodes, inputs, outputs, sizeOf, align)
  {
    hide IsPowerOfTwo, ValuesSized;
  }

  lemma RefusedPlacement(nodes: seq<GraphNode>, inputs: seq<string>, outputs: map<string, string>, sizeOf: string -> Option<nat>,
                         align: int, b: Bridge, offsets: map<Port, int>, error: PlanGraphError)
    requires b.boundary.Keys == GraphOrder.BoundaryInputs(inputs) && Unplaced(error, outputs, b, offsets)
    requires forall name | name in b.boundary :: b.boundary[name] in offsets <==> IsRead(nodes, name)
    requires forall key | key in outputs :: OutputPlaced(outputs, b.producer, offsets, key) <==> outputs[key] in Ids(nodes)
    ensures !Plannable(nodes, inputs, outputs, sizeOf, align)
    ensures Refuses(error, nodes, inputs, outputs, sizeOf, align)
  {
    hide GraphOrder.Normalizable, GraphOrder.BoundaryInputs, InputsNamed, ValuesSized, IsRead, OutputPlaced, Ids, IsPowerOfTwo;
  }

  lemma PlanSucceeds(before: seq<GraphNode>, nodes: seq<GraphNode>, inputs: seq<string>, outputs: map<string, string>,
                     sizeOf: string -> Option<nat>, align: int, b: Bridge, owners: map<Port, string>, ids: map<Port, int>,
                     size: int, allocations: seq<Interval>, baseOffset: map<Port, int>,
                     intervals: map<int, Interval>, byID: map<int, Interval>,
                     inputPorts: map<string, int>, outputPorts: map<string, int>)
    requires GraphOrder.Normalizable(before, GraphOrder.BoundaryInputs(inputs), outputs) && InputsNamed(before)
    requires (align <= 0 || IsPowerOfTwo(align)) && ValuesSized(before, inputs, sizeOf)
    requires BoundaryUsed(nodes, inputs, outputs) <==> BoundaryUsed(before, inputs, outputs)
    requires BridgedTo(nodes, inputs, b, |nodes|) && DistinctIds(b.topology, ids) && Owns(nodes, b, owners)
    requires Planned(b.topology, ids, PortBytes(owners, sizeOf), if align > 0 then align else 64, size, allocations, baseOffset,
                     intervals, byID)
    requires b.boundary.Keys == GraphOrder.BoundaryInputs(inputs)
    requires forall p | p in baseOffset :: PlacedAt(b, ids, byID, p, baseOffset[p])
    requires forall name | name in b.boundary :: IsRead(nodes, name)
    requires forall key | key in outputs && key != "" :: outputs[key] in Ids(nodes)
    requires Attached(outputs, b, baseOffset, inputPorts, outputPorts)
    ensures Plannable(before, inputs, outputs, sizeOf, align)
    ensures PlansGraph(nodes, inputs, outputs, sizeOf, b, ids, if align > 0 then align else 64, size, allocations, baseOffset,
                       intervals, byID, inputPorts, outputPorts)
  {
    hide GraphOrder.Normalizable, GraphOrder.BoundaryInputs, InputsNamed, ValuesSized, IsRead, Ids, IsPowerOfTwo, BridgedTo,
      DistinctIds, Owns, Planned, PlacedAt;
  }

  /** Sorting changes nothing that planning asks of a graph. */
  lemma SortedSame(nodes: seq<GraphNode>, sorted: seq<GraphNode>, inputs: seq<string>, outputs: map<string, string>,
                   sizeOf: string -> Option<nat>)
    requires GraphOrder.SortOf(nodes, GraphOrder.BoundaryInputs(inputs), sorted)
    ensures ValuesSized(sorted, inputs, sizeOf) <==> ValuesSized(nodes, inputs, sizeOf)
    ensures BoundaryUsed(sorted, inputs, outputs) <==> BoundaryUsed(nodes, inputs, outputs)
    ensures Ids(sorted) == Ids(nodes) && forall name :: IsRead(sorted, name) <==> IsRead(nodes, name)
  {
    SameNodes(nodes, sorted);
    hide GraphOrder.SortOf, GraphOrder.BoundaryInputs, Ids;
    forall name
      ensures IsRead(sorted, name) <==> IsRead(nodes, name)
    {
    }
  }

  /** Fresh IDs make the planner's size check a check of the values' sizes. */
  lemma SizesDecide(nodes: seq<GraphNode>, inputs: seq<string>, b: Bridge, owners: map<Port, string>,
                    sizeOf: string -> Option<nat>, ids: map<Port, int>)
    requires BridgedTo(nodes, inputs, b, |nodes|) && Ids(nodes) !! b.boundary.Keys && Owns(nodes, b, owners)
    requires IdsAssigned(FreshIds(b), ids, iset p | UsesPort(b.topology, p)) && Numbered(b.topology, ids)
    ensures DistinctIds(b.topology, ids) && forall p | UsesPort(b.topology, p) :: p in ids && ids[p] != 0
    ensures AllSized(IdSteps(b.topology, ids), SizesOf(b.topology, ids, PortBytes(owners, sizeOf))) <==> ValuesSized(nodes, inputs, sizeOf)
  {
    BridgedPorts(nodes, inputs, b);
    FreshIdsDistinct(b.topology, FreshIds(b), ids);
    hide BridgedTo, IdsAssigned, Owns, AllSized, ValuesSized, PortsSized, DistinctIds;
    SizedIffPortsSized(b.topology, ids, PortBytes(owners, sizeOf));
    SizedIffValuesSized(nodes, inputs, b, owners, sizeOf);
  }

  /** Inputs and outputs have offsets exactly where nodes read and compute them. */
  lemma BoundaryUsedIff(nodes: seq<GraphNode>, inputs: seq<string>, outputs: map<string, string>, b: Bridge,
                        offsets: map<Port, int>)
    requires BridgedTo(nodes, inputs, b, |nodes|) && Ids(nodes) !! b.boundary.Keys
    requires forall p :: p in offsets <==> UsesPort(b.topology, p)
    ensures forall name | name in b.boundary :: b.boundary[name] in offsets <==> IsRead(nodes, name)
    ensures forall key | key in outputs :: OutputPlaced(outputs, b.producer, offsets, key) <==> outputs[key] in Ids(nodes)
  {
    BridgeShape(nodes, inputs, b);
    forall name | name in b.boundary
      ensures b.boundary[name] in offsets <==> IsRead(nodes, name)
    {
      InputUsedIffRead(nodes, inputs, b, name);
    }
    forall key | key in outputs && outputs[key] in Ids(nodes)
      ensures OutputPlaced(outputs, b.producer, offsets, key)
    {
      var i :| 0 <= i < |nodes| && nodes[i].id == outputs[key];
      OutputUsed(nodes, inputs, b, i);
    }
  }

  // ----- what the plan is good for

  /** The IDs of the ports of graph inputs that nodes read. */
  ghost predicate InputId(b: Bridge, ids: map<Port, int>, id: int) {
    exists name | name in b.boundary :: UsesPort(b.topology, b.boundary[name]) && b.boundary[name] in ids && ids[b.boundary[name]] == id
  }

  /** Private buffers holding what is loaded into the inputs' ports. */
  ghost function LoadedBuffers(layout: Layout, loads: seq<int>, contents: map<int, Bytes>): map<int, Bytes> {
    map id | id in layout && id in loads :: Fit(BufferOf(contents, id), layout[id].size)
  }

  /** No step produces the port of a graph input, and every port that none produces is one. */
  lemma UnproducedIffInput(nodes: seq<GraphNode>, inputs: seq<string>, b: Bridge, ids: map<Port, int>, id: int)
    requires BridgedTo(nodes, inputs, b, |nodes|) && forall i | 0 <= i < |nodes| :: !Aliases(nodes[i])
    requires Numbered(b.topology, ids) && DistinctIds(b.topology, ids)
    ensures InputId(b, ids, id) ==> Unproduced(IdSteps(b.topology, ids), id)
    ensures Touched(IdSteps(b.topology, ids), id) && Unproduced(IdSteps(b.topology, ids), id) ==> InputId(b, ids, id)
  {
    hide BridgedTo, IdSteps, Numbered, UsesPort;
    BridgeShape(nodes, inputs, b);
    var steps := IdSteps(b.topology, ids);
    if InputId(b, ids, id) {
      var name :| name in b.boundary && UsesPort(b.topology, b.boundary[name]) && b.boundary[name] in ids && ids[b.boundary[name]] == id;
      forall s | 0 <= s < |steps|
        ensures id !in steps[s].outputs
      {
        if id in steps[s].outputs {
          var p := StepPort(b.topology, ids, s, id);
          OneOutput(nodes, inputs, b, s);
          assert false;
        }
      }
    }
    if s :| 0 <= s < |steps| && Touches(steps[s], id) {
      if Unproduced(steps, id) {
        var p := StepPort(b.topology, ids, s, id);
        UsedPortOwner(nodes, inputs, b, s, p);
        if i :| 0 <= i < |nodes| && !Aliases(nodes[i]) && b.topology[i].outputs == [p] {
          StepTouches(b.topology, ids, i, p);
          assert false;
        }
      }
    }
  }

  /**
   A graph without views, planned and with its inputs loaded in any order: running its
   nodes in the one workspace, each reads what it would read from private buffers.
   */
  lemma PlannedGraphReadsPrivateBytes(nodes: seq<GraphNode>, inputs: seq<string>, outputs: map<string, string>,
                                      sizeOf: string -> Option<nat>, b: Bridge, ids: map<Port, int>, align: int, size: int,
                                      allocations: seq<Interval>, baseOffset: map<Port, int>,
                                      intervals: map<int, Interval>, byID: map<int, Interval>,
                                      inputPorts: map<string, int>, outputPorts: map<string, int>,
                                      kernel: Kernel, memory: Bytes, loads: seq<int>, contents: map<int, Bytes>, n: nat)
    requires PlansGraph(nodes, inputs, outputs, sizeOf, b, ids, align, size, allocations, baseOffset, intervals, byID,
                        inputPorts, outputPorts)
    requires forall i | 0 <= i < |nodes| && nodes[i].op in {"shape.view_as_heads", "shape.merge_heads"} :: nodes[i].inputs == []
    requires n < |nodes| && |memory| == size && forall id :: id in loads <==> InputId(b, ids, id)
    ensures |b.topology| == |nodes| && Numbered(b.topology, ids)
    ensures var steps, layout := IdSteps(b.topology, ids), LayoutOf(intervals, byID);
      SharedReads(layout, SharedRun(kernel, layout, steps, LoadPorts(layout, memory, loads, contents), n), steps[n].inputs) ==
      PrivateReads(PrivateRun(kernel, layout, steps, LoadedBuffers(layout, loads, contents), n), steps[n].inputs)
  {
    assert forall i | 0 <= i < |nodes| :: !Aliases(nodes[i]);
    var owners :| Owns(nodes, b, owners) &&
      Planned(b.topology, ids, PortBytes(owners, sizeOf), align, size, allocations, baseOffset, intervals, byID);
    var steps, layout := IdSteps(b.topology, ids), LayoutOf(intervals, byID);
    BridgeHasSingleProducers(nodes, inputs, b);
    BridgeShape(nodes, inputs, b);
    IdStepsSingleProducer(b.topology, ids);
    InputsLoaded(nodes, inputs, b, ids, PortBytes(owners, sizeOf), intervals, layout, memory, loads, contents);
    hide PlansGraph, BridgedTo, Loaded, SharedReads, PrivateReads, SharedRun, PrivateRun, LoadPorts;
    PlannedRunReadsPrivateBytes(b.topology, ids, PortBytes(owners, sizeOf), align, size, allocations, baseOffset, intervals, byID,
                                kernel, LoadPorts(layout, memory, loads, contents), LoadedBuffers(layout, loads, contents), n);
  }

  lemma InputsLoaded(nodes: seq<GraphNode>, inputs: seq<string>, b: Bridge, ids: map<Port, int>, bytes: Port -> Option<nat>,
                     intervals: map<int, Interval>, layout: Layout, memory: Bytes, loads: seq<int>, contents: map<int, Bytes>)
    requires BridgedTo(nodes, inputs, b, |nodes|) && forall i | 0 <= i < |nodes| :: !Aliases(nodes[i])
    requires Numbered(b.topology, ids) && DistinctIds(b.topology, ids) && SingleProducer(IdSteps(b.topology, ids))
    requires LiveMap(IdSteps(b.topology, ids), SizesOf(b.topology, ids, bytes), intervals)
    requires Fits(layout, |memory|) && SoundLayout(layout, intervals)
    requires forall id :: id in loads <==> InputId(b, ids, id)
    ensures Loaded(IdSteps(b.topology, ids), layout, LoadPorts(layout, memory, loads, contents),
                   LoadedBuffers(layout, loads, contents))
  {
    var steps, sizes := IdSteps(b.topology, ids), SizesOf(b.topology, ids, bytes);
    forall id | id in loads
      ensures Unproduced(steps, id)
    {
      UnproducedIffInput(nodes, inputs, b, ids, id);
    }
    hide BridgedTo, IdSteps, SizesOf, InputId, Unproduced, ReadAt, LoadPorts;
    forall id | id in layout && Unproduced(steps, id)
      ensures id in loads && ReadAt(LoadPorts(layout, memory, loads, contents), layout[id]) == Fit(BufferOf(contents, id), layout[id].size)
    {
      UnproducedIffInput(nodes, inputs, b, ids, id);
      LoadingKeepsInputs(steps, layout, intervals, sizes, memory, loads, contents, id);
    }
  }
}
