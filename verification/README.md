# A verified model of the manifesto tensor-graph compiler

This project models the parts of the compiler that have to preserve a graph's meaning, lay
tensors out in memory safely, or schedule work safely, and proves that they do. It is written in
Dafny 4.11; `dafny verify dfyconfig.toml` checks all of it.

A compute graph is a list of named nodes with ordered inputs and one value each. `GraphSemantics`
gives it a meaning: elementwise operations apply their primitive at every index, a fused node runs
the reference evaluator over its input ports, and every other operation is an uninterpreted function
of its node ID, operation name, attributes and operands. All graph passes are proved against this one meaning.

The components, from the recipe to the kernel:

- **Lowering** (`Lowering`): a recipe whose value names may be rebound becomes a graph keyed by
  producer IDs. The recipe's own meaning is a store that nodes read and overwrite.
- **Ordering** (`Digraph`, `Wiring`, `GraphOrder`, `Layers`): validation, Kahn sorting and execution
  layers, with "a stuck sort means a cycle" proved by following dependencies until a node repeats.
- **Optimizer** (`Elementwise` and `Operations` for the operations by name, `ConstantFold`, `Rewrite`,
  `Fuse` with `References`, `Clusters`, `ClusterGrowth`, `FusionTrace`, `FusionTheorems`, `FusionMeaning`,
  `FusionByUse`, and `Optimizer`): the passes and their pipeline.
- **Compilation** (`Compile`): lowering, optimizer, ordering and scheduling graph in one run.
- **Planning** (`PlanningBridge`, `FirstFit`, `OffsetAllocator`, `AllocationTheorems`, `Liveness`,
  `Planner`, `PlanGraph`, `WorkspaceExecution`, `WorkspaceOutputs`, `PlannedOutputs`): shared ports,
  lifetimes, first-fit offsets, and execution in one shared workspace.
- **Streams** (`Streams`, `StreamExecution`): stream assignment, wait and signal events, and all
  interleavings of the streams.
- **Types** (`ShapeUnify`, `ShapeSolutions`, `Constraints`, `Unify`): unification of port types.
- **Kernels** (`KernelIR`, `KernelEmit`, `KernelLoops`, `KernelBuilder`, `FusedExecution`): the
  instructions of a fused kernel, an interpreter for them, and the code generator.
- **Runtime support** (`TapeAlgebra`, `Tape`, `SizeClasses`, `Blocks`, `Allocator`, `PagedPlan`): the
  reverse-mode tape, the tiered allocator and the paged write plan.

Code that updates fields or maps in loops is modelled by classes and methods with the same loops;
pure code by functions. Iteration over a Go map is an arbitrary choice of order, platform behaviour
(a shard index, a failing system allocation) is a parameter. A graph's nodes are values in a
sequence: IDs are unique, so no two entries alias. Ports and tensors are identities (numbers) with
tables for their mutable fields.

Assumed of graphs: node IDs are unique and differ from the graph inputs, and passes other than
sorting get nodes in execution order, both of which lowering establishes; and an elementwise node has
as many inputs as its primitive takes, which lowering does not check and the model assumes.

Where a promise turned out false of the code:

- A successful `Unify` does not mean the shapes can be made equal: two symbols fixed to different
  sizes may meet through a third that is not, and `Unify.AcceptanceWithoutUnifier` is such a pair.
  What is accepted is `Unify.Accepts`, a condition on the two ports. Shapes can be made equal exactly
  when their ranks agree and no chain of axes joins two different static sizes
  (`ShapeSolutions.UnifierExistsIff`); where static sizes fix every symbol, acceptance and solvability
  are the same (`Unify.AcceptsIffSolvable`).
- Merging constraints drops one whose text equals another's; `Constraints.MergeCanLose` is a pair.
  None is lost exactly when different constraints have different texts
  (`Constraints.MergeLosesNothingIff`), as when no symbol name holds a space.
- A workspace does not keep graph outputs to the end of a run: of two constants the second takes the
  bytes of the first (`PlannedOutputs.PlanLosesOutput`). An output survives in a planned layout
  exactly when no later step writes over its bytes (`PlannedOutputs.PlannedOutputSurvivesIff`), and in
  every layout when no step writes a nonempty port after the last step that touches it
  (`PlannedOutputs.OutputSurvivesIfWrittenLast`).
- Released memory does not always return to the tier it came from: blocks for 600 KiB and 600 MiB do
  not (`Allocator.BlocksChangeTier`). The exact request sizes for which it does are
  `Allocator.SlabBlockReturnsIff` and `Allocator.MediumBlockReturnsIff`.
- `math.sign` is mapped to negation, which the table itself marks as a placeholder. It has the sign of
  its operand exactly where every element is zero (`GraphSemantics.SignIsNegation`).
- `ir/stream_scheduler.go:39` says that a node with several predecessor streams opens a stream. It
  never does: it joins the lowest of them, whatever the cap (`StreamExecution.MergeJoinsLowest`). And
  where lines 51-55 announce an error, `Streams.Topology.ScheduleStreams` has none to return.

## Model

| member | source | states |
|---|---|---|
| GraphSemantics.RunSolves | codegen/reference.go:14-112 | running ordered nodes yields a value for every node that satisfies its defining equation, and leaves the inputs alone |
| GraphSemantics.SolutionUnique | optimizer/fuse.go:54-159 | those equations have one solution: any valuation that satisfies them is what running computes |
| GraphSemantics.RewriteKeepsValues | optimizer/rewrite.go:49-107 | a rewritten graph that leaves nothing dangling and whose nodes hold their equations in the old run computes the old values |
| FusionMeaning.FusedKernelIsTree | codegen/reference.go:22-112 | evaluating a fused tree element by element equals applying its operations tensor by tensor, shapes included |
| Elementwise.LookupIgnoresBlanksAndCase | optimizer/elementwise.go:45-58 | blanks around an operation name and the case of its letters make no difference to the lookup |
| Elementwise.NamedPrimitives | optimizer/elementwise.go:15-43 | the primitive of each operation name |
| Elementwise.ElementwiseIffNamed | optimizer/elementwise.go:45-58 | the operations with a primitive are those whose name, up to case and surrounding blanks, is one of eighteen |
| Operations.OneOperandValue | codegen/reference.go:62-109 | by its name, an operation of one operand applies negation, absolute value, a library function or an activation at every index |
| Operations.TwoOperandValue | codegen/reference.go:32-61 | by its name, an operation of two operands adds, subtracts, multiplies, divides or compares at every index; of operands of different lengths it has no value |
| Operations.OtherwiseKernel | optimizer/elementwise.go:28-29 | sines, cosines and every operation that is not listed are the kernel's, on the node's own ID, name, attributes and operands |
| Operations.FusedValue | codegen/reference.go:14-31 | a fused node evaluates its tree at every index of its operands |
| Operations.FoldsOneOperand | optimizer/constant_fold.go:165-202 | an operation whose operand ends up a constant becomes the constant its name computes from it |
| Operations.FoldsTwoOperands | optimizer/constant_fold.go:204-225 | the same for two constants, except that a division by zero stays as it was |
| Operations.OnlyConstantsFold | optimizer/constant_fold.go:70-105 | a node the pass changes is a listed operation all of whose operands end up constants |
| GraphSemantics.SignIsNegation | optimizer/elementwise.go:27 | the table's value for `math.sign` is the sign of the operand exactly where every element is zero |
| References.CountConsumers | optimizer/fuse.go:67-77 | the counts are, for every name, the number of input slots and graph outputs that mention it |
| Fuse.ClusterBuilder.ExternalInput | optimizer/fuse.go:255-265 | a name gets one port, the same each time, numbered in order of first use |
| Fuse.ClusterBuilder.Build | optimizer/fuse.go:199-223 | an elementwise node becomes a tree over the listed ports that swallows exactly the tree's own members, each read by another new member; any other node becomes a port |
| Fuse.ClusterBuilder.BuildOperand | optimizer/fuse.go:225-253 | an operand is swallowed exactly when elementwise, referenced once and in no cluster yet; otherwise it becomes a port and the cluster stays as it is |
| Fuse.Fuse | optimizer/fuse.go:54-159 | the graph after the pass: clusters at their roots, other members dropped, all else untouched, nothing left to absorb, and the counters |
| FusionTheorems.FusionPreservesMeaning | optimizer/fuse.go:54-159 | every surviving node and every graph output keeps its value under every input |
| FusionTheorems.FusionKeepsStructure | optimizer/fuse.go:85-159 | execution order is kept and no node input or output names a swallowed node |
| FusionTheorems.FusionMentions | optimizer/fuse.go:255-265 | the fused graph refers to nothing the graph did not refer to |
| FusionTheorems.FusionPartitionsNodes | optimizer/fuse.go:85-156 | each original node survives untouched or sits in exactly one new cluster |
| FusionTheorems.FusionConservesNodes | optimizer/fuse.go:127-159 | the node count drops by exactly the nodes reported removed |
| FusionTheorems.FusionIsMaximal | optimizer/fuse.go:225-253 | nothing a cluster or a remaining elementwise node reads from outside is an elementwise value with one reference |
| FusionByUse.SwallowedIffUsedOnce | optimizer/fuse.go:225-253 | a node disappears exactly when it and its only reader are listed operations and one operand slot is all that names it |
| FusionByUse.SurvivorOrFused | optimizer/fuse.go:127-156 | every node of the fused graph is an original one, or a fused one under the ID of a listed operation, with its tree as the only attribute |
| FusionByUse.ClustersAreMade | optimizer/fuse.go:127-159 | as many clusters are reported as the pass made nodes |
| FusionTheorems.FusionIsIdempotent | optimizer/fuse.go:54-159 | fusing a fused graph changes nothing and counts nothing |
| ConstantFold.FoldAgreesWithReference | optimizer/constant_fold.go:146-225 | a folded operation has the value the reference evaluator gives the same operation |
| ConstantFold.ConstantFold | optimizer/constant_fold.go:40-114 | exactly the nodes whose operands are all known scalars become constants of their value; the count is that of the nodes changed |
| ConstantFold.FoldPreservesMeaning | optimizer/constant_fold.go:40-114 | every node and output keeps its value |
| ConstantFold.FoldKeepsStructure | optimizer/constant_fold.go:70-105 | folding keeps IDs and order, leaves each node all of its inputs or none, and refers to nothing new |
| Rewrite.Compress | optimizer/rewrite.go:69-79 | whatever order the keys come in, compressing the redirects in place leaves each at the end of its chain, and terminates |
| Rewrite.WalkEndsIffRanked | optimizer/rewrite.go:69-79 | the walk ends from every key exactly when the redirects have no cycle |
| Rewrite.CycleNeverResolves | optimizer/rewrite.go:69-79 | from a key on a cycle the walk never ends |
| Rewrite.RewriteIdentities | optimizer/rewrite.go:49-107 | identities go, everything else reads what they copied, in node inputs and graph outputs |
| Rewrite.RewriteKeepsStructure | optimizer/rewrite.go:49-107 | order is kept and no reference to a removed identity remains |
| Rewrite.IdentitiesGo | optimizer/rewrite.go:49-67 | a node goes exactly when it is a `shape.identity` or `control.identity` of one operand; the others keep operation, attributes and operand count |
| Rewrite.RewritePreservesMeaning | optimizer/rewrite.go:49-107 | every surviving node and every output keeps its value |
| Optimizer.Run | optimizer/run.go:56-110 | with any passes enabled, the graph still refines the one it started from, for every kernel and input; each pass did its own work |
| Digraph.StuckHasCycle | compiler/graph_order.go:189-192 | a set of nodes each waiting for another of the set contains a cycle |
| Digraph.RankedIsAcyclic | compiler/graph_order.go:130-195 | dependencies that fall along a rank have no cycle |
| GraphOrder.TopologicalSort | compiler/graph_order.go:130-195 | succeeds exactly when the dependencies that are not graph inputs are acyclic; the result is a permutation with every edge pointing back |
| GraphOrder.ValidateGraphEdges | compiler/graph_order.go:82-128 | passes exactly when every input and every output is known; the error names a culprit |
| GraphOrder.IndexGraphNodes | compiler/graph_order.go:46-66 | passes exactly when IDs are nonempty and distinct, and then indexes every node |
| GraphOrder.NormalizeGraph | compiler/graph_order.go:18-44 | an order is installed exactly when the graph is valid and acyclic; otherwise the graph is untouched and the error is true of it |
| GraphOrder.OrdersAgree | compiler/graph_order.go:130-195 | any two execution orders compute the same value under every name |
| GraphOrder.NormalizingKeepsValues | compiler/graph_order.go:8-17 | sorting a graph that was in order keeps every value |
| Layers.Index | ir/dag/graph.go:53-87 | passes exactly on distinct nonempty IDs whose inputs are nodes; lists each node's users with multiplicity |
| Layers.ComputeGraph.Verify | ir/dag/graph.go:92-100 | reports an error exactly when the graph is not well formed |
| Layers.ComputeGraph.TopologyLayers | ir/dag/graph.go:106-150 | layers exist exactly when the graph is well formed and acyclic; they partition the nodes, and a node's layer is the length of its longest dependency chain |
| Layers.LayerMembersIndependent | ir/dag/graph.go:102-106 | nodes of one layer do not depend on one another, directly or through others |
| Lowering.LoweringIsSingleAssignment | compiler/topology_lower.go:92-191 | lowered IDs are assigned once, differ from the inputs, and are read only later |
| Lowering.LoweringSimulates | compiler/topology_lower.go:92-191 | at every node the store holds under each name what the name's producer computed |
| Lowering.LoweringPreservesMeaning | compiler/topology_lower.go:36-90 | every graph output is the value the recipe leaves in its store under the output's reference, or under its own name when the reference is empty |
| Lowering.LowerOneNode | compiler/topology_lower.go:92-191 | appends the node with resolved inputs to both graphs and rebinds its ID and out names; fails exactly on a missing or taken ID or an unknown input |
| Lowering.ResolveTopologyOutputs | compiler/topology_lower.go:335-363 | an output with a reference gets the producer of that name and one with an empty reference that of its own name; fails exactly when the name is bound to nothing |
| Lowering.LowerTopology | compiler/topology_lower.go:36-90 | succeeds exactly on lowerable recipes, outputs resolved by reference or by name, with both graphs sharing IDs and wiring; the final check of the scheduling graph never fails |
| Lowering.DagIsSchedulable | compiler/topology_lower.go:36-90 | the scheduling graph passes validation and has no cycle |
| Compile.BuildDagFromGraph | compiler/graph_dag.go:19-96 | builds a verified, acyclic scheduling graph exactly from normalizable graphs with distinct inputs that no node is named after |
| Compile.CompleteIsBuildable | compiler/graph_dag.go:19-56 | an ordered graph that refers to nothing missing can always be ordered and scheduled |
| Compile.PipelineCompiles | compiler/graph_pipeline.go:45-102 | lowering, the passes and sorting compose: the final graph computes the recipe |
| Compile.CompileTopology | compiler/compiler.go:74-88 | fails only where lowering fails; otherwise, with any passes enabled, every output is what the recipe leaves in its store, for every kernel and input |
| PlanningBridge.BuildPlanningTopology | compiler/plan.go:29-90 | fails exactly when an input is used before it is defined; consumers share their producers' ports; `shape.view_as_heads` and `shape.merge_heads` take their first input's port, every other node, and those without an input, gets one no graph input and no earlier node has |
| PlanningBridge.BridgeHasSingleProducers | compiler/plan.go:29-90 | in a graph without views of an input each port has one producer, before all its readers |
| PlanningBridge.SingleProducersAreSchedulable | compiler/plan.go:242-291 | such a topology is one the stream scheduler accepts |
| FirstFit.BitClearIsRounding | ir/planner.go:417-427 | for a power of two, clearing the bits below the alignment drops the remainder |
| FirstFit.PowerOfTwoHalves | ir/planner.go:413-415 | the bit test passes exactly for one and the doubles of powers of two |
| FirstFit.AlignUpIsLeast | ir/planner.go:417-427 | masking gives the least aligned offset that is not below the value |
| FirstFit.ChooseLowestNonConflictingOffset | ir/planner.go:376-411 | the restart loop ends and returns the smallest aligned offset that conflicts with no live block |
| OffsetAllocator.AllocateOffsets | ir/planner.go:296-350 | intervals in start order, each at the first fit among those then alive; offsets, sizes and total are multiples of the requested alignment if positive and of 64 if not; fails exactly on a positive request that is no power of two |
| AllocationTheorems.AllocationIsSafe | ir/planner.go:296-350 | aligned ranges inside the workspace, disjoint whenever two tensors are alive together |
| AllocationTheorems.WorkspaceSizeBounds | ir/planner.go:296-350 | what is alive at any step fits in the total, and the total is at most the sum of all sizes |
| Liveness.AnalyzeLiveness | ir/planner.go:186-280 | each port's interval runs from its producer, or the start, to its last reader, or the end of its step; fails exactly on an unsized port |
| Liveness.LifetimeCovers | ir/planner.go:186-280 | a port is alive at every step that touches it |
| Planner.Topology.AssignPortIDs | ir/planner.go:107-170 | ports with an ID keep it; the others get new positive IDs, all different and without gaps from above the largest ID present, or from 1 |
| Planner.UniqueIffUniqueBefore | ir/planner.go:107-170 | the IDs tell ports apart exactly when the IDs present beforehand did |
| Planner.Topology.AttachAllocations | ir/planner.go:482-513 | exactly the ports in use get the offset of their interval |
| Planner.Topology.PlanWorkspace | ir/planner.go:43-96 | fails exactly on a positive alignment that is no power of two or on an unsized port, as its error says; otherwise the layout is sound for the steps, in multiples of the alignment or of 64 |
| Planner.PlannedRunReadsPrivateBytes | ir/planner.go:43-96 | run in order in the planned workspace, every step reads the bytes its producers, or the initial load, wrote |
| WorkspaceExecution.SharedExecutionReadsPrivateBytes | ir/planner.go:296-350 | execution in one shared memory refines execution with a private buffer per tensor |
| WorkspaceExecution.LoadingKeepsInputs | ir/planner.go:205-280 | loading the graph inputs in any order leaves each of them intact |
| WorkspaceOutputs.OutputSurvivesIffUnclobbered | ir/planner.go:186-280 | an output can be read after the run, for all kernels, exactly when no later step writes over its bytes |
| PlannedOutputs.PlannedOutputSurvivesIff | ir/planner.go:43-96 | the same for the layout the planner returns |
| PlannedOutputs.OutputSurvivesIfWrittenLast | ir/planner.go:186-280 | an output survives in every layout if no step writes a nonempty port after the last step that touches it |
| PlannedOutputs.PlanLosesOutput | ir/planner.go:43-96 | the planner accepts two constants, and some run in its workspace loses the first one's value |
| PlanGraph.PlanGraph | compiler/plan.go:242-282 | plans exactly the orderable graphs without blank inputs whose values are sized, whose inputs are read and whose outputs are nodes'; each error is true of the graph; inputs and outputs get the offsets of their places, all of them multiples of the alignment or of 64 |
| PlanGraph.CompiledGraphsBridge | compiler/plan.go:242-255 | nothing in the names of a compiled graph keeps it from being planned |
| PlanGraph.PlannedGraphReadsPrivateBytes | compiler/plan.go:242-282 | a graph without views of an input, planned and with its inputs loaded in any order: each node reads from the one workspace what it would read from private buffers |
| Streams.BuildProducerIndex | ir/stream_scheduler.go:150-170 | each produced port maps to the first node that writes it |
| Streams.CollectPredecessorStreams | ir/stream_scheduler.go:179-212 | for each stream a node depends on, its latest producer there |
| Streams.PickStream | ir/stream_scheduler.go:229-287 | a source opens a stream or falls back to the first; a chain continues its tail's stream; a merge takes the lowest |
| Streams.Topology.ScheduleStreams | ir/stream_scheduler.go:56-141 | every node gets its ID, a stream below the cap and its events; one link per predecessor stream that its reader does not share |
| StreamExecution.NoNodeStartsEarly | ir/stream_scheduler.go:75-138 | in no interleaving does a node start before the producers of its inputs are done, though only the latest per stream is awaited |
| StreamExecution.NoDeadlock | ir/stream_scheduler.go:75-138 | every unfinished reachable state has an enabled step |
| StreamExecution.TracesAreBounded | ir/stream_scheduler.go:75-138 | no execution is longer than a start and a finish per node |
| StreamExecution.EventsPairUp | ir/stream_scheduler.go:103-131 | every event has one wait and one signal, on different streams, and names the signaller's |
| StreamExecution.InterleavingsAgree | ir/stream_scheduler.go:56-141 | every interleaving computes what serial execution computes |
| StreamExecution.SingleStreamIsSerial | ir/stream_scheduler.go:56-74 | with a cap of one, everything is on stream 0 with no events |
| StreamExecution.UncappedFollowsDependencies | ir/stream_scheduler.go:229-287 | without a cap a node shares a stream only with one of its producers, or opens its own |
| StreamExecution.MergeJoinsLowest | ir/stream_scheduler.go:229-287 | a node with producers on two streams joins the lowest stream of its producers, whatever the cap |
| ShapeUnify.BindSymbol | ir/unify.go:279-293 | binds unless bound to something else; the assignments extending the result are those extending the input and giving the symbol this size |
| ShapeUnify.UnifyDimension | ir/unify.go:222-271 | the four cases of one axis lose and add no assignment, bind exactly the symbol that meets a static size, give a static size wherever either side has one, and fail with the sizes that disagree |
| ShapeUnify.UnifyShape | ir/unify.go:184-214 | succeeds exactly when ranks agree, static sizes that meet are equal and no symbol meets two sizes; the assignments that unify are then exactly those extending the bindings and satisfying the equalities, and the unified shape evaluates to that shape and is static wherever either side is; on failure there are none, and the axis named is the first at odds |
| ShapeSolutions.UnifierExistsIff | ir/unify.go:184-293 | two shapes have a common assignment extending the bindings exactly when ranks agree and no chain of axes and bindings joins two different static sizes |
| Constraints.TextInjective | ir/port_type.go:226-269 | without spaces in symbol names, constraint texts are distinct |
| Constraints.Texts | ir/port_type.go:226-269 | the text of each kind of constraint |
| Constraints.DecimalReadsBack | ir/port_type.go:233-269 | decimal rendering of a number, negative ones with a minus, reads back as the number |
| Constraints.MergeConstraints | ir/unify.go:319-345 | the first constraint of each text, in order |
| Constraints.MergeLosesNothingIff | ir/unify.go:319-345 | merging adds no constraint, and loses none exactly when different constraints have different texts |
| Constraints.MergeLosesNothing | ir/unify.go:319-345 | without spaces in symbol names it loses none |
| Constraints.MergeCanLose | ir/unify.go:319-345 | a concrete pair of which it loses one |
| Constraints.ValidateConstraints | ir/unify.go:361-413 | succeeds exactly when every constraint passes; otherwise names the first that does not, zero divisors apart |
| Constraints.TruncatedRemainderZero | ir/unify.go:366-385 | the truncating remainder is zero exactly for multiples of the divisor, whatever the signs |
| Constraints.PassesWhenHolds | ir/unify.go:361-451 | a constraint true of some assignment extending the bindings passes |
| Constraints.HoldsWhenPasses | ir/unify.go:361-451 | a passing constraint that the bindings determine is true of every assignment extending them |
| Unify.Unify | ir/unify.go:62-103 | accepts exactly the ports that are compatible, whose static sizes agree and meet every merged constraint; each rejection names the first reason, down to the first constraint that is not met; never rejects ports with a solution; the accepted type is static wherever either side is and has the producer's data type, layout and kind, or the consumer's where the producer states none |
| Unify.AcceptedIsSolved | ir/unify.go:62-103 | where static sizes fix every symbol and texts tell constraints apart, accepted ports are solved by every assignment that follows those sizes |
| Unify.AcceptsIffSolvable | ir/unify.go:62-103 | for such ports, being accepted and having a solution are the same |
| Unify.AcceptedShapesSolvableIff | ir/unify.go:62-103 | accepted shapes can be made equal exactly when no chain of axes joins two different static sizes |
| Unify.AcceptanceWithoutUnifier | ir/unify.go:361-413 | acceptance alone does not promise a solution: a concrete accepted pair without one |
| KernelEmit.OperationComputes | codegen/llvm/ir_builder_scalar.go:53-130 | the instructions of each operation compute its primitive in every lane |
| KernelBuilder.IRBuilder.EmitNode | codegen/llvm/ir_builder_scalar.go:36-134 | on every call and at every index, the emitted code delivers the reference value and disturbs no earlier register |
| KernelBuilder.IRBuilder.EmitVectorNode | codegen/llvm/ir_builder_vector.go:42-115 | the same for a vector of consecutive indices |
| KernelBuilder.IRBuilder.BuildScalarLoop | codegen/llvm/ir_builder_scalar.go:12-34 | builds a counted loop over single elements |
| KernelBuilder.IRBuilder.BuildVectorThenScalar | codegen/llvm/ir_builder_vector.go:12-40 | builds whole vectors up to the largest multiple of the width, then the scalar loop |
| KernelLoops.LoopRuns | codegen/llvm/ir_builder_vector.go:25-37 | a loop entered at an index writes the rest of its range, each index once and in order, and leaves |
| KernelLoops.VectorKernelWrites | codegen/llvm/ir_builder_vector.go:12-40 | for every count and width the vector kernel writes exactly the reference value at each index below the count, once, and nothing for counts that are not positive; 32-bit arithmetic never wraps |
| KernelLoops.ScalarKernelWrites | codegen/llvm/ir_builder_scalar.go:12-34 | so does the scalar kernel |
| KernelBuilder.BuildModule | codegen/llvm/ir_builder.go:27-121 | a kernel is built exactly for expressions of known inputs, constants and operations with as many operands as they take, and it is correct on every call; it has a vector loop exactly when every operation has a vector form and the width exceeds one |
| FusedExecution.KernelComputesFusedValue | codegen/llvm/ir_builder.go:96-121 | running the generated kernel of a fused node gives the node its value in the graph semantics |
| KernelIR.OneOutcome | codegen/llvm/ir_builder_scalar.go:12-34 | a kernel call ends in one way at most |
| TapeAlgebra.WalkIsAdjoint | tensor/autograd.go:92-131 | the reverse walk conserves the pairing of gradients with forward derivatives, whatever gradients it starts from and however often a tensor is used |
| TapeAlgebra.BackwardIsAdjoint | tensor/autograd.go:92-131 | seeding one output, its seed pairs with its derivative as the leaf gradients pair with the leaf derivatives |
| TapeAlgebra.WalkSucceedsIff | tensor/autograd.go:92-131 | the walk succeeds exactly when every operation's output is seeded or read by a later operation |
| Tape.GradientStore.AccumulateGrad | tensor/autograd.go:141-183 | keeps the first contribution, adds later ones elementwise in place, and reports a length mismatch |
| Tape.Tape.Backward | tensor/autograd.go:92-131 | the buffers end up holding what the reverse walk defines, and the errors are its errors |
| Tape.Tape.BackwardFrom | tensor/autograd.go:92-183 | seeded with one output, the walk succeeds exactly when every output is seeded or read later, and the gradients in the leaves' buffers pair with any leaf tangents as the seed does with the output's tangent |
| SizeClasses.SlabClassIsLeast | tensor/slab.go:60-76 | the slab class is the least power of two that holds the size |
| SizeClasses.MediumClass | tensor/mmap_medium.go:82-104 | the medium class is the least that holds the size; none outside 1 MiB to 1 GiB |
| Blocks.NextKeeps | tensor/slab.go:84-135 | a block changing hands keeps every block with one holder and on a list of its capacity |
| Blocks.RunsAreSafe | tensor/slab.go:183-235 | in no run do two live buffers share a block, or a live buffer and a free list |
| Allocator.LargePool.Take | tensor/mmap_large.go:40-62 | unlinks the first block that is large enough, and only that one |
| Allocator.Allocator.SlabAlloc | tensor/slab.go:84-109 | a block of exactly the class's size, from the shard's list if it has one, with any shard |
| Allocator.Allocator.MmapMedium | tensor/mmap_medium.go:36-58 | a block of the least class from 1 MiB to 1 GiB that holds the request, from that class's list if it has one; otherwise a new one, or a failure if the system fails |
| Allocator.Allocator.MmapLarge | tensor/mmap_large.go:33-73 | the first large block that holds the request, or a new one of the request rounded up to 2 MiB; fails only on the system or on overflow |
| Allocator.Allocator.Allocate | tensor/slab.go:183-209 | a buffer of the requested length within a block nobody else holds, of the capacity its tier gives the request; the tier's list serves before the system |
| Allocator.ReleasedIsReused | tensor/slab.go:183-235 | a released block that stays in its tier is what the next request of its class gets |
| Allocator.Allocator.Release | tensor/slab.go:217-235 | the block goes to the head of the list its capacity selects |
| Allocator.RoutedFits | tensor/slab.go:217-235 | that list is one for blocks of this capacity, even when the block changes tier |
| Allocator.SlabBlockReturnsIff | tensor/slab.go:217-235 | a slab block returns to the slab exactly for requests of at most half a mebibyte |
| Allocator.MediumBlockReturnsIff | tensor/slab.go:217-235 | a medium block returns to the medium lists exactly for requests of at most half a gibibyte |
| Allocator.BlocksChangeTier | tensor/slab.go:217-235 | blocks for requests of 600 KiB and of 600 MiB return to another tier |
| PagedPlan.BuildPagedPlan | runtime/paged_plan.go:41-86 | the slots of the batch's positions in order, and a table of exactly the pages in use; fails exactly on a bad page size or an empty batch |
| PagedPlan.PagedCache.RunBatch | runtime/paged_executor.go:122-189 | over any run of batches every position below the cursor has been written, once and in order |
| PagedPlan.SlotsDistinct | runtime/paged_plan.go:61-71 | no slot is written twice |
| PagedPlan.SlotsComplete | runtime/paged_plan.go:61-71 | no slot below the cursor is skipped |

## Left out

- Rounding: floats are reals, so re-association and precision are not modelled; `exp`, `log`, `tanh`, `sqrt` and division by zero are parameters.
- KernelBuilder.BuildModule: expressions with GELU are excluded, because its kernel works in double precision and in another association than the reference; the output buffer is not one of the input buffers; function-name cleaning is not modelled.
- KernelBuilder.IRBuilder.EmitNode: the vector and the scalar emitter share one table of instructions per operation; registers are numbered where the source shares instruction objects.
- Elementwise.LookupIgnoresBlanksAndCase: the letters of ASCII and the blanks of ASCII and Latin-1 only.
- Fuse.Fuse: nil nodes, port types of fused inputs, the order of contained IDs (a Go map walk) and nodes with scalar attributes.
- ConstantFold.ConstantFold: constants are scalar numbers, integers and floats alike; `isConstant` metadata and output types are not modelled.
- Rewrite.RewriteIdentities: the `fold_scale` flags, which mark nodes for a later stage; a cycle of identities is excluded, and shown never to resolve.
- Lowering.LowerTopology: repeat templates, weight specifications, symbol bindings and the coarse scheduling operation type.
- Compile.CompileTopology: weight binding, the typer, kernel attachment and the operation registry, which stand between the stages modelled.
- Layers.ComputeGraph.TopologyLayers: node shapes, locks and nil nodes.
- Planner.Topology.PlanWorkspace: 64-bit overflow; the byte size of a port is a parameter.
- Planner.PlannedRunReadsPrivateBytes: in-order execution only. Memory reuse with several streams is not covered, because lifetimes follow serial steps.
- PlanningBridge.BridgeHasSingleProducers: views are excluded, because they register an input port as an output; data types and bind methods are not modelled.
- PlanGraph.PlanGraph: ends before stream scheduling, which `PlanningBridge.SingleProducersAreSchedulable` connects; port types and the registry are not modelled, byte sizes are a parameter.
- Streams.Topology.ScheduleStreams: topologies whose nodes already carry IDs or barriers, and the width of IDs.
- Unify.Unify: message texts, adaptor hints, 64-bit overflow and `Validate` of dimensions with both a symbol and a size.
- Tape.Tape.Backward: backward functions return buffers of their own, as the tape's in-place addition needs; device tensors and the context are not modelled.
- Allocator.Allocator.Allocate: addresses, alignment, page advice, locks (each list operation is one step) and counters; slab and medium lists are sequences, head first.
- PagedPlan.BuildPagedPlan: negative cursors, parsing of the position value and the upload of the vectors.
- Host operations, sessions, tokenizer, sampling, asset and registry lookups, the JIT and Metal back ends: input, output and foreign calls.
- The typer's cumulative bindings, adaptor synthesis, the older fusion analysis in `ir/fusion.go`, tiling sizes and narrow float formats: they would add easy members or make no promise to keep.
