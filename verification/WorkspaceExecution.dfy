/** Running in one shared workspace reads the same bytes as running with a buffer per tensor. */
module WorkspaceExecution {
  import opened Wrappers
  import opened FirstFit
  import opened OffsetAllocator
  import opened AllocationTheorems
  import opened Liveness

  type Bytes = seq<int>

  /** What a step computes from the bytes it reads: one byte string per output. */
  type Kernel = (int, seq<Bytes>) -> seq<Bytes>

  /** A result cut or padded to the size its port has. */
  ghost function Fit(bytes: Bytes, size: nat): (r: Bytes)
    ensures |r| == size
  {
    seq(size, i requires 0 <= i < size => if i < |bytes| then bytes[i] else 0)
  }

  ghost function Nth(results: seq<Bytes>, k: nat): Bytes {
    if k < |results| then results[k] else []
  }

  /** Where each port's bytes are, and how many there are. */
  datatype Place = Place(offset: nat, size: nat)

  type Layout = map<int, Place>

  ghost predicate Fits(layout: Layout, total: nat) {
    forall id | id in layout :: layout[id].offset + layout[id].size <= total
  }

  ghost function ReadAt(memory: Bytes, place: Place): (r: Bytes)
    requires place.offset + place.size <= |memory|
    ensures |r| == place.size
  {
    memory[place.offset..place.offset + place.size]
  }

  ghost function WriteAt(memory: Bytes, place: Place, bytes: Bytes): (r: Bytes)
    requires place.offset + place.size <= |memory| && |bytes| == place.size
    ensures |r| == |memory|
  {
    memory[..place.offset] + bytes + memory[place.offset + place.size..]
  }

  // ----- private buffers

  ghost function BufferOf(buffers: map<int, Bytes>, id: int): Bytes {
    if id in buffers then buffers[id] else []
  }

  ghost function PrivateReads(buffers: map<int, Bytes>, inputs: seq<int>): (r: seq<Bytes>)
    ensures |r| == |inputs|
  {
    seq(|inputs|, k requires 0 <= k < |inputs| => BufferOf(buffers, inputs[k]))
  }

  ghost function PrivateWrites(layout: Layout, buffers: map<int, Bytes>, outputs: seq<int>, results: seq<Bytes>, n: nat): map<int, Bytes>
    requires n <= |outputs|
  {
    if n == 0 then buffers
    else
      var before := PrivateWrites(layout, buffers, outputs, results, n - 1);
      var id := outputs[n - 1];
      if id !in layout then before
      else before[id := Fit(Nth(results, n - 1), layout[id].size)]
  }

  /** The buffers after the first `n` steps, each tensor in a buffer of its own. */
  ghost function PrivateRun(kernel: Kernel, layout: Layout, steps: seq<PlanNode>, initial: map<int, Bytes>, n: nat): map<int, Bytes>
    requires n <= |steps|
  {
    if n == 0 then initial
    else
      var before := PrivateRun(kernel, layout, steps, initial, n - 1);
      var node := steps[n - 1];
      PrivateWrites(layout, before, node.outputs, kernel(n - 1, PrivateReads(before, node.inputs)), |node.outputs|)
  }

  // ----- one shared memory

  ghost function ReadPort(layout: Layout, memory: Bytes, id: int): Bytes
    requires Fits(layout, |memory|)
  {
    if id in layout then ReadAt(memory, layout[id]) else []
  }

  ghost function SharedReads(layout: Layout, memory: Bytes, inputs: seq<int>): (r: seq<Bytes>)
    requires Fits(layout, |memory|)
    ensures |r| == |inputs|
  {
    seq(|inputs|, k requires 0 <= k < |inputs| => ReadPort(layout, memory, inputs[k]))
  }

  ghost function SharedWrites(layout: Layout, memory: Bytes, outputs: seq<int>, results: seq<Bytes>, n: nat): (r: Bytes)
    requires n <= |outputs| && Fits(layout, |memory|)
    ensures |r| == |memory|
  {
    if n == 0 then memory
    else
      var before := SharedWrites(layout, memory, outputs, results, n - 1);
      var id := outputs[n - 1];
      if id !in layout then before
      else WriteAt(before, layout[id], Fit(Nth(results, n - 1), layout[id].size))
  }

  /** The workspace after the first `n` steps. */
  ghost function SharedRun(kernel: Kernel, layout: Layout, steps: seq<PlanNode>, memory: Bytes, n: nat): (r: Bytes)
    requires n <= |steps| && Fits(layout, |memory|)
    ensures |r| == |memory|
  {
    if n == 0 then memory
    else
      var before := SharedRun(kernel, layout, steps, memory, n - 1);
      var node := steps[n - 1];
      SharedWrites(layout, before, node.outputs, kernel(n - 1, SharedReads(layout, before, node.inputs)), |node.outputs|)
  }

  // ----- sound layouts

  ghost predicate ApartPlaces(a: Place, b: Place) {
    a.offset >= b.offset + b.size || a.offset + a.size <= b.offset
  }

  /** Ports alive together have their bytes apart; port 0 and unknown ports have no place. */
  ghost predicate SoundLayout(layout: Layout, intervals: map<int, Interval>) {
    && layout.Keys == intervals.Keys && 0 !in layout
    && forall a, b | a in layout && b in layout && a != b && Overlaps(intervals[a], intervals[b]) ::
         ApartPlaces(layout[a], layout[b])
  }

  /** Written already, or loaded before the first step. */
  ghost predicate Defined(steps: seq<PlanNode>, id: int, n: int) {
    Unproduced(steps, id) || exists s | 0 <= s < n && s < |steps| :: id in steps[s].outputs
  }

  /** After `n` steps the workspace holds, for every port not dead before the last of them, what its private buffer holds. */
  ghost predicate Agree(steps: seq<PlanNode>, layout: Layout, intervals: map<int, Interval>,
                        memory: Bytes, buffers: map<int, Bytes>, n: int)
    requires Fits(layout, |memory|) && layout.Keys == intervals.Keys
  {
    forall id | id in layout && Defined(steps, id, n) && n <= intervals[id].end + 1 ::
      id in buffers && ReadAt(memory, layout[id]) == buffers[id]
  }

  lemma WriteElsewhere(memory: Bytes, place: Place, bytes: Bytes, other: Place)
    requires place.offset + place.size <= |memory| && |bytes| == place.size
    requires other.offset + other.size <= |memory| && ApartPlaces(place, other)
    ensures ReadAt(WriteAt(memory, place, bytes), other) == ReadAt(memory, other)
  {
    var after := WriteAt(memory, place, bytes);
    assert forall i | other.offset <= i < other.offset + other.size :: after[i] == memory[i];
  }

  lemma WriteThenRead(memory: Bytes, place: Place, bytes: Bytes)
    requires place.offset + place.size <= |memory| && |bytes| == place.size
    ensures ReadAt(WriteAt(memory, place, bytes), place) == bytes
  {
  }

  /** A step reads what its producers wrote. */
  lemma ReadsAgree(steps: seq<PlanNode>, layout: Layout, intervals: map<int, Interval>, sizes: Sizes,
                   memory: Bytes, buffers: map<int, Bytes>, n: nat)
    requires n < |steps| && SingleProducer(steps) && LiveMap(steps, sizes, intervals)
    requires Fits(layout, |memory|) && SoundLayout(layout, intervals)
    requires Agree(steps, layout, intervals, memory, buffers, n)
    requires forall id | id in buffers :: id in layout
    ensures SharedReads(layout, memory, steps[n].inputs) == PrivateReads(buffers, steps[n].inputs)
  {
    forall k | 0 <= k < |steps[n].inputs|
      ensures ReadPort(layout, memory, steps[n].inputs[k]) == BufferOf(buffers, steps[n].inputs[k])
    {
      var id := steps[n].inputs[k];
      if id != 0 {
        assert Touches(steps[n], id);
        LifetimeCovers(steps, sizes, intervals, id, n);
        if !Unproduced(steps, id) {
          var s :| 0 <= s < |steps| && id in steps[s].outputs;
          assert s < n;
        }
        assert Defined(steps, id, n);
      }
    }
  }

  /** Writing one output keeps every other port that is still needed, and defines its own. */
  ghost predicate AgreeDuring(steps: seq<PlanNode>, layout: Layout, intervals: map<int, Interval>,
                              memory: Bytes, buffers: map<int, Bytes>, n: nat, k: nat)
    requires n < |steps| && k <= |steps[n].outputs|
    requires Fits(layout, |memory|) && layout.Keys == intervals.Keys
  {
    forall id | id in layout
                && ((Defined(steps, id, n) && n <= intervals[id].end) || id in steps[n].outputs[..k]) ::
      id in buffers && ReadAt(memory, layout[id]) == buffers[id]
  }

  lemma OutputKeeps(steps: seq<PlanNode>, layout: Layout, intervals: map<int, Interval>, sizes: Sizes, n: nat,
                    id: int, other: int)
    requires n < |steps| && SingleProducer(steps) && LiveMap(steps, sizes, intervals)
    requires SoundLayout(layout, intervals)
    requires id in steps[n].outputs && id in layout && other in layout && other != id
    requires (Defined(steps, other, n) && n <= intervals[other].end) || other in steps[n].outputs
    ensures ApartPlaces(layout[id], layout[other])
  {
    LifetimeCovers(steps, sizes, intervals, id, n);
    if other in steps[n].outputs {
      LifetimeCovers(steps, sizes, intervals, other, n);
    } else {
      StartedBefore(steps, sizes, intervals, other, n);
    }
    assert Overlaps(intervals[id], intervals[other]);
  }

  lemma StartedBefore(steps: seq<PlanNode>, sizes: Sizes, intervals: map<int, Interval>, id: int, n: nat)
    requires SingleProducer(steps) && LiveMap(steps, sizes, intervals)
    requires id in intervals && Defined(steps, id, n)
    ensures intervals[id].start <= n
  {
    var t :| 0 <= t < |steps| && Touches(steps[t], id);
    LifetimeCovers(steps, sizes, intervals, id, t);
    if !Unproduced(steps, id) {
      var s :| 0 <= s < n && s < |steps| && id in steps[s].outputs;
      LifetimeCovers(steps, sizes, intervals, id, s);
    }
  }

  lemma {:induction false} WritesAgree(steps: seq<PlanNode>, layout: Layout, intervals: map<int, Interval>, sizes: Sizes,
                                       memory: Bytes, buffers: map<int, Bytes>, n: nat, results: seq<Bytes>, k: nat)
    requires n < |steps| && SingleProducer(steps) && LiveMap(steps, sizes, intervals)
    requires Fits(layout, |memory|) && SoundLayout(layout, intervals)
    requires Agree(steps, layout, intervals, memory, buffers, n)
    requires k <= |steps[n].outputs|
    ensures AgreeDuring(steps, layout, intervals,
                        SharedWrites(layout, memory, steps[n].outputs, results, k),
                        PrivateWrites(layout, buffers, steps[n].outputs, results, k), n, k)
  {
    var outputs := steps[n].outputs;
    assert layout.Keys == intervals.Keys;
    if k == 0 {
      hide SingleProducer, LiveMap, SoundLayout, Fits, ReadAt, Defined;
    } else {
      hide *;
      WritesAgree(steps, layout, intervals, sizes, memory, buffers, n, results, k - 1);
      var mem, bufs := SharedWrites(layout, memory, outputs, results, k - 1), PrivateWrites(layout, buffers, outputs, results, k - 1);
      WriteNext(layout, memory, buffers, outputs, results, k);
      OneWriteAgrees(steps, layout, intervals, sizes, mem, bufs, n, Nth(results, k - 1), k);
    }
  }

  /** The effect of one output on the shared memory and on the buffers. */
  ghost function SharedWrite(layout: Layout, memory: Bytes, id: int, result: Bytes): (r: Bytes)
    requires Fits(layout, |memory|)
    ensures |r| == |memory|
  {
    if id in layout then WriteAt(memory, layout[id], Fit(result, layout[id].size)) else memory
  }

  ghost function PrivateWrite(layout: Layout, buffers: map<int, Bytes>, id: int, result: Bytes): map<int, Bytes> {
    if id in layout then buffers[id := Fit(result, layout[id].size)] else buffers
  }

  lemma WriteNext(layout: Layout, memory: Bytes, buffers: map<int, Bytes>, outputs: seq<int>, results: seq<Bytes>, k: nat)
    requires 0 < k <= |outputs| && Fits(layout, |memory|)
    ensures SharedWrites(layout, memory, outputs, results, k)
         == SharedWrite(layout, SharedWrites(layout, memory, outputs, results, k - 1), outputs[k - 1], Nth(results, k - 1))
    ensures PrivateWrites(layout, buffers, outputs, results, k)
         == PrivateWrite(layout, PrivateWrites(layout, buffers, outputs, results, k - 1), outputs[k - 1], Nth(results, k - 1))
  {
  }

  lemma OneWriteAgrees(steps: seq<PlanNode>, layout: Layout, intervals: map<int, Interval>, sizes: Sizes,
                       mem: Bytes, bufs: map<int, Bytes>, n: nat, result: Bytes, k: nat)
    requires n < |steps| && SingleProducer(steps) && LiveMap(steps, sizes, intervals)
    requires Fits(layout, |mem|) && SoundLayout(layout, intervals) && 0 < k <= |steps[n].outputs|
    requires AgreeDuring(steps, layout, intervals, mem, bufs, n, k - 1)
    ensures AgreeDuring(steps, layout, intervals, SharedWrite(layout, mem, steps[n].outputs[k - 1], result),
                        PrivateWrite(layout, bufs, steps[n].outputs[k - 1], result), n, k)
  {
    var outputs, id := steps[n].outputs, steps[n].outputs[k - 1];
    assert outputs[..k] == outputs[..k - 1] + [id];
    if id in layout {
      var bytes := Fit(result, layout[id].size);
      WriteThenRead(mem, layout[id], bytes);
      forall other | other in layout && other != id
                     && ((Defined(steps, other, n) && n <= intervals[other].end) || other in outputs[..k])
        ensures ReadAt(WriteAt(mem, layout[id], bytes), layout[other]) == ReadAt(mem, layout[other])
      {
        OutputKeeps(steps, layout, intervals, sizes, n, id, other);
        WriteElsewhere(mem, layout[id], bytes, layout[other]);
      }
      hide SingleProducer, LiveMap, SoundLayout, Fit, ReadAt, WriteAt, Defined;
    }
  }

  lemma {:induction false} BuffersArePlaced(layout: Layout, buffers: map<int, Bytes>, outputs: seq<int>, results: seq<Bytes>, n: nat)
    requires n <= |outputs| && forall id | id in buffers :: id in layout
    ensures forall id | id in PrivateWrites(layout, buffers, outputs, results, n) :: id in layout
  {
    if n > 0 {
      BuffersArePlaced(layout, buffers, outputs, results, n - 1);
    }
  }

  lemma {:induction false} RunIsPlaced(kernel: Kernel, layout: Layout, steps: seq<PlanNode>, initial: map<int, Bytes>, n: nat)
    requires n <= |steps| && forall id | id in initial :: id in layout
    ensures forall id | id in PrivateRun(kernel, layout, steps, initial, n) :: id in layout
  {
    if n > 0 {
      RunIsPlaced(kernel, layout, steps, initial, n - 1);
      var before := PrivateRun(kernel, layout, steps, initial, n - 1);
      var node := steps[n - 1];
      BuffersArePlaced(layout, before, node.outputs, kernel(n - 1, PrivateReads(before, node.inputs)), |node.outputs|);
    }
  }

  /** The ports no step produces hold their initial bytes before the first step. */
  ghost predicate Loaded(steps: seq<PlanNode>, layout: Layout, memory: Bytes, initial: map<int, Bytes>)
    requires Fits(layout, |memory|)
  {
    && (forall id | id in initial :: id in layout)
    && forall id | id in layout && Unproduced(steps, id) :: id in initial && ReadAt(memory, layout[id]) == initial[id]
  }

  lemma {:induction false} RunsAgree(kernel: Kernel, steps: seq<PlanNode>, layout: Layout, intervals: map<int, Interval>,
                                     sizes: Sizes, memory: Bytes, initial: map<int, Bytes>, n: nat)
    requires n <= |steps| && SingleProducer(steps) && LiveMap(steps, sizes, intervals)
    requires Fits(layout, |memory|) && SoundLayout(layout, intervals) && Loaded(steps, layout, memory, initial)
    ensures Agree(steps, layout, intervals, SharedRun(kernel, layout, steps, memory, n),
                  PrivateRun(kernel, layout, steps, initial, n), n)
  {
    assert layout.Keys == intervals.Keys && forall id | id in initial :: id in layout;
    AgreeAtStart(steps, layout, intervals, memory, initial);
    hide *;
    if n == 0 {
      RunNothing(kernel, layout, steps, memory, initial);
    } else {
      RunsAgree(kernel, steps, layout, intervals, sizes, memory, initial, n - 1);
      RunIsPlaced(kernel, layout, steps, initial, n - 1);
      RunNext(kernel, layout, steps, memory, initial, n);
      var mem, bufs := SharedRun(kernel, layout, steps, memory, n - 1), PrivateRun(kernel, layout, steps, initial, n - 1);
      var node := steps[n - 1];
      ReadsAgree(steps, layout, intervals, sizes, mem, bufs, n - 1);
      var results := kernel(n - 1, PrivateReads(bufs, node.inputs));
      WritesAgree(steps, layout, intervals, sizes, mem, bufs, n - 1, results, |node.outputs|);
      AgreeAfter(steps, layout, intervals, SharedWrites(layout, mem, node.outputs, results, |node.outputs|),
                 PrivateWrites(layout, bufs, node.outputs, results, |node.outputs|), n);
    }
  }

  lemma RunNothing(kernel: Kernel, layout: Layout, steps: seq<PlanNode>, memory: Bytes, initial: map<int, Bytes>)
    requires Fits(layout, |memory|)
    ensures SharedRun(kernel, layout, steps, memory, 0) == memory && PrivateRun(kernel, layout, steps, initial, 0) == initial
  {
  }

  lemma RunNext(kernel: Kernel, layout: Layout, steps: seq<PlanNode>, memory: Bytes, initial: map<int, Bytes>, n: nat)
    requires 0 < n <= |steps| && Fits(layout, |memory|)
    ensures var mem, node := SharedRun(kernel, layout, steps, memory, n - 1), steps[n - 1];
      SharedRun(kernel, layout, steps, memory, n) ==
      SharedWrites(layout, mem, node.outputs, kernel(n - 1, SharedReads(layout, mem, node.inputs)), |node.outputs|)
    ensures var bufs, node := PrivateRun(kernel, layout, steps, initial, n - 1), steps[n - 1];
      PrivateRun(kernel, layout, steps, initial, n) ==
      PrivateWrites(layout, bufs, node.outputs, kernel(n - 1, PrivateReads(bufs, node.inputs)), |node.outputs|)
  {
  }

  lemma AgreeAtStart(steps: seq<PlanNode>, layout: Layout, intervals: map<int, Interval>, memory: Bytes, initial: map<int, Bytes>)
    requires Fits(layout, |memory|) && layout.Keys == intervals.Keys && Loaded(steps, layout, memory, initial)
    ensures Agree(steps, layout, intervals, memory, initial, 0)
  {
  }

  lemma AgreeAfter(steps: seq<PlanNode>, layout: Layout, intervals: map<int, Interval>,
                   memory: Bytes, buffers: map<int, Bytes>, n: nat)
    requires 0 < n <= |steps| && Fits(layout, |memory|) && layout.Keys == intervals.Keys
    requires AgreeDuring(steps, layout, intervals, memory, buffers, n - 1, |steps[n - 1].outputs|)
    ensures Agree(steps, layout, intervals, memory, buffers, n)
  {
    hide ReadAt, Fits;
    var outputs := steps[n - 1].outputs;
    assert outputs[..|outputs|] == outputs;
    forall id | id in layout && Defined(steps, id, n) && n <= intervals[id].end + 1
      ensures Defined(steps, id, n - 1) || id in outputs
    {
    }
  }

  /**
   Refinement: at every step, for every kernel and every initial contents, the bytes read
   from the shared workspace are the bytes a run with private buffers reads.
   */
  lemma SharedExecutionReadsPrivateBytes(kernel: Kernel, steps: seq<PlanNode>, layout: Layout, intervals: map<int, Interval>,
                                         sizes: Sizes, memory: Bytes, initial: map<int, Bytes>, n: nat)
    requires n < |steps| && SingleProducer(steps) && LiveMap(steps, sizes, intervals)
    requires Fits(layout, |memory|) && SoundLayout(layout, intervals) && Loaded(steps, layout, memory, initial)
    ensures SharedReads(layout, SharedRun(kernel, layout, steps, memory, n), steps[n].inputs) ==
            PrivateReads(PrivateRun(kernel, layout, steps, initial, n), steps[n].inputs)
  {
    RunsAgree(kernel, steps, layout, intervals, sizes, memory, initial, n);
    RunIsPlaced(kernel, layout, steps, initial, n);
    ReadsAgree(steps, layout, intervals, sizes, SharedRun(kernel, layout, steps, memory, n),
               PrivateRun(kernel, layout, steps, initial, n), n);
  }

  // ----- loading the inputs

  /** The session loads its inputs one after another into a workspace. */
  ghost function LoadPorts(layout: Layout, memory: Bytes, ids: seq<int>, contents: map<int, Bytes>): (r: Bytes)
    requires Fits(layout, |memory|)
    ensures |r| == |memory|
  {
    if ids == [] then memory
    else
      var before := LoadPorts(layout, memory, ids[..|ids| - 1], contents);
      var id := ids[|ids| - 1];
      if id in layout then WriteAt(before, layout[id], Fit(BufferOf(contents, id), layout[id].size)) else before
  }

  /** Loading is sound in any order: inputs never overwrite one another. */
  lemma {:induction false} LoadingKeepsInputs(steps: seq<PlanNode>, layout: Layout, intervals: map<int, Interval>, sizes: Sizes,
                                              memory: Bytes, ids: seq<int>, contents: map<int, Bytes>, id: int)
    requires SingleProducer(steps) && LiveMap(steps, sizes, intervals)
    requires Fits(layout, |memory|) && SoundLayout(layout, intervals)
    requires forall a | a in ids :: Unproduced(steps, a)
    requires id in ids && id in layout && Unproduced(steps, id)
    ensures ReadAt(LoadPorts(layout, memory, ids, contents), layout[id]) == Fit(BufferOf(contents, id), layout[id].size)
  {
    var n := |ids| - 1;
    var last := ids[n];
    var before := LoadPorts(layout, memory, ids[..n], contents);
    if last == id {
      WriteThenRead(before, layout[id], Fit(BufferOf(contents, id), layout[id].size));
    } else {
      assert id in ids[..n] by {
        var i :| 0 <= i < |ids| && ids[i] == id;
        assert ids[..n][i] == id;
      }
      LoadingKeepsInputs(steps, layout, intervals, sizes, memory, ids[..n], contents, id);
      if last in layout {
        InputsOverlap(steps, sizes, intervals, id, last);
        WriteElsewhere(before, layout[last], Fit(BufferOf(contents, last), layout[last].size), layout[id]);
      }
    }
  }

  lemma InputsOverlap(steps: seq<PlanNode>, sizes: Sizes, intervals: map<int, Interval>, a: int, b: int)
    requires SingleProducer(steps) && LiveMap(steps, sizes, intervals)
    requires a in intervals && b in intervals && Unproduced(steps, a) && Unproduced(steps, b)
    ensures Overlaps(intervals[a], intervals[b])
  {
    var s :| 0 <= s < |steps| && Touches(steps[s], a);
    LifetimeCovers(steps, sizes, intervals, a, s);
    var t :| 0 <= t < |steps| && Touches(steps[t], b);
    LifetimeCovers(steps, sizes, intervals, b, t);
  }

  // ----- what is left at the end of a run

  ghost predicate Clobbers(a: Place, b: Place) {
    a.size > 0 && b.size > 0 && !ApartPlaces(a, b)
  }

  /** A step after the port's last reader writes over its bytes. */
  ghost predicate ClobberedBy(steps: seq<PlanNode>, layout: Layout, intervals: map<int, Interval>, id: int, s: int, q: int)
    requires layout.Keys == intervals.Keys
  {
    && id in layout && q in layout
    && 0 <= s < |steps| && intervals[id].end < s && q in steps[s].outputs
    && Clobbers(layout[q], layout[id])
  }

  lemma WriteBeside(memory: Bytes, place: Place, bytes: Bytes, other: Place)
    requires place.offset + place.size <= |memory| && |bytes| == place.size
    requires other.offset + other.size <= |memory| && !Clobbers(place, other)
    ensures ReadAt(WriteAt(memory, place, bytes), other) == ReadAt(memory, other)
  {
    if ApartPlaces(place, other) {
      WriteElsewhere(memory, place, bytes, other);
    } else if place.size == 0 {
      assert WriteAt(memory, place, bytes) == memory;
    }
  }

  lemma {:induction false} StepBeside(layout: Layout, memory: Bytes, outputs: seq<int>, results: seq<Bytes>, n: nat, other: Place)
    requires n <= |outputs| && Fits(layout, |memory|) && other.offset + other.size <= |memory|
    requires forall q | q in outputs && q in layout :: !Clobbers(layout[q], other)
    ensures ReadAt(SharedWrites(layout, memory, outputs, results, n), other) == ReadAt(memory, other)
  {
    if n > 0 {
      StepBeside(layout, memory, outputs, results, n - 1, other);
      var id := outputs[n - 1];
      if id in layout {
        WriteBeside(SharedWrites(layout, memory, outputs, results, n - 1), layout[id],
                    Fit(Nth(results, n - 1), layout[id].size), other);
      }
    }
  }

  lemma {:induction false} BufferUntouched(layout: Layout, buffers: map<int, Bytes>, outputs: seq<int>, results: seq<Bytes>, n: nat, id: int)
    requires n <= |outputs| && id !in outputs
    ensures BufferOf(PrivateWrites(layout, buffers, outputs, results, n), id) == BufferOf(buffers, id)
  {
    if n > 0 {
      BufferUntouched(layout, buffers, outputs, results, n - 1, id);
    }
  }

  lemma AgreeBuffer(steps: seq<PlanNode>, layout: Layout, intervals: map<int, Interval>, memory: Bytes,
                    buffers: map<int, Bytes>, n: int, id: int)
    requires Fits(layout, |memory|) && layout.Keys == intervals.Keys && Agree(steps, layout, intervals, memory, buffers, n)
    requires id in layout && Defined(steps, id, n) && n <= intervals[id].end + 1
    ensures ReadAt(memory, layout[id]) == BufferOf(buffers, id)
  {
    hide ReadAt, Fits;
  }

  /** A step after the port's last use that does not write over its bytes changes neither them nor the buffer. */
  lemma StepKeeps(kernel: Kernel, steps: seq<PlanNode>, layout: Layout, intervals: map<int, Interval>, sizes: Sizes,
                  memory: Bytes, initial: map<int, Bytes>, id: int, n: nat)
    requires SingleProducer(steps) && LiveMap(steps, sizes, intervals) && Fits(layout, |memory|)
    requires layout.Keys == intervals.Keys && id in layout && intervals[id].end < n < |steps|
    requires forall s, q :: !ClobberedBy(steps, layout, intervals, id, s, q)
    ensures ReadAt(SharedRun(kernel, layout, steps, memory, n + 1), layout[id]) ==
            ReadAt(SharedRun(kernel, layout, steps, memory, n), layout[id])
    ensures BufferOf(PrivateRun(kernel, layout, steps, initial, n + 1), id) == BufferOf(PrivateRun(kernel, layout, steps, initial, n), id)
  {
    hide SingleProducer, LiveMap, ReadAt, Fits, SharedRun, PrivateRun, SharedWrites, PrivateWrites, BufferOf, Clobbers, ClobberedBy;
    var node := steps[n];
    var mem, bufs := SharedRun(kernel, layout, steps, memory, n), PrivateRun(kernel, layout, steps, initial, n);
    PlaceInside(layout, |memory|, id);
    RunNext(kernel, layout, steps, memory, initial, n + 1);
    forall q | q in node.outputs && q in layout
      ensures !Clobbers(layout[q], layout[id])
    {
      NotClobbered(steps, layout, intervals, id, n, q);
    }
    StepBeside(layout, mem, node.outputs, kernel(n, SharedReads(layout, mem, node.inputs)), |node.outputs|, layout[id]);
    NotProducedLate(steps, sizes, intervals, id, n);
    BufferUntouched(layout, bufs, node.outputs, kernel(n, PrivateReads(bufs, node.inputs)), |node.outputs|, id);
  }

  /** Bytes that no later step writes over are intact at the end of the run. */
  lemma {:induction false} UnclobberedStays(kernel: Kernel, steps: seq<PlanNode>, layout: Layout, intervals: map<int, Interval>,
                                            sizes: Sizes, memory: Bytes, initial: map<int, Bytes>, id: int, n: nat)
    requires SingleProducer(steps) && LiveMap(steps, sizes, intervals)
    requires Fits(layout, |memory|) && SoundLayout(layout, intervals) && Loaded(steps, layout, memory, initial)
    requires id in layout && intervals[id].end < n <= |steps|
    requires forall s, q :: !ClobberedBy(steps, layout, intervals, id, s, q)
    ensures ReadAt(SharedRun(kernel, layout, steps, memory, n), layout[id]) ==
            BufferOf(PrivateRun(kernel, layout, steps, initial, n), id)
    decreases n
  {
    PlaceInside(layout, |memory|, id);
    EndInside(steps, sizes, intervals, id);
    hide *;
    if n == intervals[id].end + 1 {
      DefinedByEnd(steps, sizes, intervals, id);
      RunsAgree(kernel, steps, layout, intervals, sizes, memory, initial, n);
      AgreeBuffer(steps, layout, intervals, SharedRun(kernel, layout, steps, memory, n),
                  PrivateRun(kernel, layout, steps, initial, n), n, id);
    } else {
      UnclobberedStays(kernel, steps, layout, intervals, sizes, memory, initial, id, n - 1);
      StepKeeps(kernel, steps, layout, intervals, sizes, memory, initial, id, n - 1);
    }
  }

  lemma NotClobbered(steps: seq<PlanNode>, layout: Layout, intervals: map<int, Interval>, id: int, s: int, q: int)
    requires layout.Keys == intervals.Keys && !ClobberedBy(steps, layout, intervals, id, s, q)
    requires id in layout && q in layout && 0 <= s < |steps| && intervals[id].end < s && q in steps[s].outputs
    ensures !Clobbers(layout[q], layout[id])
  {
  }

  lemma PlaceInside(layout: Layout, total: nat, id: int)
    requires Fits(layout, total) && id in layout
    ensures layout[id].offset + layout[id].size <= total
  {
  }

  lemma NotProducedLate(steps: seq<PlanNode>, sizes: Sizes, intervals: map<int, Interval>, id: int, s: nat)
    requires SingleProducer(steps) && LiveMap(steps, sizes, intervals)
    requires id in intervals && intervals[id].end < s < |steps|
    ensures id !in steps[s].outputs
  {
    if id in steps[s].outputs {
      LifetimeCovers(steps, sizes, intervals, id, s);
    }
  }

  lemma DefinedByEnd(steps: seq<PlanNode>, sizes: Sizes, intervals: map<int, Interval>, id: int)
    requires SingleProducer(steps) && LiveMap(steps, sizes, intervals) && id in intervals
    ensures Defined(steps, id, intervals[id].end + 1)
  {
    if s :| 0 <= s < |steps| && id in steps[s].outputs {
      LifetimeCovers(steps, sizes, intervals, id, s);
    }
  }
}
