/** Exactly when a tensor can still be read from the workspace after the whole run. */
module WorkspaceOutputs {
  import opened Wrappers
  import opened OffsetAllocator
  import opened Liveness
  import opened WorkspaceExecution

  ghost function Ones(count: nat, total: nat): seq<Bytes> {
    seq(count, _ => seq(total, _ => 1))
  }

  ghost function Zeros(total: nat): Bytes {
    seq(total, _ => 0)
  }

  /** Computes nothing but zeros, except at one step, where every output is ones. */
  ghost function MarkingKernel(step: int, count: nat, total: nat): Kernel {
    (at, operands) => if at == step then Ones(count, total) else []
  }

  ghost predicate AllZero(bytes: Bytes) {
    forall i | 0 <= i < |bytes| :: bytes[i] == 0
  }

  ghost predicate ZeroExcept(buffers: map<int, Bytes>, marked: seq<int>) {
    forall id | id in buffers && id !in marked :: AllZero(buffers[id])
  }

  lemma {:induction false} WritesZeroExcept(layout: Layout, buffers: map<int, Bytes>, outputs: seq<int>,
                                            results: seq<Bytes>, n: nat, marked: seq<int>)
    requires n <= |outputs| && ZeroExcept(buffers, marked)
    requires results == [] || outputs == marked
    ensures ZeroExcept(PrivateWrites(layout, buffers, outputs, results, n), marked)
  {
    if n > 0 {
      WritesZeroExcept(layout, buffers, outputs, results, n - 1, marked);
    }
  }

  lemma {:induction false} RunZeroExcept(layout: Layout, steps: seq<PlanNode>, initial: map<int, Bytes>,
                                         s: nat, total: nat, n: nat)
    requires s < |steps| && n <= |steps| && ZeroExcept(initial, [])
    ensures ZeroExcept(PrivateRun(MarkingKernel(s, |steps[s].outputs|, total), layout, steps, initial, n), steps[s].outputs)
  {
    if n > 0 {
      var kernel := MarkingKernel(s, |steps[s].outputs|, total);
      RunZeroExcept(layout, steps, initial, s, total, n - 1);
      var before := PrivateRun(kernel, layout, steps, initial, n - 1);
      var node := steps[n - 1];
      WritesZeroExcept(layout, before, node.outputs, kernel(n - 1, PrivateReads(before, node.inputs)), |node.outputs|, steps[s].outputs);
    }
  }

  ghost predicate Covers(place: Place, byte: int) {
    place.offset <= byte < place.offset + place.size
  }

  lemma WriteOnes(memory: Bytes, place: Place, bytes: Bytes, byte: nat)
    requires place.offset + place.size <= |memory| && |bytes| == place.size && byte < |memory|
    requires forall i | 0 <= i < |bytes| :: bytes[i] == 1
    ensures WriteAt(memory, place, bytes)[byte] == if Covers(place, byte) then 1 else memory[byte]
  {
  }

  /** After the marking step, every byte one of its outputs covers is one. */
  lemma {:induction false} MarkedByte(layout: Layout, memory: Bytes, outputs: seq<int>, n: nat, byte: nat, q: int)
    requires n <= |outputs| && Fits(layout, |memory|) && byte < |memory|
    requires q in outputs[..n] && q in layout && Covers(layout[q], byte)
    ensures SharedWrites(layout, memory, outputs, Ones(|outputs|, |memory|), n)[byte] == 1
  {
    var id := outputs[n - 1];
    assert outputs[..n] == outputs[..n - 1] + [id];
    var before := SharedWrites(layout, memory, outputs, Ones(|outputs|, |memory|), n - 1);
    if id != q {
      MarkedByte(layout, memory, outputs, n - 1, byte, q);
    }
    if id in layout {
      WriteOnes(before, layout[id], Fit(Nth(Ones(|outputs|, |memory|), n - 1), layout[id].size), byte);
      if id != q {
        assert before[byte] == 1;
      }
    }
  }

  /** A byte no output of the step covers keeps its value. */
  lemma {:induction false} UncoveredByte(layout: Layout, memory: Bytes, outputs: seq<int>, results: seq<Bytes>, n: nat, byte: nat)
    requires n <= |outputs| && Fits(layout, |memory|) && byte < |memory|
    requires forall q | q in outputs && q in layout :: !Covers(layout[q], byte)
    ensures SharedWrites(layout, memory, outputs, results, n)[byte] == memory[byte]
  {
    if n > 0 {
      UncoveredByte(layout, memory, outputs, results, n - 1, byte);
      assert outputs[n - 1] in outputs;
    }
  }

  lemma {:induction false} MarkStays(layout: Layout, steps: seq<PlanNode>, memory: Bytes, s: nat, byte: nat, q: int, n: nat)
    requires s < n <= |steps| && Fits(layout, |memory|) && byte < |memory|
    requires q in steps[s].outputs && q in layout && Covers(layout[q], byte)
    requires forall t, r | s < t < |steps| && r in steps[t].outputs && r in layout :: !Covers(layout[r], byte)
    ensures SharedRun(MarkingKernel(s, |steps[s].outputs|, |memory|), layout, steps, memory, n)[byte] == 1
    decreases n
  {
    var kernel := MarkingKernel(s, |steps[s].outputs|, |memory|);
    var before := SharedRun(kernel, layout, steps, memory, n - 1);
    var node := steps[n - 1];
    if n == s + 1 {
      assert node.outputs[..|node.outputs|] == node.outputs;
      MarkedByte(layout, before, node.outputs, |node.outputs|, byte, q);
    } else {
      MarkStays(layout, steps, memory, s, byte, q, n - 1);
      UncoveredByte(layout, before, node.outputs, kernel(n - 1, SharedReads(layout, before, node.inputs)), |node.outputs|, byte);
    }
  }

  lemma {:induction false} LastClobber(steps: seq<PlanNode>, layout: Layout, intervals: map<int, Interval>, id: int, s0: int, q0: int)
    returns (s: int, q: int)
    requires layout.Keys == intervals.Keys && ClobberedBy(steps, layout, intervals, id, s0, q0)
    ensures ClobberedBy(steps, layout, intervals, id, s, q)
    ensures forall t, r | t > s :: !ClobberedBy(steps, layout, intervals, id, t, r)
    decreases |steps| - s0
  {
    if t, r :| t > s0 && ClobberedBy(steps, layout, intervals, id, t, r) {
      s, q := LastClobber(steps, layout, intervals, id, t, r);
    } else {
      s, q := s0, q0;
    }
  }

  /** At the end of the run the port's bytes are those of its private buffer. */
  ghost predicate EndsIntact(kernel: Kernel, steps: seq<PlanNode>, layout: Layout, memory: Bytes,
                             initial: map<int, Bytes>, id: int)
    requires Fits(layout, |memory|) && id in layout
  {
    ReadAt(SharedRun(kernel, layout, steps, memory, |steps|), layout[id]) ==
    BufferOf(PrivateRun(kernel, layout, steps, initial, |steps|), id)
  }

  /** A byte both ranges share. */
  lemma SharedByte(a: Place, b: Place) returns (byte: nat)
    requires Clobbers(a, b)
    ensures Covers(a, byte) && Covers(b, byte)
  {
    byte := if a.offset < b.offset then b.offset else a.offset;
  }

  lemma ClobberedIsLost(steps: seq<PlanNode>, layout: Layout, intervals: map<int, Interval>, sizes: Sizes,
                        total: nat, id: int, s0: int, q0: int)
    returns (kernel: Kernel, memory: Bytes, initial: map<int, Bytes>)
    requires SingleProducer(steps) && LiveMap(steps, sizes, intervals)
    requires Fits(layout, total) && SoundLayout(layout, intervals)
    requires ClobberedBy(steps, layout, intervals, id, s0, q0)
    ensures |memory| == total && Loaded(steps, layout, memory, initial)
    ensures !EndsIntact(kernel, steps, layout, memory, initial, id)
  {
    assert layout.Keys == intervals.Keys;
    hide LiveMap, SingleProducer, SoundLayout, Loaded, EndsIntact;
    var s, q := LastClobber(steps, layout, intervals, id, s0, q0);
    NotProducedLate(steps, sizes, intervals, id, s);
    memory := Zeros(total);
    initial := map p | p in layout && Unproduced(steps, p) :: Zeros(layout[p].size);
    kernel := MarkingKernel(s, |steps[s].outputs|, total);
    ZerosLoaded(steps, layout, total, initial);
    MarkedIsLost(steps, layout, intervals, total, id, s, q, initial);
  }

  lemma MarkedIsLost(steps: seq<PlanNode>, layout: Layout, intervals: map<int, Interval>, total: nat, id: int,
                     s: int, q: int, initial: map<int, Bytes>)
    requires Fits(layout, total) && layout.Keys == intervals.Keys && ClobberedBy(steps, layout, intervals, id, s, q)
    requires forall t, r | t > s :: !ClobberedBy(steps, layout, intervals, id, t, r)
    requires id !in steps[s].outputs && ZeroExcept(initial, [])
    ensures !EndsIntact(MarkingKernel(s, |steps[s].outputs|, total), steps, layout, Zeros(total), initial, id)
  {
    hide PrivateRun, SharedRun, Fits, Fit;
    var byte := SharedByte(layout[q], layout[id]);
    RunZeroExcept(layout, steps, initial, s, total, |steps|);
    forall t, r | s < t < |steps| && r in steps[t].outputs && r in layout
      ensures !Covers(layout[r], byte)
    {
      assert !ClobberedBy(steps, layout, intervals, id, t, r);
    }
    PlaceInside(layout, total, q);
    MarkStays(layout, steps, Zeros(total), s, byte, q, |steps|);
    PlaceInside(layout, total, id);
    MarkedIsNotZero(layout[id], SharedRun(MarkingKernel(s, |steps[s].outputs|, total), layout, steps, Zeros(total), |steps|), byte);
  }

  lemma ZerosLoaded(steps: seq<PlanNode>, layout: Layout, total: nat, initial: map<int, Bytes>)
    requires Fits(layout, total)
    requires initial == map p | p in layout && Unproduced(steps, p) :: Zeros(layout[p].size)
    ensures Loaded(steps, layout, Zeros(total), initial) && ZeroExcept(initial, [])
  {
    forall p | p in layout && Unproduced(steps, p)
      ensures ReadAt(Zeros(total), layout[p]) == initial[p]
    {
      assert forall i | 0 <= i < layout[p].size :: ReadAt(Zeros(total), layout[p])[i] == 0;
    }
  }

  lemma MarkedIsNotZero(place: Place, memory: Bytes, byte: nat)
    requires place.offset + place.size <= |memory| && Covers(place, byte) && memory[byte] == 1
    ensures !AllZero(ReadAt(memory, place)) && ReadAt(memory, place) != []
  {
    assert ReadAt(memory, place)[byte - place.offset] == 1;
  }

  /**
   A graph output can be read back after the run, whatever the kernels compute, exactly
   when no step after its last reader writes over its bytes.
   */
  lemma OutputSurvivesIffUnclobbered(steps: seq<PlanNode>, layout: Layout, intervals: map<int, Interval>, sizes: Sizes,
                                     total: nat, id: int)
    requires SingleProducer(steps) && LiveMap(steps, sizes, intervals)
    requires Fits(layout, total) && SoundLayout(layout, intervals) && id in layout
    ensures (forall kernel, memory, initial | |memory| == total && Loaded(steps, layout, memory, initial) ::
              EndsIntact(kernel, steps, layout, memory, initial, id))
            <==> (forall s, q :: !ClobberedBy(steps, layout, intervals, id, s, q))
  {
    if s, q :| ClobberedBy(steps, layout, intervals, id, s, q) {
      var kernel, memory, initial := ClobberedIsLost(steps, layout, intervals, sizes, total, id, s, q);
    } else {
      EndIsBound(steps, sizes, intervals, id);
      forall kernel, memory, initial | |memory| == total && Loaded(steps, layout, memory, initial)
        ensures EndsIntact(kernel, steps, layout, memory, initial, id)
      {
        UnclobberedStays(kernel, steps, layout, intervals, sizes, memory, initial, id, |steps|);
      }
    }
  }

  lemma EndIsBound(steps: seq<PlanNode>, sizes: Sizes, intervals: map<int, Interval>, id: int)
    requires LiveMap(steps, sizes, intervals) && id in intervals
    ensures intervals[id].end < |steps|
  {
    EndInside(steps, sizes, intervals, id);
  }
}
