/**
 * Interleavings with wrap-around: any number of producers and one reader that updates the global read
 * index (include/ShmRingBuffer.h). The bound on unread events holds exactly as long as every swap finds
 * room, for which fewer than `capacity` claims between a producer's load and its swap are enough
 * (WithinLap). That the reader sees the log also needs every slot stored before it is read (ReadsStored).
 * StepWitnesses has runs that break the buffer without these conditions.
 */
module QueueSteps {
  import opened Common
  import opened ShmRing
  import opened RingSteps
  import ModArith

  /** Where the single reader is: at the global position, or one ahead until its swap on the read index. */
  ghost predicate ReaderPlaced<T>(s: State<T>, rd: Reader<T>)
    requires 0 < s.capacity
  {
    && rd.updates && rd.start == 0
    && rd.index == Slot(rd.position, s.capacity) && rd.position <= |s.claims|
    && rd.position == (if rd.phase.Resting? || rd.phase.Snapshot? then s.consumed else s.consumed + 1)
    && (rd.phase.Resting? ||
        (s.consumed < rd.phase.upTo <= |s.claims| && rd.phase.write == Slot(rd.phase.upTo, s.capacity)))
    && (rd.phase.Compared? ==> rd.phase.oldRead == s.readIndex)
  }

  /** What it has received: the log up to its position, and it has not overtaken a store. */
  ghost predicate ReaderOk<T>(s: State<T>, rd: Reader<T>)
    requires 0 < s.capacity
  {
    && ReaderPlaced(s, rd)
    && rd.received == s.claims[..rd.position]
    && (rd.phase.Advanced? || rd.phase.Compared? ==> s.consumed in s.stored)
  }

  /** The invariant about indices, and the whole invariant. */
  ghost predicate Bounded<T>(s: State<T>) {
    Placed(s) && s.capacity <= UINT32_RANGE / 2 && |s.readers| == 1 && ReaderPlaced(s, s.readers[0])
  }

  ghost predicate Inv<T>(s: State<T>) {
    Core(s) && Bounded(s) && ReaderOk(s, s.readers[0])
  }

  lemma InitialInv<T>(s: State<T>)
    requires Initial(s) && s.capacity <= UINT32_RANGE / 2 && |s.readers| == 1 && s.readers[0].updates
    ensures Inv(s)
  {
    InitialCore(s);
    ModArith.Small(0, s.capacity);
  }

  /** The comparison of distances always lets the single reader advance the global index by one. */
  lemma ReaderAdvances<T>(s: State<T>)
    requires Bounded(s) && s.readers[0].phase.Advanced?
    ensures Distance(s.readers[0].phase.write, s.readIndex, s.capacity) == s.readers[0].phase.upTo - s.consumed
    ensures Distance(s.readers[0].phase.write, s.readers[0].index, s.capacity) == s.readers[0].phase.upTo - s.consumed - 1
  {
    var rd := s.readers[0];
    DistanceTo(rd.phase.upTo, s.consumed, s.capacity);
    DistanceTo(rd.phase.upTo, rd.position, s.capacity);
  }

  // ---------- The bound ----------

  /**
   * One step of any kind keeps the absolute positions less than a lap apart if and only if it is not a
   * swap that meets a full buffer. When slots are stored plays no part.
   */
  lemma StepBoundedIffRoom<T>(s: State<T>, a: Action<T>)
    requires Bounded(s) && Enabled(s, a) && !a.Join?
    ensures Bounded(Step(s, a)) <==> RoomAtSwap(s, a)
    ensures !RoomAtSwap(s, a) ==> |Step(s, a).claims| - Step(s, a).consumed == s.capacity
    ensures s.consumed <= Step(s, a).consumed
  {
    var s', rd := Step(s, a), s.readers[0];
    if ByProducer(a) {
      if RoomAtSwap(s, a) {
        ProducerStepKeepsPlaced(s, a);
      }
    } else if !a.Wait? {
      if a.Fetch? {
        ModArith.Small(rd.index + 1, UINT32_RANGE);
        ModArith.Next(rd.position, s.capacity);
      } else if a.LoadOld? {
        ReaderAdvances(s);
      }
      ReaderStepKeepsPlaced(s, s');
    }
  }

  /** A reader may consume, but a producer's index stays placed and its room only grows. */
  lemma ReaderStepKeepsPlaced<T>(s: State<T>, s': State<T>)
    requires Placed(s) && s.consumed <= s'.consumed <= s.consumed + 1 && s'.consumed <= |s.claims|
    requires s' == s.(readers := s'.readers, consumed := s'.consumed, readIndex := s'.readIndex)
    requires s'.readIndex == Slot(s'.consumed, s.capacity)
    ensures Placed(s')
  {
    forall p | 0 <= p < |s'.producers| ensures ProducerPlaced(s', s'.producers[p]) {
      assert ProducerPlaced(s, s.producers[p]);
    }
  }

  /** In every state of the run the unread events fit: 0 <= W - G < capacity. */
  ghost predicate AlwaysWithin<T>(s: State<T>, acts: seq<Action<T>>)
    requires 0 < s.capacity == |s.slots| && Runs(s, acts, false, false)
    decreases |acts|
  {
    0 <= |s.claims| - s.consumed < s.capacity && (acts == [] || AlwaysWithin(Step(s, acts[0]), acts[1..]))
  }

  /** No successful swap of the run meets a full buffer. */
  ghost predicate AlwaysRoom<T>(s: State<T>, acts: seq<Action<T>>)
    requires 0 < s.capacity == |s.slots| && Runs(s, acts, false, false)
    decreases |acts|
  {
    acts == [] || (RoomAtSwap(s, acts[0]) && AlwaysRoom(Step(s, acts[0]), acts[1..]))
  }

  /**
   * The exact condition: a run keeps 0 <= W - G < capacity throughout if and only if every swap finds
   * room; and then the indices stay the slots of those positions.
   */
  lemma {:induction false} RunBoundedIffRoom<T>(s: State<T>, acts: seq<Action<T>>)
    requires Bounded(s) && Runs(s, acts, false, false) && NoJoin(acts)
    ensures AlwaysWithin(s, acts) <==> AlwaysRoom(s, acts)
    ensures AlwaysRoom(s, acts) ==> Bounded(Run(s, acts))
    decreases |acts|
  {
    if acts == [] {
    } else {
      StepBoundedIffRoom(s, acts[0]);
      if RoomAtSwap(s, acts[0]) {
        RunBoundedIffRoom(Step(s, acts[0]), acts[1..]);
      }
    }
  }

  /**
   * Fewer than a lap of claims between a producer's load and its swap are enough for the bound, however
   * early slots are read; by ClaimIsFresh every successful swap is then fresh, too.
   */
  lemma {:induction false} RunWithinLapIsBounded<T>(s: State<T>, acts: seq<Action<T>>)
    requires Bounded(s) && Runs(s, acts, true, false) && NoJoin(acts)
    ensures Runs(s, acts, false, false) && AlwaysWithin(s, acts) && s.consumed <= Run(s, acts).consumed
    decreases |acts|
  {
    RunsFreely(s, acts, true, false);
    if acts == [] {
    } else {
      WithinLapLeavesRoom(s, acts[0]);
      StepBoundedIffRoom(s, acts[0]);
      RunWithinLapIsBounded(Step(s, acts[0]), acts[1..]);
    }
  }

  // ---------- What the reader receives ----------

  /** More claims and more stores by others do not disturb the reader. */
  lemma ReaderStays<T>(s: State<T>, s': State<T>, rd: Reader<T>)
    requires 0 < s.capacity == s'.capacity && ReaderOk(s, rd)
    requires s.claims <= s'.claims && s.stored <= s'.stored
    requires s'.consumed == s.consumed && s'.readIndex == s.readIndex
    ensures ReaderOk(s', rd)
  {
    assert s'.claims[..rd.position] == s.claims[..rd.position];
  }

  lemma ProducersKeepInv<T>(s: State<T>, a: Action<T>)
    requires Inv(s) && Enabled(s, a) && ByProducer(a) && WithinLap(s, a)
    ensures Inv(Step(s, a)) && Step(s, a).consumed == s.consumed
  {
    ProducerStepKeepsCore(s, a);
    ReaderStays(s, Step(s, a), s.readers[0]);
  }

  lemma WaitsKeepInv<T>(s: State<T>, a: Action<T>)
    requires Inv(s) && Enabled(s, a) && a.Wait?
    ensures Inv(Step(s, a)) && Step(s, a).consumed == s.consumed
  {
    WaitKeepsCore(s);
    ReaderStays(s, Step(s, a), s.readers[0]);
  }

  lemma FetchKeepsInv<T>(s: State<T>, a: Action<T>)
    requires Inv(s) && a.Fetch? && Enabled(s, a) && ReadsStored(s, a)
    ensures Inv(Step(s, a))
  {
    var s', rd := Step(s, a), s.readers[a.r];
    CoreIgnoresReaders(s, s'.readers);
    ModArith.Small(rd.index + 1, UINT32_RANGE);
    ModArith.Next(rd.position, s.capacity);
    assert s.slots[Slot(rd.position, s.capacity)] == s.claims[rd.position];
    assert s.claims[..rd.position] + [s.claims[rd.position]] == s.claims[..rd.position + 1];
    assert ReaderOk(s', s'.readers[0]);
  }

  /** When the swap on the read index succeeds, no producer in flight holds the position given up. */
  lemma ConsumeKeepsCore<T>(s: State<T>, s': State<T>)
    requires Core(s) && s.consumed < |s.claims| && s.consumed in s.stored
    requires s' == s.(readers := s'.readers, consumed := s.consumed + 1, readIndex := Slot(s.consumed + 1, s.capacity))
    ensures Core(s')
  {
    forall p | 0 <= p < |s'.producers| ensures ProducerOk(s', s'.producers[p]) {
      assert ProducerOk(s, s.producers[p]);
    }
    assert Aligned(s') && ProducersOk(s') && ClaimsHeld(s') && SlotsFilled(s') && Balanced(s');
  }

  lemma AdvanceKeepsInv<T>(s: State<T>, a: Action<T>)
    requires Inv(s) && a.Advance? && Enabled(s, a)
    ensures Inv(Step(s, a)) && Step(s, a).consumed == s.consumed + 1
  {
    var s' := Step(s, a);
    ConsumeKeepsCore(s, s');
    assert ReaderOk(s', s'.readers[0]);
  }

  /** Loads, comparisons and failed swaps of the reader change only where the reader is. */
  lemma LoadsKeepInv<T>(s: State<T>, a: Action<T>)
    requires Inv(s) && Enabled(s, a) && (a.LoadEnd? || a.LoadOld? || a.AdvanceFails?)
    ensures Inv(Step(s, a)) && Step(s, a).consumed == s.consumed
  {
    var s' := Step(s, a);
    CoreIgnoresReaders(s, s'.readers);
    if a.LoadOld? {
      ReaderAdvances(s);
    }
    assert ReaderOk(s', s'.readers[0]);
  }

  lemma StepKeepsInv<T>(s: State<T>, a: Action<T>)
    requires Inv(s) && Enabled(s, a) && WithinLap(s, a) && ReadsStored(s, a)
    requires !a.Join?
    ensures Inv(Step(s, a)) && s.consumed <= Step(s, a).consumed
  {
    if ByProducer(a) {
      ProducersKeepInv(s, a);
    } else if a.Wait? {
      WaitsKeepInv(s, a);
    } else if a.Fetch? {
      FetchKeepsInv(s, a);
    } else if a.Advance? {
      AdvanceKeepsInv(s, a);
    } else {
      LoadsKeepInv(s, a);
    }
  }

  /**
   * Every disciplined run keeps 0 <= W - G < capacity for the absolute write and read positions, the
   * global read position never moves back, and the reader has received exactly the first events of the
   * log in swap order, while the stored events it has not read lie intact in their slots.
   */
  lemma {:induction false} DisciplinedRun<T>(s: State<T>, acts: seq<Action<T>>)
    requires Inv(s) && Runs(s, acts, true, true) && NoJoin(acts)
    ensures Runs(s, acts, false, false) && Inv(Run(s, acts)) && s.consumed <= Run(s, acts).consumed
    decreases |acts|
  {
    RunsFreely(s, acts, true, true);
    if acts == [] {
    } else {
      StepKeepsInv(s, acts[0]);
      DisciplinedRun(Step(s, acts[0]), acts[1..]);
    }
  }

  lemma ReachableQueue<T>(s0: State<T>, acts: seq<Action<T>>)
    requires Initial(s0) && s0.capacity <= UINT32_RANGE / 2 && |s0.readers| == 1 && s0.readers[0].updates
    requires Runs(s0, acts, true, true) && NoJoin(acts)
    ensures Runs(s0, acts, false, false)
    ensures
      var s := Run(s0, acts);
      && 0 <= |s.claims| - s.consumed < s.capacity
      && s.writeIndex == Slot(|s.claims|, s.capacity) && s.readIndex == Slot(s.consumed, s.capacity)
      && |s.readers| == 1 && s.readers[0].position <= |s.claims|
      && s.readers[0].received == s.claims[..s.readers[0].position]
      && (forall p, q :: 0 <= p < q < |s.producers| && s.producers[p].Claimed? && s.producers[q].Claimed? ==>
            s.producers[p].index != s.producers[q].index)
      && (forall i :: s.consumed <= i < |s.claims| && i in s.stored ==> s.slots[Slot(i, s.capacity)] == s.claims[i])
  {
    InitialInv(s0);
    DisciplinedRun(s0, acts);
    var s := Run(s0, acts);
    forall p, q | 0 <= p < q < |s.producers| && s.producers[p].Claimed? && s.producers[q].Claimed?
      ensures s.producers[p].index != s.producers[q].index
    {
      assert ProducerOk(s, s.producers[p]) && ProducerOk(s, s.producers[q]);
      if s.producers[p].index == s.producers[q].index {
        ModArith.Congruent(s.producers[p].at, s.producers[q].at, s.capacity);
      }
    }
  }
}
