/**
 * Interleavings with any number of readers that update the global read index (include/ShmRingBuffer.h).
 * A reader compares distances from the snapshot of the write index it took before its fetch. If the global
 * position passes that snapshot before the comparison, the comparison is misled, and the swap that follows
 * moves the global read index back. Over runs in which no reader is lapped, nothing else can.
 */
module ReaderRaces {
  import opened Common
  import opened ShmRing
  import opened RingSteps
  import ModArith

  /** The indices a reader holds are the slots of its positions; a comparison that it passed was right or misled. */
  ghost predicate ReaderTracked<T>(s: State<T>, rd: Reader<T>)
    requires 0 < s.capacity
  {
    && rd.index == Slot(rd.position, s.capacity) && rd.position <= |s.claims|
    && (!rd.phase.Resting? ==>
          rd.phase.write == Slot(rd.phase.upTo, s.capacity) && rd.position <= rd.phase.upTo <= |s.claims|)
    && (rd.phase.Snapshot? ==> rd.position < rd.phase.upTo)
    && (rd.phase.Compared? ==>
          && rd.phase.oldRead == Slot(rd.phase.loaded, s.capacity)
          && (rd.phase.loaded < rd.position || rd.phase.upTo < rd.phase.loaded))
  }

  ghost predicate Tracked<T>(s: State<T>) {
    && 2 <= s.capacity == |s.slots| <= UINT32_RANGE / 2
    && s.writeIndex == Slot(|s.claims|, s.capacity) && s.readIndex == Slot(s.consumed, s.capacity)
    && s.consumed <= |s.claims|
    && forall r :: 0 <= r < |s.readers| ==> ReaderTracked(s, s.readers[r])
  }

  /** No reader is lapped where it compares or swaps: by its snapshot, or by others moving the global position. */
  predicate Near<T>(s: State<T>, a: Action<T>)
    requires Enabled(s, a)
  {
    && (a.LoadOld? ==>
          var rd := s.readers[a.r];
          rd.phase.upTo - rd.position < s.capacity && s.consumed - rd.position < s.capacity
          && rd.phase.upTo - s.consumed < s.capacity)
    && (a.Advance? ==>
          var loaded := s.readers[a.r].phase.loaded;
          s.consumed - loaded < s.capacity && loaded - s.consumed < s.capacity)
  }

  /** The comparison lets the reader go on exactly if its position is ahead, or the global one has passed its snapshot. */
  lemma ComparesIff<T>(s: State<T>, a: Action<T>)
    requires 0 < s.capacity == |s.slots| <= UINT32_RANGE / 2 && a.LoadOld? && Enabled(s, a) && Near(s, a)
    requires s.readIndex == Slot(s.consumed, s.capacity) && ReaderTracked(s, s.readers[a.r])
    ensures var rd := s.readers[a.r];
            Step(s, a).readers[a.r].phase.Compared? <==> s.consumed < rd.position || rd.phase.upTo < s.consumed
  {
    var rd := s.readers[a.r];
    DistanceTo(rd.phase.upTo, rd.position, s.capacity);
    DistanceTo(rd.phase.upTo, s.consumed, s.capacity);
  }

  /** A swap on the read index that succeeds although the global position has passed the reader's snapshot. */
  predicate Overtaken<T>(s: State<T>, a: Action<T>)
    requires Enabled(s, a)
  {
    a.Advance? && s.readIndex == s.readers[a.r].phase.oldRead && s.readers[a.r].phase.upTo < s.consumed
  }

  /** The exact condition for one step, whatever other readers did since the reader's load. */
  lemma StepMovesBackIff<T>(s: State<T>, a: Action<T>)
    requires Tracked(s) && Enabled(s, a) && Near(s, a)
    ensures Step(s, a).consumed < s.consumed <==> Overtaken(s, a)
  {
    if a.Advance? && s.readIndex == s.readers[a.r].phase.oldRead {
      ModArith.Congruent(s.consumed, s.readers[a.r].phase.loaded, s.capacity);
    }
  }

  lemma ReaderStepKeepsTracked<T>(s: State<T>, a: Action<T>)
    requires Tracked(s) && Enabled(s, a) && Near(s, a) && !ByProducer(a) && !a.Wait?
    ensures ReaderTracked(s, Step(s, a).readers[a.r])
  {
    var rd := s.readers[a.r];
    assert ReaderTracked(s, rd);
    if a.Fetch? {
      ModArith.Small(rd.index + 1, UINT32_RANGE);
      ModArith.Next(rd.position, s.capacity);
    } else if a.LoadOld? {
      ComparesIff(s, a);
    }
  }

  lemma ProducerStepKeepsTracked<T>(s: State<T>, a: Action<T>)
    requires Tracked(s) && Enabled(s, a) && ByProducer(a)
    ensures Tracked(Step(s, a))
  {
    var s' := Step(s, a);
    if a.Claim? {
      ModArith.Small(s.writeIndex + 1, UINT32_RANGE);
      ModArith.Next(|s.claims|, s.capacity);
    }
    forall r | 0 <= r < |s'.readers| ensures ReaderTracked(s', s'.readers[r]) {
      assert ReaderTracked(s, s.readers[r]);
    }
  }

  lemma StepKeepsTracked<T>(s: State<T>, a: Action<T>)
    requires Tracked(s) && Enabled(s, a) && Near(s, a)
    ensures Tracked(Step(s, a))
  {
    var s' := Step(s, a);
    if ByProducer(a) {
      ProducerStepKeepsTracked(s, a);
    } else {
      if !a.Wait? {
        ReaderStepKeepsTracked(s, a);
      }
      forall r | 0 <= r < |s'.readers| ensures ReaderTracked(s', s'.readers[r]) {
        assert ReaderTracked(s, s.readers[r]);
      }
    }
  }

  /** No reader of the run is lapped where it compares or swaps. */
  ghost predicate AlwaysNear<T>(s: State<T>, acts: seq<Action<T>>)
    requires 0 < s.capacity == |s.slots| && Runs(s, acts, false, false)
    decreases |acts|
  {
    acts == [] || (Near(s, acts[0]) && AlwaysNear(Step(s, acts[0]), acts[1..]))
  }

  ghost predicate NeverMovesBack<T>(s: State<T>, acts: seq<Action<T>>)
    requires 0 < s.capacity == |s.slots| && Runs(s, acts, false, false)
    decreases |acts|
  {
    acts == [] || (s.consumed <= Step(s, acts[0]).consumed && NeverMovesBack(Step(s, acts[0]), acts[1..]))
  }

  ghost predicate NeverOvertaken<T>(s: State<T>, acts: seq<Action<T>>)
    requires 0 < s.capacity == |s.slots| && Runs(s, acts, false, false)
    decreases |acts|
  {
    acts == [] || (!Overtaken(s, acts[0]) && NeverOvertaken(Step(s, acts[0]), acts[1..]))
  }

  /**
   * The exact condition over runs of any number of producers, updating readers and subscribers: the global
   * read position never moves back if and only if no swap succeeds after it has passed the swapping
   * reader's snapshot.
   */
  lemma {:induction false} RunNeverMovesBackIff<T>(s: State<T>, acts: seq<Action<T>>)
    requires Tracked(s) && Runs(s, acts, false, false) && AlwaysNear(s, acts)
    ensures NeverMovesBack(s, acts) <==> NeverOvertaken(s, acts)
    ensures Tracked(Run(s, acts))
    decreases |acts|
  {
    if acts == [] {
    } else {
      StepMovesBackIff(s, acts[0]);
      StepKeepsTracked(s, acts[0]);
      RunNeverMovesBackIff(Step(s, acts[0]), acts[1..]);
    }
  }

  lemma InitialTracked<T>(s: State<T>)
    requires Initial(s) && s.capacity <= UINT32_RANGE / 2
    ensures Tracked(s)
  {
    ModArith.Small(0, s.capacity);
  }
}
