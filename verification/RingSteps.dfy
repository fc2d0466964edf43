/**
 * The ring buffer one atomic access at a time (include/ShmRingBuffer.h, src/IPCEventCenter.cpp).
 *
 * Any number of producers run `publish` and any number of readers run `read`; every load,
 * compare-and-swap, store and semaphore call is a separate step, and steps interleave freely. The
 * state carries the history the theorems speak about: `claims` (the events in the order of their
 * successful compare-and-swaps), `stored` (the positions already written to their slots), `consumed`
 * (the absolute position the global read index stands for) and `waits` (successful semaphore waits).
 */
module RingSteps {
  import opened Common
  import opened ShmRing
  import ModArith

  /** Where a producer is inside `publish`; `at` is the number of claims made before its load of the write index. */
  datatype Producer<T> =
    | Idle
    | Trying(event: T)
    | Loaded(event: T, index: nat, at: nat)
    | Checked(event: T, index: nat, at: nat)
    | Claimed(event: T, index: nat, at: nat)
    | Stored
    | Posted

  /**
   * Where a reader is inside `read`; `upTo` is the number of claims its snapshot of the write index stands
   * for, and `loaded` the absolute position the global read index it loaded stood for.
   */
  datatype Phase =
    | Resting
    | Snapshot(write: nat, upTo: nat)
    | Advanced(write: nat, upTo: nat)
    | Compared(write: nat, upTo: nat, oldRead: nat, loaded: nat)

  datatype Reader<T> = Reader(updates: bool, index: nat, start: nat, position: nat, phase: Phase, received: seq<T>)

  datatype State<T> = State(
    capacity: nat, blank: T,
    writeIndex: nat, readIndex: nat, slots: seq<T>, sem: nat, total: nat,
    producers: seq<Producer<T>>, readers: seq<Reader<T>>,
    claims: seq<T>, stored: set<nat>, consumed: nat, waits: nat)

  datatype Action<T> =
    | Begin(p: nat, event: T)   // publish is called
    | LoadWrite(p: nat)         // load of m_writeIndex
    | CheckFull(p: nat)         // load of m_readIndex and the full test
    | Claim(p: nat)             // compare-and-swap on m_writeIndex
    | ClaimFails(p: nat)        // the weak compare-and-swap fails spuriously
    | Store(p: nat)             // the event is copied into its slot
    | Post(p: nat)              // sem_post
    | Count(p: nat)             // totalEvents is incremented under the header lock
    | Join(r: nat)              // a subscriber takes over the current write index
    | LoadEnd(r: nat)           // load of m_writeIndex and the empty test
    | Fetch(r: nat)             // the event is copied out and the private index advances
    | LoadOld(r: nat)           // load of m_readIndex and the comparison of distances
    | Advance(r: nat)           // compare-and-swap on m_readIndex
    | AdvanceFails(r: nat)      // the weak compare-and-swap fails spuriously
    | Wait                      // sem_wait or sem_trywait succeeds

  predicate ByProducer<T>(a: Action<T>) {
    a.Begin? || a.LoadWrite? || a.CheckFull? || a.Claim? || a.ClaimFails? || a.Store? || a.Post? || a.Count?
  }

  predicate Enabled<T>(s: State<T>, a: Action<T>) {
    if a.Wait? then s.sem > 0
    else if ByProducer(a) then
      a.p < |s.producers| &&
      var pc := s.producers[a.p];
      match a
      case Begin(_, _) => pc.Idle?
      case LoadWrite(_) => pc.Trying?
      case CheckFull(_) => pc.Loaded?
      case Store(_) => pc.Claimed? && pc.index < |s.slots|
      case Post(_) => pc.Stored?
      case Count(_) => pc.Posted?
      case _ => pc.Checked?
    else
      a.r < |s.readers| &&
      var phase := s.readers[a.r].phase;
      match a
      case Fetch(_) => phase.Snapshot? && s.readers[a.r].index < |s.slots|
      case LoadOld(_) => phase.Advanced?
      case Advance(_) => phase.Compared?
      case AdvanceFails(_) => phase.Compared?
      case _ => phase.Resting?
  }

  function Step<T>(s: State<T>, a: Action<T>): (s': State<T>)
    requires 0 < s.capacity == |s.slots| && Enabled(s, a)
    ensures |s'.slots| == s'.capacity == s.capacity
    ensures s.claims <= s'.claims && s.stored <= s'.stored
  {
    if a.Wait? then s.(sem := s.sem - 1, waits := s.waits + 1)
    else if ByProducer(a) then ProducerStep(s, a)
    else ReaderStep(s, a)
  }

  function ProducerStep<T>(s: State<T>, a: Action<T>): State<T>
    requires 0 < s.capacity == |s.slots| && Enabled(s, a) && ByProducer(a)
  {
    var pc := s.producers[a.p];
    match a
    case Begin(p, e) => Move(s, p, Trying(e))
    case LoadWrite(p) => Move(s, p, Loaded(pc.event, s.writeIndex, |s.claims|))
    case CheckFull(p) =>
      if U32(pc.index + 1) % s.capacity == s.readIndex then Move(s, p, Idle)
      else Move(s, p, Checked(pc.event, pc.index, pc.at))
    case Claim(p) =>
      if s.writeIndex != pc.index then Move(s, p, Trying(pc.event))
      else Move(s, p, Claimed(pc.event, pc.index, |s.claims|))
           .(writeIndex := U32(pc.index + 1) % s.capacity, claims := s.claims + [pc.event])
    case ClaimFails(p) => Move(s, p, Trying(pc.event))
    case Store(p) =>
      Move(s, p, Stored).(slots := s.slots[pc.index := pc.event], stored := s.stored + {pc.at})
    case Post(p) => Move(s, p, Posted).(sem := s.sem + 1)
    case Count(p) => Move(s, p, Idle).(total := s.total + 1)
  }

  function Move<T>(s: State<T>, p: nat, pc: Producer<T>): State<T>
    requires p < |s.producers|
  {
    s.(producers := s.producers[p := pc])
  }

  function ReaderStep<T>(s: State<T>, a: Action<T>): State<T>
    requires 0 < s.capacity == |s.slots| && Enabled(s, a) && !ByProducer(a) && !a.Wait?
  {
    var rd := s.readers[a.r];
    match a
    case Join(r) =>
      Turn(s, r, rd.(index := s.writeIndex, start := |s.claims|, position := |s.claims|, received := []))
    case LoadEnd(r) =>
      if rd.index == s.writeIndex then s else Turn(s, r, rd.(phase := Snapshot(s.writeIndex, |s.claims|)))
    case Fetch(r) =>
      Turn(s, r, rd.(index := U32(rd.index + 1) % s.capacity, position := rd.position + 1,
                     received := rd.received + [s.slots[rd.index]],
                     phase := if rd.updates then Advanced(rd.phase.write, rd.phase.upTo) else Resting))
    case LoadOld(r) =>
      var oldDist := Distance(rd.phase.write, s.readIndex, s.capacity);
      var newDist := Distance(rd.phase.write, rd.index, s.capacity);
      Turn(s, r, rd.(phase := if newDist >= oldDist then Resting
                              else Compared(rd.phase.write, rd.phase.upTo, s.readIndex, s.consumed)))
    case Advance(r) =>
      if s.readIndex != rd.phase.oldRead then Turn(s, r, rd.(phase := Advanced(rd.phase.write, rd.phase.upTo)))
      else Turn(s, r, rd.(phase := Resting)).(readIndex := rd.index, consumed := rd.position)
    case AdvanceFails(r) => Turn(s, r, rd.(phase := Advanced(rd.phase.write, rd.phase.upTo)))
  }

  function Turn<T>(s: State<T>, r: nat, rd: Reader<T>): State<T>
    requires r < |s.readers|
  {
    s.(readers := s.readers[r := rd])
  }

  // ---------- What every step keeps in the shared buffer ----------

  /** Indices a producer has loaded or claimed are slots of positions up to the present. */
  ghost predicate ProducerPlaced<T>(s: State<T>, pc: Producer<T>)
    requires 0 < s.capacity
  {
    match pc
    case Loaded(_, index, at) => at <= |s.claims| && index == Slot(at, s.capacity)
    case Checked(_, index, at) =>
      && at <= |s.claims| && index == Slot(at, s.capacity)
      && (at == |s.claims| ==> |s.claims| - s.consumed <= s.capacity - 2)
    case Claimed(_, index, at) => at < |s.claims| && index == Slot(at, s.capacity)
    case _ => true
  }

  /** A claim in flight is unread, not yet stored, and for the event in the log. */
  ghost predicate ProducerOk<T>(s: State<T>, pc: Producer<T>)
    requires 0 < s.capacity
  {
    && ProducerPlaced(s, pc)
    && (pc.Claimed? ==> s.consumed <= pc.at && pc.at !in s.stored && pc.event == s.claims[pc.at])
  }

  ghost predicate Holds<T>(pc: Producer<T>, at: nat) {
    pc.Claimed? && pc.at == at
  }

  /** Producers that have claimed a slot but not yet posted (or not yet counted) their event. */
  function Owing<T>(ps: seq<Producer<T>>, counting: bool): nat {
    if ps == [] then 0 else Debt(ps[0], counting) + Owing(ps[1..], counting)
  }

  function Debt<T>(pc: Producer<T>, counting: bool): nat {
    if pc.Claimed? || pc.Stored? || (counting && pc.Posted?) then 1 else 0
  }

  /** The indices are the slots of absolute positions less than a lap apart. */
  ghost predicate Aligned<T>(s: State<T>) {
    && 2 <= s.capacity == |s.slots| < UINT32_RANGE
    && s.consumed <= |s.claims| < s.consumed + s.capacity
    && s.writeIndex == Slot(|s.claims|, s.capacity)
    && s.readIndex == Slot(s.consumed, s.capacity)
  }

  /** The part of the invariant that is about indices only. */
  ghost predicate Placed<T>(s: State<T>) {
    Aligned(s) && forall p :: 0 <= p < |s.producers| ==> ProducerPlaced(s, s.producers[p])
  }

  ghost predicate ProducersOk<T>(s: State<T>)
    requires 0 < s.capacity
  {
    && (forall p :: 0 <= p < |s.producers| ==> ProducerOk(s, s.producers[p]))
    && (forall p, q :: 0 <= p < q < |s.producers| && s.producers[p].Claimed? && s.producers[q].Claimed? ==>
          s.producers[p].at != s.producers[q].at)
  }

  /** Every claimed position is stored already or held by a producer. */
  ghost predicate ClaimsHeld<T>(s: State<T>) {
    && (forall i :: i in s.stored ==> 0 <= i < |s.claims|)
    && (forall i: nat :: i < |s.claims| && i !in s.stored ==> exists p :: 0 <= p < |s.producers| && Holds(s.producers[p], i))
  }

  /** Stored events that are still to be read lie in their slots. */
  ghost predicate SlotsFilled<T>(s: State<T>)
    requires 0 < s.capacity == |s.slots|
  {
    forall i :: s.consumed <= i < |s.claims| && i in s.stored ==> s.slots[Slot(i, s.capacity)] == s.claims[i]
  }

  ghost predicate Balanced<T>(s: State<T>) {
    && s.sem + s.waits + Owing(s.producers, false) == |s.claims|
    && s.total + Owing(s.producers, true) == |s.claims|
  }

  ghost predicate Core<T>(s: State<T>) {
    Placed(s) && ProducersOk(s) && ClaimsHeld(s) && SlotsFilled(s) && Balanced(s)
  }

  /** Readers do not matter to the shared buffer. */
  lemma CoreIgnoresReaders<T>(s: State<T>, readers: seq<Reader<T>>)
    requires Core(s)
    ensures Core(s.(readers := readers))
  {
    var s' := s.(readers := readers);
    assert forall p :: 0 <= p < |s.producers| ==> ProducerOk(s, s.producers[p]) ==> ProducerOk(s', s'.producers[p]);
  }

  /** A wait moves one count from the semaphore to the waits. */
  lemma WaitKeepsCore<T>(s: State<T>)
    requires Core(s) && s.sem > 0
    ensures Core(s.(sem := s.sem - 1, waits := s.waits + 1))
  {
    var s' := s.(sem := s.sem - 1, waits := s.waits + 1);
    assert forall p :: 0 <= p < |s.producers| ==> ProducerOk(s, s.producers[p]) ==> ProducerOk(s', s'.producers[p]);
  }

  lemma {:induction false} OwingAfterMove<T>(ps: seq<Producer<T>>, p: nat, pc: Producer<T>, counting: bool)
    requires p < |ps|
    ensures Owing(ps[p := pc], counting) == Owing(ps, counting) - Debt(ps[p], counting) + Debt(pc, counting)
  {
    if p == 0 {
      assert ps[p := pc][1..] == ps[1..];
    } else {
      OwingAfterMove(ps[1..], p - 1, pc, counting);
      assert ps[p := pc][1..] == ps[1..][p - 1 := pc];
    }
  }

  /** The assumption of the wrapping theorem: fewer than a lap of claims between a producer's load and its swap. */
  predicate WithinLap<T>(s: State<T>, a: Action<T>)
    requires Enabled(s, a)
  {
    a.Claim? ==> |s.claims| - s.producers[a.p].at < s.capacity
  }

  /** Within a lap a successful swap means that no other producer claimed a slot since the load. */
  lemma ClaimIsFresh<T>(s: State<T>, a: Action<T>)
    requires Placed(s) && a.Claim? && Enabled(s, a) && WithinLap(s, a)
    ensures s.writeIndex == s.producers[a.p].index <==> s.producers[a.p].at == |s.claims|
    ensures s.writeIndex != s.producers[a.p].index ==> s.producers[a.p].at < |s.claims|
  {
    assert ProducerPlaced(s, s.producers[a.p]);
    if s.writeIndex == s.producers[a.p].index {
      ModArith.Congruent(|s.claims|, s.producers[a.p].at, s.capacity);
    }
  }

  lemma IndexAfter<T>(s: State<T>, at: nat)
    requires Aligned(s)
    ensures U32(Slot(at, s.capacity) + 1) % s.capacity == Slot(at + 1, s.capacity)
  {
    ModArith.Small(Slot(at, s.capacity) + 1, UINT32_RANGE);
    ModArith.Next(at, s.capacity);
  }

  /** The full test passes only when a slot is free, as far as no claim came in between. */
  lemma CheckLeavesRoom<T>(s: State<T>, a: Action<T>)
    requires Placed(s) && a.CheckFull? && Enabled(s, a)
    requires U32(s.producers[a.p].index + 1) % s.capacity != s.readIndex
    ensures s.producers[a.p].at == |s.claims| ==> |s.claims| - s.consumed <= s.capacity - 2
  {
    assert ProducerPlaced(s, s.producers[a.p]);
    IndexAfter(s, s.producers[a.p].at);
    ModArith.Shift(s.consumed, s.capacity);
  }

  /**
   * The exact condition for a refusal, less than a lap after the load: the buffer was full at the load and
   * still is, or the reader has meanwhile come to stand one position after the loaded index. In the second
   * case nothing is full.
   */
  lemma RefusalIff<T>(s: State<T>, a: Action<T>)
    requires Placed(s) && a.CheckFull? && Enabled(s, a) && |s.claims| - s.producers[a.p].at < s.capacity
    ensures var at := s.producers[a.p].at;
            Step(s, a).producers[a.p].Idle? <==>
              (at == |s.claims| && |s.claims| - s.consumed == s.capacity - 1) || s.consumed == at + 1
    ensures s.consumed == s.producers[a.p].at + 1 ==> |s.claims| - s.consumed < s.capacity - 1
  {
    var at := s.producers[a.p].at;
    assert ProducerPlaced(s, s.producers[a.p]);
    IndexAfter(s, at);
    ModArith.Shift(s.consumed, s.capacity);
    if Slot(at + 1, s.capacity) == s.readIndex {
      if at + 1 < s.consumed + s.capacity {
        ModArith.Congruent(at + 1, s.consumed, s.capacity);
      }
    }
  }

  /** What a successful swap does, given that it is fresh. */
  lemma ClaimKeepsProducers<T>(s: State<T>, p: nat, s': State<T>)
    requires Core(s) && p < |s.producers| && s.producers[p].Checked?
    requires |s.claims| - s.consumed <= s.capacity - 2
    requires s' == Move(s, p, Claimed(s.producers[p].event, s.writeIndex, |s.claims|))
                   .(writeIndex := Slot(|s.claims| + 1, s.capacity), claims := s.claims + [s.producers[p].event])
    ensures Placed(s') && ProducersOk(s') && SlotsFilled(s')
  {
    assert ProducerOk(s, s.producers[p]);
    forall q | 0 <= q < |s'.producers| ensures ProducerOk(s', s'.producers[q]) {
      assert ProducerOk(s, s.producers[q]);
    }
  }

  /** A successful swap finds a free slot. */
  predicate RoomAtSwap<T>(s: State<T>, a: Action<T>)
    requires Enabled(s, a)
  {
    a.Claim? && s.writeIndex == s.producers[a.p].index ==> |s.claims| - s.consumed <= s.capacity - 2
  }

  /** Within a lap the full test made before the swap still holds at the swap. */
  lemma WithinLapLeavesRoom<T>(s: State<T>, a: Action<T>)
    requires Placed(s) && Enabled(s, a) && WithinLap(s, a)
    ensures RoomAtSwap(s, a)
  {
    if a.Claim? {
      ClaimIsFresh(s, a);
      assert ProducerPlaced(s, s.producers[a.p]);
    }
  }

  /** The indices stay placed, and a lap apart at most, as long as no swap meets a full buffer. */
  lemma ProducerStepKeepsPlaced<T>(s: State<T>, a: Action<T>)
    requires Placed(s) && Enabled(s, a) && ByProducer(a) && RoomAtSwap(s, a)
    ensures Placed(Step(s, a))
  {
    var s', pc := Step(s, a), s.producers[a.p];
    assert ProducerPlaced(s, pc);
    if a.Claim? {
      IndexAfter(s, |s.claims|);
    }
    if a.CheckFull? && s'.producers[a.p].Checked? {
      CheckLeavesRoom(s, a);
    }
    assert Aligned(s') && ProducerPlaced(s', s'.producers[a.p]);
    forall q | 0 <= q < |s'.producers| && q != a.p ensures ProducerPlaced(s', s'.producers[q]) {
      assert ProducerPlaced(s, s.producers[q]);
    }
  }

  lemma ClaimKeepsCore<T>(s: State<T>, a: Action<T>)
    requires Core(s) && a.Claim? && Enabled(s, a) && RoomAtSwap(s, a)
    ensures Core(Step(s, a))
  {
    var s', pc := Step(s, a), s.producers[a.p];
    assert ProducerOk(s, pc);
    if s.writeIndex == pc.index {
      IndexAfter(s, |s.claims|);
      ClaimKeepsProducers(s, a.p, s');
      OwingAfterMove(s.producers, a.p, s'.producers[a.p], false);
      OwingAfterMove(s.producers, a.p, s'.producers[a.p], true);
      HoldersAfter(s, s', a.p);
      assert ClaimsHeld(s') && Balanced(s');
    } else {
      MoveKeepsCore(s, a.p, Trying(pc.event), s.sem, s.total);
    }
  }

  /** The exact condition: a compare-and-swap keeps the invariant if and only if it leaves less than a lap unread. */
  lemma SwapKeepsCoreIffRoom<T>(s: State<T>, a: Action<T>)
    requires Core(s) && a.Claim? && Enabled(s, a)
    ensures Core(Step(s, a)) <==> RoomAtSwap(s, a)
    ensures !RoomAtSwap(s, a) ==> |Step(s, a).claims| - s.consumed == s.capacity
  {
    if RoomAtSwap(s, a) {
      ClaimKeepsCore(s, a);
    }
  }

  /** A slot position keeps its holder as long as the moving producer does not let go of it. */
  lemma HoldersAfter<T>(s: State<T>, s': State<T>, p: nat)
    requires Core(s) && p < |s.producers| && |s'.producers| == |s.producers|
    requires forall q :: 0 <= q < |s.producers| && q != p ==> s'.producers[q] == s.producers[q]
    requires |s.claims| <= |s'.claims| && s.stored <= s'.stored
    requires s.producers[p].Claimed? ==> s.producers[p].at in s'.stored
    requires forall i: nat :: |s.claims| <= i < |s'.claims| ==> Holds(s'.producers[p], i)
    ensures forall i: nat :: i < |s'.claims| && i !in s'.stored ==>
              exists q :: 0 <= q < |s'.producers| && Holds(s'.producers[q], i)
  {
    forall i: nat | i < |s'.claims| && i !in s'.stored
      ensures exists q :: 0 <= q < |s'.producers| && Holds(s'.producers[q], i)
    {
      if i < |s.claims| {
        var q :| 0 <= q < |s.producers| && Holds(s.producers[q], i);
        assert q != p && Holds(s'.producers[q], i);
      } else {
        assert Holds(s'.producers[p], i);
      }
    }
  }

  lemma StoreFillsSlot<T>(s: State<T>, p: nat, s': State<T>)
    requires Core(s) && p < |s.producers| && s.producers[p].Claimed? && s.producers[p].index < |s.slots|
    requires var pc := s.producers[p];
             s' == Move(s, p, Stored).(slots := s.slots[pc.index := pc.event], stored := s.stored + {pc.at})
    ensures Placed(s') && ProducersOk(s') && SlotsFilled(s')
  {
    var pc := s.producers[p];
    assert ProducerOk(s, pc);
    forall q | 0 <= q < |s'.producers| ensures ProducerOk(s', s'.producers[q]) {
      assert ProducerOk(s, s.producers[q]);
    }
    forall i | s'.consumed <= i < |s'.claims| && i in s'.stored
      ensures s'.slots[Slot(i, s'.capacity)] == s'.claims[i]
    {
      if i != pc.at && Slot(i, s.capacity) == pc.index {
        ModArith.Congruent(i, pc.at, s.capacity);
      }
    }
  }

  lemma StoreKeepsCore<T>(s: State<T>, a: Action<T>)
    requires Core(s) && a.Store? && Enabled(s, a)
    ensures Core(Step(s, a))
  {
    var s', pc := Step(s, a), s.producers[a.p];
    assert ProducerOk(s, pc);
    StoreFillsSlot(s, a.p, s');
    OwingAfterMove(s.producers, a.p, Stored, false);
    OwingAfterMove(s.producers, a.p, Stored, true);
    HoldersAfter(s, s', a.p);
    assert ClaimsHeld(s') && Balanced(s');
  }

  /** A step that neither claims nor stores keeps the invariant if it pays its debt to the counters. */
  lemma MoveKeepsCore<T>(s: State<T>, p: nat, pc: Producer<T>, sem: nat, total: nat)
    requires Core(s) && p < |s.producers| && !s.producers[p].Claimed? && !pc.Claimed? && ProducerOk(s, pc)
    requires sem - s.sem == Debt(s.producers[p], false) - Debt(pc, false)
    requires total - s.total == Debt(s.producers[p], true) - Debt(pc, true)
    ensures Core(Move(s, p, pc).(sem := sem, total := total))
  {
    var s' := Move(s, p, pc).(sem := sem, total := total);
    OwingAfterMove(s.producers, p, pc, false);
    OwingAfterMove(s.producers, p, pc, true);
    forall q | 0 <= q < |s'.producers| ensures ProducerOk(s', s'.producers[q]) {
      assert ProducerOk(s, s.producers[q]);
    }
    HoldersAfter(s, s', p);
  }

  lemma ProducerStepKeepsCore<T>(s: State<T>, a: Action<T>)
    requires Core(s) && Enabled(s, a) && ByProducer(a) && WithinLap(s, a)
    ensures Core(Step(s, a))
  {
    if a.Claim? {
      WithinLapLeavesRoom(s, a);
      ClaimKeepsCore(s, a);
    } else if a.Store? {
      StoreKeepsCore(s, a);
    } else {
      assert ProducerOk(s, s.producers[a.p]);
      var s' := Step(s, a);
      if a.CheckFull? && s'.producers[a.p].Checked? {
        CheckLeavesRoom(s, a);
      }
      MoveKeepsCore(s, a.p, s'.producers[a.p], s'.sem, s'.total);
    }
  }

  // ---------- Runs ----------

  /** A fetched slot has been stored before. */
  predicate ReadsStored<T>(s: State<T>, a: Action<T>)
    requires Enabled(s, a)
  {
    a.Fetch? ==> s.readers[a.r].position in s.stored
  }

  /** The actions can be taken one after the other; `lap` and `late` impose the two conditions on every step. */
  ghost predicate Runs<T>(s: State<T>, acts: seq<Action<T>>, lap: bool, late: bool)
    requires 0 < s.capacity == |s.slots|
    decreases |acts|
  {
    acts == [] ||
    (&& Enabled(s, acts[0])
     && (lap ==> WithinLap(s, acts[0]))
     && (late ==> ReadsStored(s, acts[0]))
     && Runs(Step(s, acts[0]), acts[1..], lap, late))
  }

  /** No subscriber joins, so nobody's received events are set aside. */
  ghost predicate NoJoin<T>(acts: seq<Action<T>>) {
    forall a :: a in acts ==> !a.Join?
  }

  ghost function Run<T>(s: State<T>, acts: seq<Action<T>>): (s': State<T>)
    requires 0 < s.capacity == |s.slots| && Runs(s, acts, false, false)
    ensures |s'.slots| == s'.capacity == s.capacity && s.claims <= s'.claims
    decreases |acts|
  {
    if acts == [] then s else Run(Step(s, acts[0]), acts[1..])
  }

  lemma {:induction false} RunsFreely<T>(s: State<T>, acts: seq<Action<T>>, lap: bool, late: bool)
    requires 0 < s.capacity == |s.slots| && Runs(s, acts, lap, late)
    ensures Runs(s, acts, false, false)
    decreases |acts|
  {
    if acts == [] {
    } else {
      RunsFreely(Step(s, acts[0]), acts[1..], lap, late);
    }
  }

  /** A run in two parts. */
  lemma {:induction false} RunsSplit<T>(s: State<T>, a: seq<Action<T>>, b: seq<Action<T>>, lap: bool, late: bool)
    requires 0 < s.capacity == |s.slots| && Runs(s, a + b, lap, late)
    ensures Runs(s, a, lap, late) && Runs(s, a, false, false) && Runs(s, a + b, false, false)
    ensures Runs(Run(s, a), b, lap, late) && Runs(Run(s, a), b, false, false)
    ensures Run(s, a + b) == Run(Run(s, a), b)
    decreases |a|
  {
    RunsFreely(s, a + b, lap, late);
    if a == [] {
      assert a + b == b;
    } else {
      assert (a + b)[1..] == a[1..] + b;
      RunsSplit(Step(s, a[0]), a[1..], b, lap, late);
    }
  }

  /** Everything at rest and empty, as `initialize` leaves it. */
  ghost predicate Initial<T>(s: State<T>) {
    && 2 <= s.capacity == |s.slots| < UINT32_RANGE
    && s.writeIndex == s.readIndex == s.sem == s.total == s.consumed == s.waits == 0
    && (forall i :: 0 <= i < |s.slots| ==> s.slots[i] == s.blank)
    && (forall p :: 0 <= p < |s.producers| ==> s.producers[p].Idle?)
    && (forall r :: 0 <= r < |s.readers| ==>
          s.readers[r] == Reader(s.readers[r].updates, 0, 0, 0, Resting, []))
    && s.claims == [] && s.stored == {}
  }

  lemma {:induction false} NothingOwed<T>(ps: seq<Producer<T>>, counting: bool)
    requires forall p :: 0 <= p < |ps| ==> Debt(ps[p], counting) == 0
    ensures Owing(ps, counting) == 0
  {
    if ps == [] {
    } else {
      NothingOwed(ps[1..], counting);
    }
  }

  lemma InitialCore<T>(s: State<T>)
    requires Initial(s)
    ensures Core(s)
  {
    NothingOwed(s.producers, false);
    NothingOwed(s.producers, true);
    ModArith.Small(0, s.capacity);
  }
}
