/**
 * Uninterrupted calls, and the runs that show why the conditions of QueueSteps, SubscriberSteps and
 * ReaderRaces are needed (include/ShmRingBuffer.h).
 */
module StepWitnesses {
  import opened Common
  import opened ShmRing
  import opened RingSteps
  import opened ReaderRaces
  import ModArith

  ghost predicate Reaches<T>(s: State<T>, acts: seq<Action<T>>, t: State<T>) {
    0 < s.capacity == |s.slots| && Runs(s, acts, false, false) && Run(s, acts) == t
  }

  lemma Once<T>(s: State<T>, a: Action<T>, t: State<T>)
    requires 0 < s.capacity == |s.slots| && Enabled(s, a) && Step(s, a) == t
    ensures Reaches(s, [a], t)
  {
    assert [a][1..] == [];
  }

  lemma Prepend<T>(s: State<T>, a: Action<T>, rest: seq<Action<T>>, u: State<T>)
    requires 0 < s.capacity == |s.slots| && Enabled(s, a) && Reaches(Step(s, a), rest, u)
    ensures Reaches(s, [a] + rest, u)
  {
    assert ([a] + rest)[1..] == rest;
  }

  lemma FirstStep<T>(s: State<T>, acts: seq<Action<T>>, t: State<T>)
    requires Reaches(s, acts, t) && acts != []
    ensures Enabled(s, acts[0]) && Reaches(Step(s, acts[0]), acts[1..], t)
  {
  }

  lemma {:induction false} Chain<T>(s: State<T>, a: seq<Action<T>>, t: State<T>, b: seq<Action<T>>, u: State<T>)
    requires Reaches(s, a, t) && Reaches(t, b, u)
    ensures Reaches(s, a + b, u)
    decreases |a|
  {
    if a == [] {
      assert a + b == b;
    } else {
      var rest := a[1..] + b;
      FirstStep(s, a, t);
      Chain(Step(s, a[0]), a[1..], t, b, u);
      assert a + b == [a[0]] + rest;
      Prepend(s, a[0], rest, u);
    }
  }

  // ---------- One publish ----------

  function Loads<T>(p: nat, e: T): seq<Action<T>> {
    [Begin(p, e)] + [LoadWrite(p)] + [CheckFull(p)]
  }

  function Stores<T>(p: nat): seq<Action<T>> {
    [Claim(p)] + [Store(p)] + [Post(p)] + [Count(p)]
  }

  /** The state after one whole publish: the event is in the log and in its slot. */
  function Published<T>(s: State<T>, e: T): State<T>
    requires 0 < s.capacity == |s.slots|
  {
    var at := |s.claims|;
    s.(writeIndex := Slot(at + 1, s.capacity), slots := s.slots[Slot(at, s.capacity) := e],
       sem := s.sem + 1, total := s.total + 1, claims := s.claims + [e], stored := s.stored + {at})
  }

  ghost predicate CanPublish<T>(s: State<T>, p: nat) {
    Aligned(s) && p < |s.producers| && s.producers[p].Idle? && |s.claims| - s.consumed <= s.capacity - 2
  }

  /** Loads and full test without interruption, with room in the buffer. */
  lemma PublishLoads<T>(s: State<T>, p: nat, e: T)
    requires CanPublish(s, p)
    ensures Reaches(s, Loads(p, e), Move(s, p, Checked(e, s.writeIndex, |s.claims|)))
  {
    var w, at := s.writeIndex, |s.claims|;
    IndexAfter(s, at);
    if Slot(at + 1, s.capacity) == s.readIndex {
      ModArith.Congruent(at + 1, s.consumed, s.capacity);
    }
    var s1, s2, s3 := Move(s, p, Trying(e)), Move(s, p, Loaded(e, w, at)), Move(s, p, Checked(e, w, at));
    assert Step(s1, LoadWrite(p)).producers == s2.producers;
    assert Step(s2, CheckFull(p)).producers == s3.producers;
    Once(s, Begin(p, e), s1);
    Once(s1, LoadWrite(p), s2);
    Once(s2, CheckFull(p), s3);
    Chain(s, [Begin(p, e)], s1, [LoadWrite(p)], s2);
    Chain(s, [Begin(p, e)] + [LoadWrite(p)], s2, [CheckFull(p)], s3);
  }

  /** Swap, store, post and count without interruption. */
  lemma PublishStores<T>(s: State<T>, p: nat, e: T)
    requires Aligned(s) && p < |s.producers| && s.producers[p].Idle?
    ensures Reaches(Move(s, p, Checked(e, s.writeIndex, |s.claims|)), Stores(p), Published(s, e))
  {
    var w, at, t := s.writeIndex, |s.claims|, Published(s, e);
    IndexAfter(s, at);
    var s3 := Move(s, p, Checked(e, w, at));
    var s4 := Move(s, p, Claimed(e, w, at)).(writeIndex := t.writeIndex, claims := t.claims);
    var s5 := Move(t, p, Stored).(sem := s.sem, total := s.total);
    var s6 := Move(t, p, Posted).(total := s.total);
    assert Step(s3, Claim(p)).producers == s4.producers;
    assert Step(s4, Store(p)).producers == s5.producers;
    assert Step(s5, Post(p)).producers == s6.producers;
    assert Step(s6, Count(p)).producers == t.producers;
    Once(s3, Claim(p), s4);
    Once(s4, Store(p), s5);
    Once(s5, Post(p), s6);
    Once(s6, Count(p), t);
    Chain(s3, [Claim(p)], s4, [Store(p)], s5);
    Chain(s3, [Claim(p)] + [Store(p)], s5, [Post(p)], s6);
    Chain(s3, [Claim(p)] + [Store(p)] + [Post(p)], s6, [Count(p)], t);
  }

  /** A publish that nothing interrupts acts as one atomic call. */
  lemma UninterruptedPublish<T>(s: State<T>, p: nat, e: T)
    requires CanPublish(s, p)
    ensures Reaches(s, Loads(p, e) + Stores(p), Published(s, e))
  {
    PublishLoads(s, p, e);
    PublishStores(s, p, e);
    Chain(s, Loads(p, e), Move(s, p, Checked(e, s.writeIndex, |s.claims|)), Stores(p), Published(s, e));
  }

  // ---------- One read ----------

  /** A reader at rest with something to read that is less than a lap behind. */
  ghost predicate Ready<T>(s: State<T>, r: nat) {
    && Aligned(s) && s.capacity <= UINT32_RANGE / 2 && r < |s.readers|
    && s.readers[r].phase.Resting? && s.readers[r].index == Slot(s.readers[r].position, s.capacity)
    && s.readers[r].position < |s.claims| < s.readers[r].position + s.capacity
  }

  function Fetches<T>(r: nat): seq<Action<T>> {
    [LoadEnd(r)] + [Fetch(r)]
  }

  /** The steps of a whole read: it ends early if the global index is not to be updated or not behind. */
  function Reads<T>(r: nat, updates: bool, advances: bool): seq<Action<T>> {
    if !updates then Fetches(r)
    else if advances then Fetches(r) + ([LoadOld(r)] + [Advance(r)])
    else Fetches(r) + [LoadOld(r)]
  }

  /** The reader after its fetch, in the given phase. */
  function Fetched<T>(s: State<T>, r: nat, phase: Phase): Reader<T>
    requires 0 < s.capacity == |s.slots| && r < |s.readers| && s.readers[r].index < s.capacity
  {
    var rd := s.readers[r];
    rd.(index := Slot(rd.position + 1, s.capacity), position := rd.position + 1,
        received := rd.received + [s.slots[rd.index]], phase := phase)
  }

  /** The state after the fetch. */
  function FetchDone<T>(s: State<T>, r: nat): State<T>
    requires 0 < s.capacity == |s.slots| && r < |s.readers| && s.readers[r].index < s.capacity
  {
    Turn(s, r, Fetched(s, r, if s.readers[r].updates then Advanced(s.writeIndex, |s.claims|) else Resting))
  }

  /** The global position after one whole read: an updating reader raises it to its own new position. */
  function Raised<T>(s: State<T>, r: nat): nat
    requires r < |s.readers|
  {
    if s.readers[r].updates then Max(s.consumed, s.readers[r].position + 1) else s.consumed
  }

  /** The state after one whole read. */
  function ReadDone<T>(s: State<T>, r: nat): State<T>
    requires 0 < s.capacity == |s.slots| && r < |s.readers| && s.readers[r].index < s.capacity
  {
    Turn(s, r, Fetched(s, r, Resting)).(readIndex := Slot(Raised(s, r), s.capacity), consumed := Raised(s, r))
  }

  lemma ReadFetches<T>(s: State<T>, r: nat)
    requires Ready(s, r)
    ensures Reaches(s, Fetches(r), FetchDone(s, r))
  {
    var rd := s.readers[r];
    if rd.index == s.writeIndex {
      ModArith.Congruent(rd.position, |s.claims|, s.capacity);
    }
    ModArith.Small(rd.index + 1, UINT32_RANGE);
    ModArith.Next(rd.position, s.capacity);
    var s1 := Turn(s, r, rd.(phase := Snapshot(s.writeIndex, |s.claims|)));
    assert Step(s1, Fetch(r)).readers == FetchDone(s, r).readers;
    Once(s, LoadEnd(r), s1);
    Once(s1, Fetch(r), FetchDone(s, r));
    Chain(s, [LoadEnd(r)], s1, [Fetch(r)], FetchDone(s, r));
  }

  /** The comparison of distances, made at once, is right: it goes on exactly if the reader is ahead. */
  lemma ReadCompares<T>(s: State<T>, r: nat)
    requires Ready(s, r) && s.readers[r].updates
    ensures Reaches(FetchDone(s, r), [LoadOld(r)],
                    Turn(s, r, Fetched(s, r, if s.consumed <= s.readers[r].position
                                             then Compared(s.writeIndex, |s.claims|, s.readIndex, s.consumed) else Resting)))
  {
    var t := FetchDone(s, r);
    ComparesIff(t, LoadOld(r));
    assert Step(t, LoadOld(r)).readers == s.readers[r := Step(t, LoadOld(r)).readers[r]];
    Once(t, LoadOld(r), Step(t, LoadOld(r)));
  }

  /** A read that nothing interrupts acts as one atomic call: an updating reader makes the global position the maximum. */
  lemma UninterruptedRead<T>(s: State<T>, r: nat)
    requires Ready(s, r)
    ensures Reaches(s, Reads(r, s.readers[r].updates, s.consumed <= s.readers[r].position), ReadDone(s, r))
  {
    ReadFetches(s, r);
    if !s.readers[r].updates {
      assert FetchDone(s, r) == ReadDone(s, r);
    } else {
      ReadCompares(s, r);
      if s.consumed <= s.readers[r].position {
        var t := Turn(s, r, Fetched(s, r, Compared(s.writeIndex, |s.claims|, s.readIndex, s.consumed)));
        assert Step(t, Advance(r)).readers == ReadDone(s, r).readers;
        Once(t, Advance(r), ReadDone(s, r));
        Chain(FetchDone(s, r), [LoadOld(r)], t, [Advance(r)], ReadDone(s, r));
        Chain(s, Fetches(r), FetchDone(s, r), [LoadOld(r)] + [Advance(r)], ReadDone(s, r));
      } else {
        Chain(s, Fetches(r), FetchDone(s, r), [LoadOld(r)], ReadDone(s, r));
      }
    }
  }

  // ---------- A swap that comes a lap late ----------

  /** Two producers and one updating reader on two slots, after the log and what the reader received. */
  function Two(slots: seq<int>, stalled: Producer<int>, log: seq<int>, stored: set<nat>, received: seq<int>): State<int> {
    State(2, 0, |log| % 2, |received| % 2, slots, |log|, |log|, [stalled, Idle],
          [Reader(true, |received| % 2, 0, |received|, Resting, received)],
          log, stored, |received|, 0)
  }

  ghost predicate HidesTwoEvents(s: State<int>) {
    && |s.claims| - s.consumed == s.capacity == 2
    && s.readers == [Reader(true, s.writeIndex, 0, s.consumed, Resting, s.claims[..s.consumed])]
    && s.readIndex == s.writeIndex
  }

  lemma TwoPublished(slots: seq<int>, stalled: Producer<int>, log: seq<int>, stored: set<nat>, e: int)
    requires |slots| == 2
    ensures var s := Two(slots, stalled, log, stored, log);
            CanPublish(s, 1) && Published(s, e) == Two(slots[|log| % 2 := e], stalled, log + [e], stored + {|log|}, log)
  {
  }

  lemma TwoRead(slots: seq<int>, stalled: Producer<int>, log: seq<int>, stored: set<nat>, e: int)
    requires |slots| == 2 && slots[|log| % 2] == e
    ensures var s := Two(slots, stalled, log + [e], stored, log);
            Ready(s, 0) && s.readers[0].updates && s.consumed <= s.readers[0].position
            && ReadDone(s, 0) == Two(slots, stalled, log + [e], stored, log + [e])
  {
    var s := Two(slots, stalled, log + [e], stored, log);
    assert ReadDone(s, 0).readers[0] == Two(slots, stalled, log + [e], stored, log + [e]).readers[0];
  }

  /** The states of the run: a producer stalls after its full test; then a publish, a read and a publish by others. */
  lemma LateStates() returns (s0: State<int>, s1: State<int>, s2: State<int>, s3: State<int>, s4: State<int>)
    ensures Initial(s0) && CanPublish(s0, 0) && s1 == Move(s0, 0, Checked(9, s0.writeIndex, |s0.claims|))
    ensures CanPublish(s1, 1) && s2 == Published(s1, 1)
    ensures Ready(s2, 0) && s2.readers[0].updates && s2.consumed <= s2.readers[0].position && s3 == ReadDone(s2, 0)
    ensures CanPublish(s3, 1) && s4 == Published(s3, 2)
    ensures s4 == Two([1, 2], Checked(9, 0, 0), [1, 2], {0, 1}, [1])
  {
    var stalled := Checked(9, 0, 0);
    s0, s1 := Two([0, 0], Idle, [], {}, []), Two([0, 0], stalled, [], {}, []);
    TwoPublished([0, 0], stalled, [], {}, 1);
    TwoRead([1, 0], stalled, [], {0}, 1);
    TwoPublished([1, 0], stalled, [1], {0}, 2);
    s2, s3, s4 := Published(s1, 1), ReadDone(Published(s1, 1), 0), Two([1, 2], stalled, [1, 2], {0, 1}, [1]);
    var nothing: seq<int> := [];
    assert [0, 0][0 := 1] == [1, 0] && [1, 0][1 := 2] == [1, 2] && nothing + [1] == [1];
  }

  lemma LateSwap(s: State<int>)
    requires s == Two([1, 2], Checked(9, 0, 0), [1, 2], {0, 1}, [1])
    ensures Enabled(s, Claim(0)) && HidesTwoEvents(Step(s, Claim(0)))
  {
    assert Step(s, Claim(0)).claims[..1] == [1];
  }

  /**
   * The compare-and-swap on the write index is open to a lap: a producer that stalls while one lap of
   * claims passes still swaps successfully, into a full buffer. Two unread events are then waiting in
   * two slots, and the reader finds its index equal to the write index, that is, nothing to read.
   */
  lemma LateSwapHidesEvents() returns (s: State<int>, acts: seq<Action<int>>)
    ensures Initial(s) && Runs(s, acts, false, false) && HidesTwoEvents(Run(s, acts))
  {
    var s1, s2, s3, s4;
    s, s1, s2, s3, s4 := LateStates();
    PublishLoads(s, 0, 9);
    UninterruptedPublish(s1, 1, 1);
    UninterruptedRead(s2, 0);
    UninterruptedPublish(s3, 1, 2);
    LateSwap(s4);
    Once(s4, Claim(0), Step(s4, Claim(0)));
    acts := Loads(0, 9) + (Loads(1, 1) + Stores(1));
    Chain(s, Loads(0, 9), s1, Loads(1, 1) + Stores(1), s2);
    Chain(s, acts, s2, Reads(0, true, true), s3);
    acts := acts + Reads(0, true, true);
    Chain(s, acts, s3, Loads(1, 2) + Stores(1), s4);
    acts := acts + (Loads(1, 2) + Stores(1));
    Chain(s, acts, s4, [Claim(0)], Step(s4, Claim(0)));
    acts := acts + [Claim(0)];
  }

  // ---------- A refusal by a buffer that is empty ----------

  lemma StalledLoad(s: State<int>, e: int)
    requires CanPublish(s, 0)
    ensures Reaches(s, [Begin(0, e)] + [LoadWrite(0)], Move(s, 0, Loaded(e, s.writeIndex, |s.claims|)))
  {
    var s1, s2 := Move(s, 0, Trying(e)), Move(s, 0, Loaded(e, s.writeIndex, |s.claims|));
    assert Step(s1, LoadWrite(0)).producers == s2.producers;
    Once(s, Begin(0, e), s1);
    Once(s1, LoadWrite(0), s2);
    Chain(s, [Begin(0, e)], s1, [LoadWrite(0)], s2);
  }

  /** The states of the run: a producer stalls after its load; then another publishes and the reader reads. */
  lemma StalledStates() returns (s0: State<int>, s1: State<int>, s2: State<int>, s3: State<int>)
    ensures Initial(s0) && CanPublish(s0, 0) && s1 == Move(s0, 0, Loaded(9, s0.writeIndex, |s0.claims|))
    ensures CanPublish(s1, 1) && s2 == Published(s1, 1)
    ensures Ready(s2, 0) && s2.readers[0].updates && s2.consumed <= s2.readers[0].position && s3 == ReadDone(s2, 0)
    ensures s3 == Two([1, 0], Loaded(9, 0, 0), [1], {0}, [1])
  {
    var stalled := Loaded(9, 0, 0);
    s0, s1 := Two([0, 0], Idle, [], {}, []), Two([0, 0], stalled, [], {}, []);
    TwoPublished([0, 0], stalled, [], {}, 1);
    TwoRead([1, 0], stalled, [], {0}, 1);
    s2, s3 := Published(s1, 1), ReadDone(Published(s1, 1), 0);
    var nothing: seq<int> := [];
    assert [0, 0][0 := 1] == [1, 0] && nothing + [1] == [1];
  }

  lemma StalledIsRefused(s: State<int>)
    requires s == Two([1, 0], Loaded(9, 0, 0), [1], {0}, [1])
    ensures |s.claims| == s.consumed && Enabled(s, CheckFull(0)) && Step(s, CheckFull(0)).producers[0].Idle?
  {
  }

  /**
   * With a reader that updates the global index, publish may report a full buffer that is empty: the
   * producer loaded the write index, and before its full test one event was published and read.
   */
  lemma EmptyBufferRefuses() returns (s: State<int>, acts: seq<Action<int>>)
    ensures Initial(s) && Runs(s, acts, false, false)
    ensures var t := Run(s, acts);
            && |t.claims| == t.consumed && Enabled(t, CheckFull(0)) && Step(t, CheckFull(0)).producers[0].Idle?
  {
    var s1, s2, s3;
    s, s1, s2, s3 := StalledStates();
    StalledLoad(s, 9);
    UninterruptedPublish(s1, 1, 1);
    UninterruptedRead(s2, 0);
    StalledIsRefused(s3);
    acts := [Begin(0, 9)] + [LoadWrite(0)];
    Chain(s, acts, s1, Loads(1, 1) + Stores(1), s2);
    acts := acts + (Loads(1, 1) + Stores(1));
    Chain(s, acts, s2, Reads(0, true, true), s3);
    acts := acts + Reads(0, true, true);
  }

  // ---------- A fetch that comes before the store ----------

  /** One producer and one subscriber on two slots. */
  function Pair(producer: Producer<int>, log: seq<int>, phase: Phase, received: seq<int>): State<int> {
    State(2, 0, |log| % 2, 0, [0, 0], 0, 0, [producer],
          [Reader(false, |received| % 2, 0, |received|, phase, received)], log, {}, 0, 0)
  }

  lemma EarlyStates() returns (s0: State<int>, s1: State<int>, s2: State<int>, s3: State<int>)
    ensures Initial(s0) && CanPublish(s0, 0) && s1 == Move(s0, 0, Checked(9, s0.writeIndex, |s0.claims|))
    ensures 0 < s1.capacity == |s1.slots| && Enabled(s1, Claim(0)) && s2 == Step(s1, Claim(0))
    ensures Ready(s2, 0) && !s2.readers[0].updates && s3 == ReadDone(s2, 0)
    ensures s3 == Pair(Claimed(9, 0, 0), [9], Resting, [0])
  {
    s0, s1 := Pair(Idle, [], Resting, []), Pair(Checked(9, 0, 0), [], Resting, []);
    s2, s3 := Pair(Claimed(9, 0, 0), [9], Resting, []), Pair(Claimed(9, 0, 0), [9], Resting, [0]);
    var nothing: seq<int> := [];
    assert nothing + [9] == [9] && nothing + [0] == [0];
    assert ReadDone(s2, 0).readers[0] == s3.readers[0];
  }

  /**
   * A subscriber may fetch a slot between the swap and the store of its producer: it then receives the
   * default event, its position moves past the claimed one, and the published event never reaches it.
   */
  lemma EarlyFetchLosesEvent() returns (s: State<int>, acts: seq<Action<int>>)
    ensures Initial(s) && Reaches(s, acts, Pair(Claimed(9, 0, 0), [9], Resting, [0]))
  {
    var s1, s2, s3;
    s, s1, s2, s3 := EarlyStates();
    PublishLoads(s, 0, 9);
    Once(s1, Claim(0), s2);
    UninterruptedRead(s2, 0);
    Chain(s, Loads(0, 9), s1, [Claim(0)], s2);
    acts := Loads(0, 9) + [Claim(0)] + Fetches(0);
    Chain(s, Loads(0, 9) + [Claim(0)], s2, Fetches(0), s3);
  }

  // ---------- Two updating readers ----------

  /** One producer and two updating readers on three slots; the second one is at the global position. */
  function Race(slots: seq<int>, log: seq<int>, stored: set<nat>, slow: Reader<int>, received: seq<int>): State<int> {
    State(3, 0, |log| % 3, |received| % 3, slots, |log|, |log|, [Idle],
          [slow, Reader(true, |received| % 3, 0, |received|, Resting, received)], log, stored, |received|, 0)
  }

  lemma RacePublished(slots: seq<int>, log: seq<int>, stored: set<nat>, slow: Reader<int>, received: seq<int>, e: int)
    requires |slots| == 3 && |received| <= |log| <= |received| + 1
    ensures var s := Race(slots, log, stored, slow, received);
            CanPublish(s, 0) && Published(s, e) == Race(slots[|log| % 3 := e], log + [e], stored + {|log|}, slow, received)
  {
  }

  lemma RaceRead(s: State<int>, t: State<int>, slots: seq<int>, log: seq<int>, stored: set<nat>, slow: Reader<int>,
                 received: seq<int>, e: int, path: seq<Action<int>>)
    requires |slots| == 3 && |received| < |log| < |received| + 3 && slots[|received| % 3] == e
    requires s == Race(slots, log, stored, slow, received) && t == Race(slots, log, stored, slow, received + [e])
    requires path == Reads(1, true, true)
    ensures Reaches(s, path, t)
  {
    assert ReadDone(s, 1).readers[1] == t.readers[1];
    assert ReadDone(s, 1) == t;
    UninterruptedRead(s, 1);
  }

  lemma RaceFetched(slots: seq<int>, e: int)
    requires |slots| == 3 && slots[0] == e
    ensures var s := Race(slots, [e], {0}, Reader(true, 0, 0, 0, Resting, []), []);
            Ready(s, 0) && FetchDone(s, 0) == Race(slots, [e], {0}, Reader(true, 1, 0, 1, Advanced(1, 1), [e]), [])
  {
    var s := Race(slots, [e], {0}, Reader(true, 0, 0, 0, Resting, []), []);
    assert FetchDone(s, 0).readers[0] == Reader(true, 1, 0, 1, Advanced(1, 1), [e]);
  }

  /** The first states of the run: publish, the slow reader fetches, publish. */
  lemma RaceStates() returns (s0: State<int>, s1: State<int>, s2: State<int>, s3: State<int>)
    ensures Initial(s0) && CanPublish(s0, 0) && s1 == Published(s0, 1)
    ensures Ready(s1, 0) && s2 == FetchDone(s1, 0)
    ensures CanPublish(s2, 0) && s3 == Published(s2, 2)
    ensures s3 == Race([1, 2, 0], [1, 2], {0, 1}, Reader(true, 1, 0, 1, Advanced(1, 1), [1]), [])
  {
    var fetched := Reader(true, 1, 0, 1, Advanced(1, 1), [1]);
    s0 := Race([0, 0, 0], [], {}, Reader(true, 0, 0, 0, Resting, []), []);
    RacePublished([0, 0, 0], [], {}, s0.readers[0], [], 1);
    RaceFetched([1, 0, 0], 1);
    RacePublished([1, 0, 0], [1], {0}, fetched, [], 2);
    s1, s2 := Published(s0, 1), Race([1, 0, 0], [1], {0}, fetched, []);
    s3 := Published(s2, 2);
    var nothing: seq<int> := [];
    assert nothing + [1] == [1] && [0, 0, 0][0 := 1] == [1, 0, 0] && [1, 0, 0][1 := 2] == [1, 2, 0];
  }

  /** The fast reader reads both events. */
  lemma FastReads(slots: seq<int>, slow: Reader<int>, log: seq<int>, first: seq<int>, stored: set<nat>, path: seq<Action<int>>)
    requires |slots| == 3 && |log| == 2 && first == log[..1] && slots[0] == log[0] && slots[1] == log[1]
    requires path == Reads(1, true, true)
    ensures Reaches(Race(slots, log, stored, slow, []), path + path, Race(slots, log, stored, slow, log))
  {
    var s, t, u := Race(slots, log, stored, slow, []), Race(slots, log, stored, slow, first), Race(slots, log, stored, slow, log);
    assert [] + [log[0]] == first && first + [log[1]] == log;
    RaceRead(s, t, slots, log, stored, slow, [], log[0], path);
    RaceRead(t, u, slots, log, stored, slow, first, log[1], path);
    Chain(s, path, t, path, u);
  }

  /** The slow reader compares and swaps: the global position has passed its snapshot, and goes back. */
  lemma SlowReaderSwaps(s: State<int>) returns (compared: State<int>, swapped: State<int>)
    requires s == Race([1, 2, 0], [1, 2], {0, 1}, Reader(true, 1, 0, 1, Advanced(1, 1), [1]), [1, 2])
    ensures Reaches(s, [LoadOld(0)], compared) && compared.consumed == 2
    ensures Enabled(compared, Advance(0)) && Overtaken(compared, Advance(0))
    ensures Reaches(compared, [Advance(0)], swapped) && swapped.consumed == 1
  {
    ModArith.Small(1, 3);
    ComparesIff(s, LoadOld(0));
    compared := Step(s, LoadOld(0));
    swapped := Step(compared, Advance(0));
    Once(s, LoadOld(0), compared);
    Once(compared, Advance(0), swapped);
  }

  /**
   * With two updating readers the snapshot of the write index may be stale when the distances are
   * compared, and the swap then moves the global read index back: here, from the initial state, from
   * position 2, where the fast reader left it, to the slow reader's position 1.
   */
  lemma StaleSnapshotMovesBack() returns (s: State<int>, acts: seq<Action<int>>)
    ensures Initial(s) && s.capacity == 3 && Runs(s, acts, false, false) && Run(s, acts).consumed == 2
    ensures Enabled(Run(s, acts), Advance(0)) && Overtaken(Run(s, acts), Advance(0))
    ensures Step(Run(s, acts), Advance(0)).consumed == 1
  {
    var s1, s2, s3;
    s, s1, s2, s3 := RaceStates();
    UninterruptedPublish(s, 0, 1);
    ReadFetches(s1, 0);
    UninterruptedPublish(s2, 0, 2);
    var path: seq<Action<int>> := Reads(1, true, true);
    FastReads([1, 2, 0], Reader(true, 1, 0, 1, Advanced(1, 1), [1]), [1, 2], [1], {0, 1}, path);
    var s4 := Race([1, 2, 0], [1, 2], {0, 1}, Reader(true, 1, 0, 1, Advanced(1, 1), [1]), [1, 2]);
    var s5, s6 := SlowReaderSwaps(s4);
    acts := Loads(0, 1) + Stores(0);
    Chain(s, acts, s1, Fetches(0), s2);
    acts := acts + Fetches(0);
    Chain(s, acts, s2, Loads(0, 2) + Stores(0), s3);
    acts := acts + (Loads(0, 2) + Stores(0));
    Chain(s, acts, s3, path + path, s4);
    acts := acts + (path + path);
    Chain(s, acts, s4, [LoadOld(0)], s5);
    acts := acts + [LoadOld(0)];
  }
}
