/**
 * Interleavings in which no reader updates the global read index: the runs of the event center, whose
 * `poll` always reads with updateGlobal = false (src/IPCEventCenter.cpp). No assumption on the
 * interleaving is needed: the buffer never wraps.
 */
module SubscriberSteps {
  import opened Common
  import opened ShmRing
  import opened RingSteps
  import ModArith

  ghost predicate SubscriberOk<T>(s: State<T>, rd: Reader<T>) {
    && !rd.updates
    && rd.start <= rd.position <= |s.claims|
    && rd.index == rd.position
    && |rd.received| == rd.position - rd.start
    && (rd.phase.Resting? || (rd.phase.Snapshot? && rd.position < rd.phase.upTo <= |s.claims|))
  }

  ghost predicate Inv<T>(s: State<T>) {
    && Core(s)
    && s.consumed == 0
    && (forall r :: 0 <= r < |s.readers| ==> SubscriberOk(s, s.readers[r]))
    && (forall i :: 0 <= i < s.capacity && i !in s.stored ==> s.slots[i] == s.blank)
  }

  lemma StepKeepsInv<T>(s: State<T>, a: Action<T>)
    requires Inv(s) && Enabled(s, a)
    ensures Inv(Step(s, a)) && Step(s, a).blank == s.blank
  {
    if ByProducer(a) {
      ProducerStepKeepsInv(s, a);
    } else if a.Wait? {
      WaitKeepsCore(s);
    } else {
      assert SubscriberOk(s, s.readers[a.r]);
      ReaderTurn(s, a);
      TurnKeepsInv(s, a.r, Step(s, a).readers[a.r]);
    }
  }

  lemma ProducerStepKeepsInv<T>(s: State<T>, a: Action<T>)
    requires Inv(s) && Enabled(s, a) && ByProducer(a)
    ensures Inv(Step(s, a)) && Step(s, a).blank == s.blank
  {
    var s' := Step(s, a);
    ModArith.Small(|s.claims|, s.capacity);
    assert ProducerOk(s, s.producers[a.p]);
    if a.Store? {
      ModArith.Small(s.producers[a.p].at, s.capacity);
    }
    ProducerStepKeepsCore(s, a);
    forall r | 0 <= r < |s'.readers| ensures SubscriberOk(s', s'.readers[r]) {
      assert SubscriberOk(s, s.readers[r]);
    }
  }

  /** A reader's step changes no more than the reader, and leaves it in order. */
  lemma ReaderTurn<T>(s: State<T>, a: Action<T>)
    requires Aligned(s) && |s.claims| < s.capacity && Enabled(s, a) && !ByProducer(a) && !a.Wait?
    requires SubscriberOk(s, s.readers[a.r])
    ensures var rd := Step(s, a).readers[a.r];
            Step(s, a) == Turn(s, a.r, rd) && SubscriberOk(s, rd)
  {
    var rd := s.readers[a.r];
    ModArith.Small(|s.claims|, s.capacity);
    if a.Fetch? {
      ModArith.Small(rd.index + 1, UINT32_RANGE);
      ModArith.Small(rd.index + 1, s.capacity);
    }
  }

  lemma TurnKeepsInv<T>(s: State<T>, r: nat, rd: Reader<T>)
    requires Inv(s) && r < |s.readers| && SubscriberOk(s, rd)
    ensures Inv(Turn(s, r, rd))
  {
    CoreIgnoresReaders(s, Turn(s, r, rd).readers);
  }

  /** Every interleaving of any number of producers and subscribers keeps the invariant. */
  lemma {:induction false} EveryInterleaving<T>(s: State<T>, acts: seq<Action<T>>)
    requires Inv(s) && Runs(s, acts, false, false)
    ensures Inv(Run(s, acts)) && Run(s, acts).blank == s.blank
    decreases |acts|
  {
    if acts == [] {
    } else {
      StepKeepsInv(s, acts[0]);
      EveryInterleaving(Step(s, acts[0]), acts[1..]);
    }
  }

  lemma InitialInv<T>(s: State<T>)
    requires Initial(s) && forall r :: 0 <= r < |s.readers| ==> !s.readers[r].updates
    ensures Inv(s)
  {
    InitialCore(s);
  }

  /**
   * What the invariant means for the buffer: the write index is the number of successful swaps and
   * stays below the capacity, producers in flight hold distinct slots, and the events already stored
   * lie in their slots in the order of the swaps.
   */
  lemma ReachableBuffer<T>(s0: State<T>, acts: seq<Action<T>>)
    requires Initial(s0) && (forall r :: 0 <= r < |s0.readers| ==> !s0.readers[r].updates)
    requires Runs(s0, acts, false, false)
    ensures
      var s := Run(s0, acts);
      && s.readIndex == 0 && s.writeIndex == |s.claims| <= s.capacity - 1
      && (forall p, q :: 0 <= p < q < |s.producers| && s.producers[p].Claimed? && s.producers[q].Claimed? ==>
            s.producers[p].index != s.producers[q].index)
      && (forall i :: 0 <= i < s.writeIndex && i in s.stored ==> s.slots[i] == s.claims[i])
      && (forall i :: 0 <= i < s.writeIndex && i !in s.stored ==>
            s.slots[i] == s0.blank &&
            exists p :: 0 <= p < |s.producers| && Holds(s.producers[p], i) && s.producers[p].index == i)
  {
    InitialInv(s0);
    EveryInterleaving(s0, acts);
    var s := Run(s0, acts);
    ModArith.Small(0, s.capacity);
    ModArith.Small(|s.claims|, s.capacity);
    forall p | 0 <= p < |s.producers| && s.producers[p].Claimed? ensures s.producers[p].index == s.producers[p].at {
      assert ProducerOk(s, s.producers[p]);
      ModArith.Small(s.producers[p].at, s.capacity);
    }
    forall i | 0 <= i < s.writeIndex && i in s.stored ensures s.slots[i] == s.claims[i] {
      ModArith.Small(i, s.capacity);
      assert s.slots[Slot(i, s.capacity)] == s.claims[i];
    }
  }

  /** A successful swap claims the index equal to the number of swaps before it, so each index is claimed once. */
  lemma EachIndexClaimedOnce<T>(s: State<T>, a: Action<T>)
    requires Inv(s) && a.Claim? && Enabled(s, a)
    ensures
      var s' := Step(s, a);
      if s'.producers[a.p].Claimed?
      then s'.producers[a.p].index == |s.claims| && s'.claims == s.claims + [s.producers[a.p].event]
           && s'.writeIndex == s.writeIndex + 1
      else s'.claims == s.claims && s'.writeIndex == s.writeIndex
  {
    assert ProducerOk(s, s.producers[a.p]);
    ModArith.Small(|s.claims|, s.capacity);
    ClaimIsFresh(s, a);
    StepKeepsInv(s, a);
    ModArith.Small(|Step(s, a).claims|, s.capacity);
  }

  /** In the event center a publish is refused exactly when capacity - 1 events have been published. */
  lemma RefusedIffFull<T>(s: State<T>, a: Action<T>)
    requires Inv(s) && a.CheckFull? && Enabled(s, a)
    ensures Step(s, a).producers[a.p].Idle? <==> s.producers[a.p].at == s.capacity - 1
    ensures Step(s, a).producers[a.p].Idle? ==> |s.claims| == s.capacity - 1
  {
    assert ProducerOk(s, s.producers[a.p]);
    RefusalIff(s, a);
  }

  /**
   * With no producer between its swap and its last step, the slots below the write index hold exactly
   * the published events in swap order, and the counters agree with the log.
   */
  lemma QuiescentBuffer<T>(s0: State<T>, acts: seq<Action<T>>)
    requires Initial(s0) && (forall r :: 0 <= r < |s0.readers| ==> !s0.readers[r].updates)
    requires Runs(s0, acts, false, false)
    ensures
      var s := Run(s0, acts);
      (forall p :: 0 <= p < |s.producers| ==> Debt(s.producers[p], true) == 0) ==>
        && s.writeIndex <= |s.slots| && s.slots[..s.writeIndex] == s.claims
        && s.total == |s.claims|
        && s.sem == |s.claims| - s.waits
  {
    InitialInv(s0);
    EveryInterleaving(s0, acts);
    ReachableBuffer(s0, acts);
    var s := Run(s0, acts);
    if forall p :: 0 <= p < |s.producers| ==> Debt(s.producers[p], true) == 0 {
      NothingOwed(s.producers, true);
      NothingOwed(s.producers, false);
      assert forall i :: 0 <= i < s.writeIndex ==> i in s.stored;
    }
  }

  /** A fetch delivers the claimed event exactly when that event is already stored, and the default event otherwise. */
  lemma FetchDelivers<T>(s: State<T>, a: Action<T>)
    requires Inv(s) && a.Fetch? && Enabled(s, a)
    ensures
      var rd := s.readers[a.r];
      && rd.position < |s.claims|
      && Step(s, a).readers[a.r].received ==
           rd.received + [if rd.position in s.stored then s.claims[rd.position] else s.blank]
  {
    assert SubscriberOk(s, s.readers[a.r]);
    ModArith.Small(s.readers[a.r].position, s.capacity);
  }

  /** A reader has received the log between the position it joined at and its current one. */
  ghost predicate InOrder<T>(log: seq<T>, rd: Reader<T>) {
    rd.start <= rd.position <= |log| && rd.received == log[rd.start..rd.position]
  }

  ghost predicate ReceivedLog<T>(s: State<T>) {
    forall r :: 0 <= r < |s.readers| ==> InOrder(s.claims, s.readers[r])
  }

  lemma OrderSurvives<T>(log: seq<T>, longer: seq<T>, rd: Reader<T>)
    requires InOrder(log, rd) && log <= longer
    ensures InOrder(longer, rd)
  {
  }

  lemma FetchKeepsOrder<T>(s: State<T>, a: Action<T>)
    requires Inv(s) && a.Fetch? && Enabled(s, a) && ReadsStored(s, a) && InOrder(s.claims, s.readers[a.r])
    ensures InOrder(s.claims, Step(s, a).readers[a.r])
  {
    FetchDelivers(s, a);
    OrderGrows(s.claims, s.readers[a.r], Step(s, a).readers[a.r]);
  }

  lemma OrderGrows<T>(log: seq<T>, rd: Reader<T>, next: Reader<T>)
    requires InOrder(log, rd) && rd.position < |log|
    requires next.start == rd.start && next.position == rd.position + 1
    requires next.received == rd.received + [log[rd.position]]
    ensures InOrder(log, next)
  {
    assert log[rd.start..rd.position] + [log[rd.position]] == log[rd.start..rd.position + 1];
  }

  lemma StepKeepsReceived<T>(s: State<T>, a: Action<T>)
    requires Inv(s) && ReceivedLog(s) && Enabled(s, a) && ReadsStored(s, a)
    ensures ReceivedLog(Step(s, a))
  {
    var s' := Step(s, a);
    if ByProducer(a) || a.Wait? {
      forall r | 0 <= r < |s'.readers| ensures InOrder(s'.claims, s'.readers[r]) {
        OrderSurvives(s.claims, s'.claims, s.readers[r]);
      }
    } else {
      if a.Fetch? {
        FetchKeepsOrder(s, a);
      }
      forall r | 0 <= r < |s'.readers| ensures InOrder(s'.claims, s'.readers[r]) {
        assert InOrder(s.claims, s.readers[r]);
      }
    }
  }

  /**
   * If no fetch comes before the store of its slot, every subscriber has received exactly the
   * contiguous run of the swap-ordered log from the write index it joined at.
   */
  lemma {:induction false} SubscribersReceiveLog<T>(s: State<T>, acts: seq<Action<T>>)
    requires Inv(s) && ReceivedLog(s) && Runs(s, acts, false, true)
    ensures Runs(s, acts, false, false) && ReceivedLog(Run(s, acts))
    decreases |acts|
  {
    RunsFreely(s, acts, false, true);
    if acts == [] {
    } else {
      StepKeepsInv(s, acts[0]);
      StepKeepsReceived(s, acts[0]);
      SubscribersReceiveLog(Step(s, acts[0]), acts[1..]);
    }
  }

  /** Reader r does not join again. */
  ghost predicate StaysJoined<T>(acts: seq<Action<T>>, r: nat) {
    forall a :: a in acts ==> !(a.Join? && a.r == r)
  }

  /** Reader r has received the log from position `from` on. */
  ghost predicate HasSince<T>(s: State<T>, r: nat, from: nat) {
    && r < |s.readers| && from <= s.readers[r].position <= |s.claims|
    && s.readers[r].received == s.claims[from..s.readers[r].position]
  }

  lemma HasMore<T>(log: seq<T>, from: nat, to: nat, received: seq<T>, more: seq<T>)
    requires from <= to < |log| && received == log[from..to] && more == received + [log[to]]
    ensures more == log[from..to + 1]
  {
  }

  lemma StepKeepsSince<T>(s: State<T>, a: Action<T>, r: nat, from: nat)
    requires Inv(s) && Enabled(s, a) && ReadsStored(s, a) && HasSince(s, r, from) && !(a.Join? && a.r == r)
    ensures HasSince(Step(s, a), r, from)
  {
    var s' := Step(s, a);
    if a.Fetch? && a.r == r {
      FetchDelivers(s, a);
      HasMore(s.claims, from, s.readers[r].position, s.readers[r].received, s'.readers[r].received);
    } else {
      assert s'.readers[r].received == s.readers[r].received && s'.readers[r].position == s.readers[r].position;
      assert s'.claims[from..s.readers[r].position] == s.claims[from..s.readers[r].position];
    }
  }

  lemma {:induction false} RunKeepsSince<T>(s: State<T>, acts: seq<Action<T>>, r: nat, from: nat)
    requires Inv(s) && Runs(s, acts, false, true) && HasSince(s, r, from) && StaysJoined(acts, r)
    ensures Runs(s, acts, false, false) && HasSince(Run(s, acts), r, from)
    decreases |acts|
  {
    RunsFreely(s, acts, false, true);
    if acts == [] {
    } else {
      StepKeepsInv(s, acts[0]);
      StepKeepsSince(s, acts[0], r, from);
      RunKeepsSince(Step(s, acts[0]), acts[1..], r, from);
    }
  }

  /** A subscriber joins at the end of the log: it has received nothing, and polling at once finds nothing. */
  lemma JoinsAtTheEnd<T>(s: State<T>, a: Action<T>)
    requires Inv(s) && a.Join? && Enabled(s, a)
    ensures var t := Step(s, a);
            && t.readers[a.r].received == [] && t.readers[a.r].position == |s.claims| && t.claims == s.claims
            && Enabled(t, LoadEnd(a.r)) && Step(t, LoadEnd(a.r)).readers[a.r] == t.readers[a.r]
            && t.readers[a.r].phase.Resting?
  {
  }

  /**
   * In every run in which no fetch comes before the store of its slot, a subscriber has received exactly
   * the events published since it last joined, in order, up to its position: none from before.
   */
  lemma ReceivedSinceJoin<T>(s: State<T>, before: seq<Action<T>>, r: nat, after: seq<Action<T>>)
    requires Inv(s) && Runs(s, before + ([Join(r)] + after), false, true) && StaysJoined(after, r)
    ensures Runs(s, before, false, false) && Runs(s, before + ([Join(r)] + after), false, false)
    ensures
      var joined, t := |Run(s, before).claims|, Run(s, before + ([Join(r)] + after));
      && r < |t.readers| && joined <= t.readers[r].position <= |t.claims|
      && t.readers[r].received == t.claims[joined..t.readers[r].position]
  {
    RunsSplit(s, before, [Join(r)] + after, false, true);
    EveryInterleaving(s, before);
    var u := Run(s, before);
    assert ([Join(r)] + after)[1..] == after;
    JoinsAtTheEnd(u, Join(r));
    StepKeepsInv(u, Join(r));
    RunKeepsSince(Step(u, Join(r)), after, r, |u.claims|);
  }

  /** What the reader received i-th is the default event, where the log has another. */
  ghost predicate WrongAt<T>(log: seq<T>, blank: T, rd: Reader<T>, i: nat) {
    i < |rd.received| && rd.start + i < |log| && rd.received[i] == blank != log[rd.start + i]
  }

  ghost predicate Misled<T>(s: State<T>, r: nat) {
    r < |s.readers| && exists i :: WrongAt(s.claims, s.blank, s.readers[r], i)
  }

  lemma ReceivedOnlyGrows<T>(s: State<T>, a: Action<T>, r: nat)
    requires Inv(s) && Enabled(s, a) && !a.Join? && r < |s.readers|
    ensures var s' := Step(s, a);
            |s'.readers| == |s.readers| && s'.blank == s.blank
            && s'.readers[r].start == s.readers[r].start && s.readers[r].received <= s'.readers[r].received
  {
  }

  lemma MisledStays<T>(s: State<T>, a: Action<T>, r: nat)
    requires Inv(s) && Enabled(s, a) && !a.Join? && Misled(s, r)
    ensures Misled(Step(s, a), r)
  {
    ReceivedOnlyGrows(s, a, r);
    var i :| WrongAt(s.claims, s.blank, s.readers[r], i);
    StillWrong(s.claims, Step(s, a).claims, s.blank, s.readers[r], Step(s, a).readers[r], i);
  }

  lemma StillWrong<T>(log: seq<T>, longer: seq<T>, blank: T, rd: Reader<T>, rd': Reader<T>, i: nat)
    requires WrongAt(log, blank, rd, i) && log <= longer && rd'.start == rd.start && rd.received <= rd'.received
    ensures WrongAt(longer, blank, rd', i)
  {
  }

  /** No event of the log is the default one. */
  ghost predicate NoneBlank<T>(log: seq<T>, blank: T) {
    forall i :: 0 <= i < |log| ==> log[i] != blank
  }

  lemma BlankIsWrong<T>(log: seq<T>, blank: T, rd: Reader<T>, rd': Reader<T>)
    requires NoneBlank(log, blank) && rd.start <= rd.position < |log| && |rd.received| == rd.position - rd.start
    requires rd'.start == rd.start && rd'.received == rd.received + [blank]
    ensures WrongAt(log, blank, rd', |rd.received|)
  {
  }

  lemma EarlyFetchMisleads<T>(s: State<T>, a: Action<T>)
    requires Inv(s) && Enabled(s, a) && !ReadsStored(s, a) && NoneBlank(s.claims, s.blank)
    ensures Misled(Step(s, a), a.r)
  {
    FetchDelivers(s, a);
    assert SubscriberOk(s, s.readers[a.r]);
    BlankIsWrong(s.claims, s.blank, s.readers[a.r], Step(s, a).readers[a.r]);
  }

  lemma {:induction false} MisledToTheEnd<T>(s: State<T>, acts: seq<Action<T>>, r: nat)
    requires Inv(s) && Runs(s, acts, false, false) && NoJoin(acts) && Misled(s, r)
    ensures Misled(Run(s, acts), r)
    decreases |acts|
  {
    if acts == [] {
    } else {
      StepKeepsInv(s, acts[0]);
      MisledStays(s, acts[0], r);
      MisledToTheEnd(Step(s, acts[0]), acts[1..], r);
    }
  }

  /**
   * The exact condition, for events that differ from the default one: the subscribers have received
   * exactly the log if and only if every fetch came after the store of its slot.
   */
  lemma {:induction false} LogReceivedIffNoEarlyFetch<T>(s: State<T>, acts: seq<Action<T>>)
    requires Inv(s) && ReceivedLog(s) && Runs(s, acts, false, false) && NoJoin(acts)
    requires NoneBlank(Run(s, acts).claims, s.blank)
    ensures ReceivedLog(Run(s, acts)) <==> Runs(s, acts, false, true)
    decreases |acts|
  {
    if acts == [] {
    } else {
      var a, t := acts[0], Step(s, acts[0]);
      StepKeepsInv(s, a);
      PrefixNotBlank(s.claims, Run(s, acts).claims, s.blank);
      if ReadsStored(s, a) {
        StepKeepsReceived(s, a);
        LogReceivedIffNoEarlyFetch(t, acts[1..]);
      } else {
        EarlyFetchSpoilsRun(s, acts);
      }
    }
  }

  lemma PrefixNotBlank<T>(log: seq<T>, longer: seq<T>, blank: T)
    requires log <= longer && NoneBlank(longer, blank)
    ensures NoneBlank(log, blank)
  {
  }

  lemma EarlyFetchSpoilsRun<T>(s: State<T>, acts: seq<Action<T>>)
    requires Inv(s) && Runs(s, acts, false, false) && NoJoin(acts) && acts != [] && !ReadsStored(s, acts[0])
    requires NoneBlank(s.claims, s.blank)
    ensures !ReceivedLog(Run(s, acts))
  {
    EarlyFetchMisleads(s, acts[0]);
    StepKeepsInv(s, acts[0]);
    MisledToTheEnd(Step(s, acts[0]), acts[1..], acts[0].r);
    MisledIsNotLog(Run(s, acts), acts[0].r);
  }

  lemma MisledIsNotLog<T>(s: State<T>, r: nat)
    requires Misled(s, r)
    ensures !ReceivedLog(s)
  {
    var i :| WrongAt(s.claims, s.blank, s.readers[r], i);
    WrongIsNotInOrder(s.claims, s.blank, s.readers[r], i);
  }

  lemma WrongIsNotInOrder<T>(log: seq<T>, blank: T, rd: Reader<T>, i: nat)
    requires WrongAt(log, blank, rd, i)
    ensures !InOrder(log, rd)
  {
  }
}
