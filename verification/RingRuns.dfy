/**
 * Whole runs of a ring buffer with any number of readers, calls taken as atomic
 * (include/ShmRingBuffer.h). Each reader owns a private index; `readers[r]` is the absolute position it
 * means to read next, `inbox[r]` what it has received.
 */
module RingRuns {
  import opened Common
  import opened ShmRing
  import ModArith

  datatype Ring<T> = Ring(capacity: nat, blank: T, events: seq<T>, consumed: int,
                          readers: seq<nat>, inbox: seq<seq<T>>)
  {
    ghost predicate Valid() {
      && 2 <= capacity <= UINT32_RANGE / 2
      && |events| - capacity < consumed <= |events|
      && |inbox| == |readers|
      && forall r :: 0 <= r < |readers| ==> readers[r] <= |events|
    }
  }

  datatype Op<T> = Write(event: T) | Read(reader: nat, updateGlobal: bool)

  ghost predicate Enabled<T>(s: Ring<T>, op: Op<T>) {
    op.Read? ==> op.reader < |s.readers|
  }

  /** What a call does to the log and to the reader's inbox; Read goes by the reader's index, as the code does. */
  function Step<T>(s: Ring<T>, op: Op<T>): (s': Ring<T>)
    requires s.Valid() && Enabled(s, op)
    ensures s'.Valid() && s'.capacity == s.capacity && |s'.readers| == |s.readers|
    ensures s.consumed <= s'.consumed && s.events <= s'.events
  {
    match op
    case Write(e) =>
      if |s.events| - s.consumed == s.capacity - 1 then s else s.(events := s.events + [e])
    case Read(r, updateGlobal) =>
      var p := PositionOf(|s.events|, Slot(s.readers[r], s.capacity), s.capacity);
      PositionExact(|s.events|, s.readers[r], s.capacity);
      if p == |s.events| then s
      else s.(readers := s.readers[r := s.readers[r] + 1],
              inbox := s.inbox[r := s.inbox[r] + [EntryAt(s.events, s.blank, p)]],
              consumed := if updateGlobal then Max(s.consumed, p + 1) else s.consumed)
  }

  /** The buffer object and the readers' indices show the abstract state s. */
  ghost predicate Shows<T>(buffer: ShmRingBuffer<T>, indices: seq<nat>, s: Ring<T>)
    reads buffer, buffer.data
  {
    && buffer.Valid() && buffer.initialized && s.Valid()
    && (s.capacity, s.blank) == (buffer.capacity, buffer.blank)
    && (s.events, s.consumed) == (buffer.events, buffer.consumed)
    && |indices| == |s.readers|
    && forall r :: 0 <= r < |indices| ==> indices[r] == Slot(s.readers[r], s.capacity)
  }

  /** Every call on the buffer object is a Step: what the object shows afterwards, and what a reader gets. */
  method Perform<T>(buffer: ShmRingBuffer<T>, indices: array<nat>, op: Op<T>, ghost s: Ring<T>)
    returns (got: Option<T>)
    requires Shows(buffer, indices[..], s) && Enabled(s, op)
    requires indices as object != buffer && indices as object != buffer.data
    modifies buffer, buffer.data, indices
    ensures Shows(buffer, indices[..], Step(s, op)) && buffer.data == old(buffer.data)
    ensures op.Write? ==> got == None
    ensures op.Read? ==> Step(s, op).inbox[op.reader] ==
                         if got.Some? then s.inbox[op.reader] + [got.value] else s.inbox[op.reader]
  {
    match op
    case Write(e) =>
      var r := buffer.Write(e);
      got := None;
    case Read(reader, updateGlobal) =>
      var r, next;
      r, got, next := buffer.Read(indices[reader], updateGlobal);
      ghost var p := PositionOf(|s.events|, indices[reader], s.capacity);
      ModArith.Next(p, s.capacity);
      ModArith.Next(s.readers[reader], s.capacity);
      indices[reader] := next;
  }

  ghost predicate Runs<T>(s: Ring<T>, ops: seq<Op<T>>)
    requires s.Valid()
    decreases |ops|
  {
    ops == [] || (Enabled(s, ops[0]) && Runs(Step(s, ops[0]), ops[1..]))
  }

  function Run<T>(s: Ring<T>, ops: seq<Op<T>>): (s': Ring<T>)
    requires s.Valid() && Runs(s, ops)
    ensures s'.Valid() && s'.capacity == s.capacity && |s'.readers| == |s.readers|
    ensures s.consumed <= s'.consumed && s.events <= s'.events
    decreases |ops|
  {
    if ops == [] then s else Run(Step(s, ops[0]), ops[1..])
  }

  /** The call is a read by r that delivers an event. */
  ghost predicate Delivers<T>(s: Ring<T>, op: Op<T>, r: nat)
    requires s.Valid() && r < |s.readers|
  {
    op.Read? && op.reader == r && PositionOf(|s.events|, Slot(s.readers[r], s.capacity), s.capacity) != |s.events|
  }

  /** Reader r is less than a lap behind at every one of its reads that deliver. */
  ghost predicate KeepsUp<T>(s: Ring<T>, ops: seq<Op<T>>, r: nat)
    requires s.Valid() && Runs(s, ops) && r < |s.readers|
    decreases |ops|
  {
    ops == [] ||
    (&& (Delivers(s, ops[0], r) ==> |s.events| - s.readers[r] < s.capacity)
     && KeepsUp(Step(s, ops[0]), ops[1..], r))
  }

  /** From state s to state t, reader r has received the run of t's log between its positions. */
  ghost predicate ReceivedRun<T>(s: Ring<T>, t: Ring<T>, r: nat) {
    && r < |s.readers| == |t.readers| == |s.inbox| == |t.inbox| && s.readers[r] <= t.readers[r] <= |t.events|
    && t.inbox[r] == s.inbox[r] + t.events[s.readers[r]..t.readers[r]]
  }

  /** One call: a reader that is less than a lap behind gets its own next event, others get nothing. */
  lemma StepInOrder<T>(s: Ring<T>, op: Op<T>, r: nat)
    requires s.Valid() && Enabled(s, op) && r < |s.readers|
    requires Delivers(s, op, r) ==> |s.events| - s.readers[r] < s.capacity
    ensures ReceivedRun(s, Step(s, op), r)
  {
    if Delivers(s, op, r) {
      PositionExact(|s.events|, s.readers[r], s.capacity);
    }
  }

  /** A reader that has been lapped gets a later event than its own next one. */
  lemma LateReadSkips<T>(s: Ring<T>, op: Op<T>, r: nat)
    requires s.Valid() && Enabled(s, op) && r < |s.readers|
    requires Delivers(s, op, r) && |s.events| - s.readers[r] >= s.capacity
    ensures var p := PositionOf(|s.events|, Slot(s.readers[r], s.capacity), s.capacity);
            && s.readers[r] < p < |s.events|
            && Step(s, op).inbox[r] == s.inbox[r] + [s.events[p]]
  {
  }

  lemma Consecutive<T>(log: seq<T>, longer: seq<T>, i: nat, j: nat, k: nat)
    requires log <= longer && i <= j <= |log| && j <= k <= |longer|
    ensures log[i..j] + longer[j..k] == longer[i..k]
  {
  }

  /** What a reader has received stays received, one event for each position it has moved on. */
  lemma {:induction false} InboxGrows<T>(s: Ring<T>, ops: seq<Op<T>>, r: nat)
    requires s.Valid() && Runs(s, ops) && r < |s.readers|
    ensures var s' := Run(s, ops);
            s.inbox[r] <= s'.inbox[r] && |s'.inbox[r]| + s.readers[r] == |s.inbox[r]| + s'.readers[r]
    decreases |ops|
  {
    if ops == [] {
    } else {
      InboxGrows(Step(s, ops[0]), ops[1..], r);
    }
  }

  lemma JoinRuns<T>(s: Ring<T>, t: Ring<T>, u: Ring<T>, r: nat)
    requires ReceivedRun(s, t, r) && t.events <= u.events && r < |u.readers| == |u.inbox| == |t.readers|
    ensures ReceivedRun(t, u, r) ==> ReceivedRun(s, u, r)
    ensures ReceivedRun(s, u, r) && t.readers[r] <= u.readers[r] ==> ReceivedRun(t, u, r)
  {
    if t.readers[r] <= u.readers[r] <= |u.events| {
      Consecutive(t.events, u.events, s.readers[r], t.readers[r], u.readers[r]);
    }
  }

  /** A reader that keeps up receives the log from where it started: nothing lost, repeated or reordered. */
  lemma {:induction false} ReaderSeesLog<T>(s: Ring<T>, ops: seq<Op<T>>, r: nat)
    requires s.Valid() && Runs(s, ops) && r < |s.readers| && KeepsUp(s, ops, r)
    ensures ReceivedRun(s, Run(s, ops), r)
    decreases |ops|
  {
    if ops == [] {
    } else {
      StepInOrder(s, ops[0], r);
      ReaderSeesLog(Step(s, ops[0]), ops[1..], r);
      JoinRuns(s, Step(s, ops[0]), Run(s, ops), r);
    }
  }

  ghost predicate AllDifferent<T>(log: seq<T>) {
    forall i, j :: 0 <= i < j < |log| ==> log[i] != log[j]
  }

  /**
   * The exact condition, for pairwise different events: the reader has received the log from where it
   * started if and only if it was less than a lap behind whenever it read an event.
   */
  lemma {:induction false} ReaderSeesLogIff<T>(s: Ring<T>, ops: seq<Op<T>>, r: nat)
    requires s.Valid() && Runs(s, ops) && r < |s.readers| && AllDifferent(Run(s, ops).events)
    ensures ReceivedRun(s, Run(s, ops), r) <==> KeepsUp(s, ops, r)
    decreases |ops|
  {
    if ops == [] {
    } else {
      var t, u := Step(s, ops[0]), Run(s, ops);
      InboxGrows(t, ops[1..], r);
      if Delivers(s, ops[0], r) && |s.events| - s.readers[r] >= s.capacity {
        LateReadSkips(s, ops[0], r);
        assert u.inbox[r][|s.inbox[r]|] == t.inbox[r][|s.inbox[r]|];
      } else {
        StepInOrder(s, ops[0], r);
        JoinRuns(s, t, u, r);
        ReaderSeesLogIff(t, ops[1..], r);
      }
    }
  }

  /** Reader u is the one that updates the global index, on every read, and no other reader does. */
  ghost predicate SoleUpdater<T>(ops: seq<Op<T>>, u: nat) {
    ops == [] || ((ops[0].Read? ==> (ops[0].updateGlobal <==> ops[0].reader == u)) && SoleUpdater(ops[1..], u))
  }

  /**
   * The single updating reader never falls a lap behind, its position is the global one, and so the
   * buffer is a queue for it: it receives exactly the accepted events in order.
   */
  lemma {:induction false} SoleUpdaterIsQueue<T>(s: Ring<T>, ops: seq<Op<T>>, u: nat)
    requires s.Valid() && Runs(s, ops) && u < |s.readers| && SoleUpdater(ops, u)
    requires s.readers[u] == s.consumed
    ensures var s' := Run(s, ops);
            && KeepsUp(s, ops, u)
            && s'.readers[u] == s'.consumed
            && |s'.events| - s'.consumed <= s'.capacity - 1
            && s'.inbox[u] == s.inbox[u] + s'.events[s.consumed..s'.consumed]
    decreases |ops|
  {
    if ops == [] {
    } else {
      PositionExact(|s.events|, s.readers[u], s.capacity);
      var t := Step(s, ops[0]);
      assert t.readers[u] == t.consumed;
      SoleUpdaterIsQueue(t, ops[1..], u);
    }
    ReaderSeesLog(s, ops, u);
  }

  ghost predicate Reaches<T>(s: Ring<T>, ops: seq<Op<T>>, t: Ring<T>) {
    s.Valid() && Runs(s, ops) && Run(s, ops) == t
  }

  lemma Prepend<T>(s: Ring<T>, a: Op<T>, rest: seq<Op<T>>, u: Ring<T>)
    requires s.Valid() && Enabled(s, a) && Reaches(Step(s, a), rest, u)
    ensures Reaches(s, [a] + rest, u)
  {
    assert ([a] + rest)[1..] == rest;
  }

  lemma {:induction false} Chain<T>(s: Ring<T>, a: seq<Op<T>>, t: Ring<T>, b: seq<Op<T>>, u: Ring<T>)
    requires Reaches(s, a, t) && Reaches(t, b, u)
    ensures Reaches(s, a + b, u)
    decreases |a|
  {
    if a == [] {
      assert a + b == b;
    } else {
      var rest := a[1..] + b;
      Chain(Step(s, a[0]), a[1..], t, b, u);
      assert a + b == [a[0]] + rest;
      Prepend(s, a[0], rest, u);
    }
  }

  /** A write into a buffer with room, then an updating read by a reader whose index is the slot of position p. */
  lemma WriteThenRead<T>(s: Ring<T>, e: T, r: nat, p: nat, t: Ring<T>)
    requires s.Valid() && t.Valid() && r < |s.readers|
    requires |s.events| - s.consumed < s.capacity - 1
    requires t.capacity == s.capacity && t.blank == s.blank && t.events == s.events + [e]
    requires t.consumed == Max(s.consumed, p + 1) && t.readers == s.readers[r := s.readers[r] + 1]
    requires |s.events| + 1 - s.capacity < p <= |s.events|
    requires Slot(s.readers[r], s.capacity) == Slot(p, s.capacity)
    requires |t.inbox| == |s.inbox| && t.inbox[r] == s.inbox[r] + [t.events[p]]
    requires forall i :: 0 <= i < |t.inbox| && i != r ==> t.inbox[i] == s.inbox[i]
    ensures Step(Step(s, Write(e)), Read(r, true)) == t
  {
    var m := Step(s, Write(e));
    PositionExact(|m.events|, p, m.capacity);
    assert Step(m, Read(r, true)).inbox == t.inbox;
  }

  lemma Twice<T>(s: Ring<T>, a: Op<T>, b: Op<T>, t: Ring<T>) returns (ops: seq<Op<T>>)
    requires s.Valid() && Enabled(s, a) && Enabled(s, b) && Step(Step(s, a), b) == t
    ensures Reaches(s, ops, t)
  {
    Prepend(Step(s, a), b, [], t);
    Prepend(s, a, [b] + [], t);
    ops := [a] + ([b] + []);
  }

  /** Two updating readers on two slots, after the log, what each has read and received, and the global position. */
  function Lap(log: seq<int>, readers: seq<nat>, inbox: seq<seq<int>>): Ring<int> {
    Ring(2, 0, log, |log|, readers, inbox)
  }

  /** A write and a read by the fast reader, which is at the end of the log. */
  lemma FastLap(log: seq<int>, x: int) returns (ops: seq<Op<int>>)
    ensures Reaches(Lap(log, [|log|, 0], [log, []]), ops, Lap(log + [x], [|log| + 1, 0], [log + [x], []]))
  {
    var s, t := Lap(log, [|log|, 0], [log, []]), Lap(log + [x], [|log| + 1, 0], [log + [x], []]);
    WriteThenRead(s, x, 0, |log|, t);
    ops := Twice(s, Write(x), Read(0, true), t);
  }

  /** A write and a read by the slow reader, which is a whole lap behind. */
  lemma SlowLap(log: seq<int>, x: int) returns (ops: seq<Op<int>>)
    requires |log| == 2
    ensures Reaches(Lap(log, [2, 0], [log, []]), ops, Lap(log + [x], [2, 1], [log, [x]]))
  {
    var s, t := Lap(log, [2, 0], [log, []]), Lap(log + [x], [2, 1], [log, [x]]);
    WriteThenRead(s, x, 1, 2, t);
    ops := Twice(s, Write(x), Read(1, true), t);
  }

  /**
   * With two updating readers only the faster one is protected. With two slots the fast reader lets the
   * writer lap the slow one, which then receives the third event and never the first two.
   */
  lemma SlowUpdaterLosesEvents(a: int, b: int, c: int) returns (ops: seq<Op<int>>)
    ensures Reaches(Lap([], [0, 0], [[], []]), ops, Lap([a, b, c], [2, 1], [[a, b], [c]]))
  {
    var none: seq<int> := [];
    var first := FastLap(none, a);
    var second := FastLap([a], b);
    var third := SlowLap([a, b], c);
    assert none + [a] == [a] && [a] + [b] == [a, b] && [a, b] + [c] == [a, b, c];
    Chain(Lap(none, [0, 0], [none, []]), first, Lap([a], [1, 0], [[a], []]), second, Lap([a, b], [2, 0], [[a, b], []]));
    Chain(Lap(none, [0, 0], [none, []]), first + second, Lap([a, b], [2, 0], [[a, b], []]), third,
          Lap([a, b, c], [2, 1], [[a, b], [c]]));
    ops := first + second + third;
  }
}
