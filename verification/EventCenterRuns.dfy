/**
 * Whole runs of the event center (src/IPCEventCenter.cpp), told by an observer who sees only the calls
 * and their replies.
 */
module EventCenterRuns {
  import opened Common
  import opened EventCenter

  datatype Op<!T> =
    | Publish(events: seq<T>)          // publish, or publishBatch when not a single event
    | Subscribe
    | Unsubscribe(id: nat)
    | Poll(id: nat)
    | Process(id: nat, maxEvents: nat, react: seq<T> -> seq<T>) // process, with a callback that may publish

  datatype Reply<T> = Done | Published(n: nat) | Joined(id: nat) | Delivered(events: seq<T>, published: seq<T>)

  function Apply<T>(c: Center<T>, op: Op<T>): (c': Center<T>)
    requires c.Valid()
    ensures c'.Valid() && c'.capacity == c.capacity && c.log <= c'.log
  {
    match op
    case Publish(events) => AfterPublish(c, events)
    case Subscribe => AfterSubscribe(c)
    case Unsubscribe(id) => AfterUnsubscribe(c, id)
    case Poll(id) => if c.Serves(id) && c.Pending(id) > 0 then c.AdvancedBy(id, 1) else c
    case Process(id, max, react) => if c.Serves(id) then Handled(c, id, max, react, []).0 else c
  }

  function Answer<T>(c: Center<T>, op: Op<T>): Reply<T>
    requires c.Valid()
  {
    match op
    case Publish(events) => Published(Accepted(c, events))
    case Subscribe => if FreeSlot(c.subs, c.nextId, 0).Some? then Joined(FreeSlot(c.subs, c.nextId, 0).value) else Done
    case Unsubscribe(id) => Done
    case Poll(id) => Delivered(if c.Serves(id) && c.Pending(id) > 0 then Upcoming(c, id, 1) else [], [])
    case Process(id, max, react) =>
      if c.Serves(id) then
        var (d, out) := Handled(c, id, max, react, []);
        Delivered(out, d.log[|c.log|..])
      else Delivered([], [])
  }

  /** What an observer writes down: the accepted events, and per slot when it was last joined and what came since. */
  datatype Observer<T> = Observer(published: seq<T>, joinedAt: seq<nat>, inbox: seq<seq<T>>)

  ghost predicate WellFormed<T>(o: Observer<T>) {
    |o.joinedAt| == |o.inbox| == MAX_PROCESS_COUNT
  }

  function Observe<T>(o: Observer<T>, op: Op<T>, reply: Reply<T>): (o': Observer<T>)
    requires WellFormed(o)
    ensures WellFormed(o')
  {
    match (op, reply)
    case (Publish(events), Published(n)) => if n <= |events| then o.(published := o.published + events[..n]) else o
    case (Subscribe, Joined(id)) =>
      if id < MAX_PROCESS_COUNT then o.(joinedAt := o.joinedAt[id := |o.published|], inbox := o.inbox[id := []]) else o
    case (Poll(id), Delivered(events, _)) =>
      if id < MAX_PROCESS_COUNT then o.(inbox := o.inbox[id := o.inbox[id] + events]) else o
    case (Process(id, _, _), Delivered(events, published)) =>
      if id < MAX_PROCESS_COUNT
      then o.(inbox := o.inbox[id := o.inbox[id] + events], published := o.published + published) else o
    case _ => o
  }

  /** An observed subscriber has received the run of published events that starts where it joined. */
  ghost predicate InStep<T>(c: Center<T>, o: Observer<T>, id: nat)
    requires c.Valid() && WellFormed(o) && c.Serves(id)
  {
    c.subs[id].readIndex == o.joinedAt[id] + |o.inbox[id]| && IsNext(o.published, o.joinedAt[id], o.inbox[id])
  }

  ghost predicate Consistent<T>(c: Center<T>, o: Observer<T>) {
    && c.Valid() && WellFormed(o) && o.published == c.log
    && forall id :: 0 <= id < MAX_PROCESS_COUNT && c.subs[id].active ==> InStep(c, o, id)
  }

  lemma ApplyConsistent<T>(c: Center<T>, o: Observer<T>, op: Op<T>)
    requires Consistent(c, o)
    ensures Consistent(Apply(c, op), Observe(o, op, Answer(c, op)))
  {
    var c', o' := Apply(c, op), Observe(o, op, Answer(c, op));
    forall id | 0 <= id < MAX_PROCESS_COUNT && c'.subs[id].active ensures InStep(c', o', id) {
      ApplyInStep(c, o, op, id);
    }
  }

  lemma ApplyInStep<T>(c: Center<T>, o: Observer<T>, op: Op<T>, id: nat)
    requires Consistent(c, o) && id < MAX_PROCESS_COUNT && Apply(c, op).subs[id].active
    ensures InStep(Apply(c, op), Observe(o, op, Answer(c, op)), id)
  {
    match op
    case Publish(events) =>
      PublishInStep(c, o, events, id);
    case Subscribe =>
      assert c.subs[id].active ==> InStep(c, o, id);
    case Unsubscribe(other) =>
      assert InStep(c, o, id);
    case Poll(other) =>
      PollInStep(c, o, other, id);
    case Process(other, max, react) =>
      assert c.subs[id].active && InStep(c, o, id) by {
        ServedStay(c, op);
      }
      if c.Serves(other) {
        ProcessInStep(c, o, op, id);
      }
  }

  lemma PublishInStep<T>(c: Center<T>, o: Observer<T>, events: seq<T>, id: nat)
    requires Consistent(c, o) && c.Serves(id)
    ensures InStep(AfterPublish(c, events), Observe(o, Publish(events), Published(Accepted(c, events))), id)
  {
    assert InStep(c, o, id);
    RunGrows(c.log, AfterPublish(c, events).log, o.joinedAt[id], o.inbox[id]);
  }

  lemma PollInStep<T>(c: Center<T>, o: Observer<T>, other: nat, id: nat)
    requires Consistent(c, o) && c.Serves(id)
    ensures InStep(Apply(c, Poll(other)), Observe(o, Poll(other), Answer(c, Poll(other))), id)
  {
    assert InStep(c, o, id);
    if other == id && c.Pending(id) > 0 {
      RunExtends(c.log, o.joinedAt[id], o.inbox[id], 1);
    }
  }

  /** The notes after a call of process. */
  function Noted<T>(o: Observer<T>, id: nat, log: seq<T>, out: seq<T>): Observer<T>
    requires id < |o.inbox|
  {
    o.(inbox := o.inbox[id := o.inbox[id] + out], published := log)
  }

  lemma ProcessNoted<T>(c: Center<T>, o: Observer<T>, op: Op<T>)
    requires c.Valid() && WellFormed(o) && o.published == c.log && op.Process? && c.Serves(op.id)
    ensures var (d, out) := Handled(c, op.id, op.maxEvents, op.react, []);
            Apply(c, op) == d && Observe(o, op, Answer(c, op)) == Noted(o, op.id, d.log, out)
  {
    var (d, out) := Handled(c, op.id, op.maxEvents, op.react, []);
    WholeLog(c.log, d.log);
  }

  /** A center whose subscriber `served` moved over the events it was given: all subscribers are in step. */
  lemma MoveInStep<T>(c: Center<T>, o: Observer<T>, d: Center<T>, out: seq<T>, served: nat, id: nat)
    requires c.Valid() && d.Valid() && WellFormed(o) && c.Serves(id) && InStep(c, o, id) && o.published == c.log <= d.log
    requires c.Serves(served)
    requires var from := c.subs[served].readIndex;
             && IsNext(d.log, from, out)
             && d.subs == c.subs[served := c.subs[served].(readIndex := from + |out|)]
    ensures d.Serves(id) && InStep(d, Noted(o, served, d.log, out), id)
  {
    RunGrows(c.log, d.log, o.joinedAt[id], o.inbox[id]);
    if served == id {
      RunExtends(d.log, o.joinedAt[id], o.inbox[id], |out|);
    }
  }

  /** A call of process leaves every subscriber in step: the one that is served, and all others. */
  lemma ProcessInStep<T>(c: Center<T>, o: Observer<T>, op: Op<T>, id: nat)
    requires Consistent(c, o) && op.Process? && c.Serves(op.id) && c.Serves(id) && InStep(c, o, id)
    ensures Apply(c, op).Serves(id) && InStep(Apply(c, op), Observe(o, op, Answer(c, op)), id)
  {
    var (d, out) := Handled(c, op.id, op.maxEvents, op.react, []);
    HandledFromStart(c, op.id, op.maxEvents, op.react);
    ProcessNoted(c, o, op);
    MoveInStep(c, o, d, out, op.id, id);
  }

  lemma ServedStay<T>(c: Center<T>, op: Op<T>)
    requires c.Valid() && op.Process?
    ensures |Apply(c, op).subs| == |c.subs|
    ensures forall id :: 0 <= id < |c.subs| ==> (Apply(c, op).subs[id].active <==> c.subs[id].active)
  {
    if c.Serves(op.id) {
      HandledFromStart(c, op.id, op.maxEvents, op.react);
    }
  }

  lemma WholeLog<T>(log: seq<T>, longer: seq<T>)
    requires log <= longer
    ensures log + longer[|log|..] == longer
  {
  }

  lemma RunGrows<T>(log: seq<T>, longer: seq<T>, from: nat, events: seq<T>)
    requires IsNext(log, from, events) && log <= longer
    ensures IsNext(longer, from, events)
  {
  }

  lemma RunExtends<T>(log: seq<T>, from: nat, events: seq<T>, n: nat)
    requires IsNext(log, from, events) && from + |events| + n <= |log|
    ensures IsNext(log, from, events + log[from + |events|..from + |events| + n])
  {
  }

  /** Every call on the center object does what Apply says, and replies what Answer says. */
  method Perform<T>(center: IPCEventCenter<T>, op: Op<T>, now: nat) returns (reply: Reply<T>)
    requires center.Valid() && center.mapped
    modifies center, center.ring, center.ring.data, center.subscribers
    ensures center.Valid() && center.mapped && center.ring.data == old(center.ring.data)
    ensures center.View() == Apply(old(center.View()), op) && reply == Answer(old(center.View()), op)
  {
    match op
    case Publish(events) =>
      var r, n := center.PublishBatch(events, seq(|events|, _ => now));
      reply := Published(n);
    case Subscribe =>
      var r, id := center.Subscribe(true);
      reply := if id.Some? then Joined(id.value) else Done;
    case Unsubscribe(id) =>
      var r := center.Unsubscribe(id);
      reply := Done;
    case Poll(id) =>
      var r, event := center.Poll(id);
      reply := Delivered(if event.Some? then [event.value] else [], []);
    case Process(id, max, react) =>
      var n, delivered, published := center.Process(id, max, react, now);
      reply := Delivered(delivered, published);
  }

  /** The center and the observer's notes after a run. */
  ghost function Run<T>(c: Center<T>, o: Observer<T>, ops: seq<Op<T>>): (r: (Center<T>, Observer<T>))
    requires c.Valid() && WellFormed(o)
    ensures r.0.Valid() && WellFormed(r.1) && r.0.capacity == c.capacity && c.log <= r.0.log
    decreases |ops|
  {
    if ops == [] then (c, o) else Run(Apply(c, ops[0]), Observe(o, ops[0], Answer(c, ops[0])), ops[1..])
  }

  lemma {:induction false} RunConsistent<T>(c: Center<T>, o: Observer<T>, ops: seq<Op<T>>)
    requires Consistent(c, o)
    ensures Consistent(Run(c, o, ops).0, Run(c, o, ops).1)
    decreases |ops|
  {
    if ops == [] {
    } else {
      ApplyConsistent(c, o, ops[0]);
      RunConsistent(Apply(c, ops[0]), Observe(o, ops[0], Answer(c, ops[0])), ops[1..]);
    }
  }

  /** The call is not a publish of which something was refused. */
  ghost predicate Whole<T>(op: Op<T>, reply: Reply<T>) {
    op.Publish? ==> reply == Published(|op.events|)
  }

  /** No publish of the run was cut short. */
  ghost predicate AlwaysWhole<T>(c: Center<T>, ops: seq<Op<T>>)
    requires c.Valid()
    decreases |ops|
  {
    ops == [] || (Whole(ops[0], Answer(c, ops[0])) && AlwaysWhole(Apply(c, ops[0]), ops[1..]))
  }

  /** A publish is answered with the number of events it has appended, which is all of them unless the queue is then full. */
  lemma PublishAppends<T>(c: Center<T>, events: seq<T>)
    requires c.Valid()
    ensures var reply, d := Answer(c, Publish(events)), Apply(c, Publish(events));
            && reply.Published? && reply.n <= |events| && d.log == c.log + events[..reply.n] && d.subs == c.subs
            && (reply.n < |events| ==> |d.log| == c.capacity - 1)
  {
  }

  /** Something is refused only in runs that end with capacity - 1 events published. */
  lemma {:induction false} CutShortOnlyWhenFull<T>(c: Center<T>, o: Observer<T>, ops: seq<Op<T>>)
    requires c.Valid() && WellFormed(o)
    ensures AlwaysWhole(c, ops) || |Run(c, o, ops).0.log| == c.capacity - 1
    decreases |ops|
  {
    if ops == [] {
    } else {
      if ops[0].Publish? {
        PublishAppends(c, ops[0].events);
      }
      CutShortOnlyWhenFull(Apply(c, ops[0]), Observe(o, ops[0], Answer(c, ops[0])), ops[1..]);
    }
  }

  /**
   * Over any run from an empty center, whatever the interleaving of calls: at most capacity - 1 events
   * are ever accepted and none is refused before that many are, no accepted event is ever overwritten, and
   * the events delivered to a subscriber since it joined are exactly the next ones of the published log:
   * none lost, repeated or reordered.
   */
  lemma EveryRun<T>(capacity: nat, ops: seq<Op<T>>, id: nat)
    requires 2 <= capacity < UINT32_RANGE && id < MAX_PROCESS_COUNT
    ensures
      var idle := seq(MAX_PROCESS_COUNT, _ => Subscriber(0, false, false));
      var c0, o0 := Center(capacity, [], idle, 0), Observer([], seq(MAX_PROCESS_COUNT, _ => 0), seq(MAX_PROCESS_COUNT, _ => []));
      && Consistent(c0, o0)
      && var (c, o) := Run(c0, o0, ops);
      && o.published == c.log && |o.published| <= capacity - 1
      && (|o.published| < capacity - 1 ==> AlwaysWhole(c0, ops))
      && (c.subs[id].active ==>
            && o.joinedAt[id] + |o.inbox[id]| <= |o.published|
            && o.inbox[id] == o.published[o.joinedAt[id]..o.joinedAt[id] + |o.inbox[id]|]
            && c.subs[id].readIndex == o.joinedAt[id] + |o.inbox[id]|)
  {
    var idle := seq(MAX_PROCESS_COUNT, _ => Subscriber(0, false, false));
    var c0, o0 := Center(capacity, [], idle, 0), Observer([], seq(MAX_PROCESS_COUNT, _ => 0), seq(MAX_PROCESS_COUNT, _ => []));
    RunConsistent(c0, o0, ops);
    CutShortOnlyWhenFull(c0, o0, ops);
    var (c, o) := Run(c0, o0, ops);
    if c.subs[id].active {
      assert InStep(c, o, id);
    }
  }
}
