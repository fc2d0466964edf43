/**
 * The event center of one process (src/IPCEventCenter.cpp): publishing into the shared ring buffer and
 * delivering to local subscribers, each with its own read index. Every call is atomic.
 */
module EventCenter {
  import opened Common
  import opened ShmRing
  import ModArith

  /** One entry of m_subscribers. */
  datatype Subscriber = Subscriber(readIndex: nat, hasCallback: bool, active: bool)

  /** What a client of the center can tell apart: the log of published events and the subscriber slots. */
  datatype Center<T> = Center(capacity: nat, log: seq<T>, subs: seq<Subscriber>, nextId: nat)
  {
    ghost predicate Valid() {
      && 2 <= capacity < UINT32_RANGE && |log| <= capacity - 1
      && |subs| == MAX_PROCESS_COUNT && nextId < MAX_PROCESS_COUNT
      && forall id :: 0 <= id < |subs| && subs[id].active ==> subs[id].hasCallback && subs[id].readIndex <= |log|
    }

    predicate Serves(id: nat) {
      id < |subs| && subs[id].active
    }

    /** Events published since the subscriber joined that it has not read yet. */
    function Pending(id: nat): nat
      requires Valid() && Serves(id)
    {
      |log| - subs[id].readIndex
    }

    function AdvancedBy(id: nat, n: nat): Center<T>
      requires id < |subs|
    {
      this.(subs := subs[id := subs[id].(readIndex := subs[id].readIndex + n)])
    }
  }

  // ---------- What the calls do ----------

  /** Publishing appends as many of the events as the log has room for, from the front. */
  function Accepted<T>(c: Center<T>, events: seq<T>): (n: nat)
    requires c.Valid()
    ensures n <= |events|
  {
    Min(|events|, c.capacity - 1 - |c.log|)
  }

  function AfterPublish<T>(c: Center<T>, events: seq<T>): Center<T>
    requires c.Valid()
  {
    c.(log := c.log + events[..Accepted(c, events)])
  }

  /** The slot k places after `from` in circular order. */
  function Around(from: nat, k: nat): (id: nat)
    ensures id < MAX_PROCESS_COUNT
  {
    U32(from + k) % MAX_PROCESS_COUNT
  }

  /** The first slot that is not active, in circular order from `from`, after `i` slots have been passed. */
  function FreeSlot(subs: seq<Subscriber>, from: nat, i: nat): (free: Option<nat>)
    requires |subs| == MAX_PROCESS_COUNT && i <= MAX_PROCESS_COUNT
    ensures free.Some? ==> free.value < MAX_PROCESS_COUNT && !subs[free.value].active
    decreases MAX_PROCESS_COUNT - i
  {
    if i == MAX_PROCESS_COUNT then None
    else if !subs[Around(from, i)].active then Some(Around(from, i))
    else FreeSlot(subs, from, i + 1)
  }

  /** Subscribing fails exactly when all slots are taken; otherwise no free slot is passed over. */
  lemma {:induction false} FreeSlotIsNearest(subs: seq<Subscriber>, from: nat, i: nat)
    requires |subs| == MAX_PROCESS_COUNT && i <= MAX_PROCESS_COUNT
    ensures var free := FreeSlot(subs, from, i);
            if free.None? then forall k :: i <= k < MAX_PROCESS_COUNT ==> subs[Around(from, k)].active
            else exists k :: i <= k < MAX_PROCESS_COUNT && free.value == Around(from, k)
                             && forall j :: i <= j < k ==> subs[Around(from, j)].active
    decreases MAX_PROCESS_COUNT - i
  {
    if i < MAX_PROCESS_COUNT && subs[Around(from, i)].active {
      FreeSlotIsNearest(subs, from, i + 1);
    }
  }

  lemma AroundIs(from: nat, k: nat)
    requires from < MAX_PROCESS_COUNT && k < MAX_PROCESS_COUNT
    ensures Around(from, k) == if from + k < MAX_PROCESS_COUNT then from + k else from + k - MAX_PROCESS_COUNT
  {
    ModArith.Small(from + k, UINT32_RANGE);
  }

  lemma AroundReaches(from: nat, id: nat) returns (k: nat)
    requires from < MAX_PROCESS_COUNT && id < MAX_PROCESS_COUNT
    ensures k == (if id >= from then id - from else id + MAX_PROCESS_COUNT - from) && Around(from, k) == id
  {
    k := if id >= from then id - from else id + MAX_PROCESS_COUNT - from;
    AroundIs(from, k);
  }

  lemma FullExactlyWhenAllActive(subs: seq<Subscriber>, from: nat)
    requires |subs| == MAX_PROCESS_COUNT && from < MAX_PROCESS_COUNT
    ensures FreeSlot(subs, from, 0).None? <==> forall id :: 0 <= id < |subs| ==> subs[id].active
  {
    FreeSlotIsNearest(subs, from, 0);
    if FreeSlot(subs, from, 0).None? {
      forall id | 0 <= id < |subs| ensures subs[id].active {
        var k := AroundReaches(from, id);
      }
    }
  }

  function AfterSubscribe<T>(c: Center<T>): Center<T>
    requires c.Valid()
  {
    match FreeSlot(c.subs, c.nextId, 0)
    case None => c
    case Some(id) =>
      c.(subs := c.subs[id := Subscriber(|c.log|, true, true)], nextId := (id + 1) % MAX_PROCESS_COUNT)
  }

  /**
   * Subscribing takes an inactive slot unless all are active, and every slot from the one after the last
   * given out upwards, past the end to the beginning, is active up to the one it takes.
   */
  lemma SubscribeTakesNearest<T>(c: Center<T>)
    requires c.Valid()
    ensures var free, d := FreeSlot(c.subs, c.nextId, 0), AfterSubscribe(c);
            && (free.None? <==> forall id :: 0 <= id < MAX_PROCESS_COUNT ==> c.subs[id].active)
            && (free.None? ==> d == c)
            && (free.Some? ==>
                  var id := free.value;
                  && id < MAX_PROCESS_COUNT && !c.subs[id].active
                  && d == c.(subs := c.subs[id := Subscriber(|c.log|, true, true)], nextId := if id == 31 then 0 else id + 1)
                  && (forall j :: 0 <= j < MAX_PROCESS_COUNT && (if c.nextId <= id then c.nextId <= j < id else c.nextId <= j || j < id) ==>
                        c.subs[j].active))
  {
    FullExactlyWhenAllActive(c.subs, c.nextId);
    if FreeSlot(c.subs, c.nextId, 0).Some? {
      NothingSkipped(c.subs, c.nextId);
      WrappedNext(FreeSlot(c.subs, c.nextId, 0).value);
    }
  }

  lemma WrappedNext(id: nat)
    requires id < MAX_PROCESS_COUNT
    ensures (id + 1) % MAX_PROCESS_COUNT == if id == 31 then 0 else id + 1
  {
  }

  lemma NothingSkipped(subs: seq<Subscriber>, from: nat)
    requires |subs| == MAX_PROCESS_COUNT && from < MAX_PROCESS_COUNT && FreeSlot(subs, from, 0).Some?
    ensures var id := FreeSlot(subs, from, 0).value;
            forall j :: 0 <= j < MAX_PROCESS_COUNT && (if from <= id then from <= j < id else from <= j || j < id) ==> subs[j].active
  {
    FreeSlotIsNearest(subs, from, 0);
    var id := FreeSlot(subs, from, 0).value;
    var k :| 0 <= k < MAX_PROCESS_COUNT && id == Around(from, k) && forall j :: 0 <= j < k ==> subs[Around(from, j)].active;
    AroundIs(from, k);
    forall j | 0 <= j < MAX_PROCESS_COUNT && (if from <= id then from <= j < id else from <= j || j < id) ensures subs[j].active {
      var i := AroundReaches(from, j);
    }
  }

  function AfterUnsubscribe<T>(c: Center<T>, id: nat): Center<T> {
    if c.Serves(id) then c.(subs := c.subs[id := c.subs[id].(active := false, hasCallback := false)]) else c
  }

  /** How many events one call of process delivers. */
  function Batch<T>(c: Center<T>, id: nat, maxEvents: nat): (n: nat)
    requires c.Valid() && c.Serves(id)
    ensures n <= c.Pending(id)
  {
    if maxEvents == 0 then c.Pending(id) else Min(maxEvents, c.Pending(id))
  }

  /** The next n events of a subscriber. */
  function Upcoming<T>(c: Center<T>, id: nat, n: nat): seq<T>
    requires c.Valid() && c.Serves(id) && n <= c.Pending(id)
  {
    c.log[c.subs[id].readIndex..c.subs[id].readIndex + n]
  }

  /**
   * What process does: as long as the subscriber has an event to read and the limit is not reached, it
   * reads one, and the callback publishes what it likes, knowing all events it has seen in this call.
   */
  function Handled<T>(c: Center<T>, id: nat, maxEvents: nat, react: seq<T> -> seq<T>, seen: seq<T>): (r: (Center<T>, seq<T>))
    requires c.Valid() && c.Serves(id)
    ensures r.0.Valid() && r.0.Serves(id) && r.0.capacity == c.capacity && c.log <= r.0.log && seen <= r.1
    decreases c.capacity - c.subs[id].readIndex
  {
    if c.Pending(id) == 0 then (c, seen)
    else
      var now := seen + [c.log[c.subs[id].readIndex]];
      var next := AfterPublish(c.AdvancedBy(id, 1), react(now));
      if maxEvents == 1 then (next, now)
      else Handled(next, id, if maxEvents == 0 then 0 else maxEvents - 1, react, now)
  }

  lemma HandledOnce<T>(c: Center<T>, id: nat, maxEvents: nat, react: seq<T> -> seq<T>, seen: seq<T>)
    requires c.Valid() && c.Serves(id)
    ensures Handled(c, id, maxEvents, react, seen) ==
            if c.Pending(id) == 0 then (c, seen)
            else
              var now := seen + [c.log[c.subs[id].readIndex]];
              var next := AfterPublish(c.AdvancedBy(id, 1), react(now));
              if maxEvents == 1 then (next, now)
              else Handled(next, id, if maxEvents == 0 then 0 else maxEvents - 1, react, now)
  {
  }

  /** From c to d the subscriber has moved over the next events of d's log, and `seen` has become `out`. */
  ghost predicate MovedOn<T>(c: Center<T>, d: Center<T>, id: nat, seen: seq<T>, out: seq<T>) {
    && id < |c.subs| && |seen| <= |out| && c.log <= d.log
    && var from, n := c.subs[id].readIndex, |out| - |seen|;
       d == c.AdvancedBy(id, n).(log := d.log) && from + n <= |d.log| && out == seen + d.log[from..from + n]
  }

  lemma MovesJoin<T>(c: Center<T>, d: Center<T>, e: Center<T>, id: nat, seen: seq<T>, now: seq<T>, out: seq<T>)
    requires MovedOn(c, d, id, seen, now) && MovedOn(d, e, id, now, out)
    ensures MovedOn(c, e, id, seen, out)
  {
    assert e.subs == c.AdvancedBy(id, |out| - |seen|).subs;
  }

  lemma MoveOne<T>(c: Center<T>, id: nat, seen: seq<T>, events: seq<T>)
    requires c.Valid() && c.Serves(id) && c.Pending(id) > 0
    ensures MovedOn(c, AfterPublish(c.AdvancedBy(id, 1), events), id, seen, seen + [c.log[c.subs[id].readIndex]])
  {
  }

  /**
   * Whatever the callback publishes: process terminates, the subscriber is given the next events of the
   * log as it is in the end, and it goes on until the limit is reached or nothing is pending.
   */
  lemma {:induction false} HandledInOrder<T>(c: Center<T>, id: nat, maxEvents: nat, react: seq<T> -> seq<T>, seen: seq<T>)
    requires c.Valid() && c.Serves(id)
    ensures var (d, out) := Handled(c, id, maxEvents, react, seen);
            && MovedOn(c, d, id, seen, out)
            && (|out| - |seen| == maxEvents || d.Pending(id) == 0)
            && (maxEvents > 0 ==> |out| - |seen| <= maxEvents)
    decreases c.capacity - c.subs[id].readIndex
  {
    if c.Pending(id) == 0 {
      assert c.AdvancedBy(id, 0).subs == c.subs;
    } else {
      var now := seen + [c.log[c.subs[id].readIndex]];
      var next := AfterPublish(c.AdvancedBy(id, 1), react(now));
      MoveOne(c, id, seen, react(now));
      if maxEvents != 1 {
        var (d, out) := Handled(c, id, maxEvents, react, seen);
        HandledInOrder(next, id, if maxEvents == 0 then 0 else maxEvents - 1, react, now);
        MovesJoin(c, next, d, id, seen, now, out);
      }
    }
  }

  /** The events are the ones at the given place of the log. */
  ghost predicate IsNext<T>(log: seq<T>, from: nat, events: seq<T>) {
    from + |events| <= |log| && events == log[from..from + |events|]
  }

  /** The same for a call that has seen nothing yet: who moved, and over which events. */
  lemma HandledFromStart<T>(c: Center<T>, id: nat, maxEvents: nat, react: seq<T> -> seq<T>)
    requires c.Valid() && c.Serves(id)
    ensures var (d, out) := Handled(c, id, maxEvents, react, []);
            var from := c.subs[id].readIndex;
            && IsNext(d.log, from, out)
            && d.subs == c.subs[id := c.subs[id].(readIndex := from + |out|)]
  {
    HandledInOrder(c, id, maxEvents, react, []);
    var (d, out) := Handled(c, id, maxEvents, react, []);
    var slice := d.log[c.subs[id].readIndex..c.subs[id].readIndex + |out|];
    assert [] + slice == slice;
  }

  /** What the callback publishes on the events after the first k, one call after the other. */
  function Reactions<T>(react: seq<T> -> seq<T>, out: seq<T>, k: nat): seq<T>
    requires k <= |out|
    decreases |out| - k
  {
    if k == |out| then [] else react(out[..k + 1]) + Reactions(react, out, k + 1)
  }

  /** From c to d the log has grown by the events, as far as there was room. */
  ghost predicate GrownBy<T>(c: Center<T>, d: Center<T>, events: seq<T>) {
    && |c.log| <= |d.log| <= |c.log| + |events|
    && d.log == c.log + events[..|d.log| - |c.log|]
    && (|d.log| == |c.log| + |events| || |d.log| == c.capacity - 1)
  }

  lemma PublishGrows<T>(c: Center<T>, events: seq<T>)
    requires c.Valid()
    ensures GrownBy(c, AfterPublish(c, events), events)
  {
  }

  lemma GrownTwice<T>(c: Center<T>, d: Center<T>, e: Center<T>, a: seq<T>, b: seq<T>)
    requires GrownBy(c, d, a) && GrownBy(d, e, b) && d.capacity == c.capacity && |e.log| <= c.capacity - 1
    ensures GrownBy(c, e, a + b)
  {
    assert (a + b)[..|e.log| - |c.log|] == a[..|d.log| - |c.log|] + b[..|e.log| - |d.log|];
  }

  /** The log grows by what the callback publishes, in order; anything is left out only if the queue is full. */
  lemma {:induction false} HandledPublishes<T>(c: Center<T>, id: nat, maxEvents: nat, react: seq<T> -> seq<T>, seen: seq<T>)
    requires c.Valid() && c.Serves(id)
    ensures var (d, out) := Handled(c, id, maxEvents, react, seen);
            var all := Reactions(react, out, |seen|);
            && |c.log| <= |d.log| <= |c.log| + |all| && d.log == c.log + all[..|d.log| - |c.log|]
            && (|d.log| == |c.log| + |all| || |d.log| == c.capacity - 1)
    decreases c.capacity - c.subs[id].readIndex
  {
    if c.Pending(id) == 0 {
    } else {
      var now := seen + [c.log[c.subs[id].readIndex]];
      var one := c.AdvancedBy(id, 1);
      var next := AfterPublish(one, react(now));
      var (d, out) := Handled(c, id, maxEvents, react, seen);
      assert now == out[..|seen| + 1];
      PublishGrows(one, react(now));
      if maxEvents == 1 {
        assert react(now) + Reactions(react, out, |seen| + 1) == react(now);
      } else {
        HandledPublishes(next, id, if maxEvents == 0 then 0 else maxEvents - 1, react, now);
        GrownTwice(one, next, d, react(now), Reactions(react, out, |seen| + 1));
      }
    }
  }

  /** A callback that leaves the center alone: exactly the pending events are delivered, capped at a positive maximum. */
  lemma {:induction false} HandledSilently<T>(c: Center<T>, id: nat, maxEvents: nat, react: seq<T> -> seq<T>, seen: seq<T>)
    requires c.Valid() && c.Serves(id) && forall s :: react(s) == []
    ensures var n := Batch(c, id, maxEvents);
            Handled(c, id, maxEvents, react, seen) == (c.AdvancedBy(id, n), seen + Upcoming(c, id, n))
  {
    HandledInOrder(c, id, maxEvents, react, seen);
    HandledPublishes(c, id, maxEvents, react, seen);
    var (d, out) := Handled(c, id, maxEvents, react, seen);
    NoReactions(react, out, |seen|);
    assert d.log == c.log;
  }

  lemma {:induction false} NoReactions<T>(react: seq<T> -> seq<T>, out: seq<T>, k: nat)
    requires k <= |out| && forall s :: react(s) == []
    ensures Reactions(react, out, k) == []
    decreases |out| - k
  {
    if k == |out| {
    } else {
      NoReactions(react, out, k + 1);
    }
  }

  function ActiveCount(subs: seq<Subscriber>): nat {
    if subs == [] then 0 else ActiveCount(subs[..|subs| - 1]) + if subs[|subs| - 1].active then 1 else 0
  }

  lemma {:induction false} ActiveCountAfter(subs: seq<Subscriber>, id: nat, s: Subscriber)
    requires id < |subs|
    ensures ActiveCount(subs[id := s]) ==
            ActiveCount(subs) - (if subs[id].active then 1 else 0) + (if s.active then 1 else 0)
  {
    var n := |subs| - 1;
    if id == n {
      assert subs[id := s][..n] == subs[..n];
    } else {
      ActiveCountAfter(subs[..n], id, s);
      assert subs[id := s][..n] == subs[..n][id := s];
    }
  }

  class IPCEventCenter<T> {
    const ring: ShmRingBuffer<T>
    const subscribers: array<Subscriber>
    var mapped: bool
    var nextSubscriberId: nat
    var totalEvents: nat
    var lastEventTime: nat
    var subscriberCount: nat

    ghost predicate Valid()
      reads this, ring, ring.data, subscribers
    {
      && ring.Valid() && ring.initialized && ring.consumed == 0
      && subscribers as object != ring.data && View().Valid()
      && totalEvents == |ring.events|
      && subscriberCount == ActiveCount(subscribers[..])
    }

    ghost function View(): Center<T>
      reads this, ring, subscribers
    {
      Center(ring.capacity, ring.events, subscribers[..], nextSubscriberId)
    }

    /** A center on a freshly initialised ring buffer. */
    constructor (freshRing: ShmRingBuffer<T>)
      requires freshRing.Valid() && freshRing.initialized && freshRing.events == [] && freshRing.consumed == 0
      ensures Valid() && mapped && ring == freshRing && fresh(subscribers)
      ensures View().log == [] && nextSubscriberId == 0
      ensures forall id :: 0 <= id < MAX_PROCESS_COUNT ==> !subscribers[id].active
    {
      ring := freshRing;
      subscribers := new Subscriber[MAX_PROCESS_COUNT](_ => Subscriber(0, false, false));
      mapped := true;
      nextSubscriberId, totalEvents, lastEventTime, subscriberCount := 0, 0, 0, 0;
      new;
      NoneActive(subscribers[..]);
    }

    static lemma {:induction false} NoneActive(subs: seq<Subscriber>)
      requires forall id :: 0 <= id < |subs| ==> !subs[id].active
      ensures ActiveCount(subs) == 0
    {
      if subs == [] {
      } else {
        NoneActive(subs[..|subs| - 1]);
      }
    }

    method Publish(event: T, now: nat) returns (r: Result)
      requires Valid()
      modifies this`totalEvents, this`lastEventTime, ring, ring.data
      ensures Valid() && ring.data == old(ring.data)
      ensures r == if !mapped then NOT_INITIALIZED
                   else if Accepted(old(View()), [event]) == 0 then BUFFER_FULL else OK
      ensures View() == if mapped then AfterPublish(old(View()), [event]) else old(View())
      ensures mapped ==> (r == OK <==> |old(View()).log| < ring.capacity - 1)
      ensures View().log == if r == OK then old(View()).log + [event] else old(View()).log
      ensures View().subs == old(View()).subs && View().nextId == old(View()).nextId
      ensures r == OK ==> lastEventTime == now
    {
      if !mapped {
        return NOT_INITIALIZED;
      }
      r := ring.Write(event);
      if r == OK {
        totalEvents := totalEvents + 1;
        lastEventTime := now;
      }
    }

    /** Appends exactly the first `published` events; stops at the first one that is refused. */
    method PublishBatch(events: seq<T>, times: seq<nat>) returns (r: Result, published: nat)
      requires Valid() && |times| == |events|
      modifies this`totalEvents, this`lastEventTime, ring, ring.data
      ensures Valid() && ring.data == old(ring.data)
      ensures published == if mapped then Accepted(old(View()), events) else 0
      ensures View() == if mapped then AfterPublish(old(View()), events) else old(View())
      ensures r == if !mapped then NOT_INITIALIZED else if published == |events| then OK else BUFFER_FULL
      ensures published <= |events| && View().log == old(View()).log + events[..published]
      ensures r == BUFFER_FULL ==> |View().log| == ring.capacity - 1
      ensures View().subs == old(View()).subs && View().nextId == old(View()).nextId
    {
      published := 0;
      if !mapped {
        return NOT_INITIALIZED, published;
      }
      for i := 0 to |events|
        invariant Valid() && ring.data == old(ring.data)
        invariant published == i
        invariant View() == old(View()).(log := old(View()).log + events[..i])
      {
        assert old(View()).log + events[..i] + [events[i]] == old(View()).log + events[..i + 1];
        var ret := Publish(events[i], times[i]);
        if ret != OK {
          return ret, published;
        }
        published := published + 1;
      }
      return OK, published;
    }

    method Subscribe(callback: bool) returns (r: Result, subscriberId: Option<nat>)
      requires Valid()
      modifies this`nextSubscriberId, this`subscriberCount, subscribers
      ensures Valid()
      ensures r == if !mapped then NOT_INITIALIZED else if !callback then INVALID_PARAM
                   else if subscriberId.Some? then OK else OUT_OF_MEMORY
      ensures subscriberId == if mapped && callback
                              then FreeSlot(old(View()).subs, old(nextSubscriberId), 0) else None
      ensures View() == if mapped && callback then AfterSubscribe(old(View())) else old(View())
      ensures r == OK ==>
                && subscriberId.value < MAX_PROCESS_COUNT && !old(subscribers[..])[subscriberId.value].active
                && subscribers[..] == old(subscribers[..])[subscriberId.value := Subscriber(|ring.events|, true, true)]
                && subscriberCount == old(subscriberCount) + 1
    {
      if !mapped {
        return NOT_INITIALIZED, None;
      }
      if !callback {
        return INVALID_PARAM, None;
      }
      for i := 0 to MAX_PROCESS_COUNT
        invariant View() == old(View()) && subscriberCount == old(subscriberCount)
        invariant FreeSlot(old(View()).subs, old(nextSubscriberId), 0)
               == FreeSlot(old(View()).subs, old(nextSubscriberId), i)
      {
        var id := Around(nextSubscriberId, i);
        if !subscribers[id].active {
          ActiveCountAfter(subscribers[..], id, Subscriber(ring.writeIndex, true, true));
          ModArith.Small(|ring.events|, ring.capacity);
          subscribers[id] := Subscriber(ring.writeIndex, true, true);
          subscriberCount := subscriberCount + 1;
          nextSubscriberId := (id + 1) % MAX_PROCESS_COUNT;
          assert subscribers[..] == old(subscribers[..])[id := Subscriber(|ring.events|, true, true)];
          return OK, Some(id);
        }
      }
      return OUT_OF_MEMORY, None;
    }

    method Unsubscribe(subscriberId: nat) returns (r: Result)
      requires Valid()
      modifies this`subscriberCount, subscribers
      ensures Valid()
      ensures r == if !mapped then NOT_INITIALIZED else if subscriberId >= MAX_PROCESS_COUNT then INVALID_PARAM
                   else if old(subscribers[..])[subscriberId].active then OK else NOT_FOUND
      ensures View() == if mapped then AfterUnsubscribe(old(View()), subscriberId) else old(View())
      ensures r == OK ==>
                && !subscribers[subscriberId].active && !subscribers[subscriberId].hasCallback
                && (forall id :: 0 <= id < MAX_PROCESS_COUNT && id != subscriberId ==> subscribers[id] == old(subscribers[id]))
                && subscriberCount == old(subscriberCount) - 1
      ensures r != OK ==> subscribers[..] == old(subscribers[..]) && subscriberCount == old(subscriberCount)
    {
      if !mapped {
        return NOT_INITIALIZED;
      }
      if subscriberId >= MAX_PROCESS_COUNT {
        return INVALID_PARAM;
      }
      if subscribers[subscriberId].active {
        var s := subscribers[subscriberId].(active := false, hasCallback := false);
        ActiveCountAfter(subscribers[..], subscriberId, s);
        subscribers[subscriberId] := s;
        subscriberCount := subscriberCount - 1;
        assert subscribers[..] == old(subscribers[..])[subscriberId := s];
        return OK;
      }
      return NOT_FOUND;
    }

    /** The local count of subscribers always agrees with the count in the shared header. */
    method GetSubscriberCount() returns (count: nat)
      requires Valid()
      ensures count == ActiveCount(subscribers[..]) == subscriberCount
    {
      count := 0;
      for i := 0 to MAX_PROCESS_COUNT
        invariant count == ActiveCount(subscribers[..i])
      {
        assert subscribers[..i + 1][..i] == subscribers[..i];
        if subscribers[i].active {
          count := count + 1;
        }
      }
      assert subscribers[..MAX_PROCESS_COUNT] == subscribers[..];
    }

    /** The buffer never wraps, so a read index is the number of events that lie before it. */
    method ReadNext(readIdx: nat) returns (r: Result, event: Option<T>, next: nat)
      requires Valid() && readIdx <= |ring.events|
      modifies ring`readIndex, ring`consumed
      ensures Valid() && View() == old(View())
      ensures if readIdx == |ring.events| then r == NOT_FOUND && event == None && next == readIdx
              else r == OK && event == Some(ring.events[readIdx]) && next == readIdx + 1
    {
      ModArith.Small(readIdx, ring.capacity);
      PositionExact(|ring.events|, readIdx, ring.capacity);
      r, event, next := ring.Read(readIdx, false);
      if r == OK {
        ModArith.Small(readIdx + 1, ring.capacity);
      }
    }

    method Poll(subscriberId: nat) returns (r: Result, event: Option<T>)
      requires Valid()
      modifies ring`readIndex, ring`consumed, subscribers
      ensures Valid()
      ensures r == if !mapped then NOT_INITIALIZED else if subscriberId >= MAX_PROCESS_COUNT then INVALID_PARAM
                   else if !old(View()).Serves(subscriberId) then NOT_FOUND
                   else if old(View()).Pending(subscriberId) == 0 then NOT_FOUND else OK
      ensures r != OK ==> event == None && View() == old(View())
      ensures r == OK ==> event.Some? && [event.value] == Upcoming(old(View()), subscriberId, 1)
                          && View() == old(View()).AdvancedBy(subscriberId, 1)
      ensures r == OK <==> mapped && subscriberId < MAX_PROCESS_COUNT && old(subscribers[..])[subscriberId].active
                           && old(subscribers[..])[subscriberId].readIndex < |old(ring.events)|
      ensures r == OK ==>
                && old(subscribers[..])[subscriberId].readIndex < |ring.events| && ring.events == old(ring.events)
                && event == Some(ring.events[old(subscribers[..])[subscriberId].readIndex])
                && subscribers[subscriberId].readIndex == old(subscribers[..])[subscriberId].readIndex + 1
                && forall id :: 0 <= id < MAX_PROCESS_COUNT && id != subscriberId ==> subscribers[id] == old(subscribers[id])
    {
      if !mapped {
        return NOT_INITIALIZED, None;
      }
      if subscriberId >= MAX_PROCESS_COUNT {
        return INVALID_PARAM, None;
      }
      if !subscribers[subscriberId].active {
        return NOT_FOUND, None;
      }
      var readIdx := subscribers[subscriberId].readIndex;
      if ring.capacity == 0 || readIdx >= ring.capacity {
        // the reset to the write index is never reached
        assert false;
      }
      var next;
      r, event, next := ReadNext(readIdx);
      var s := subscribers[subscriberId].(readIndex := next);
      ActiveCountAfter(subscribers[..], subscriberId, s);
      subscribers[subscriberId] := s;
      assert subscribers[..] == old(subscribers[..])[subscriberId := s];
    }

    /**
     * Delivers the next events in order until none is pending or maxEvents is reached, if that is positive.
     * The callback may publish: `react` gives what it publishes after the events of this call so far.
     */
    method Process(subscriberId: nat, maxEvents: nat, react: seq<T> -> seq<T>, now: nat)
      returns (processed: nat, delivered: seq<T>, published: seq<T>)
      requires Valid()
      modifies this`totalEvents, this`lastEventTime, ring, ring.data, subscribers
      ensures Valid() && ring.data == old(ring.data) && processed == |delivered|
      ensures View().log == old(View()).log + published
      ensures if mapped && old(View()).Serves(subscriberId)
              then (View(), delivered) == Handled(old(View()), subscriberId, maxEvents, react, [])
              else delivered == [] && View() == old(View())
      ensures mapped && subscriberId < MAX_PROCESS_COUNT && old(subscribers[..])[subscriberId].active ==>
                && old(View()).subs[subscriberId].readIndex + |delivered| <= |View().log|
                && delivered == View().log[old(View()).subs[subscriberId].readIndex..][..|delivered|]
                && subscribers[subscriberId].readIndex == old(View()).subs[subscriberId].readIndex + processed
                && (processed == maxEvents || subscribers[subscriberId].readIndex == |ring.events|)
                && (maxEvents > 0 ==> processed <= maxEvents)
    {
      processed, delivered, published := 0, [], [];
      if !mapped || subscriberId >= MAX_PROCESS_COUNT || !subscribers[subscriberId].active {
        return;
      }
      HandledInOrder(View(), subscriberId, maxEvents, react, []);
      HandledFromStart(View(), subscriberId, maxEvents, react);
      processed, delivered, published := ProcessActive(subscriberId, maxEvents, react, now);
    }

    /** The loop of process. */
    method ProcessActive(subscriberId: nat, maxEvents: nat, react: seq<T> -> seq<T>, now: nat)
      returns (processed: nat, delivered: seq<T>, published: seq<T>)
      requires Valid() && mapped && View().Serves(subscriberId)
      modifies this`totalEvents, this`lastEventTime, ring, ring.data, subscribers
      ensures Valid() && ring.data == old(ring.data) && processed == |delivered|
      ensures View().log == old(View()).log + published
      ensures (View(), delivered) == Handled(old(View()), subscriberId, maxEvents, react, [])
    {
      processed, delivered, published := 0, [], [];
      ghost var c, left := View(), maxEvents;
      while true
        invariant Valid() && ring.data == old(ring.data) && View().Serves(subscriberId)
        invariant processed == |delivered| && View().log == c.log + published
        invariant left == (if maxEvents == 0 then 0 else maxEvents - processed) && (maxEvents > 0 ==> left > 0)
        invariant Handled(c, subscriberId, maxEvents, react, []) == Handled(View(), subscriberId, left, react, delivered)
        decreases ring.capacity - View().subs[subscriberId].readIndex
      {
        var r, event, accepted := PollAndCall(subscriberId, react, delivered, now, left);
        AppendTwice(c.log, published, accepted);
        if r != OK {
          break;
        }
        delivered := delivered + [event.value];
        published := published + accepted;
        processed := processed + 1;
        if maxEvents > 0 && processed >= maxEvents {
          break;
        }
        left := if left == 0 then 0 else left - 1;
      }
    }

    static lemma AppendTwice(log: seq<T>, a: seq<T>, b: seq<T>)
      ensures log + a + b == log + (a + b)
    {
    }

    /** Polls, and calls the callback with the event. */
    method PollAndCall(subscriberId: nat, react: seq<T> -> seq<T>, seen: seq<T>, now: nat, ghost left: nat)
      returns (r: Result, event: Option<T>, accepted: seq<T>)
      requires Valid() && mapped && View().Serves(subscriberId)
      modifies this`totalEvents, this`lastEventTime, ring, ring.data, subscribers
      ensures Valid() && ring.data == old(ring.data)
      ensures View().Serves(subscriberId) && View().capacity == old(View()).capacity
      ensures View().log == old(View()).log + accepted
      ensures if r != OK then View() == old(View()) && Handled(old(View()), subscriberId, left, react, seen) == (View(), seen)
              else
                && View().subs[subscriberId].readIndex == old(View()).subs[subscriberId].readIndex + 1
                && event.Some?
                && Handled(old(View()), subscriberId, left, react, seen) ==
                   if left == 1 then (View(), seen + [event.value])
                   else Handled(View(), subscriberId, if left == 0 then 0 else left - 1, react, seen + [event.value])
    {
      ghost var c := View();
      HandledOnce(c, subscriberId, left, react, seen);
      r, event := Poll(subscriberId);
      accepted := [];
      if r == OK {
        assert [event.value][0] == Upcoming(c, subscriberId, 1)[0];
      }
      if r == OK && subscribers[subscriberId].hasCallback {
        var reaction := react(seen + [event.value]);
        var ret, n := PublishBatch(reaction, seq(|reaction|, _ => now));
        accepted := reaction[..n];
      }
    }

    method GetPendingEvents(subscriberId: nat) returns (n: nat)
      requires Valid()
      ensures n == if mapped && subscriberId < MAX_PROCESS_COUNT && subscribers[subscriberId].active
                   then |ring.events| - subscribers[subscriberId].readIndex else 0
    {
      if !mapped || subscriberId >= MAX_PROCESS_COUNT || !subscribers[subscriberId].active {
        return 0;
      }
      var readIdx := subscribers[subscriberId].readIndex;
      ModArith.Small(readIdx, ring.capacity);
      PositionExact(|ring.events|, readIdx, ring.capacity);
      n := ring.Available(readIdx);
    }
  }
}
