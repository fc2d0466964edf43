/**
 * The sequence-of-events recorder (src/SOERecorder.cpp): a ring of records that overwrites the oldest.
 * Every call is atomic: the recorder's lock is never initialised, so it excludes nothing.
 */
module SoeRecorder {
  import opened Common
  import ModArith
  import Positions

  datatype SOERecord = SOERecord(
    absoluteTime: nat, monotonicTime: nat, pointKey: nat, msoc: nat, sourcePid: nat,
    pointType: nat, eventType: nat, quality: nat, oldValue: nat, newValue: nat, priority: nat)

  datatype Condition = Condition(
    startTime: nat, endTime: nat, pointKey: nat, pointType: nat, eventType: nat,
    minPriority: nat, maxRecords: nat, reverseOrder: bool)

  const ANY_TYPE: nat := 0xFF

  // ---------- The abstract recorder: a window on the record stream ----------

  /** The last n elements, or all of them if there are fewer. */
  function Last<T>(s: seq<T>, n: nat): (r: seq<T>)
    ensures |r| == Min(n, |s|)
  {
    s[|s| - Min(n, |s|)..]
  }

  /** The readable records, oldest first, and what became of all others. */
  datatype Journal = Journal(window: seq<SOERecord>, total: nat, dropped: nat, cleared: nat)

  function Recorded(j: Journal, capacity: nat, rec: SOERecord): Journal
    requires 1 <= capacity
  {
    Journal(Last(j.window + [rec], capacity - 1), j.total + 1,
            j.dropped + (if |j.window| == capacity - 1 then 1 else 0), j.cleared)
  }

  /** Recording appends to the window; if it holds capacity - 1 records already, the oldest goes and counts as dropped. */
  lemma RecordedMeans(j: Journal, capacity: nat, rec: SOERecord)
    requires 1 <= capacity && |j.window| <= capacity - 1
    ensures var d, full := Recorded(j, capacity, rec), |j.window| == capacity - 1;
            && d.window == (if full then (j.window + [rec])[1..] else j.window + [rec])
            && d.total == j.total + 1 && d.dropped == j.dropped + (if full then 1 else 0) && d.cleared == j.cleared
  {
  }

  function Cleared(j: Journal): Journal {
    Journal([], j.total, j.dropped, j.cleared + |j.window|)
  }

  datatype Op = Record(rec: SOERecord) | Clear

  function Replay(ops: seq<Op>, capacity: nat): Journal
    requires 1 <= capacity
  {
    if ops == [] then Journal([], 0, 0, 0)
    else
      var j := Replay(ops[..|ops| - 1], capacity);
      match ops[|ops| - 1]
      case Record(rec) => Recorded(j, capacity, rec)
      case Clear => Cleared(j)
  }

  /** Everything recorded since the last clear. */
  function SinceClear(ops: seq<Op>): seq<SOERecord> {
    if ops == [] then []
    else match ops[|ops| - 1]
      case Record(rec) => SinceClear(ops[..|ops| - 1]) + [rec]
      case Clear => []
  }

  function RecordCount(ops: seq<Op>): nat {
    if ops == [] then 0 else RecordCount(ops[..|ops| - 1]) + (if ops[|ops| - 1].Record? then 1 else 0)
  }

  /**
   * After any run the window is exactly the last capacity - 1 records since the last clear, and every
   * record ever made is readable, was dropped when the ring was full, or was discarded by a clear.
   */
  lemma {:induction false} WindowIsLastRecords(ops: seq<Op>, capacity: nat)
    requires 1 <= capacity
    ensures var j := Replay(ops, capacity);
            && j.window == Last(SinceClear(ops), capacity - 1)
            && j.total == RecordCount(ops) == j.dropped + |j.window| + j.cleared
  {
    if ops == [] {
    } else {
      var front, last := ops[..|ops| - 1], ops[|ops| - 1];
      WindowIsLastRecords(front, capacity);
      if last.Record? {
        RecordingKeepsWindow(Replay(front, capacity), SinceClear(front), last.rec, capacity);
      }
    }
  }

  /** The window said record by record: at most capacity - 1 records, the newest ones since the last clear. */
  lemma WindowRecordByRecord(ops: seq<Op>, capacity: nat)
    requires 1 <= capacity
    ensures var w, since := Replay(ops, capacity).window, SinceClear(ops);
            && |w| == (if |since| < capacity then |since| else capacity - 1)
            && forall i :: 0 <= i < |w| ==> w[i] == since[|since| - |w| + i]
  {
    WindowIsLastRecords(ops, capacity);
  }

  /** Recording keeps the window at the last records and the balance of the counters. */
  lemma RecordingKeepsWindow(j: Journal, since: seq<SOERecord>, rec: SOERecord, capacity: nat)
    requires 1 <= capacity && j.window == Last(since, capacity - 1)
    ensures var j' := Recorded(j, capacity, rec);
            && j'.window == Last(since + [rec], capacity - 1)
            && j'.total - j.total == j'.dropped - j.dropped + |j'.window| - |j.window|
  {
    var n := capacity - 1;
    NextWindow(j.window, rec, n);
    if |since| >= n {
      assert Last(since + [rec], n) == (since + [rec])[|since| + 1 - n..];
      assert (j.window + [rec])[1..] == (since + [rec])[|since| + 1 - n..];
    } else {
      assert j.window == since;
    }
  }

  /** A full window loses its oldest record to the new one; any other just grows. */
  lemma NextWindow<T>(window: seq<T>, x: T, n: nat)
    requires |window| <= n
    ensures Last(window + [x], n) == if |window| == n then (window + [x])[1..] else window + [x]
  {
  }

  // ---------- Queries ----------

  predicate Matches(c: Condition, rec: SOERecord) {
    && (c.startTime == 0 || rec.absoluteTime >= c.startTime)
    && (c.endTime == 0 || rec.absoluteTime <= c.endTime)
    && (c.pointKey == 0 || rec.pointKey == c.pointKey)
    && (c.pointType == ANY_TYPE || rec.pointType == c.pointType)
    && (c.eventType == ANY_TYPE || rec.eventType == c.eventType)
    && rec.priority >= c.minPriority
  }

  /** The matching records in order. */
  function Filter(s: seq<SOERecord>, c: Condition): (r: seq<SOERecord>)
    ensures |r| <= |s|
  {
    if s == [] then []
    else Filter(s[..|s| - 1], c) + (if Matches(c, s[|s| - 1]) then [s[|s| - 1]] else [])
  }

  lemma {:induction false} FilterPrefix(s: seq<SOERecord>, k: nat, c: Condition)
    requires k <= |s|
    ensures Filter(s[..k], c) <= Filter(s, c)
    decreases |s| - k
  {
    if k < |s| {
      assert s[..k + 1][..k] == s[..k];
      FilterPrefix(s, k + 1, c);
    } else {
      assert s[..k] == s;
    }
  }

  /** A walk of k steps that stopped at maxCount matches, or at the end, has found the first matches. */
  lemma FirstMatches(s: seq<SOERecord>, k: nat, c: Condition, found: seq<SOERecord>, maxCount: nat)
    requires k <= |s| && found == Filter(s[..k], c) && |found| <= maxCount
    requires |found| == maxCount || k == |s|
    ensures found == Filter(s, c)[..Min(maxCount, |Filter(s, c)|)]
  {
    FilterPrefix(s, k, c);
    if k == |s| {
      assert s[..k] == s;
    }
  }

  /** The record passes every test that the condition asks for. */
  ghost predicate Passes(c: Condition, rec: SOERecord) {
    && Between(rec, c.startTime, c.endTime)
    && (c.pointKey != 0 ==> rec.pointKey == c.pointKey)
    && (c.pointType != 0xFF ==> rec.pointType == c.pointType)
    && (c.eventType != 0xFF ==> rec.eventType == c.eventType)
    && c.minPriority <= rec.priority
  }

  /** The record was made between the two times; a bound of zero is no bound. */
  ghost predicate Between(rec: SOERecord, startTime: nat, endTime: nat) {
    startTime <= rec.absoluteTime && (endTime > 0 ==> rec.absoluteTime <= endTime)
  }

  /**
   * The positions of the first maxCount records that pass every test: all in increasing order, and none
   * passed over.
   */
  ghost predicate FirstAt(s: seq<SOERecord>, c: Condition, maxCount: nat, at: seq<nat>) {
    && |at| <= maxCount
    && (forall i, j :: 0 <= i < j < |at| ==> at[i] < at[j])
    && (forall i :: 0 <= i < |at| ==> at[i] < |s| && Passes(c, s[at[i]]))
    && (forall k: nat :: k < |s| && k !in at && (|at| < maxCount || (|at| > 0 && k < at[|at| - 1])) ==> !Passes(c, s[k]))
  }

  /** The same in terms of matching. */
  ghost predicate MatchesAt(s: seq<SOERecord>, c: Condition, maxCount: nat, at: seq<nat>) {
    && |at| <= maxCount
    && (forall i, j :: 0 <= i < j < |at| ==> at[i] < at[j])
    && (forall i :: 0 <= i < |at| ==> at[i] < |s| && Matches(c, s[at[i]]))
    && (forall k: nat :: k < |s| && k !in at && (|at| < maxCount || (|at| > 0 && k < at[|at| - 1])) ==> !Matches(c, s[k]))
  }

  lemma MatchingIsPassing(s: seq<SOERecord>, c: Condition, maxCount: nat, at: seq<nat>)
    requires MatchesAt(s, c, maxCount, at)
    ensures FirstAt(s, c, maxCount, at)
  {
  }

  /** The positions of all matching records. */
  ghost function MatchSet(s: seq<SOERecord>, c: Condition): set<nat> {
    set k: nat | k < |s| && Matches(c, s[k])
  }

  lemma MatchSetNext(s: seq<SOERecord>, c: Condition)
    requires s != []
    ensures var n := |s| - 1;
            MatchSet(s, c) == MatchSet(s[..n], c) + if Matches(c, s[n]) then {n} else {}
  {
    assert forall k: nat :: k < |s| - 1 ==> s[..|s| - 1][k] == s[k];
  }

  /** Filtering keeps exactly the matching records, in order. */
  lemma {:induction false} FilterMeans(s: seq<SOERecord>, c: Condition) returns (at: seq<nat>)
    ensures |at| == |Filter(s, c)| && Positions.Enumerates(at, MatchSet(s, c))
    ensures forall i :: 0 <= i < |at| ==> at[i] < |s| && Filter(s, c)[i] == s[at[i]]
  {
    if s == [] {
      at := [];
    } else {
      var n := |s| - 1;
      at := FilterMeans(s[..n], c);
      MatchSetNext(s, c);
      if Matches(c, s[n]) {
        Positions.OneMore(at, MatchSet(s[..n], c), n);
        at := at + [n];
      }
    }
  }

  lemma FirstMatchesAt(s: seq<SOERecord>, c: Condition, at: seq<nat>, m: nat)
    requires Positions.Enumerates(at, MatchSet(s, c))
    ensures MatchesAt(s, c, m, at[..Min(m, |at|)])
  {
    var kept := at[..Min(m, |at|)];
    assert forall k: nat :: k < |s| && Matches(c, s[k]) ==> k in MatchSet(s, c);
    forall i | 0 <= i < |at| ensures at[i] in kept || (|kept| == m && (m > 0 ==> at[i] > kept[m - 1])) {
      if i < |kept| {
        assert kept[i] == at[i];
      }
    }
  }

  /** What a query delivers: the first maxCount matches from the oldest on, reversed on request. */
  function Selection(window: seq<SOERecord>, c: Condition, maxCount: nat): seq<SOERecord> {
    var found := Filter(window, c);
    var kept := found[..Min(maxCount, |found|)];
    if c.reverseOrder then Reverse(kept) else kept
  }

  /** The output is the first maxCount records of the window that pass every test, from the oldest on, or these reversed. */
  ghost predicate Delivered(window: seq<SOERecord>, c: Condition, maxCount: nat, out: seq<SOERecord>) {
    exists at :: DeliveredAt(window, c, maxCount, out, at)
  }

  ghost predicate DeliveredAt(window: seq<SOERecord>, c: Condition, maxCount: nat, out: seq<SOERecord>, at: seq<nat>) {
    && FirstAt(window, c, maxCount, at) && |at| == |out|
    && if c.reverseOrder then forall i :: 0 <= i < |out| ==> out[i] == window[at[|at| - 1 - i]]
       else forall i :: 0 <= i < |out| ==> out[i] == window[at[i]]
  }

  lemma SelectionMeans(window: seq<SOERecord>, c: Condition, m: nat)
    ensures Delivered(window, c, m, Selection(window, c, m))
  {
    var all := FilterMeans(window, c);
    var at := all[..Min(m, |all|)];
    FirstMatchesAt(window, c, all, m);
    MatchingIsPassing(window, c, m, at);
    SelectedAt(window, c, m, all);
    assert DeliveredAt(window, c, m, Selection(window, c, m), at);
  }

  lemma SelectedAt(window: seq<SOERecord>, c: Condition, m: nat, all: seq<nat>)
    requires |all| == |Filter(window, c)|
    requires forall i :: 0 <= i < |all| ==> all[i] < |window| && Filter(window, c)[i] == window[all[i]]
    ensures var n, out := Min(m, |all|), Selection(window, c, m);
            && |out| == n
            && (c.reverseOrder ==> forall i :: 0 <= i < n ==> out[i] == window[all[n - 1 - i]])
            && (!c.reverseOrder ==> forall i :: 0 <= i < n ==> out[i] == window[all[i]])
  {
  }

  /** The output is the first maxCount records of the window between the two times, in order. */
  ghost predicate TimeRange(window: seq<SOERecord>, startTime: nat, endTime: nat, maxCount: nat, out: seq<SOERecord>) {
    exists at :: RangeAt(window, startTime, endTime, maxCount, out, at)
  }

  ghost predicate RangeAt(window: seq<SOERecord>, startTime: nat, endTime: nat, maxCount: nat, out: seq<SOERecord>, at: seq<nat>) {
    && |at| == |out| <= maxCount
    && (forall i, j :: 0 <= i < j < |at| ==> at[i] < at[j])
    && (forall i :: 0 <= i < |at| ==> at[i] < |window| && out[i] == window[at[i]] && Between(out[i], startTime, endTime))
    && (forall k: nat :: k < |window| && k !in at && (|at| < maxCount || (|at| > 0 && k < at[|at| - 1])) ==>
          !Between(window[k], startTime, endTime))
  }

  lemma RangeOfDelivered(window: seq<SOERecord>, c: Condition, m: nat, out: seq<SOERecord>, at: seq<nat>)
    requires DeliveredAt(window, c, m, out, at) && !c.reverseOrder
    requires c.pointKey == 0 && c.pointType == c.eventType == 0xFF && c.minPriority == 0
    ensures RangeAt(window, c.startTime, c.endTime, m, out, at)
  {
  }

  lemma RangeMeans(window: seq<SOERecord>, c: Condition, m: nat, out: seq<SOERecord>)
    requires Delivered(window, c, m, out) && !c.reverseOrder
    requires c.pointKey == 0 && c.pointType == c.eventType == 0xFF && c.minPriority == 0
    ensures TimeRange(window, c.startTime, c.endTime, m, out)
  {
    var at :| DeliveredAt(window, c, m, out, at);
    RangeOfDelivered(window, c, m, out, at);
  }

  predicate MatchesAll(c: Condition) {
    c.startTime == 0 && c.endTime == 0 && c.pointKey == 0 && c.pointType == ANY_TYPE
    && c.eventType == ANY_TYPE && c.minPriority == 0
  }

  lemma {:induction false} FilterAll(s: seq<SOERecord>, c: Condition)
    requires MatchesAll(c)
    ensures Filter(s, c) == s
  {
    if s == [] {
    } else {
      FilterAll(s[..|s| - 1], c);
    }
  }

  /**
   * A reversed query gives the newest matches, newest first, if it may return all of them; on pairwise
   * different matches only then, because the limit keeps the oldest matches.
   */
  lemma ReversedQueryIsLatest(window: seq<SOERecord>, c: Condition, m: nat)
    requires c.reverseOrder && 0 < m
    ensures var f := Filter(window, c);
            && (|f| <= m ==> Selection(window, c, m) == Reverse(Last(f, m)))
            && ((forall i, j :: 0 <= i < j < |f| ==> f[i] != f[j]) ==>
                  (Selection(window, c, m) == Reverse(Last(f, m)) <==> |f| <= m))
  {
    var f := Filter(window, c);
    if |f| > m {
      assert Selection(window, c, m)[0] == f[m - 1];
      assert Reverse(Last(f, m))[0] == f[|f| - 1];
    }
  }

  /** The last n records reversed: as many as there are, at most n, and the i-th is the i-th newest. */
  lemma NewestFirst(s: seq<SOERecord>, n: nat)
    ensures var r := Reverse(Last(s, n));
            && |r| == (if n < |s| then n else |s|)
            && forall i :: 0 <= i < |r| ==> r[i] == s[|s| - 1 - i]
  {
  }

  /** So a reversed query over everything agrees with the latest-records view if it may return the whole window. */
  lemma QueryAgreesWithLatest(window: seq<SOERecord>, c: Condition, m: nat)
    requires MatchesAll(c) && c.reverseOrder && 0 < m
    ensures |window| <= m ==> Selection(window, c, m) == Reverse(Last(window, m))
    ensures (forall i, j :: 0 <= i < j < |window| ==> window[i] != window[j]) ==>
              (Selection(window, c, m) == Reverse(Last(window, m)) <==> |window| <= m)
  {
    FilterAll(window, c);
    ReversedQueryIsLatest(window, c, m);
  }

  /** The slot k places after `start` in a ring of `capacity` slots. */
  function Place(start: nat, k: nat, capacity: nat): nat
    requires start < capacity && k <= capacity
  {
    if start + k < capacity then start + k else start + k - capacity
  }

  lemma PlaceIsRemainder(x: nat, capacity: nat)
    requires 0 < capacity && x < 2 * capacity
    ensures x % capacity == if x < capacity then x else x - capacity
  {
    if x < capacity {
      ModArith.Unique(x, 0, x, capacity);
    } else {
      ModArith.Unique(x, 1, x - capacity, capacity);
    }
  }

  /** The 32-bit index of the i-th newest record is right exactly when its sum does not wrap around. */
  lemma LatestIndexExact(head: nat, i: nat, capacity: nat)
    requires head < capacity < UINT32_RANGE && i < capacity
    ensures U32(head + capacity - 1 - i) % capacity == Place(head, capacity - 1 - i, capacity)
       <==> head + capacity - 1 - i < UINT32_RANGE
    ensures capacity <= UINT32_RANGE / 2 ==> head + capacity - 1 - i < UINT32_RANGE
  {
    var x := head + capacity - 1 - i;
    PlaceIsRemainder(x, capacity);
    if x >= UINT32_RANGE {
      ModArith.Unique(x, 1, x - UINT32_RANGE, UINT32_RANGE);
      ModArith.Small(x - UINT32_RANGE, capacity);
    }
  }

  /** The circular run of slots from tail up to head holds the window. */
  ghost predicate Shows(slots: seq<SOERecord>, head: nat, tail: nat, window: seq<SOERecord>) {
    && head < |slots| && tail < |slots| && |window| < |slots|
    && head == Place(tail, |window|, |slots|)
    && forall k :: 0 <= k < |window| ==> slots[Place(tail, k, |slots|)] == window[k]
  }

  /** Writing at the head appends to the window; a ring that is full gives up its oldest record. */
  lemma PushShows(slots: seq<SOERecord>, head: nat, tail: nat, window: seq<SOERecord>, rec: SOERecord)
    requires Shows(slots, head, tail, window)
    ensures var c := |slots|;
            var next := Place(head, 1, c);
            && (next == tail <==> |window| == c - 1)
            && Shows(slots[head := rec], next, if next == tail then Place(tail, 1, c) else tail, Last(window + [rec], c - 1))
  {
    var c := |slots|;
    NextWindow(window, rec, c - 1);
    if |window| == c - 1 {
      var start, w := Place(tail, 1, c), (window + [rec])[1..];
      forall k | 0 <= k < |w| ensures slots[head := rec][Place(start, k, c)] == w[k] {
        assert Place(start, k, c) == Place(tail, k + 1, c);
      }
    }
  }

  /** A walk from the tail is at the head exactly after as many steps as there are records. */
  lemma WalkReachesHead(tail: nat, k: nat, load: nat, capacity: nat)
    requires tail < capacity && k <= load < capacity
    ensures Place(tail, k, capacity) == Place(tail, load, capacity) <==> k == load
    ensures k < load ==> Place(Place(tail, k, capacity), 1, capacity) == Place(tail, k + 1, capacity)
  {
  }

  lemma FilterNext(s: seq<SOERecord>, k: nat, c: Condition)
    requires k < |s|
    ensures Filter(s[..k + 1], c) == Filter(s[..k], c) + (if Matches(c, s[k]) then [s[k]] else [])
  {
    assert s[..k + 1][..k] == s[..k];
  }

  datatype Stats = Stats(totalRecords: nat, droppedRecords: nat, lastRecordTime: nat, currentLoad: nat, capacity: nat)

  class SOERecorder {
    const capacity: nat
    const records: array<SOERecord>
    var mapped: bool
    var head: nat
    var tail: nat
    var totalRecords: nat
    var droppedRecords: nat
    var lastRecordTime: nat
    ghost var journal: Journal

    ghost predicate Valid()
      reads this, records
    {
      && 1 <= capacity == records.Length < UINT32_RANGE
      && Shows(records[..], head, tail, journal.window)
      && totalRecords == journal.total % UINT64_RANGE
      && droppedRecords == journal.dropped % UINT64_RANGE
    }

    constructor (capacity: nat, blank: SOERecord)
      requires 1 <= capacity < UINT32_RANGE
      ensures Valid() && mapped && journal == Journal([], 0, 0, 0) && fresh(records) && this.capacity == capacity
    {
      this.capacity := capacity;
      records := new SOERecord[capacity](_ => blank);
      mapped := true;
      head, tail, totalRecords, droppedRecords, lastRecordTime := 0, 0, 0, 0, 0;
      journal := Journal([], 0, 0, 0);
    }

    /** (index + 1) % capacity in 32-bit arithmetic. */
    method Advance(index: nat) returns (next: nat)
      requires index < capacity < UINT32_RANGE
      ensures next == Place(index, 1, capacity)
    {
      PlaceIsRemainder(index + 1, capacity);
      ModArith.Small(index + 1, UINT32_RANGE);
      next := U32(index + 1) % capacity;
    }

    /** Increments a 64-bit counter that has counted `times` so far. */
    method CountUp(counter: nat, ghost times: nat) returns (next: nat)
      requires counter == times % UINT64_RANGE
      ensures next == (times + 1) % UINT64_RANGE
    {
      ModArith.Sum(times, 1, UINT64_RANGE);
      next := (counter + 1) % UINT64_RANGE;
    }

    method Record(rec: SOERecord) returns (r: Result)
      requires Valid()
      modifies this`head, this`tail, this`totalRecords, this`droppedRecords, this`lastRecordTime, this`journal, records
      ensures Valid()
      ensures r == if mapped then OK else NOT_INITIALIZED
      ensures journal == if mapped then Recorded(old(journal), capacity, rec) else old(journal)
      ensures mapped ==> lastRecordTime == rec.absoluteTime
    {
      if !mapped {
        return NOT_INITIALIZED;
      }
      ghost var next := Recorded(journal, capacity, rec);
      var full := Append(rec, journal.window);
      Count(full, next);
      lastRecordTime := rec.absoluteTime;
      journal := next;
      return OK;
    }

    /** The counting part of record. */
    method Count(full: bool, ghost next: Journal)
      requires next.total == journal.total + 1 && next.dropped == journal.dropped + (if full then 1 else 0)
      requires totalRecords == journal.total % UINT64_RANGE && droppedRecords == journal.dropped % UINT64_RANGE
      modifies this`totalRecords, this`droppedRecords
      ensures totalRecords == next.total % UINT64_RANGE && droppedRecords == next.dropped % UINT64_RANGE
    {
      if full {
        droppedRecords := CountUp(droppedRecords, journal.dropped);
      }
      totalRecords := CountUp(totalRecords, journal.total);
    }

    /** The ring part of record: gives up the oldest slot if there is no free one, and writes at the head. */
    method Append(rec: SOERecord, ghost window: seq<SOERecord>) returns (full: bool)
      requires records.Length == capacity < UINT32_RANGE && Shows(records[..], head, tail, window)
      modifies this`head, this`tail, records
      ensures full <==> |window| == capacity - 1
      ensures Shows(records[..], head, tail, Last(window + [rec], capacity - 1))
    {
      PushShows(records[..], head, tail, window, rec);
      var next := Advance(head);
      full := next == tail;
      if full {
        tail := Advance(tail);
      }
      records[head] := rec;
      assert records[..] == old(records[..])[head := rec];
      head := next;
    }

    method Clear()
      requires Valid()
      modifies this`head, this`tail, this`journal
      ensures Valid() && journal == if mapped then Cleared(old(journal)) else old(journal)
      ensures mapped ==> journal.window == [] && journal.cleared == old(journal.cleared) + |old(journal.window)|
    {
      if !mapped {
        return;
      }
      head, tail := 0, 0;
      journal := Cleared(journal);
    }

    /** The number of readable records. */
    method Load() returns (n: nat)
      requires Valid()
      ensures n == |journal.window|
    {
      n := if head >= tail then head - tail else capacity - tail + head;
    }

    method Query(condition: Condition, output: array?<SOERecord>, maxCount: nat) returns (r: Result, count: nat)
      requires Valid() && output != records && (output != null ==> maxCount <= output.Length)
      modifies output
      ensures r == if !mapped then NOT_INITIALIZED else if output == null || maxCount == 0 then INVALID_PARAM else OK
      ensures r == OK ==> count <= maxCount && output[..count] == Selection(journal.window, condition, maxCount)
                          && output[count..] == old(output[count..])
      ensures r == OK ==> Delivered(journal.window, condition, maxCount, output[..count])
      ensures r != OK && output != null ==> output[..] == old(output[..])
    {
      if !mapped {
        return NOT_INITIALIZED, 0;
      }
      if output == null || maxCount == 0 {
        return INVALID_PARAM, 0;
      }
      var found := Collect(condition, maxCount);
      if condition.reverseOrder {
        found := Reverse(found);
      }
      count := |found|;
      CopyOut(found, output);
      SelectionMeans(journal.window, condition, maxCount);
      return OK, count;
    }

    /** The walk from tail to head, which stops as soon as maxCount records have matched. */
    method Collect(condition: Condition, maxCount: nat) returns (found: seq<SOERecord>)
      requires Valid() && 0 < maxCount
      ensures var all := Filter(journal.window, condition); found == all[..Min(maxCount, |all|)]
    {
      found := [];
      var current := tail;
      ghost var k := 0;
      ghost var w := journal.window;
      while current != head
        invariant k <= |w| && current == Place(tail, k, capacity)
        invariant found == Filter(w[..k], condition) && |found| < maxCount
        decreases |w| - k
      {
        WalkReachesHead(tail, k, |w|, capacity);
        FilterNext(w, k, condition);
        var rec := records[current];
        assert rec == records[..][Place(tail, k, capacity)];
        k := k + 1;
        if Matches(condition, rec) {
          found := found + [rec];
          if |found| >= maxCount {
            break;
          }
        }
        current := Advance(current);
      }
      WalkReachesHead(tail, k, |w|, capacity);
      FirstMatches(w, k, condition, found, maxCount);
    }

    method CopyOut(found: seq<SOERecord>, output: array<SOERecord>)
      requires |found| <= output.Length
      modifies output
      ensures output[..|found|] == found && output[|found|..] == old(output[|found|..])
    {
      for i := 0 to |found|
        invariant output[..i] == found[..i] && output[|found|..] == old(output[|found|..])
      {
        output[i] := found[i];
      }
    }

    method GetByTimeRange(startTime: nat, endTime: nat, output: array?<SOERecord>, maxCount: nat)
      returns (r: Result, count: nat)
      requires Valid() && output != records && (output != null ==> maxCount <= output.Length)
      modifies output
      ensures r == if !mapped then NOT_INITIALIZED else if output == null || maxCount == 0 then INVALID_PARAM else OK
      ensures r == OK ==>
                && count <= maxCount
                && var range := Condition(startTime, endTime, 0, ANY_TYPE, ANY_TYPE, 0, maxCount, false);
                   output[..count] == Selection(journal.window, range, maxCount)
      ensures r == OK ==> TimeRange(journal.window, startTime, endTime, maxCount, output[..count])
    {
      r, count := Query(Condition(startTime, endTime, 0, ANY_TYPE, ANY_TYPE, 0, maxCount, false), output, maxCount);
      if r == OK {
        RangeMeans(journal.window, Condition(startTime, endTime, 0, ANY_TYPE, ANY_TYPE, 0, maxCount, false), maxCount,
                   output[..count]);
      }
    }

    /** The newest records first, whatever the wrap position, as long as the 32-bit index sum does not overflow. */
    method GetLatest(count: nat, output: array<SOERecord>) returns (r: Result, actualCount: nat)
      requires Valid() && output != records && Min(count, |journal.window|) <= output.Length
      modifies output
      ensures r == if mapped then OK else NOT_INITIALIZED
      ensures r == OK ==> actualCount == Min(count, |journal.window|)
                          && output[actualCount..] == old(output[actualCount..])
      ensures (r == OK && head + capacity - 1 < UINT32_RANGE) ==>
                && output[..actualCount] == Reverse(Last(journal.window, actualCount))
                && forall i :: 0 <= i < actualCount ==> output[..actualCount][i] == journal.window[|journal.window| - 1 - i]
    {
      if !mapped {
        return NOT_INITIALIZED, 0;
      }
      var available := Load();
      actualCount := Min(count, available);
      ghost var latest := Reverse(Last(journal.window, actualCount));
      for i := 0 to actualCount
        invariant output[actualCount..] == old(output[actualCount..])
        invariant head + capacity - 1 < UINT32_RANGE ==> output[..i] == latest[..i]
      {
        LatestIndexExact(head, i, capacity);
        var index := U32(head + capacity - 1 - i) % capacity;
        output[i] := records[index];
        if head + capacity - 1 < UINT32_RANGE {
          assert index == Place(tail, |journal.window| - 1 - i, capacity);
        }
      }
      NewestFirst(journal.window, actualCount);
      return OK, actualCount;
    }

    method GetStats() returns (stats: Stats)
      requires Valid()
      ensures stats == if !mapped then Stats(0, 0, 0, 0, 0)
                       else Stats(journal.total % UINT64_RANGE, journal.dropped % UINT64_RANGE, lastRecordTime,
                                  |journal.window|, capacity)
    {
      if !mapped {
        return Stats(0, 0, 0, 0, 0);
      }
      var load := Load();
      return Stats(totalRecords, droppedRecords, lastRecordTime, load, capacity);
    }
  }
}
