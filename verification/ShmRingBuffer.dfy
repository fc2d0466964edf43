/**
 * The shared-memory ring buffer (include/ShmRingBuffer.h), one call at a time.
 *
 * The buffer is proved to refine an append-only log: the ghost field `events` holds every event ever
 * written and `consumed` is the absolute position the global read index stands for. Positions below
 * zero stand for the default-constructed entries the data area starts with. Calls are atomic here;
 * RingSteps.dfy takes the same code apart into its single loads, compare-and-swaps and stores.
 */
module ShmRing {
  import opened Common
  import ModArith

  /** Slot that holds the event with absolute position p. */
  function Slot(p: int, capacity: nat): nat
    requires 0 < capacity
  {
    p % capacity
  }

  /** The position a reader index stands for when `written` events have been written so far. */
  function PositionOf(written: nat, index: nat, capacity: nat): (p: int)
    requires index < capacity
    ensures written - capacity < p <= written && Slot(p, capacity) == index
  {
    ModArith.Unique(written - index, (written - index) / capacity, (written - index) % capacity, capacity);
    ModArith.Unique(written - (written - index) % capacity, (written - index) / capacity, index, capacity);
    written - (written - index) % capacity
  }

  /** Event at a position; positions before the first write hold the default event. */
  function EntryAt<T>(events: seq<T>, blank: T, p: int): T
    requires p < |events|
  {
    if p < 0 then blank else events[p]
  }

  /** The distance from a read index to a write index as `read` computes it, in 32-bit arithmetic. */
  function Distance(writeIdx: nat, readIdx: nat, capacity: nat): nat
    requires 0 < capacity
  {
    U32(writeIdx + capacity - readIdx) % capacity
  }

  /** The 32-bit distance is the true circular distance exactly when the sum does not wrap around. */
  lemma DistanceExact(writeIdx: nat, readIdx: nat, capacity: nat)
    requires writeIdx < capacity && readIdx < capacity < UINT32_RANGE
    ensures Distance(writeIdx, readIdx, capacity) == (writeIdx - readIdx) % capacity
       <==> writeIdx + capacity - readIdx < UINT32_RANGE
    ensures capacity <= UINT32_RANGE / 2 ==> writeIdx + capacity - readIdx < UINT32_RANGE
  {
    var x := writeIdx + capacity - readIdx;
    ModArith.Shift(writeIdx - readIdx, capacity);
    if x >= UINT32_RANGE {
      ModArith.Unique(x, 1, x - UINT32_RANGE, UINT32_RANGE);
      ModArith.Small(x - UINT32_RANGE, capacity);
      ModArith.Unique(x, 1, x - capacity, capacity);
    }
  }

  /** Up to 2^31 slots, the 32-bit distance between two positions less than a lap apart, taken circularly. */
  lemma DistanceTo(upTo: nat, position: int, capacity: nat)
    requires 0 < capacity <= UINT32_RANGE / 2 && upTo - position < capacity && position - upTo < capacity
    ensures Distance(Slot(upTo, capacity), Slot(position, capacity), capacity)
         == if position <= upTo then upTo - position else upTo - position + capacity
  {
    var w, r, d := Slot(upTo, capacity), Slot(position, capacity), upTo - position;
    DistanceExact(w, r, capacity);
    assert (w - r) % capacity == d % capacity by {
      ModArith.Difference(upTo, position, capacity);
      assert w + capacity - r == w - r + capacity;
      ModArith.Shift(w - r, capacity);
    }
    ModArith.Shift(d, capacity);
    if d < 0 {
      ModArith.Small(d + capacity, capacity);
    } else {
      ModArith.Small(d, capacity);
    }
  }

  /** A reader index identifies its own position exactly as long as the reader is less than a lap behind. */
  lemma PositionExact(written: nat, position: nat, capacity: nat)
    requires 0 < capacity && position <= written
    ensures PositionOf(written, Slot(position, capacity), capacity) == position <==> written - position < capacity
  {
    var p := PositionOf(written, Slot(position, capacity), capacity);
    if written - position < capacity {
      ModArith.Congruent(p, position, capacity);
    }
  }

  class ShmRingBuffer<T> {
    var initialized: bool
    var capacity: nat
    var data: array<T>
    var writeIndex: nat
    var readIndex: nat
    var sem: nat
    const blank: T
    ghost var events: seq<T>
    ghost var consumed: int

    ghost predicate Valid()
      reads this, data
    {
      initialized ==>
        && 2 <= capacity == data.Length < UINT32_RANGE
        && writeIndex == Slot(|events|, capacity)
        && |events| - capacity < consumed <= |events|
        && readIndex == Slot(consumed, capacity)
        && forall p :: |events| - capacity <= p < |events| ==>
             data[Slot(p, capacity)] == EntryAt(events, blank, p)
    }

    constructor (defaultEvent: T)
      ensures Valid() && !initialized && fresh(data) && blank == defaultEvent
    {
      initialized := false;
      capacity, writeIndex, readIndex, sem := 0, 0, 0, 0;
      data := new T[0];
      blank := defaultEvent;
      events, consumed := [], 0;
    }

    /** A failing sem_init is found out after the fields are set; the buffer is then left uninitialised. */
    method Initialize(area: array?<T>, newCapacity: nat, semReady: bool) returns (r: Result)
      requires Valid() && newCapacity < UINT32_RANGE && (area != null ==> area.Length == newCapacity)
      modifies this, area
      ensures Valid()
      ensures r == if old(initialized) then ALREADY_EXISTS
                   else if area == null || newCapacity < 2 then INVALID_PARAM
                   else if !semReady then ERROR else OK
      ensures r == OK || r == ERROR ==> data == area && capacity == newCapacity && writeIndex == readIndex == 0
      ensures r == OK ==> initialized && events == [] && consumed == 0 && sem == 0
      ensures r == ERROR ==> !initialized && data[..] == old(area[..]) && sem == old(sem)
      ensures r != OK && r != ERROR ==> unchanged(this) && (area != null ==> unchanged(area))
    {
      if initialized {
        return ALREADY_EXISTS;
      }
      initialized := true;
      if area == null || newCapacity < 2 {
        initialized := false;
        return INVALID_PARAM;
      }
      capacity := newCapacity;
      data := area;
      writeIndex, readIndex := 0, 0;
      if !semReady {
        initialized := false;
        return ERROR;
      }
      sem := 0;
      for i := 0 to newCapacity
        invariant forall k :: 0 <= k < i ==> area[k] == blank
        modifies area
      {
        area[i] := blank;
      }
      events, consumed := [], 0;
      ModArith.Small(0, capacity);
      return OK;
    }

    method Write(event: T) returns (r: Result)
      requires Valid()
      modifies this, data
      ensures Valid()
      ensures r == if !initialized then NOT_INITIALIZED
                   else if old(|events|) - consumed == capacity - 1 then BUFFER_FULL else OK
      ensures r == OK ==> events == old(events) + [event] && sem == old(sem) + 1
      ensures r != OK ==> events == old(events) && sem == old(sem) && data[..] == old(data[..])
      ensures consumed == old(consumed) && initialized == old(initialized)
              && capacity == old(capacity) && data == old(data)
    {
      if !initialized {
        return NOT_INITIALIZED;
      }
      var writeIdx := writeIndex;
      var nextWriteIdx := U32(writeIdx + 1) % capacity;
      NextIndex();
      if nextWriteIdx == readIndex {
        return BUFFER_FULL;
      }
      writeIndex := nextWriteIdx;
      data[writeIdx] := event;
      sem := sem + 1;
      ghost var was := events;
      events := events + [event];
      forall p | |was| < p + capacity && p < |was| ensures Slot(p, capacity) != Slot(|was|, capacity) {
        if Slot(p, capacity) == Slot(|was|, capacity) {
          ModArith.Congruent(p, |was|, capacity);
        }
      }
      return OK;
    }

    /** The incremented write index is the slot of the next position; it meets the read index iff capacity - 1 events wait. */
    lemma NextIndex()
      requires Valid() && initialized
      ensures U32(writeIndex + 1) % capacity == Slot(|events| + 1, capacity)
      ensures U32(writeIndex + 1) % capacity == readIndex <==> |events| - consumed == capacity - 1
    {
      ModArith.Small(writeIndex + 1, UINT32_RANGE);
      ModArith.Next(|events|, capacity);
      ModArith.Shift(|events| + 1, capacity);
      if Slot(|events| + 1, capacity) == readIndex {
        ModArith.Congruent(|events| + 1 - capacity, consumed, capacity);
      }
    }

    method WriteBatch(batch: seq<T>) returns (r: Result, written: nat)
      requires Valid()
      modifies this, data
      ensures Valid()
      ensures written <= |batch| && events == old(events) + batch[..written] && sem == old(sem) + written
      ensures r == OK <==> written == |batch|
      ensures r != OK ==> r == if initialized then BUFFER_FULL else NOT_INITIALIZED
      ensures r == BUFFER_FULL ==> |events| - consumed == capacity - 1
      ensures consumed == old(consumed) && initialized == old(initialized)
              && capacity == old(capacity) && data == old(data)
    {
      written := 0;
      for i := 0 to |batch|
        invariant Valid() && written == i
        invariant events == old(events) + batch[..i] && sem == old(sem) + i
        invariant consumed == old(consumed) && initialized == old(initialized)
        invariant capacity == old(capacity) && data == old(data)
      {
        var ret := Write(batch[i]);
        if ret != OK {
          return ret, written;
        }
        written := written + 1;
      }
      return OK, written;
    }

    /**
     * A reader at position p gets the event at p and moves on by one. An updating reader moves the
     * global position to p + 1 if that is an advance, and never moves it back.
     */
    method Read(readIdx: nat, updateGlobal: bool) returns (r: Result, event: Option<T>, next: nat)
      requires Valid() && (initialized ==> readIdx < capacity)
      modifies this`readIndex, this`consumed
      ensures Valid()
      ensures !initialized ==> r == NOT_INITIALIZED && event == None && next == readIdx && consumed == old(consumed)
      ensures initialized ==>
                var p := PositionOf(|events|, readIdx, capacity);
                if p == |events| then r == NOT_FOUND && event == None && next == readIdx && consumed == old(consumed)
                else
                  && r == OK && event == Some(EntryAt(events, blank, p)) && next == Slot(p + 1, capacity)
                  && consumed in {old(consumed), p + 1}
                  && (!updateGlobal ==> consumed == old(consumed))
                  && (updateGlobal && capacity <= UINT32_RANGE / 2 ==> consumed == Max(old(consumed), p + 1))
    {
      if !initialized {
        return NOT_INITIALIZED, None, readIdx;
      }
      var writeIdx := writeIndex;
      ghost var p := PositionOf(|events|, readIdx, capacity);
      ModArith.Shift(p, capacity);
      if readIdx == writeIdx {
        if p != |events| {
          ModArith.Congruent(p, |events|, capacity);
        }
        return NOT_FOUND, None, readIdx;
      }
      event := Some(data[readIdx]);
      ModArith.Small(readIdx + 1, UINT32_RANGE);
      ModArith.Next(p, capacity);
      next := U32(readIdx + 1) % capacity;
      if updateGlobal {
        var oldReadIdx := readIndex;
        var oldDist := Distance(writeIdx, oldReadIdx, capacity);
        var newDist := Distance(writeIdx, next, capacity);
        if capacity <= UINT32_RANGE / 2 {
          TrueDistance(consumed);
          TrueDistance(p + 1);
        }
        if newDist < oldDist {
          readIndex := next;
          consumed := p + 1;
        }
      }
      return OK, event, next;
    }

    /** Up to 2^31 slots, the code's distance to a position is the number of events still ahead of it. */
    lemma TrueDistance(p: int)
      requires Valid() && initialized && capacity <= UINT32_RANGE / 2
      requires |events| - capacity < p <= |events|
      ensures Distance(writeIndex, Slot(p, capacity), capacity) == |events| - p
    {
      DistanceTo(|events|, p, capacity);
    }

    /** Number of events ahead of a reader index, as a client sees it. */
    method Available(readIdx: nat) returns (n: nat)
      requires Valid() && initialized && readIdx < capacity
      ensures n == |events| - PositionOf(|events|, readIdx, capacity)
    {
      ghost var d := |events| - PositionOf(|events|, readIdx, capacity);
      ModArith.Difference(|events|, readIdx, capacity);
      ModArith.Small(readIdx, capacity);
      ModArith.Shift(writeIndex - readIdx, capacity);
      if writeIndex >= readIdx {
        ModArith.Small(writeIndex - readIdx, capacity);
        n := writeIndex - readIdx;
      } else {
        ModArith.Small(capacity - readIdx + writeIndex, capacity);
        n := capacity - readIdx + writeIndex;
      }
    }

    method IsEmpty(readIdx: nat) returns (b: bool)
      requires Valid() && initialized && readIdx < capacity
      ensures b <==> PositionOf(|events|, readIdx, capacity) == |events|
    {
      b := readIdx == writeIndex;
      if b {
        ModArith.Congruent(PositionOf(|events|, readIdx, capacity), |events|, capacity);
      }
    }

    method IsFull() returns (b: bool)
      requires Valid() && initialized
      ensures b <==> |events| - consumed == capacity - 1
    {
      NextIndex();
      var nextWriteIdx := U32(writeIndex + 1) % capacity;
      b := nextWriteIdx == readIndex;
    }

    method SetReadIndex(index: nat)
      requires Valid() && initialized && index < capacity
      modifies this`readIndex, this`consumed
      ensures Valid() && consumed == PositionOf(|events|, index, capacity)
    {
      readIndex := index;
      consumed := PositionOf(|events|, index, capacity);
    }

    method TryWait() returns (r: Result)
      modifies this`sem
      ensures r == if !initialized then NOT_INITIALIZED else if old(sem) > 0 then OK else NOT_FOUND
      ensures sem == if r == OK then old(sem) - 1 else old(sem)
    {
      if !initialized {
        return NOT_INITIALIZED;
      }
      if sem > 0 {
        sem := sem - 1;
        return OK;
      }
      return NOT_FOUND;
    }
  }
}
