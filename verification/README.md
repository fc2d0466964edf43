# IPCSharedDataPool: a verified model

This project models the stateful core of IPCSharedDataPool in Dafny and proves what it keeps and delivers.
Nothing here runs the original program.

- **The shared-memory event queue.** `ShmRingBuffer.dfy` is the ring buffer call by call, as a class with the
  source's fields; it refines an append-only log. `RingRuns.dfy` follows any number of readers over whole runs of
  calls. `RingSteps.dfy` takes the same code apart into single loads, compare-and-swaps, stores and semaphore calls;
  `SubscriberSteps.dfy` (the event center's use, which never wraps), `QueueSteps.dfy` (one updating reader, with
  wrap-around), `ReaderRaces.dfy` (any number of updating readers) and `StepWitnesses.dfy` (uninterrupted calls, and
  runs that go wrong) draw the conclusions. `PublishLedger.dfy` accounts for every event handed to publish.
- **The event center.** `EventCenter.dfy` is the class of one process; `EventCenterRuns.dfy` judges whole runs by what
  an observer of the calls and replies can write down.
- **Checksums and snapshots.** `Crc32.dfy` relates the bit-by-bit CRC-32 to the table-driven algorithm of section 8 of
  RFC 1952 and says what it detects. `SnapshotChecksum.dfy` does the same for the checksum of snapshot files, and
  `Persistence.dfy` models saving, restoring, backup fallback and backup clean-up.
- **The SOE recorder.** `SoeRecorder.dfy` is the overwriting ring, its queries and its latest-records view.
- **The IEC 61850 mapper.** `DataSetStore.dfy` is the compacting store of data-set members;
  `MapperReferences.dfy` holds class names, printed references and the mapping table.
- **The health monitor.** `HealthMonitor.dfy` is one pass over the process list as a step.

`Common.dfy`, `ModArith.dfy` and `Positions.dfy` hold shared types, remainder facts and lists of positions.

Where the code and its documentation differ, the model follows the code:

- README.md:451 says that the oldest event is overwritten when the event queue is full. The code refuses the new
  event (include/ShmRingBuffer.h:169), and since `poll` never updates the global read index (src/IPCEventCenter.cpp:368)
  at most capacity - 1 events are accepted in the life of a center.
- The header of the ring promises safety for several producers through compare-and-swap. That holds as long as no
  successful swap meets a full buffer; a producer that stalls for a whole lap can swap into one
  (`StepWitnesses.LateSwapHidesEvents`). The swap also publishes a slot before its event is stored
  (`StepWitnesses.EarlyFetchLosesEvent`).
- `write` reports a full buffer when its test says so (include/ShmRingBuffer.h:167-171), but between the load and the
  test the reader may have come to stand right behind the loaded index: the test then refuses an event although the
  buffer is empty (`RingSteps.RefusalIff`, `StepWitnesses.EmptyBufferRefuses`). In the event center, where no reader
  moves the global index, it cannot happen (`SubscriberSteps.RefusedIffFull`).
- The swap on the global read index is commented as only ever moving forward (include/ShmRingBuffer.h:233). With
  several updating readers it also moves back, exactly when it succeeds after the global position has passed the
  snapshot of the write index that the reader compared with (`ReaderRaces.RunNeverMovesBackIff`,
  `StepWitnesses.StaleSnapshotMovesBack`).
- USER_MANUAL.md:595 calls the reversed SOE query "newest first". With a limit below the number of matches it returns
  the oldest matches, reversed, whatever the filter (`SoeRecorder.ReversedQueryIsLatest`).
- The position factor is meant to strengthen the snapshot checksum (src/PersistentStorage.cpp:579). Exchanging two
  neighbouring bytes still goes unnoticed whenever the factor flips the same bits of the running sum either way
  (`SnapshotChecksum.ExchangeUnnoticedIff`): always for the first two bytes, and at every position where neither byte
  carries out of the low eight bits of the sum.
- `removeDataSet` assumes that slices lie in index order. After one removal that is not of the last data set they may
  not, and removing index 0 twice from three data sets lowers a start index below zero
  (`DataSetStore.TwoRemovalsBreak`).

Readings of the source: 32-bit index arithmetic wraps around (`U32`). In the call-by-call models a compare-and-swap
succeeds at its first attempt; retries and spurious failures are steps in `RingSteps.dfy`. A callback is never empty for
an active subscriber, because `subscribe` refuses empty ones; what a callback publishes is a function of the events it
has been given in the call. Shared memory is an object with arrays; the semaphore is a counter; clocks are inputs. The
SOE recorder's lock is never initialised (src/SOERecorder.cpp:57-69), so no mutual exclusion is claimed for it. No
operation of the data-set store checks the member array, so each of the three has an outcome `OutOfArray` for the calls
that go outside it, and its contract says which calls those are; the member array has at most 2^32 - 2^16 entries.

## Model

| member | source | states |
|---|---|---|
| ShmRing.DistanceExact | include/ShmRingBuffer.h:238-239 | The 32-bit distance formula gives the true circular distance if and only if its sum does not overflow; up to 2^31 slots it never does |
| ShmRing.PositionOf | include/ShmRingBuffer.h:218-226 | The one position in the last lap that a reader index can stand for |
| ShmRing.PositionExact | include/ShmRingBuffer.h:218-229 | An index identifies its reader's own position if and only if the reader is less than a lap behind |
| ShmRing.ShmRingBuffer.Initialize | include/ShmRingBuffer.h:53-97 | A second call, a null data area or a capacity below 2 change nothing; a failing sem_init leaves the fields set and the buffer uninitialised; success gives an empty log, every slot holding the default event |
| ShmRing.ShmRingBuffer.Write | include/ShmRingBuffer.h:148-186 | The event is appended to the log and the semaphore raised, or, exactly when capacity - 1 events lie between the global read position and the end, refused with the data untouched |
| ShmRing.ShmRingBuffer.WriteBatch | include/ShmRingBuffer.h:188-198 | Exactly the first `written` events are appended; a short count means the buffer is full |
| ShmRing.ShmRingBuffer.Read | include/ShmRingBuffer.h:206-248 | The reader gets the log event its index stands for; an updating read sets the global position to the maximum of the old one and the reader's new one, never back, up to 2^31 slots |
| ShmRing.ShmRingBuffer.Available | include/ShmRingBuffer.h:300-308 | The number of log events ahead of the reader, on either side of the wrap |
| ShmRing.ShmRingBuffer.IsEmpty | include/ShmRingBuffer.h:330-332 | True exactly when the reader stands at the end of the log |
| ShmRing.ShmRingBuffer.IsFull | include/ShmRingBuffer.h:334-340 | True exactly when capacity - 1 events wait |
| ShmRing.ShmRingBuffer.SetReadIndex | include/ShmRingBuffer.h:318-320 | The global position becomes the one in the last lap with that slot |
| ShmRing.ShmRingBuffer.TryWait | include/ShmRingBuffer.h:283-295 | Succeeds exactly when the count is positive, and takes one |
| RingRuns.Perform | include/ShmRingBuffer.h:148-248 | Every call on the buffer object is a step of the abstract log with any number of readers |
| RingRuns.Step | include/ShmRingBuffer.h:148-248 | Whatever is called, the log only grows, the global position never moves back, and less than a lap separates them |
| RingRuns.ReaderSeesLog | include/ShmRingBuffer.h:206-248 | Over any run, a reader less than a lap behind whenever a read delivers receives the contiguous run of the log from where it started |
| RingRuns.ReaderSeesLogIff | include/ShmRingBuffer.h:206-248 | For pairwise different events, it has received that run if and only if it was less than a lap behind whenever a read delivered |
| RingRuns.SoleUpdaterIsQueue | include/ShmRingBuffer.h:148-248 | A single updating reader is never lapped, whatever other readers do, and sees an exact FIFO of at most capacity - 1 waiting events |
| RingRuns.SlowUpdaterLosesEvents | include/ShmRingBuffer.h:231-245 | With two updating readers the slower one can lose events: a concrete run |
| RingSteps.SwapKeepsCoreIffRoom | include/ShmRingBuffer.h:163-177 | A swap on the write index keeps the whole buffer invariant if and only if it does not meet a full buffer |
| RingSteps.WithinLapLeavesRoom | include/ShmRingBuffer.h:163-177 | Fewer than `capacity` claims between load and swap guarantee that the swap finds room |
| RingSteps.ClaimIsFresh | include/ShmRingBuffer.h:163-177 | Within a lap, a swap succeeds if and only if no other claim came in between |
| RingSteps.RefusalIff | include/ShmRingBuffer.h:163-171 | Less than a lap after the load, the full test refuses if and only if the buffer was full at the load and still is, or the reader has come to stand one position after the loaded index; then the buffer is not full |
| RingSteps.ProducerStepKeepsPlaced | include/ShmRingBuffer.h:160-183 | Loads, tests and swaps that find room keep every producer's index the slot of a past position and the write index less than a lap ahead of the read index |
| RingSteps.ProducerStepKeepsCore | include/ShmRingBuffer.h:160-183 | Every producer step keeps distinct slots, held claims, stored slots and balanced counters |
| PublishLedger.NothingLostOrRepeated | include/ShmRingBuffer.h:148-186 | In every run from any state, however often swaps fail, the events claimed, in hand and refused are exactly those publish was called with and those there before, each as often |
| SubscriberSteps.EveryInterleaving | src/IPCEventCenter.cpp:218-230 | Every interleaving of any number of producers and subscribers keeps the invariant, without any condition |
| SubscriberSteps.EachIndexClaimedOnce | include/ShmRingBuffer.h:163-177 | A successful swap claims the index equal to the number of swaps before it, a failed one claims nothing |
| SubscriberSteps.RefusedIffFull | include/ShmRingBuffer.h:163-171 | In the event center a publish is refused only when capacity - 1 events have been published |
| SubscriberSteps.ReachableBuffer | src/IPCEventCenter.cpp:353-369 | In every reachable state the global read index is 0, fewer than `capacity` events are claimed, in-flight producers hold distinct slots, stored slots hold their event and the others the default one |
| SubscriberSteps.QuiescentBuffer | src/IPCEventCenter.cpp:218-230 | With no producer in flight, the slots below the write index are the published events in swap order, totalEvents is their number and the semaphore is their number minus the waits |
| SubscriberSteps.FetchDelivers | include/ShmRingBuffer.h:218-229 | A fetch delivers the published event if it is stored already and the default event if not |
| SubscriberSteps.JoinsAtTheEnd | src/IPCEventCenter.cpp:307-309 | A new subscriber stands at the end of the log with nothing received, and polling at once finds nothing |
| SubscriberSteps.ReceivedSinceJoin | src/IPCEventCenter.cpp:297-369 | In every run without a fetch before its store, a subscriber has received exactly the events claimed since its last join, in order, up to its position |
| SubscriberSteps.SubscribersReceiveLog | src/IPCEventCenter.cpp:353-369 | The same for all subscribers at once, kept from any state on |
| SubscriberSteps.LogReceivedIffNoEarlyFetch | include/ShmRingBuffer.h:174-229 | For events unlike the default one, subscribers have received the log if and only if no fetch preceded its store |
| QueueSteps.StepBoundedIffRoom | include/ShmRingBuffer.h:163-245 | With one updating reader, a step of any kind keeps 0 <= W - G < capacity if and only if it is not a swap into a full buffer; otherwise W - G is exactly capacity |
| QueueSteps.RunBoundedIffRoom | include/ShmRingBuffer.h:163-245 | Every state of a run has 0 <= W - G < capacity if and only if every successful swap of the run finds room, and then the indices are the slots of those positions |
| QueueSteps.RunWithinLapIsBounded | include/ShmRingBuffer.h:163-245 | Fewer than `capacity` claims between load and swap are enough for that bound, even if slots are read before they are stored |
| QueueSteps.ReaderAdvances | include/ShmRingBuffer.h:233-240 | A single updating reader's comparison always lets it advance the global index by one, however stale its snapshot |
| QueueSteps.DisciplinedRun | include/ShmRingBuffer.h:148-248 | Runs within a lap and without early fetches keep the whole invariant, contents included, and the global read position never moves back |
| QueueSteps.ReachableQueue | include/ShmRingBuffer.h:148-248 | In their reachable states 0 <= W - G < capacity, in-flight producers hold distinct slots, unread stored events are intact and the reader has received the first events of the log |
| ReaderRaces.ComparesIff | include/ShmRingBuffer.h:236-240 | The comparison of distances lets an updating reader go on if and only if its position is ahead of the global one or the global one has passed its snapshot of the write index |
| ReaderRaces.StepMovesBackIff | include/ShmRingBuffer.h:233-244 | A step moves the global read position back if and only if it is a successful swap by a reader whose snapshot the global position has passed, whatever happened since the reader compared |
| ReaderRaces.RunNeverMovesBackIff | include/ShmRingBuffer.h:206-248 | Over runs of any number of producers, updating readers and subscribers, the global read position never moves back if and only if no such swap takes place |
| StepWitnesses.UninterruptedPublish | src/IPCEventCenter.cpp:218-230 | The steps of one publish, uninterrupted, act as one atomic append |
| StepWitnesses.UninterruptedRead | include/ShmRingBuffer.h:206-248 | The steps of one read by any reader less than a lap behind, uninterrupted, act as one atomic read: if it updates, the global position becomes the maximum |
| StepWitnesses.LateSwapHidesEvents | include/ShmRingBuffer.h:174-177 | A run from the initial state in which a swap one lap late fills the ring and makes two unread events look like an empty buffer |
| StepWitnesses.EmptyBufferRefuses | include/ShmRingBuffer.h:163-171 | A run from the initial state after which the full test refuses an event although the buffer is empty |
| StepWitnesses.EarlyFetchLosesEvent | include/ShmRingBuffer.h:174-180 | A run in which a subscriber receives the default event instead of the published one |
| StepWitnesses.StaleSnapshotMovesBack | include/ShmRingBuffer.h:233-244 | A run from the initial state with two updating readers on three slots, after which a swap moves the global read position from 2 back to 1 |
| EventCenter.FreeSlotIsNearest | src/IPCEventCenter.cpp:303-305 | The slot search passes over no free slot in circular order |
| EventCenter.FullExactlyWhenAllActive | src/IPCEventCenter.cpp:303-320 | Subscribing runs out of slots if and only if all 32 are active |
| EventCenter.SubscribeTakesNearest | src/IPCEventCenter.cpp:303-320 | A subscriber gets an inactive slot unless all are active, and all slots from the one after the last given out, upwards and round to the beginning, are active up to it |
| EventCenter.IPCEventCenter.Publish | src/IPCEventCenter.cpp:218-230 | OK if and only if fewer than capacity - 1 events were ever accepted, and then the log grows by the event; otherwise it stays; totalEvents counts the log |
| EventCenter.IPCEventCenter.PublishBatch | src/IPCEventCenter.cpp:232-245 | Exactly the first `published` events are appended; a batch is cut short only with capacity - 1 events in the log |
| EventCenter.IPCEventCenter.Subscribe | src/IPCEventCenter.cpp:297-321 | An inactive slot becomes active at the end of the log and the shared count grows by one; error cases change nothing |
| EventCenter.IPCEventCenter.Unsubscribe | src/IPCEventCenter.cpp:323-339 | Frees exactly that slot and lowers the shared count; otherwise nothing changes |
| EventCenter.IPCEventCenter.GetSubscriberCount | src/IPCEventCenter.cpp:341-349 | The counted active slots always agree with the shared header |
| EventCenter.IPCEventCenter.Poll | src/IPCEventCenter.cpp:353-369 | OK if and only if an active subscriber has something to read; it gets the log event at its read index, which advances by one; the reset branch is never reached |
| EventCenter.IPCEventCenter.Process | src/IPCEventCenter.cpp:391-411 | Terminates, also if the callback publishes: it delivers the next events of the final log until none is pending or a positive maximum is reached |
| EventCenter.HandledInOrder | src/IPCEventCenter.cpp:391-411 | Whatever the callback publishes, the delivered events are the next ones of the final log, and delivery ends at a positive maximum or with nothing pending |
| EventCenter.HandledPublishes | src/IPCEventCenter.cpp:397-406 | The log grows by the concatenated reactions of the callback, as far as there is room |
| EventCenter.HandledSilently | src/IPCEventCenter.cpp:391-411 | With callbacks that leave the center alone, exactly the pending events are delivered, capped at a positive maximum |
| EventCenter.IPCEventCenter.GetPendingEvents | src/IPCEventCenter.cpp:415-420 | The number of log events the subscriber has not read |
| EventCenterRuns.ApplyConsistent | src/IPCEventCenter.cpp:297-420 | Every call keeps center and observer in step |
| EventCenterRuns.Perform | src/IPCEventCenter.cpp:218-420 | Every call on the center object is a step of the abstract center and replies as it does |
| EventCenterRuns.RunConsistent | src/IPCEventCenter.cpp:218-420 | So does every run of calls, from any consistent start |
| EventCenterRuns.PublishAppends | src/IPCEventCenter.cpp:218-245 | A publish in a run appends the number of events it answers, all of them unless the queue is then full |
| EventCenterRuns.CutShortOnlyWhenFull | src/IPCEventCenter.cpp:218-245 | In any run something is refused only if it ends with capacity - 1 events published |
| EventCenterRuns.EveryRun | src/IPCEventCenter.cpp:218-420 | Over any run, with callbacks that publish, at most capacity - 1 events are accepted and none is refused before, and what each subscriber received since it joined is the contiguous run of published events from that point; the rest is pending |
| Crc32.CalculateChecksum | include/Common.h:95-110 | The nested loops compute the CRC of the byte string |
| Crc32.FeedByte | include/Common.h:104-107 | The inner loop is eight shifts of the register |
| Crc32.ShiftsXor | include/Common.h:105-107 | Any number of shifts is linear over xor |
| Crc32.CrcIsReferenceCrc | include/Common.h:95-110 | For every byte string the loop gives the table-driven CRC of section 8 of RFC 1952 |
| Crc32.ShiftReversible | include/Common.h:106-106 | A shift can be undone, so it is a bijection on registers |
| Crc32.UpdateInjective | include/Common.h:103-108 | The same bytes lead different registers to different registers |
| Crc32.WindowUpdate | include/Common.h:103-108 | Feeding up to four bytes is 8 shifts per byte of the register xor their little-endian word |
| Crc32.BurstDetected | include/Common.h:95-110 | Messages that differ only inside a window of four bytes have equal CRCs if and only if they are equal |
| Crc32.FiveBytesEscape | include/Common.h:95-110 | Four is the limit: every window of five bytes can be changed without changing the CRC |
| Crc32.Residue | include/Common.h:95-110 | A message followed by its CRC in little-endian order always has the CRC 0x2144DF1C |
| Crc32.CrcOfXor | include/Common.h:95-110 | crc(a xor b) = crc(a) xor crc(b) xor crc(zeros) for equal lengths |
| SnapshotChecksum.CalculateChecksum | src/PersistentStorage.cpp:572-584 | The loop computes the checksum |
| SnapshotChecksum.OneByteMore | src/PersistentStorage.cpp:577-581 | The checksum of no bytes is 0, and one byte more adds the byte and mixes in 256 times its position, both modulo 2^32, for data of any length |
| SnapshotChecksum.TotalInjective | src/PersistentStorage.cpp:577-581 | The same bytes lead different sums to different sums |
| SnapshotChecksum.OneByteChanged | src/PersistentStorage.cpp:572-584 | Overwriting one byte of data of any length changes the checksum if and only if it changes the byte |
| SnapshotChecksum.ChecksumLowByte | src/PersistentStorage.cpp:572-584 | The low eight bits are the byte sum modulo 256 |
| SnapshotChecksum.ExchangeUnnoticedIff | src/PersistentStorage.cpp:577-581 | Exchanging two neighbouring bytes at any position of data of any length leaves the checksum alone if and only if the position factor meets the same bits, below the highest, of the running sum either way |
| SnapshotChecksum.ExchangeWithoutCarry | src/PersistentStorage.cpp:577-581 | So an exchange that carries nothing out of the low byte either way is never noticed, at any position |
| SnapshotChecksum.ExchangeAtZeroFactor | src/PersistentStorage.cpp:579-580 | Nor is one where the position factor is zero |
| SnapshotChecksum.SwapOfFirstTwoUnnoticed | src/PersistentStorage.cpp:579-580 | As it is for the first two bytes |
| SnapshotChecksum.ExchangeNoticed | src/PersistentStorage.cpp:577-581 | With a carry an exchange can be noticed: after a byte 255, exchanging 1 and 0 always is |
| Persistence.SaveThenLoad | src/PersistentStorage.cpp:440-547 | An intact file restores exactly the saved bytes, whatever the pool holds meanwhile |
| Persistence.AcceptedFiles | src/PersistentStorage.cpp:493-547 | A file is accepted exactly with magic 0x50455253, version 1, equal point counts and the checksum of its bytes, filled up with zeros to the size of the data |
| Persistence.BackupsAreNamed | src/PersistentStorage.cpp:305-308 | Exactly the files of the directory whose names begin with "backup_" and contain ".snapshot" are backups |
| Persistence.AlteredByteRejected | src/PersistentStorage.cpp:531-536 | A saved file with one payload byte overwritten is accepted if and only if the byte is the same |
| Persistence.LastByteLost | src/PersistentStorage.cpp:527-536 | A file that lost its last byte is accepted if and only if that byte was zero, and then restores the saved data |
| Persistence.BackupListUnique | src/PersistentStorage.cpp:312-315 | With distinct modification times only one newest-first list of the backups exists |
| Persistence.CleanupKeepsNewest | src/PersistentStorage.cpp:320-327 | Deleting all but the first k of the list leaves exactly those k as the backup list |
| Persistence.KeptBackupsRestoreTheSame | src/PersistentStorage.cpp:281-327 | Clean-up does not change which file is the i-th newest backup nor its content, for i < k |
| Persistence.SaveWriteRestore | src/PersistentStorage.cpp:69-89 | Saving, then arbitrary writes to the data region, then restoring the same file gives back the saved bytes |
| Persistence.RestoreSurvivesCleanup | src/PersistentStorage.cpp:281-327 | With distinct times, restoring a kept backup has the same result and gives the same data before and after clean-up |
| Persistence.RestoreCleanupRestore | src/PersistentStorage.cpp:281-327 | The same on the storage object, with arbitrary writes to the data region in between |
| Persistence.PersistentStorage.SaveSnapshot | src/PersistentStorage.cpp:229-237 | Writes one file with header, checksum and data; on error no file changes |
| Persistence.PersistentStorage.ReadSnapshotFile | src/PersistentStorage.cpp:493-547 | Accepts exactly files with matching magic, version, counts and checksum; the pool changes only on acceptance |
| Persistence.PersistentStorage.GetBackupList | src/PersistentStorage.cpp:292-318 | Every file of the directory with such a name exactly once and no other, newest first |
| Persistence.PersistentStorage.RestoreFromBackup | src/PersistentStorage.cpp:281-290 | Restores from the given place of that list, or leaves the pool untouched |
| Persistence.PersistentStorage.Restore | src/PersistentStorage.cpp:69-89 | All or nothing: on OK the pool holds the accepted snapshot or else the accepted newest backup, on any error it is unchanged |
| Persistence.PersistentStorage.CleanupOldBackups | src/PersistentStorage.cpp:320-327 | Removes the backups after the first keepCount and no other file, none of them newer than a backup that stays |
| SoeRecorder.WindowIsLastRecords | src/SOERecorder.cpp:197-436 | After any run of record and clear the window is the last capacity - 1 records since the last clear, and total = dropped + readable + cleared |
| SoeRecorder.WindowRecordByRecord | src/SOERecorder.cpp:197-224 | The same record by record |
| SoeRecorder.RecordedMeans | src/SOERecorder.cpp:204-217 | A record is appended; a window of capacity - 1 records loses its oldest, which counts as dropped |
| SoeRecorder.FilterMeans | src/SOERecorder.cpp:300-336 | Filtering keeps exactly the matching records at their positions in increasing order |
| SoeRecorder.SelectionMeans | src/SOERecorder.cpp:300-357 | A query delivers the first maxCount records that pass each test of the condition, written out, from the oldest on or reversed |
| SoeRecorder.ReversedQueryIsLatest | src/SOERecorder.cpp:300-357 | For any filter, a reversed query returns the newest matches, newest first, when it may return all matches, and on pairwise different matches only then |
| SoeRecorder.QueryAgreesWithLatest | src/SOERecorder.cpp:282-382 | So a reversed match-all query agrees with the latest-records view when it may return the whole window, and on pairwise different records only then |
| SoeRecorder.LatestIndexExact | src/SOERecorder.cpp:375-375 | The 32-bit index of the i-th newest record is right if and only if its sum does not overflow |
| SoeRecorder.PushShows | src/SOERecorder.cpp:204-217 | Writing at the head appends to the circular window; a full ring loses its oldest record |
| SoeRecorder.SOERecorder.Record | src/SOERecorder.cpp:197-224 | The window becomes the last capacity - 1 of window and record; the 64-bit counters follow |
| SoeRecorder.SOERecorder.Clear | src/SOERecorder.cpp:425-436 | The window is empty and its records count as cleared |
| SoeRecorder.SOERecorder.Query | src/SOERecorder.cpp:282-357 | The first maxCount records of the window that pass every test, from the oldest on or reversed on request; the rest of the output is untouched |
| SoeRecorder.SOERecorder.Collect | src/SOERecorder.cpp:300-341 | The walk from tail to head finds the first matches, wherever the window wraps |
| SoeRecorder.SOERecorder.GetByTimeRange | src/SOERecorder.cpp:384-393 | The first maxCount records between the two times, all of them if the count stays below the limit, in order |
| SoeRecorder.SOERecorder.GetLatest | src/SOERecorder.cpp:359-382 | The i-th record is the i-th newest of the window, wherever it wraps, for min(count, load) records |
| SoeRecorder.SOERecorder.GetStats | src/SOERecorder.cpp:397-423 | The load is the number of readable records; totals are modulo 2^64 |
| DataSetStore.RemovalKeepsTilingIffOrdered | src/IEC61850Mapper.cpp:319-351 | From any tiling of the member array, removal of entry k leaves a tiling if and only if exactly the slices behind slice k have an index above k |
| DataSetStore.RemovalKeepsLists | src/IEC61850Mapper.cpp:319-371 | At an ordered entry every survivor keeps its member list, at its old index or, the last one, at k |
| DataSetStore.SurvivorsAfterRemoval | src/IEC61850Mapper.cpp:339-348 | Entry by entry: the last one is at k and every other survivor at its old index, those after k with their start lowered in 32 bits |
| DataSetStore.ListsAfterRemoval | src/IEC61850Mapper.cpp:319-371 | At an ordered entry the data set at k is the last one with its old members, and every other survivor is found at its old index with its old members |
| DataSetStore.CreationKeepsTiling | src/IEC61850Mapper.cpp:306-314 | A new data set extends the tiling |
| DataSetStore.SequentialIsSafe | src/IEC61850Mapper.cpp:319-351 | With slices in index order every removal is safe, and removing the last entry keeps that order |
| DataSetStore.LastOnlyRunsAreSafe | src/IEC61850Mapper.cpp:297-351 | Runs of creations and last-index removals are always safe, and so is any one removal after them |
| DataSetStore.SafeRunRefines | src/IEC61850Mapper.cpp:297-371 | Over any safe run the store shows what a plain list of entries with their own member lists would show |
| DataSetStore.PlainRemoval | src/IEC61850Mapper.cpp:344-348 | Removal from that plain list moves the last entry to k and leaves all others in place |
| DataSetStore.TwoRemovalsBreak | src/IEC61850Mapper.cpp:339-347 | Removing index 0 twice from three one-member data sets wraps a start index below zero |
| DataSetStore.DataSetStore.CreateDataSet | src/IEC61850Mapper.cpp:297-317 | The new entry is the last one and starts behind all members in use, the others stay; refusals change nothing; exactly the calls without room for the members go outside the array |
| DataSetStore.DataSetStore.RemoveDataSet | src/IEC61850Mapper.cpp:319-351 | From any store: the last entry moves to index, every other survivor stays, entries behind index have their start lowered, and the members close up if the slice lies inside; exactly the calls that meet `Overruns` go outside the array |
| DataSetStore.TiledNeverOverruns | src/IEC61850Mapper.cpp:333-335 | From a tiling that fits the array, no removal goes outside it |
| DataSetStore.OverrunsMeans | src/IEC61850Mapper.cpp:328-335 | A removal goes outside the array if and only if some turn of its loop reads or writes an index there |
| DataSetStore.DataSetStore.CloseGap | src/IEC61850Mapper.cpp:328-337 | The member array without the slice, the rest in order; untouched if the slice is not inside; the count is lowered in 32 bits |
| DataSetStore.DataSetStore.LowerStarts | src/IEC61850Mapper.cpp:339-342 | Exactly the entries after the removed one have their start lowered, in 32 bits |
| DataSetStore.DataSetStore.GetDataSet | src/IEC61850Mapper.cpp:353-371 | The entry and its slice of the whole member array; exactly a slice that leaves the array goes outside it |
| MapperReferences.ClassNameRoundTrip | include/IEC61850Mapper.h:497-552 | Parsing a printed class name gives back the class exactly for the 22 named classes and USER, and USER for all other codes |
| MapperReferences.PrintingParsesBack | include/IEC61850Mapper.h:497-552 | Printing a parsed name gives back the name unless it is unknown |
| MapperReferences.EnumeratorsPrintTheirNames | include/IEC61850Mapper.h:16-55 | Each of the 23 enumerators is printed by its own name, which parses back to it |
| MapperReferences.DecimalInjective | src/IEC61850Mapper.cpp:210-213 | Different numbers print differently |
| MapperReferences.DecimalMeans | src/IEC61850Mapper.cpp:210-213 | The place value of the decimal form of a number is the number |
| MapperReferences.ReferenceParts | src/IEC61850Mapper.cpp:210-213 | A reference is the prefix, four characters of class name, and digits whose place value is the instance |
| MapperReferences.LengthsTellApart | src/IEC61850Mapper.cpp:210-213 | References whose instance numbers have different lengths differ, in spite of LLN0 |
| MapperReferences.ReferenceInjective | src/IEC61850Mapper.cpp:210-213 | A printed reference determines prefix, class name and instance |
| MapperReferences.NeverTruncated | src/IEC61850Mapper.cpp:209-213 | The printed reference of a stored mapping always fits the buffer of 32 characters |
| MapperReferences.PrintedMeansNamed | src/IEC61850Mapper.cpp:207-220 | Comparing printed references is comparing all five components |
| MapperReferences.FirstPrintedIsFirstNamed | src/IEC61850Mapper.cpp:207-220 | In a table of stored mappings, the first match by printed reference is the first match by the five components, and no match means no match |
| MapperReferences.RemovalLosesOne | src/IEC61850Mapper.cpp:177-181 | Removal loses exactly the one entry and moves only the last |
| MapperReferences.MappingTable.AddDAMapping | src/IEC61850Mapper.cpp:136-150 | Appends the mapping with its cached index reset; a full table is unchanged |
| MapperReferences.MappingTable.RemoveDAMapping | src/IEC61850Mapper.cpp:168-184 | The table with the entry replaced by the last one |
| MapperReferences.MappingTable.FindMappingByRef | src/IEC61850Mapper.cpp:201-224 | The first mapping whose printed reference and names match, which for any printed reference is the first one with that prefix, class name, instance and names; none if there is none |
| HealthMonitor.Monitor.Start | src/DataPoolClient.cpp:607-624 | A running monitor is unchanged; otherwise all processes are UNKNOWN and nothing has been reported |
| HealthMonitor.Monitor.Pass | src/DataPoolClient.cpp:636-683 | Any pass keeps the chains of notifications, the cached states and the death reports exact |
| HealthMonitor.Monitor.CheckOne | src/DataPoolClient.cpp:644-671 | So does the check of one process |
| HealthMonitor.Monitor.NotificationsTellHealth | src/DataPoolClient.cpp:607-683 | At any time the notifications of each process are a chain of changes from UNKNOWN to the health last seen, none is about the client, and the deaths are those of `DeathsMeans` |
| HealthMonitor.ChainMeans | src/DataPoolClient.cpp:652-662 | The recursive chain end is defined exactly for chains in which each old health is the previous new one and differs from its own new one |
| HealthMonitor.NotesAreChains | src/DataPoolClient.cpp:652-662 | The notifications of any checks form those chains |
| HealthMonitor.SeenIsLast | src/DataPoolClient.cpp:651-657 | The health seen of a process is the one of its last check |
| HealthMonitor.DeathsMeans | src/DataPoolClient.cpp:664-670 | The deaths are, in order, exactly the checks that find a process dead that was not seen dead before, with information at hand |
| HealthMonitor.AboutMeans | src/DataPoolClient.cpp:659-662 | The notifications about a process are all those with its number, in order |

## Left out

- Several centers on one ring: `EventCenter.dfy` models one process; the slots and callbacks of other processes are not shown, though their publishes are `Publish` steps like any other.
- Torn copies: an event is stored and fetched in one step; a fetch in the middle of a store is not modelled.
- Weak memory order: loads, stores and swaps take effect in one global order.
- `IPCEventCenter.wait` and the blocking `wait` of the ring: a successful semaphore wait is a step in `RingSteps.dfy`; time-outs and interrupted waits are not modelled.
- sem_post failing at the maximum semaphore value, and totalEvents beyond 2^64: cannot be reached before the queue is full for good.
- `attach`, `destroy`, `shm_open`, `mmap` and object lifetimes: foreign calls; the mapped and initialised flags stand for them.
- What readers see after a swap into a full buffer: shown by a run (`StepWitnesses.LateSwapHidesEvents`), not characterised further.
- ReaderRaces.RunNeverMovesBackIff: asks that no reader is lapped where it compares or swaps; the indices of a lapped reader no longer tell its position.
- DataSetStore.DataSetStore.RemoveDataSet: what is in memory after an access outside the member array is undefined behaviour, and nothing is promised.
- EventCenter.IPCEventCenter.Process: callbacks may publish, but callbacks that subscribe, unsubscribe or process are not modelled; unsubscribing destroys the callback that is running.
- A process that connects to an existing mapper starts with its private member count at zero (src/IEC61850Mapper.cpp:116) and would overwrite members; only the creating process is modelled.
- Prefixes without a terminator, which would make the printed reference read on into the next field.
- Snapshot files shorter than their header, whose missing fields the source leaves indeterminate; failed writes after a successful open; restoring while other processes write.
- `maxRecords` of a query condition, which the source ignores; the load percentage, a floating-point display value.
- `initialize`, `restoreDefaults`, `SharedDataPool`, `VotingEngine` and the process table: their implementation is not part of this model.
- `createBackup`: a save under a generated file name.
- Logical nodes, report controls, quality codes, SCL, CSV and COMTRADE files, the libiec61850 adapters: only easy members.
