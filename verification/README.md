# Verified models of Cyber RT

This project models the hard logic of Cyber RT, the middleware of Apollo, and proves what that logic is for.
Every statement is about all inputs, all runs or all reachable states of the model.

| Files | Part of Cyber RT |
|---|---|
| `BoundedQueue`, `ObjectPool`, `AtomicHashMap`, `RWLock` | the lock-free containers and the reader/writer lock of `cyber/base` |
| `TimingWheel`, `PeriodicTimer`, `TimerOnWheel` | the two-level timing wheel and the drift-compensating timer of `cyber/timer`, and the one on the other |
| `RoutineWakeup`, `CacheBuffer`, `Fusion` | the way of a message from dispatch through the ring cache and the fusion buffer to a routine that sleeps and is woken |
| `RecordFormat`, `RecordReader`, `TimeMerge`, `WindowScan`, `Overtaking`, `HeaderGate`, `WindowMerge`, `RecordViewer` | reading recordings: the chunk-wise reader and the windowed merge of several files |
| `RecordFileWriter`, `RecordWriter`, `RecordRoundTrip` | writing recordings in chunks and segments, and the whole way from a writer to a viewer |
| `Rpc`, `IdRegistry`, `LeapSeconds`, `Framing` | requests and responses, name-to-id registries, leap seconds, message frames |
| `Common`, `Modular` | shared definitions and remainder arithmetic |

How the models are built:

- Concurrent code is a transition system on values. One action of one thread is one atomic access or one critical section, and a schedule is any sequence of actions of any threads. A run is `Execute(Init(...), schedule)`; main results hold for every schedule, by an invariant that every step keeps. Weak exchanges may fail at will, and memory is sequentially consistent.
- What a concurrent call was asked to do is read off the schedule: it is the argument of the thread's last start that took effect. The results on whole runs speak of these arguments and of what the calls return.
- Sequential code that changes state is a class whose methods carry the loops of the original. Their contracts tie the new state to the old one through specification functions, and the lemmas are about these functions.
- Counters of the lock-free containers, positions of the ring cache and sequence numbers are unbounded. Where 64- or 32-bit arithmetic decides a result (the timer's error, the end of a viewer window, the probing of ids, the comparison in the GPS conversion, the header fields) it is written out.
- Index masks over power-of-two sizes are written as remainders.

## Findings

Seven properties that one would expect are not quite true of the code. Each comes with an input on which it fails and with the exact condition under which it holds.

1. `BoundedQueue::Enqueue` may report a full queue that is empty, when its copy of `tail_` is stale. It is turned away if and only if the copy is current and the queue is full, or the copy is behind `head_` and its next position lies whole revolutions of the ring before `head_` (`BoundedQueue.EnqueueRejectedIff`). Every positive capacity has a run in which this happens on an empty queue (`BoundedQueue.StaleTailRejectsOnEmptyQueue`).
2. The viewer loses messages of a file that is out of order by more than a window: it shows all chosen messages of the asked range if and only if none of them is overtaken in its own file, cut off by the header times of all files, or in a window that does not meet the header of its file (`WindowMerge.MergeIsCompleteIff`). This answers the open question in `cyber/record/record_viewer_test.cc` at line 122 (`WindowMerge.ReverseOrderLosesMessages`).
3. `RecordFileWriter::Close` flushes the active chunk even when it is empty, which sets the end time of the file header to zero. The header of a closed file covers its messages if and only if the last message did not fill a chunk (`RecordFileWriter.SoundIffLastChunk`). A viewer of the whole recording shows exactly the messages of the other segments, and so all messages if and only if no segment ends with a full chunk (`RecordRoundTrip.RecordAndView`).
4. A routine that runs before its notify callback is registered can stay asleep over a message, also when the callback is registered right behind it (`RoutineWakeup.UnregisteredDispatchCanBeLost`). Until a dispatch finds the callback registered, a routine at rest reads the message in some continuation if and only if it is READY; in DATA_WAIT it sleeps on (`RoutineWakeup.UnregisteredIsReadIff`). For dispatches that find it registered no wake-up is lost (`RoutineWakeup.NoLostWakeup`).
5. `GpsToUnixSeconds` compares on 32 bits: Unix time survives the way to GPS and back exactly if it is below 2^31 or its low 32 bits pass the newest row of the table (`LeapSeconds.UnixRoundTrip`), and GPS time survives the way to Unix and back, up to inserted seconds, under the same condition on its Unix time by the newest row (`LeapSeconds.GpsRoundTrip`). From 2^31 on, for 68 years, the Unix time is zero (`LeapSeconds.After2038`).
6. `InitTimerTask` accepts periods whose timer asks for more than the wheel can hold when it makes up for an early start. With the period 65535 and short callbacks on a wheel without jitter, the fourth start comes two milliseconds after the third, a whole period early (`TimerOnWheel.LongestPeriodFiresEarly`). All durations that make up for starts at most 1 ms and E early fire on their own tick, from a position of the wheel, if and only if the longest of them, period plus 1 ms plus E, is less than 65 revolutions ahead of the start of the current one (`TimerOnWheel.MadeUpFiresExactlyIff`), and so from every position if and only if it is at most 65536 ms (`TimerOnWheel.FitsEverywhereIff`).
7. `BoundedQueue::Size` makes two loads, so it may report any number for a queue that is empty at both (`BoundedQueue.SizeMayBeAnything`). With `tail_` loaded first it is in the range of sizes if and only if no more elements were taken between the loads than were inside at the first (`BoundedQueue.SizeLoadsTailFirst`); with `head_` first if and only if no more were claimed than there was room for (`BoundedQueue.SizeLoadsHeadFirst`).

## Model

| member | source | states |
|---|---|---|
| `BoundedQueue.Fifo` | cyber/base/bounded_queue.h:108-168 | For any threads and any interleaving, the values handed out in the order of the exchanges on `head_` are the first of the elements that the callers passed, in the order of the exchanges on `tail_`, whole and once each, and at most `size` elements are inside |
| `BoundedQueue.StepRefinesQueue` | cyber/base/bounded_queue.h:108-168 | Every step is a step of an atomic queue of capacity `size`, read off the returns: an `Enqueue` that returns true appends what it was called with, a returning `Dequeue` takes the front, "empty" is reported only at a moment when no committed element is queued, and nothing else changes the queue |
| `BoundedQueue.ArgumentsAreKept` | cyber/base/bounded_queue.h:108-131 | A thread inside `Enqueue` holds the element of its last start that took effect, and the claimed elements are those that the claiming threads were called with |
| `BoundedQueue.CallsGetThrough` | cyber/base/bounded_queue.h:108-168 | From every reachable state: with room and nobody else inside, an undisturbed `Enqueue` returns true with its argument at the back; with an element queued an undisturbed `Dequeue` returns the front; on an empty queue it reports empty |
| `BoundedQueue.CountersInRange` | cyber/base/bounded_queue.h:94-106 | Always head < commit <= tail, between 0 and `size` claimed elements are inside, and the counters count what was taken and what was claimed |
| `BoundedQueue.SizeLoadsTailFirst` | cyber/base/bounded_queue.h:218-221 | `Size()` with `tail_` loaded first is what was inside at that load less what was taken until the other, so at most what was inside at either; it wraps to more than `size` if and only if more was taken than was inside |
| `BoundedQueue.SizeLoadsHeadFirst` | cyber/base/bounded_queue.h:218-221 | `Size()` with `head_` loaded first is what was inside at that load and what was claimed until the other, so at least what was inside at either; it exceeds `size` if and only if more was claimed than there was room for |
| `BoundedQueue.SizeMayBeAnything` | cyber/base/bounded_queue.h:218-221 | For every n there is a run in which a queue that is empty at both loads reports n, or 2^64 - n for the other order of the loads |
| `BoundedQueue.OneProducerPerPosition` | cyber/base/bounded_queue.h:118-126 | A position has a pending producer exactly if it is claimed and not committed, and then only one |
| `BoundedQueue.WriteKeepsInv` | cyber/base/bounded_queue.h:121 | Writing the slot of an owned position, torn or whole, disturbs no committed element and no other producer |
| `BoundedQueue.StepKeepsInv` | cyber/base/bounded_queue.h:108-168 | Every atomic step keeps the invariant of counters, slots, ownership and local variables |
| `BoundedQueue.EnqueueRejectedIff` | cyber/base/bounded_queue.h:112-120 | In every reachable state an `Enqueue` is turned away if and only if its copy of `tail_` is current and `size` elements are inside, or the copy is behind `head_` and its next position is whole revolutions before `head_` |
| `BoundedQueue.SpuriousIffStale` | cyber/base/bounded_queue.h:115-117 | While there is room, an `Enqueue` is turned away exactly because of such a stale copy |
| `BoundedQueue.FullTest` | cyber/base/bounded_queue.h:115 | What the comparison of ring indices means for every copy of `tail_` that a thread can hold |
| `BoundedQueue.StaleTailRejectsOnEmptyQueue` | cyber/base/bounded_queue.h:112-117 | For every positive capacity there is a schedule in which an `Enqueue` with a stale tail is turned away by an empty queue |
| `BoundedQueue.GetIndexIsRemainder` | cyber/base/bounded_queue.h:228-231 | The index computed by division and multiplication is the remainder |
| `ObjectPool.NodesConserved` | cyber/base/concurrent_object_pool.h:73-148 | The free list, walked by its pointers, has no cycle and no repetition, and free, held and returning nodes make up the arena, each node once |
| `ObjectPool.StepRefinesStack` | cyber/base/concurrent_object_pool.h:94-148 | Every step is a step of an atomic stack, read off the returns: a pop takes the true top for its caller alone and installs the true successor, a push puts on top the node that its caller gave up, null is returned only when nothing is free, and nothing else changes who has what |
| `ObjectPool.CallsGetThrough` | cyber/base/concurrent_object_pool.h:94-148 | From every reachable state an undisturbed get returns the top, or null if nothing is free, and an undisturbed release puts its node on top |
| `ObjectPool.PopKeepsInv` | cyber/base/concurrent_object_pool.h:101-106 | A successful pop keeps the list sound although `next` was read earlier, possibly from a node reused meanwhile |
| `ObjectPool.PushKeepsInv` | cyber/base/concurrent_object_pool.h:141-147 | A successful push keeps the list sound and ends the caller's ownership |
| `ObjectPool.WalkFollowsStack` | cyber/base/concurrent_object_pool.h:94-108 | Following `next` from the head meets exactly the free nodes in stack order |
| `AtomicHashMap.StepRefinesMap` | cyber/base/atomic_hash_map.h:46-79 | Every step of the whole table is a step of one abstract map, on the keys and values that the callers passed: a returning `Set` overwrites its key, a hit reports a present key and its value, a miss an absent key, and nothing else changes the map |
| `AtomicHashMap.ArgumentsAreKept` | cyber/base/atomic_hash_map.h:46-79 | In every run a thread works on the operation, key and value of its last start that took effect |
| `AtomicHashMap.ContentsAreOfCalls` | cyber/base/atomic_hash_map.h:46-79 | The table holds what the returned calls of `Set` have put there, in the order of their returns |
| `AtomicHashMap.GetReadsLastSet` | cyber/base/atomic_hash_map.h:50-79 | A `Get` that returns reports the value of the `Set` of its key that returned last |
| `AtomicHashMap.UndisturbedCallReturns` | cyber/base/atomic_hash_map.h:112-210 | From every reachable state an undisturbed call returns, after at most as many accesses as entries are linked and seven |
| `AtomicHashMap.KeysNeverVanish` | cyber/base/atomic_hash_map.h:147-188 | A key that is in the map stays in it over any continuation of any run |
| `AtomicHashMap.MissMeansAbsentAllAlong` | cyber/base/atomic_hash_map.h:112-145 | A lookup that misses implies that the key it was called with was absent at every earlier moment, so also when the lookup began |
| `AtomicHashMap.FoundKeyIsNeverLost` | cyber/base/atomic_hash_map.h:147-188 | An `Insert` that has found its key once never takes the path that builds an entry afterwards |
| `AtomicHashMap.BucketsAreSortedAndComplete` | cyber/base/atomic_hash_map.h:125-145 | Walking a bucket meets the keys of the map that belong to it, all of them, once each, in increasing order |
| `AtomicHashMap.GapIsEmpty` | cyber/base/atomic_hash_map.h:128-144 | A walk cannot step over a key, whatever is inserted meanwhile |
| `AtomicHashMap.LinkKeepsMemInv` | cyber/base/atomic_hash_map.h:171-184 | Linking a prepared entry adds exactly its key to the map and keeps every bucket sorted |
| `RWLock.NumbersAreExact` | cyber/base/atomic_rw_lock.h:62-114 | The lock number is -1 with exactly one writer and no reader, or the number of readers with no writer; the wait counter is the number of waiting writers |
| `RWLock.MutualExclusion` | cyber/base/rw_lock_guard.h:34-60 | A writer's guard excludes every other guard |
| `RWLock.NoLateReaders` | cyber/base/atomic_rw_lock.h:65-77 | With writers first, over any stretch in which a writer waits no reader gets in whose check was not behind it before |
| `RWLock.UndisturbedGetsIn` | cyber/base/atomic_rw_lock.h:62-110 | An undisturbed reader is in after three actions if no writer is inside and, with writers first, none waits; an undisturbed writer if nobody is inside |
| `RWLock.ReleaseLetsGo` | cyber/base/atomic_rw_lock.h:112-114 | A released guard leaves inside exactly who was inside but its thread |
| `TimingWheel.FiresExactlyOnce` | cyber/timer/timing_wheel.cc:46-142 | A live task added with 1 to 65536 ms fires exactly once, on exactly the ceil(d/2)-th index advance after it was added, whatever else is added, fired or expired |
| `TimingWheel.Drive` | cyber/timer/timing_wheel.cc:46-142 | Over any operations the wheel object and the set of timers that the theorems are about go the same way, in pending and dead tasks, clock and everything fired |
| `TimingWheel.Carry` | cyber/timer/timing_wheel.cc:46-142 | One operation of the wheel is one operation of the set of timers |
| `TimingWheel.FireTimeIsExact` | cyber/timer/timing_wheel.cc:73-106 | A duration is met exactly if and only if the computed place is less than 65 revolutions ahead of the start of the current one; every duration up to the maximal interval is |
| `TimingWheel.TooLongFiresEarly` | cyber/timer/timing_wheel.cc:82-99 | A longer duration fires early by a positive multiple of 64 revolutions |
| `TimingWheel.FireTimePlace` | cyber/timer/timing_wheel.cc:78-105 | The slot that `AddTask` computes, in either wheel, is the one from which the task comes up at its advance |
| `TimingWheel.WaitsThenFires` | cyber/timer/timing_wheel.cc:46-142 | A pending task waits until its advance and then fires once and leaves |
| `TimingWheel.TimingWheel.AddTask` | cyber/timer/timing_wheel.cc:73-106 | Adds one timer to the abstract set, due at `FireTime`, and keeps the wheel's invariant |
| `TimingWheel.TimingWheel.Tick` | cyber/timer/timing_wheel.cc:46-67 | Starts exactly the pending tasks whose advance is now, once each, and removes them |
| `TimingWheel.TimingWheel.Cascade` | cyber/timer/timing_wheel.cc:108-119 | Moves the live tasks of an assistant slot to their work slots and restores the invariant |
| `TimingWheel.TimingWheel.Turn` | cyber/timer/timing_wheel.cc:121-142 | One turn of the wheel fires what is due and advances by one |
| `TimingWheel.TimingWheel.Expire` | cyber/timer/timing_wheel.cc:52-53 | A task whose owner is gone is no longer pending and will not fire |
| `TimingWheel.TickKeepsOk` | cyber/timer/timing_wheel.cc:46-67 | Emptying the current slot leaves every other task in exactly one bucket from which it comes up in time |
| `TimingWheel.AdvanceKeepsOk` | cyber/timer/timing_wheel.cc:128-139 | An index advance keeps the invariant, up to the assistant slot that must cascade now |
| `TimingWheel.CascadeOneKeepsOk` | cyber/timer/timing_wheel.cc:112-118 | Moving one task of the cascading slot keeps the invariant of a cascade |
| `PeriodicTimer.ErrorTelescopes` | cyber/timer/timer.cc:92-101 | After any firings the accumulated error is the distance of the last start from the grid of the first, as a 64-bit number |
| `PeriodicTimer.DurationAtLeastResolution` | cyber/timer/timer.cc:102-117 | The next duration is at least 2 ms, and in the compensating branch it is interval minus execution time minus error without wrap-around |
| `PeriodicTimer.NextDurationRule` | cyber/timer/timer.cc:76-122 | After any firings the next duration is the period less the rounded callback time less the rounded drift, if the callback is shorter than the period and this is at least 2 ms, and exactly 2 ms otherwise |
| `PeriodicTimer.PlannedStartIsOnGrid` | cyber/timer/timer.cc:85-114 | In the compensating branch the planned next start is within 1 ms of the grid |
| `PeriodicTimer.DriftStaysBounded` | cyber/timer/timer.cc:76-124 | If every callback leaves room in the period for the resolution and for making up 1 ms and L, and the wheel fires at most E before and L after the planned time, every start is at most 1 ms and E before and 1 ms and L behind the grid, however many there were |
| `PeriodicTimer.ShortIsCompensated` | cyber/timer/timer.cc:102-114 | Such a callback that starts near the grid takes the compensating branch |
| `PeriodicTimer.ZeroStartIsForgotten` | cyber/timer/timer.cc:92-101 | After a start at clock zero, whatever came before, the later firings add their drift against a grid of their own; the step from the zero start is lost |
| `PeriodicTimer.ZerosAddNothing` | cyber/timer/timer.cc:92-94 | Starts at clock zero alone leave no error and no last start |
| `PeriodicTimer.TimerTask.Callback` | cyber/timer/timer.cc:82-122 | The callback changes the task's fields as `Fire` says |
| `PeriodicTimer.InitTimerTask` | cyber/timer/timer.cc:51-64 | Accepts exactly the periods from 1 ms to below the maximal interval |
| `TimerOnWheel.DriftOnWheelIsBounded` | cyber/timer/timer.cc:76-124 | A timer on a wheel whose ticks come every 2 ms, up to a jitter J late: with short callbacks and durations that the wheel can hold, no start is more than 3 ms and J before its place on the grid or more than 2 ms and 2 J behind it, however many there were |
| `TimerOnWheel.DrivenDriftIsBounded` | cyber/timer/timing_wheel.cc:69-142 | The same over any operations of the wheel among which the timer's own adds are, for periods whose longest duration is within the maximal interval |
| `TimerOnWheel.DrivenIsOnWheel` | cyber/timer/timing_wheel.cc:46-142 | Between two adds of the timer the wheel fires its task on the tick that the duration asks for, whatever else is added, fired or expired |
| `TimerOnWheel.TicksArePunctual` | cyber/timer/timing_wheel.cc:78-81 | Rounding up to whole ticks inside a tick makes a start at most 2 ms and J early and 1 ms and 2 J late |
| `TimerOnWheel.MadeUpFiresExactlyIff` | cyber/timer/timer.cc:111-114 | The durations that make up for starts at most 1 ms and E early all fire on exactly their tick if and only if the longest of them is less than 65 revolutions ahead of the start of the current one |
| `TimerOnWheel.FitsEverywhereIff` | cyber/timer/timer.cc:57-60 | From every position of the wheel if and only if period, 1 ms and E together are at most the maximal interval |
| `TimerOnWheel.LongestPeriodFiresEarly` | cyber/timer/timer.cc:57-60 | A run of the longest accepted period without jitter whose fourth start is a whole period early |
| `RoutineWakeup.NoLostWakeup` | cyber/croutine/routine_factory.h:55-74 | In no interleaving is the routine parked in DATA_WAIT with its flag used up while a message whose dispatch and notify have completed is unread |
| `RoutineWakeup.NextProcessorDelivers` | cyber/scheduler/policy/classic_context.cc:52-76 | If such a message is unread, the next processor that looks at the routine runs it, and on its sixth access the routine has fetched the message at its cursor, or the newest one at first and after an overrun |
| `RoutineWakeup.ResumesIff` | cyber/croutine/croutine.h:179-215 | From every reachable state in which no processor has the routine, the next one resumes it if and only if it is ready, its sleep is over, or it waits for data or IO and its update flag is clear; otherwise it lets go of it |
| `RoutineWakeup.NotifyClearsIff` | cyber/scheduler/policy/scheduler_classic.cc:164-186 | An undisturbed notify clears the update flag if and only if the routine waits for data or IO |
| `RoutineWakeup.OneProcessorAtATime` | cyber/croutine/croutine.h:202-208 | No two processors run or update the routine at once |
| `RoutineWakeup.UnregisteredDispatchCanBeLost` | cyber/scheduler/scheduler.cc:58-71 | A message dispatched before the callback is registered can stay unread with the routine parked, registered as the callback is by then |
| `RoutineWakeup.UnregisteredIsReadIff` | cyber/scheduler/scheduler.cc:58-71 | As long as no dispatch finds the callback registered, an unread message with the routine at rest is read in some continuation if and only if the routine is READY; in DATA_WAIT nothing that processors, dispatchers and the registration do wakes it |
| `RoutineWakeup.SleepsOn` | cyber/data/data_notifier.h:75-86 | A waiting routine whose flag is used up stays so over every run in which no dispatch finds the callback registered |
| `RoutineWakeup.StepKeepsInv` | cyber/croutine/croutine.h:127-215 | Every access of every processor and dispatcher keeps the invariant that an unread notified message has a clear flag, a pending clear or a fetch ahead of it |
| `CacheBuffer.Drive` | cyber/data/data_visitor.h:186-192 | Over any run of fills and fetches the visitor object and its ring go where the theorems' reader goes, and the caller receives exactly its deliveries |
| `CacheBuffer.FetchRule` | cyber/data/channel_buffer.h:57-77 | Over the events of any run: a fetch gets nothing with nothing filled since the last delivery; the value of the last fill, if it is the first to get anything or more than `size` values have come since; and the next value otherwise |
| `CacheBuffer.DeliveriesAreOrdered` | cyber/data/data_visitor.h:186-192 | Over any run of fills and fetches, deliveries go strictly forward in publication order and each is the value published at its position |
| `CacheBuffer.SkipMeansOverrun` | cyber/data/channel_buffer.h:68-74 | A skip happens only with more than `size` messages unread, and lands on the newest |
| `CacheBuffer.KeepingUpMissesNothing` | cyber/data/channel_buffer.h:57-77 | A reader that never falls further behind misses nothing after its first message |
| `CacheBuffer.FetchDeliversNext` | cyber/data/channel_buffer.h:57-77 | With at most `size` messages unread a fetch delivers exactly the next one |
| `CacheBuffer.PublishedGrows` | cyber/data/cache_buffer.h:68-81 | Published and delivered messages only grow |
| `CacheBuffer.CacheBuffer.Fill` | cyber/data/cache_buffer.h:68-81 | Appends to the published messages and keeps the newest `size` of them in the ring |
| `CacheBuffer.CacheBuffer.Fetch` | cyber/data/channel_buffer.h:57-77 | Reads the published value at the position that the cursor rules choose |
| `CacheBuffer.CacheBuffer.Latest` | cyber/data/channel_buffer.h:79-88 | Returns the newest published value, or false if there is none |
| `CacheBuffer.CacheBuffer.FetchMulti` | cyber/data/channel_buffer.h:90-105 | Returns the newest values in order, as many as asked for, published and kept |
| `CacheBuffer.DataVisitor.TryFetch` | cyber/data/data_visitor.h:186-192 | One fetch step of the specification |
| `Fusion.Drive` | cyber/data/fusion/all_latest.h:44-82 | Over any run of dispatches and fetches the visitor object and its rings go where the theorems' reader goes, and the caller receives exactly its tuples |
| `Fusion.FusedFetchRule` | cyber/data/fusion/all_latest.h:71-82 | Over the calls of any run: a fetch gets nothing with no trigger since the last delivery; the tuple of the last trigger, if it is the first to get anything or more than `size` triggers have come since; and that of the next trigger otherwise |
| `Fusion.FusionRefinesZipWithLatest` | cyber/data/fusion/all_latest.h:44-82 | Over every run, delivered tuples belong to channel-0 messages in arrival order, none twice, each paired with the latest message of every other channel at the moment it arrived |
| `Fusion.ZipLatestIsExact` | cyber/data/fusion/all_latest.h:55-68 | There is one tuple for each channel-0 message that arrives when every other channel has data, and none for the others |
| `Fusion.TuplesPairLatest` | cyber/data/fusion/all_latest.h:60-65 | The n-th tuple holds the n-th such message and the latest of the others |
| `Fusion.SourcesAreTriggers` | cyber/data/fusion/all_latest.h:60-63 | An arrival makes a tuple if and only if it is on channel 0 and every other channel had data before |
| `Fusion.ObservedIsBufferRun` | cyber/data/data_visitor.h:75-82 | Seen by the routine, a fusing visitor is a single-channel visitor fed with the tuples |
| `Fusion.MessagesOnLast` | cyber/data/cache_buffer.h:58 | The last message of a channel in the trace is its latest arrival |
| `Fusion.FusingVisitor.Dispatch` | cyber/data/data_dispatcher.h:79-96 | Extends the trace by one arrival and the fusion buffer by its contribution |
| `Fusion.FusingVisitor.FusionCallback` | cyber/data/fusion/all_latest.h:56-68 | Adds the tuple of the arrival if every other channel has data |
| `Fusion.FusingVisitor.TryFetch` | cyber/data/fusion/all_latest.h:71-82 | Takes the next tuple by the cursor rules |
| `RecordReader.RecordReader.ReadMessage` | cyber/record/record_reader.cc:78-113 | If the window meets the header times, delivers the next message not before the window when it is in the window, removes exactly it and what is before the window, and otherwise keeps everything from the window on; if not, delivers nothing and changes nothing |
| `RecordReader.RecordReader.ReadNextChunk` | cyber/record/record_reader.cc:115-175 | Loads the next chunk that may matter, skips only chunks that end before the window and stops only when nothing of the window comes next |
| `RecordReader.RecordReader.ReadFromChunk` | cyber/record/record_reader.cc:88-103 | The part of a read that is served from the current chunk |
| `RecordReader.RecordReader.Reset` | cyber/record/record_reader.cc:63-68 | Everything of the file is ahead again |
| `HeaderGate.CoveredIsShown` | cyber/record/record_reader.cc:84-86 | A header that covers its messages makes the early return drop none that the windows see |
| `HeaderGate.ShownByWindow` | cyber/record/record_viewer.cc:141-172 | What a file shows under any header is what the first window takes, if it meets the header, and then what the others take from what it leaves |
| `HeaderGate.ShownOfRange` | cyber/record/record_viewer.cc:140-176 | What a file shows is part of its range, and all of the chosen part exactly if nothing chosen is overtaken or in a window that does not meet the header |
| `HeaderGate.CutOfRange` | cyber/record/record_viewer.cc:112-138 | Cutting the range loses nothing chosen exactly if none lies outside |
| `RecordReader.PassHeader` | cyber/record/record_reader.cc:138-152 | A chunk header decides rightly whether its body is skipped or lies behind the window |
| `RecordViewer.IterateTwice` | cyber/record/record_viewer.cc:60-204 | For readers of files with any header times: both iterations hand out the same merge in time order; it is all chosen messages of the asked range exactly if none is cut off, overtaken or shut out; with ordered, covered files it is the stable sort of the range; with a channel set it is what is on these channels of what it is without |
| `RecordViewer.RecordViewer.Iterate` | cyber/record/record_viewer.cc:178-206 | An iteration hands out the merge of the files whatever state earlier ones left; on a channel set, exactly what is on these channels of what it hands out without |
| `RecordViewer.RecordViewer.FillBuffer` | cyber/record/record_viewer.cc:140-176 | Changes nothing of what is still to come, and leaves an empty buffer only when nothing is |
| `RecordViewer.RecordViewer.Update` | cyber/record/record_viewer.cc:60-75 | Hands out the first chosen message of what is to come, or reports that there is none |
| `RecordViewer.RecordViewer.ReadWindow` | cyber/record/record_viewer.cc:156-172 | Puts into the buffer exactly what the window takes from the readers, in reader order |
| `RecordViewer.RecordViewer.FinishReaders` | cyber/record/record_viewer.cc:148-154 | Finishing a reader drops nothing that a later window would take |
| `RecordViewer.RecordViewer.Reset` | cyber/record/record_viewer.cc:103-110 | All files are ahead again and the buffer is empty |
| `RecordViewer.RecordViewer.constructor` | cyber/record/record_viewer.cc:81-138 | The readers are the given ones sorted by header times, and the range is cut to what valid files cover |
| `RecordViewer.CutKeepsRange` | cyber/record/record_viewer.cc:112-138 | If the headers cover the files, cutting the range loses no message of it |
| `RecordViewer.CutRule` | cyber/record/record_viewer.cc:112-138 | The begin of the range is the later of the asked one and the least begin time of a valid file, the end the earlier of the asked one and the greatest end time |
| `RecordViewer.SortReaders` | cyber/record/record_viewer.cc:91-100 | A permutation in header order |
| `RecordViewer.DrainReader` | cyber/record/record_viewer.cc:160-168 | Inserts exactly what the window takes from one reader, and leaves the later windows what the scan leaves them |
| `WindowMerge.MergeIsCompleteIff` | cyber/record/record_viewer.cc:112-176 | The output holds all chosen messages of the asked range if and only if no file has one of them cut off, overtaken or shut out by its header |
| `WindowMerge.MergeIsSorted` | cyber/record/record_viewer.cc:66-71 | The output is in time order and holds each chosen visible message as often as the files do |
| `WindowMerge.MergeOfChannels` | cyber/record/record_viewer.cc:60-79 | What is handed out is on one of the channels, unless the set is empty, and each message that may be is handed out as often as without a channel set, that is as often as the files show it |
| `WindowMerge.MergeOfChronologicalFiles` | cyber/record/record_viewer.cc:140-176 | With chronological files under headers that cover them the output is the stable sort of the filtered range, for every window step |
| `WindowMerge.SortByWindow` | cyber/record/record_viewer.cc:156-172 | Sorting one window after the other is sorting everything |
| `WindowMerge.ReverseOrderLosesMessages` | cyber/record/record_viewer_test.cc:118-150 | Two messages in reverse order, more than a window apart: only the later one is shown |
| `WindowScan.VisibleByWindow` | cyber/record/record_viewer.cc:141-172 | What all windows take from a file is what the first takes and then the others from what it leaves |
| `Overtaking.VisibleIsKept` | cyber/record/record_reader.cc:88-103 | The windows see exactly the messages of the range that no earlier message of the file overtakes |
| `Overtaking.ChronologicalIsVisible` | cyber/record/record_viewer.cc:140-176 | Of a chronological file the windows see the whole range |
| `Overtaking.KeptOfRange` | cyber/record/record_viewer.cc:140-176 | What is kept of a file is part of its range, and all of the chosen part exactly if nothing chosen is overtaken |
| `TimeMerge.SortIsSorted` | cyber/record/record_viewer.cc:167 | Inserting by time sorts and keeps every message |
| `TimeMerge.SortSplits` | cyber/record/record_viewer.cc:167 | The stable sort is that of the early messages followed by that of the late ones |
| `RecordFileWriter.SoundIffLastChunk` | cyber/record/file/record_file_writer.cc:59-87 | For ordered positive times, the closed file's header covers its messages if and only if the active chunk held one at `Close`, or there were none |
| `RecordFileWriter.ClosedBounds` | cyber/record/file/record_file_writer.cc:163-168 | The header times of the closed file: those of the first and last message, or an end of zero |
| `RecordFileWriter.RecordFileWriter.WriteMessage` | cyber/record/file/record_file_writer.cc:180-217 | Appends the message, in the active chunk or flushed, and keeps layout, chunk header and channel order right |
| `RecordFileWriter.RecordFileWriter.Close` | cyber/record/file/record_file_writer.cc:59-87 | The closed file holds all messages in order, every known channel announced first, with a header that is right exactly under the condition above |
| `RecordFileWriter.RecordFileWriter.WriteChannel` | cyber/record/file/record_file_writer.cc:120-138 | Adds the channel section and changes no message |
| `RecordFileWriter.FlushKeepsLaid` | cyber/record/file/record_file_writer.cc:140-177 | A flushed chunk that is not empty keeps the file well formed and its header true |
| `RecordFileWriter.BoundsHold` | cyber/record/file/record_file_writer.h:53-68 | The chunk header's times bound its messages and are the times of some of them, for positive times |
| `RecordFileWriter.FlushRule` | cyber/record/file/record_file_writer.cc:180-217 | For positive times in order a chunk is flushed with exactly the message that brings its total size, or the time since its first message, over a limit |
| `RecordFileWriter.AddDescribes` | cyber/record/file/record_file_writer.h:53-68 | `Chunk::add` keeps the chunk header true |
| `RecordWriter.RecordWriter.WriteMessage` | cyber/record/record_writer.cc:130-162 | Appends the message to what is written, counts it on its channel if that is registered and on no other, and splits exactly when the segment exceeds a limit |
| `RecordWriter.RecordWriter.WriteChannel` | cyber/record/record_writer.cc:109-128 | A new channel is registered and announced with its type and description; a duplicate changes nothing |
| `RecordWriter.RecordWriter.SplitOutfile` | cyber/record/record_writer.cc:73-107 | The next file announces every registered channel, with its type and description, before any message |
| `RecordWriter.RecordWriter.Close` | cyber/record/record_writer.cc:66-71 | The files are the segments of everything written, in order; each announces registered channels before their messages; all but the last were split right behind the message that exceeded a limit |
| `RecordWriter.Record` | cyber/record/record_writer.cc:109-162 | Over any calls of a new writer: it has written their messages, its channels are the registered ones, and the number of each is how many of its messages were written since it was registered |
| `RecordWriter.SplitRule` | cyber/record/record_writer.cc:138-160 | For positive times in order a file is split behind exactly the message that brings its total size, or the time since its first message, over a limit |
| `RecordWriter.FilesAreSegments` | cyber/record/record_writer.cc:130-162 | Files split right behind the exceeding message are the segments that the messages and limits determine |
| `RecordWriter.SegmentsAreUnique` | cyber/record/record_writer.cc:138-160 | Full segments and one within the limits are the only way to split what they hold |
| `RecordWriter.LimitsHold` | cyber/record/record_writer.cc:146-150 | A segment without its last message is within the size and the interval limit |
| `RecordRoundTrip.RecordAndView` | cyber/record/record_writer.cc:130-162 | Writing ordered messages, closing and viewing gives back, in time order, exactly the messages of the segments whose last message did not fill a chunk; so all of them if and only if every segment of the messages is such |
| `RecordRoundTrip.ViewSegments` | cyber/record/record_viewer.cc:60-187 | A viewer of all segments of a recording, emptied ones among them, shows exactly the messages of the segments whose last chunk holds one |
| `RecordRoundTrip.HeldIsAllIff` | cyber/record/file/record_file_writer.cc:59-87 | Nothing is missing from these messages exactly if every last chunk holds one |
| `RecordRoundTrip.SegmentSoundIff` | cyber/record/file/record_file_writer.cc:59-87 | The header of a segment covers its messages if and only if its last message did not fill a chunk; otherwise the header begins at the first message and ends at zero |
| `RecordRoundTrip.EmptiedSegmentIsNotViewed` | cyber/record/record_reader.cc:84-86 | Among any other files, a segment whose header begins at its first message and ends at zero shows nothing, unless the first window begins at zero and reaches its first message, and then what lies in that window |
| `RecordRoundTrip.HeldSegmentIsViewed` | cyber/record/record_reader.cc:84-86 | Any other segment is shown whole, if the range does not cut it |
| `RecordRoundTrip.LargeMessageEmptiesChunk` | cyber/record/file/record_file_writer.cc:197-214 | One message larger than a chunk is enough for that |
| `Rpc.PromisesAreKept` | cyber/service/client.h:290-310 | In every run each promise gets at most one value, and every value is what the service's callback answered to the very request its promise was made for, with the content that the caller passed |
| `Rpc.CallsAreOfCallers` | cyber/service/client.h:262-284 | Every transmitted request carries its caller's id and what the caller passed |
| `Rpc.ComputedIsAnswered` | cyber/service/service.h:195-239 | What counts as computed for a request is what the callback answered while the service worked on it |
| `Rpc.ServedInOrder` | cyber/service/service.h:137-165 | The service takes up requests in the order in which they reached it, each delivery once |
| `Rpc.UndisturbedCallIsAnswered` | cyber/service/client.h:262-310 | A call whose messages are not held up, on a service without other work, gets its answer |
| `Rpc.FirstResponseFulfils` | cyber/service/client.h:266-283 | The first response handled by the right client fulfils the pending promise; a later one, or one for another client, changes nothing |
| `Rpc.RequestsAreDistinct` | cyber/service/client.h:271-273 | Writer id and sequence number tell all requests apart |
| `Rpc.StepKeepsInv` | cyber/service/service.h:137-239 | Every step of clients, network and service keeps the invariant that each call is being made, pending or fulfilled, and only one of these |
| `Rpc.AcceptedIsAnswered` | cyber/service/client.h:296-303 | The promise found under a response's number is the one whose request was answered |
| `IdRegistry.RegisterAll` | cyber/common/global_data.cc:168-258 | Over any registrations under any hash function, equal names get equal ids, distinct names distinct ids, and every id looks up its name in the end |
| `IdRegistry.Registry.Register` | cyber/common/global_data.cc:168-181 | Probing ends while ids remain; a known name keeps its id, a new one gets the first free id behind its hash, so the hash itself if that is free; nothing else changes |
| `IdRegistry.Registry.GetById` | cyber/common/global_data.cc:183-189 | The registered name, or the empty string |
| `IdRegistry.ProbingEnds` | cyber/common/global_data.cc:170-178 | Not all candidates can be taken by other names while an id is free or the name is registered |
| `IdRegistry.RegisterKeepsProbed` | cyber/common/global_data.cc:179 | Registering keeps every name at its first candidate that no other name has |
| `LeapSeconds.UnixRoundTrip` | cyber/common/time_conversion.h:64-93 | Unix to GPS to Unix is the identity from the oldest row on, exactly for times below 2^31 or whose low 32 bits pass the newest row |
| `LeapSeconds.After2038` | cyber/common/time_conversion.h:88 | From 2^31 up to 2^32 the way back gives zero, for tables of fewer rows than the epochs are seconds apart |
| `LeapSeconds.UnixToGpsIncreases` | cyber/common/time_conversion.h:64-72 | Later Unix times have later GPS times |
| `LeapSeconds.GpsRoundTrip` | cyber/common/time_conversion.h:84-93 | From the oldest row on, GPS to Unix to GPS is the identity, except at an inserted second, which comes back as the next one, exactly for times whose Unix time by the newest row is below 2^31 or passes that row in its low 32 bits |
| `LeapSeconds.UnixFractionsRoundTrip` | cyber/common/time_conversion.h:74-103 | The Unix round trip for micro- and nanoseconds, with the same exact condition on their seconds |
| `LeapSeconds.ShippedRoundTrips` | cyber/common/time_conversion.h:47-103 | With the shipped table, micro- and nanoseconds from 2006 to 2038 survive |
| `LeapSeconds.GpsFractionsRoundTrip` | cyber/common/time_conversion.h:74-103 | The GPS round trip for micro- and nanoseconds, with the same exact condition on their seconds |
| `LeapSeconds.UnixToGpsFractionsIncreases` | cyber/common/time_conversion.h:74-82 | Micro- and nanoseconds run on as well |
| `LeapSeconds.ShippedTableIsOk` | cyber/common/time_conversion.h:47-58 | The shipped table meets what the theorems ask of a table |
| `LeapSeconds.LeapSecondsOfTable` | cyber/common/time_conversion.h:38-58 | The example in the comment, and the leap seconds of June 2012, June 2015 and 2016 |
| `LeapSeconds.BeforeTable` | cyber/common/time_conversion.h:64-93 | Times before the oldest row give zero both ways |
| `LeapSeconds.TruncRule` | cyber/common/time_conversion.h:74-103 | Fractions keep the sign of the time |
| `Framing.RoundTrip64` | cyber/message/message_header.h:102-120 | 64-bit values and their eight bytes determine each other |
| `Framing.RoundTrip32` | cyber/message/message_header.h:97-114 | 32-bit values and their four bytes determine each other |
| `Framing.BytesOf64` | cyber/message/message_header.h:102-108 | The bytes of a 64-bit field are its digits to the base 256, the most significant one first |
| `Framing.BytesOf32` | cyber/message/message_header.h:97-100 | The same for 32 bits |
| `Framing.HeaderKeepsValues` | cyber/message/message_header.h:52-93 | All header values survive being set one after the other, and the magic number stays |
| `Framing.HeaderLayout` | cyber/message/message_header.h:122-130 | Sequence number, time stamp, source id, destination id and content size stand at bytes 8, 16, 24, 32 and 188 of the header |
| `Framing.TypeRoundTrip` | cyber/message/message_header.h:74-85 | The type field holds the name cut to 128 bytes and zeros behind it, an empty name changes nothing; the name reads back exactly if it is shorter than 129 bytes and holds no zero |
| `Framing.SetMsgType` | cyber/message/message_header.h:75-85 | Sets the type field and no other |
| `Framing.Convert64ToArray` | cyber/message/message_header.h:102-108 | Writes the eight bytes in place and no other |
| `Framing.FrameRoundTrip` | cyber/message/message_traits.h:168-179 | A frame gives its content back, whatever follows it, exactly if the content is not empty; a cut frame gives nothing |
| `Framing.SerializeToHC` | cyber/message/message_traits.h:211-227 | Writes the frame if it fits, only the header otherwise, and nothing for a content whose size is negative as an int |
| `Framing.ParseFromHC` | cyber/message/message_traits.h:168-179 | Parses exactly what `Parse` does |
| `Framing.SendAndReceive` | cyber/message/message_traits.h:168-227 | Serialising into a buffer that is large enough and parsing it gives the content back |

## Left out

- Memory reclamation of the lock-free containers: entries, values and nodes are never freed, and `UnboundedQueue` is not modelled.
- C++ memory orders, context switching, condition variables and thread affinity: memory is sequentially consistent.
- The blocking variants of the queue (`WaitEnqueue`, `WaitDequeue`) and the wait strategies.
- The concurrent containers and the wake-up path as objects updated in place: they are transition systems on values, because any number of threads interleave inside one operation.
- `ReentrantRWLock`: its owner field is plain and is cleared after the count is released.
- Interleavings inside `AddTask`, and between an index advance and its cascade: each is one step of the wheel. A task is added only while it is not in the wheel.
- TimingWheel.TimingWheel.AddTask: takes the current work index as both of the indices that the original reads, since one call is one step.
- `Timer` start and stop, one-shot timers and the thread that turns the wheel.
- PeriodicTimer.DriftStaysBounded: takes how early and late the wheel fires as bounds; TimerOnWheel derives them from the wheel, up to a bound on the jitter of its ticks and callbacks, because thread scheduling and clock jumps are not modelled. `llround` is exact rounding, half away from zero.
- The choreography scheduler and the task pool: the wake-up model follows the classic policy, for one routine with one channel.
- Fusion.FusionRefinesZipWithLatest: a dispatch is one step; the number of channels is any, where the original has up to four.
- Offsets, sizes on disk and serialisation of record files: a position is the number of a section, and file operations succeed.
- The flush task runs at once. In the original it runs on another thread and may come behind later channel sections, which keeps the order of messages and of a channel's section before its messages.
- RecordViewer.IterateTwice: asks for distinct reader objects and end times more than one window below 2^64; chunk headers must bound their chunks, file headers may say anything.
- RecordRoundTrip.RecordAndView: promises the order of times only, since the order of messages with equal times in different segments depends on how the readers are sorted; a range asked from zero must have no message in the first second, for which RecordRoundTrip.EmptiedSegmentIsNotViewed says what is shown.
- `RecordWriter` options, file names and the failure paths of file operations.
- Service discovery, timeouts of `SendRequest`, callbacks of the client and several services on one channel; a client's sequence numbers do not wrap.
- Concurrent registration of names that collide: registrations come one at a time.
- LeapSeconds.UnixRoundTrip: 64-bit overflow of the seconds is out of range of the model; the unsigned overloads agree with the signed ones on the values modelled.
- Framing for protobuf messages: only raw messages are modelled, whose serialisation is the content itself.
- Framing.SerializeToHC: contents of 2^32 bytes and more, whose size wraps to a smaller int, are out of range of the model.
- Transport, topology, logging, configuration, class loading, Python wrappers, `Blocker`, `Signal` and `Parameter`: foreign libraries, I/O, or easy members.
