# Cyber RT: verified models of timers, lock-free structures, data path, record merge and service protocol

This project models the parts of Cyber RT whose correctness is not visible in any single function, and
proves what they promise. Each module is one component:

- `TimerTable`, `TimingWheel`, `PeriodicTimer`, `Rate`, `WallClock`: the two-level timing wheel against a
  plain table from task to due tick, the periodic callback that steers against drift, the pacing of the
  ticks, and the three together in wall-clock time.
- `BoundedQueue`, `ObjectPool`, `HashMapBucket`, `RwLock`: the lock-free structures as step systems of any
  number of threads.
- `DataPath`, `Fusion`, `Wakeup`: the overwriting ring with absolute positions, the reader's cursor, the
  fusion of channels, and the wakeup of a waiting routine.
- `RecordReader`, `RecordViewer`: iterating several record files in one-second windows against a stable
  merge of all messages.
- `RequestResponse`: client and service over a network that loses, repeats and reorders.
- `Registry`: names to 64-bit ids by hashing and linear probing.
- `Modular`, `Helpers`: the remainder facts the rings share, and what several modules need.

Code that updates fields in place is a class whose methods are proved against a function of its abstract
state. Code that several threads run at once is a function `Step` from a state, a thread and a choice of
the schedule to the next state; the theorems then quantify over every schedule. For each such system
there are three kinds of result: an invariant of every step, the law of calls (a call begins with its
arguments, answers only what such a call can, and nothing else moves), and progress (a thread that runs
alone answers after a bounded number of steps, however its weak compare-and-swaps fail).

`dafny verify dfyconfig.toml` checks everything.

## Steps and assumptions

- Memory is sequentially consistent. One step is one atomic load, store or compare-and-swap. A weak
  compare-and-swap may fail spuriously. Counters in the lock-free structures are unbounded.
- Timing wheel: `AddTask` is one step, and so is each critical section of the tick loop (Tick; advance of
  the work index; advance of the assistant index; Cascade). Adds may fall between any two of them. This is
  finer than taking the index advance and the cascade together, and at this grain the promise is not
  always kept: `OnTime` is the exact condition, by phase. Between wraps every delay of 1 to 32768 ticks is
  kept. An add between the wrap of the work index and the advance of the assistant index is kept only
  below 512 ticks, and otherwise fires one revolution (512 ticks) early.
- Data path and wakeup: a call under a mutex is one step, and the dispatch of one message to one reader is
  one step. A routine's state, flag, lock and buffer are separate steps.
- Record files: a file is the sequence of its sections, all readable. Messages are in time order and
  headers bound their contents.
- Registry: registrations run one at a time, since Has, Get and Set are separate calls.
- Request/response: each call under the client's or the service's mutex is one step. Writer ids of
  clients are distinct. What the user's callback answers is a parameter.
- Clocks are parameters. `ceil` and `llround` are exact, on integers.

## Where the code and its promise part

- A queue can answer "full" on an empty queue, when the tail it compares is stale:
  `BoundedQueue.StaleTailRejectsOnEmptyQueue` is such a schedule. `BoundedQueue.RejectionIsRightExactly`
  says when a rejection is right: exactly when the stale tail is in the slot of the tail, that is unmoved
  or a whole number of laps behind.
- Without write-first mode a waiting writer can be overtaken any number of times:
  `RwLock.UnboundedOvertaking`. With it, at most once per thread.
- A record window whose additions wrap at 2^64 sends the viewer back to an earlier time:
  `RecordViewer.LastTimeStartsOver`. The windows of a range all advance exactly when the range leaves room
  for the last one (`RecordViewer.RangeFitsExactly`); then the range ends and the viewer is right
  (`RecordViewer.ViewRecords`). That is one way. With a range that ends at the last time
  `FillBuffer` only ever stops with a full buffer and so never answers that nothing is left
  (`RecordViewer.LastTimeIsNeverUsedUp`). A range that ends within a second of the last time can still come
  out right on a later pass, depending on how the files are cut into chunks.
- A re-added duration is not checked against the wheel. It is on time at every position between wraps
  exactly when it is at most 65536 ms (`PeriodicTimer.ReaddIsOnTimeExactly`);
  `PeriodicTimer.LongReaddFiresAtOnce` is an accepted period whose second add fires one tick later.
- An add between the wrap of the work index and the advance of the assistant index can fire a revolution
  early; `TimerTable.OnTimeExactly` has the condition for every phase.
- Deadlines of the rate are a cycle apart exactly when the clock has not gone backwards
  (`Rate.DeadlinesApart`).

## Model

| member | source | states |
|---|---|---|
| TimerTable.Ticks | code/cyber/timer/timing_wheel.cc:78-81 | a duration becomes the least number of 2 ms ticks that covers it |
| TimerTable.DuePosition | code/cyber/timer/timing_wheel.cc:69-106 | no add is filed for a position whose Tick has already happened, in any phase |
| TimerTable.OnTimeExactly | code/cyber/timer/timing_wheel.cc:73-106 | for every position, phase and delay: due after exactly the delay if and only if OnTime; an add between wrap and assistant advance of 512 ticks or more is one revolution early |
| TimerTable.OnTimeBetweenWraps | code/cyber/timer/timing_wheel.h:36-40 | outside the wrap, each delay of 1 to 512*64 ticks is kept at every position |
| TimerTable.ShortDelaysAreOnTime | code/cyber/timer/timing_wheel.cc:73-106 | delays of 1 to 511 ticks are kept in every phase, wraps included |
| TimerTable.StepKeepsSound | code/cyber/timer/timing_wheel.cc:46-142 | no turn ever leaves a live task due in the past |
| TimerTable.FiresOnceWhenDue | code/cyber/timer/timing_wheel.cc:121-142 | over any run, a pending task fires exactly once, at its due tick, as soon as that tick has happened |
| TimerTable.NoFirings | code/cyber/timer/timing_wheel.cc:46-67 | a task that is not pending and not added never fires |
| TimerTable.ExpiredNeverFires | code/cyber/timer/timing_wheel.cc:52-53 | a task whose last owner is gone never fires again, over any legal run |
| TimerTable.DroppedTaskFiresOnlyBefore | code/cyber/timer/timing_wheel.cc:46-67 | a task dropped at some turn of a run fires only before that turn |
| TimerTable.PassedStays | code/cyber/timer/timing_wheel.cc:121-142 | a tick that has happened stays in the past over any run |
| TimerTable.AddedTaskFires | code/cyber/timer/timing_wheel.cc:69-142 | a task added for k ticks and kept alive fires once, k ticks on if and only if the add is on time |
| TimingWheel.TimingWheel.constructor | code/cyber/timer/timing_wheel.h:75-82 | the wheels start empty at position 0 |
| TimingWheel.TimingWheel.PushWork | code/cyber/timer/timing_wheel.cc:86-88 | filing in the work slot of its due position is adding to the table |
| TimingWheel.TimingWheel.PushAssistant | code/cyber/timer/timing_wheel.cc:91-97 | filing in the assistant slot of its due revolution is adding to the table |
| TimingWheel.TimingWheel.AddPastWrap | code/cyber/timer/timing_wheel.cc:82-100 | the choice between the wheels past the end of the work wheel gives the table's due position |
| TimingWheel.TimingWheel.AddTask | code/cyber/timer/timing_wheel.cc:69-106 | whichever wheel the task goes to, the effect is one entry of the table, with every invariant of the wheels kept |
| TimingWheel.TimingWheel.ExpireTask | code/cyber/timer/timing_wheel.cc:52-53 | a task whose last owner is gone is pending no more, although its pointer stays in a bucket; every other task keeps its due position |
| TimingWheel.TimingWheel.Tick | code/cyber/timer/timing_wheel.cc:46-67 | hands out exactly the tasks due now, each once, and no task stays behind |
| TimingWheel.TimingWheel.AdvanceWorkWheel | code/cyber/timer/timing_wheel.cc:128-132 | the advance keeps every task within reach of its wheel |
| TimingWheel.TimingWheel.AdvanceAssistantWheel | code/cyber/timer/timing_wheel.cc:133-138 | the advance keeps every task within reach of its wheel |
| TimingWheel.TimingWheel.Cascade | code/cyber/timer/timing_wheel.cc:108-119 | moves a whole assistant slot without changing any due tick |
| TimingWheel.TimingWheel.TakeTurn | code/cyber/timer/timing_wheel.cc:121-142 | a section of the loop or a call of another thread is one step of the table |
| TimingWheel.TimingWheel.TickFunc | code/cyber/timer/timing_wheel.cc:121-142 | for every interleaving of adds, expiries and loop sections, what each task gets is what the table says, tick by tick |
| TimingWheel.TimingWheel.AddThenRun | code/cyber/timer/timing_wheel.cc:69-142 | a task added to the wheels and kept alive is handed out exactly once, at the tick asked for if and only if OnTime, with the state in which the run ends |
| TimingWheel.NearIsInReach | code/cyber/timer/timing_wheel.cc:84-104 | the work slot chosen is that of the due position, less than a lap ahead |
| TimingWheel.FarIsInReach | code/cyber/timer/timing_wheel.cc:88-97 | the assistant slot chosen is that of the due revolution, at most 64 ahead |
| TimingWheel.CascadedIsNear | code/cyber/timer/timing_wheel.cc:108-119 | a task in the slot being cascaded is due within one revolution |
| TimingWheel.MoveToWork | code/cyber/timer/timing_wheel.cc:108-119 | moving a bucket's first task keeps every pending task filed exactly once |
| PeriodicTimer.RoundToMs | code/cyber/timer/timer.cc:86-91 | to the nearest millisecond, halves away from zero |
| PeriodicTimer.NextDuration | code/cyber/timer/timer.cc:102-117 | the next duration is at least the resolution in every branch |
| PeriodicTimer.OverrunFiresNextTick | code/cyber/timer/timer.cc:102-117 | an overrun, or an error too large to make up, has the next firing one tick on; otherwise all of the error is made up |
| PeriodicTimer.TimerTask.Execute | code/cyber/timer/timer.cc:76-124 | the error field is the accumulated error of all starts so far, and the next duration follows from it |
| PeriodicTimer.PeriodAcceptedExactly | code/cyber/timer/timer.cc:51-60 | accepted if and only if positive and, even a millisecond longer, on time at every position when first added |
| PeriodicTimer.AcceptedPeriodIsOnTime | code/cyber/timer/timer.cc:51-64 | the first add of every period that is not refused is on time on the wheel between wraps |
| PeriodicTimer.ReaddIsOnTimeExactly | code/cyber/timer/timer.cc:102-123 | what the callback adds again is on time at every position between wraps if and only if a compensated duration is at most 65536 ms |
| PeriodicTimer.LongReaddFiresAtOnce | code/cyber/timer/timer.cc:51-123 | an accepted period and an error whose re-add is not |
| PeriodicTimer.ErrorTelescopes | code/cyber/timer/timer.cc:92-101 | the error is last start minus first start minus the elapsed intervals |
| PeriodicTimer.AimsAtTheGrid | code/cyber/timer/timer.cc:102-117 | in the compensated branch the next firing is aimed within 1 ms of the n-th interval after the first start, for any n |
| PeriodicTimer.DoesNotDrift | code/cyber/timer/timer.cc:76-124 | over a run of any length every start is within a fixed distance of its place on the grid, for any bounds on how early and late the callbacks start |
| Rate.Rate.Sleep | code/cyber/time/rate.cc:74-107 | the deadline left behind, and whether and until when it sleeps |
| Rate.GridIsKeptWithinTwoCycles | code/cyber/time/rate.cc:79-102 | read within two cycles after the previous deadline, the clock leaves the next one a cycle on; later, the cycle starts over from the reading; earlier, a cycle after it |
| Rate.StaysOnTheGrid | code/cyber/time/rate.cc:74-107 | a loop never more than a cycle late is on the grid for good, over any number of calls |
| Rate.DeadlinesApart | code/cyber/time/rate.cc:79-83 | a cycle apart if and only if the clock has not gone backwards |
| Rate.AtMostOneCycleLate | code/cyber/time/rate.cc:94-104 | the sampled time is at most one cycle after the deadline left behind |
| Rate.NeverEarly | code/cyber/time/rate.cc:74-107 | the n-th return is not before the n-th deadline |
| Rate.DeadlinesSpaced | code/cyber/time/rate.cc:74-107 | deadlines n calls apart are at least n cycles apart |
| Rate.SampledInTime | code/cyber/time/rate.cc:94-104 | the same bound on the samples along a run |
| WallClock.FiresNotTooEarlyOnTheWheel | code/cyber/timer/timing_wheel.cc:121-142 | for every interleaving, with ticks and sleeps in the order of the loop: k ticks are at least k-3 cycles of wall-clock time |
| WallClock.TimelyDeadlines | code/cyber/time/rate.cc:74-107 | a tick thread that is late by no more than a cycle has its deadlines exactly on the grid of the cycle |
| WallClock.FiringWindow | code/cyber/timer/timing_wheel.cc:69-142 | anywhere in a run of the wheel on such a thread, k ticks are between k-3 cycles and k+1 cycles plus the lag |
| WallClock.ReaddIsOnTime | code/cyber/timer/timer.cc:102-123 | with a small error, a re-add is on time: in every phase for intervals of up to about a second, else between wraps |
| WallClock.LapHitsTheAim | code/cyber/timer/timer.cc:76-124 | one lap from callback through wheel and clock to callback starts in a fixed window around its aim |
| WallClock.TimerKeepsTheGrid | code/cyber/timer/timer.cc:76-124 | callback, wheel and tick thread together: every start of a run of any length is between 7 ms before and 4 ms plus the lag of the tick thread and the latencies after its place on the grid |
| BoundedQueue.GetIndex | code/cyber/base/bounded_queue.h:229-232 | the division form is the remainder |
| BoundedQueue.Init | code/cyber/base/bounded_queue.h:94-107 | the start satisfies the invariant and is empty |
| BoundedQueue.StepKeepsInv | code/cyber/base/bounded_queue.h:109-169 | head < commit <= tail < head + pool size, unique owners of reserved positions, and right local copies, kept by every step of every thread |
| BoundedQueue.WriteKeepsInv | code/cyber/base/bounded_queue.h:122-122 | a write touches no slot that is still in use |
| BoundedQueue.StepIsFifoStep | code/cyber/base/bounded_queue.h:109-169 | linearizability: each step is one operation of an atomic FIFO or invisible; a false Dequeue means empty |
| BoundedQueue.CallsAnswer | code/cyber/base/bounded_queue.h:109-169 | a call goes on until it answers: Enqueue that its own element is stored, or false only where the slot after its tail is that of the head; Dequeue an element or that there is none; nothing else moves |
| BoundedQueue.RunAnswersCalls | code/cyber/base/bounded_queue.h:109-169 | over every run a thread is idle exactly when its calls are answered, and each answer is to the call it made |
| BoundedQueue.StepLowersRank | code/cyber/base/bounded_queue.h:109-169 | each step brings a thread that waits for nobody closer to its answer, stale reads included |
| BoundedQueue.SoloCallAnswers | code/cyber/base/bounded_queue.h:109-169 | from any reachable state in which nobody else is between reservation and commit, a thread alone answers, however its swaps fail |
| BoundedQueue.EnqueueSucceeds | code/cyber/base/bounded_queue.h:109-130 | alone on a queue with room, Enqueue stores its element, however its swaps fail |
| BoundedQueue.DequeueSucceeds | code/cyber/base/bounded_queue.h:155-169 | alone on a queue that is not empty, Dequeue takes the oldest element, however its swaps fail |
| BoundedQueue.RejectionIsRightExactly | code/cyber/base/bounded_queue.h:113-118 | a rejection is right if and only if the stale tail shares the slot of the tail, and then full is always rejected |
| BoundedQueue.RejectedIffFull | code/cyber/base/bounded_queue.h:113-118 | with an unmoved tail, rejected if and only if full |
| BoundedQueue.RunIsFifo | code/cyber/base/bounded_queue.h:94-169 | over every run: enqueued is dequeued, in order, followed by the contents, and never more than the configured size |
| BoundedQueue.StaleTailRejectsOnEmptyQueue | code/cyber/base/bounded_queue.h:113-118 | a reachable state in which an empty queue rejects |
| ObjectPool.InitInv | code/cyber/base/concurrent_object_pool.h:72-78 | the constructor threads all nodes on one free list |
| ObjectPool.StepIsStackStep | code/cyber/base/concurrent_object_pool.h:93-148 | each step is a push or pop of an atomic stack, or invisible; a null answer means the list was empty at that load |
| ObjectPool.CallsAnswer | code/cyber/base/concurrent_object_pool.h:93-148 | a call goes on until it answers what such a call can; a release takes its node from its user at once, a get gives the node it answers; nothing else moves |
| ObjectPool.RunAnswersCalls | code/cyber/base/concurrent_object_pool.h:93-148 | over every run a thread is idle exactly when its calls are answered, and each answer is to the call it made |
| ObjectPool.StepLowersRank | code/cyber/base/concurrent_object_pool.h:93-148 | each step brings a thread closer to its answer, with a stale head too |
| ObjectPool.SoloCallAnswers | code/cyber/base/concurrent_object_pool.h:93-148 | from any reachable state a thread alone answers after a bounded number of steps |
| ObjectPool.SoloCallTakesEffect | code/cyber/base/concurrent_object_pool.h:93-148 | and then a release has put its node on top of the list, and a get has taken the top |
| ObjectPool.ReleasedNodeComesBack | code/cyber/base/concurrent_object_pool.h:93-148 | a node that is released is what the next get alone returns, and the list is as before |
| ObjectPool.GotStep | code/cyber/base/concurrent_object_pool.h:97-107 | a head with an equal count still has the successor read earlier, so the swap pops the list |
| ObjectPool.ReleasedStep | code/cyber/base/concurrent_object_pool.h:141-147 | the swap pushes the node the thread owns |
| ObjectPool.LinkStep | code/cyber/base/concurrent_object_pool.h:142-142 | writing the link of an owned node disturbs no list and no other thread |
| ObjectPool.NodesAreConserved | code/cyber/base/concurrent_object_pool.h:72-148 | over every run, free, held and in-flight nodes partition the arena and the list is acyclic |
| ObjectPool.HandsOutOnlyFreeNodes | code/cyber/base/concurrent_object_pool.h:93-119 | over every run, no node is handed out twice, and none is refused while one is free |
| HashMapBucket.PlaceDecides | code/cyber/base/atomic_hash_map.h:125-145 | where Find stops settles whether the key is there, at the last load |
| HashMapBucket.ArriveStep | code/cyber/base/atomic_hash_map.h:112-145 | a load of Find or Has answers as the plain map would at that moment |
| HashMapBucket.SetValue | code/cyber/base/atomic_hash_map.h:158-168 | swapping a value is the update of a present key |
| HashMapBucket.LinkEntry | code/cyber/base/atomic_hash_map.h:174-184 | linking after an unchanged neighbour keeps strict order and adds one key |
| HashMapBucket.SwapNextStep | code/cyber/base/atomic_hash_map.h:175-184 | a successful swap is an insert into the plain map, for all threads |
| HashMapBucket.SwapValueStep | code/cyber/base/atomic_hash_map.h:159-168 | a successful value swap is a store into the plain map, for all threads |
| HashMapBucket.GetValueStep | code/cyber/base/atomic_hash_map.h:276-284 | Get returns the value the plain map has at its load |
| HashMapBucket.StepIsMapStep | code/cyber/base/atomic_hash_map.h:112-284 | linearizability: each step is one operation of an atomic map, or invisible |
| HashMapBucket.CallsAnswer | code/cyber/base/atomic_hash_map.h:112-284 | a call goes on until it answers, for its own key, and Insert only that it has stored its own value; nothing else moves |
| HashMapBucket.RunAnswersCalls | code/cyber/base/atomic_hash_map.h:112-284 | over every run a thread is idle exactly when its calls are answered, and each answer is to the call it made |
| HashMapBucket.InsertedIsListed | code/cyber/base/atomic_hash_map.h:147-188 | an Insert that returns has its key linked with its value, and the key stays linked in every later state |
| HashMapBucket.StepLowersRank | code/cyber/base/atomic_hash_map.h:112-284 | each step brings a thread closer to its answer, by the length of the list, with stale reads too |
| HashMapBucket.SoloCallAnswers | code/cyber/base/atomic_hash_map.h:112-284 | from any reachable state a thread alone answers after a number of steps that the list bounds, and only an Insert has changed the map, at its key |
| HashMapBucket.BucketIsAtomicMap | code/cyber/base/atomic_hash_map.h:100-287 | over every run: strictly sorted, one entry per key, exactly the pairs stored, and answers as of a plain map |
| HashMapBucket.KeysStay | code/cyber/base/atomic_hash_map.h:147-188 | over every run, a key linked in the list stays linked |
| RwLock.StepKeepsInv | code/cyber/base/atomic_rw_lock.h:62-114 | the lock word counts the readers, or is -1 for one writer alone; the waiting count is the announced writers |
| RwLock.Exclusion | code/cyber/base/atomic_rw_lock.h:62-114 | a writer inside excludes every other thread |
| RwLock.CallsAreServed | code/cyber/base/atomic_rw_lock.h:62-114 | a call starts what it asks for, an unlock ends what the thread has, and a thread that wants the lock goes on wanting it or has it; nothing else moves |
| RwLock.UnlockFrees | code/cyber/base/atomic_rw_lock.h:112-114 | a writer that unlocks leaves the lock free, a reader when it is the last |
| RwLock.OpenLockIsTaken | code/cyber/base/atomic_rw_lock.h:62-110 | from any state a thread alone that finds the lock open for it gets it after a bounded number of steps, however its swaps fail |
| RwLock.RunsExclude | code/cyber/base/atomic_rw_lock.h:62-114 | both, over every run of any number of threads in both modes |
| RwLock.NoNewPass | code/cyber/base/atomic_rw_lock.h:65-77 | while a writer waits in write-first mode nobody passes the waiting check |
| RwLock.BoundedOvertaking | code/cyber/base/atomic_rw_lock.h:65-110 | each thread takes the read lock at most once past an announced writer, and only if it had passed the check before |
| RwLock.TotalOvertaking | code/cyber/base/atomic_rw_lock.h:65-110 | all overtakes together are at most the threads that had passed the check |
| RwLock.UnboundedOvertaking | code/cyber/base/atomic_rw_lock.h:78-91 | without write-first mode there is no bound: for every n, a run from the start with n overtakes past one announced writer |
| DataPath.CacheBuffer.constructor | code/cyber/data/cache_buffer.h:36-39 | an empty ring of any size, 0 included |
| DataPath.CacheBuffer.At | code/cyber/data/cache_buffer.h:50-51 | position i from max(1, head) to tail is the i-th message ever filled |
| DataPath.CacheBuffer.AtIsNewest | code/cyber/data/cache_buffer.h:50-51 | any other position gives the newest message of its slot |
| DataPath.CacheBuffer.Size | code/cyber/data/cache_buffer.h:53-62 | the number filled, at most the configured size |
| DataPath.CacheBuffer.Fill | code/cyber/data/cache_buffer.h:68-81 | the ring goes on agreeing with the full history |
| DataPath.ChannelBuffer.Fetch | code/cyber/data/channel_buffer.h:56-77 | what is delivered is the message of that history position; start, overflow and nothing new as FetchAt says; for any other index, the newest message of its slot |
| DataPath.ChannelBuffer.Latest | code/cyber/data/channel_buffer.h:79-88 | the last message ever filled |
| DataPath.ChannelBuffer.FetchMulti | code/cyber/data/channel_buffer.h:90-105 | the newest messages in order, as many as kept and asked for |
| DataPath.DataDispatcher.AddBuffer | code/cyber/data/data_dispatcher.h:59-70 | the ring joins its channel's rings, and no other channel's |
| DataPath.DataDispatcher.Dispatch | code/cyber/data/data_dispatcher.h:72-90 | every live ring of the channel gets the message once, no other ring changes, and the answer says whether there was a channel and a notifier |
| DataPath.DataVisitor.Dispatch | code/cyber/data/cache_buffer.h:68-81 | a message in the visitor's ring is one more message pending |
| DataPath.DataVisitor.TryFetch | code/cyber/data/data_visitor.h:183-189 | delivered positions strictly increase; skips only at the start or on overflow, counted exactly; delivered + dropped + pending = filled |
| Fusion.PairsAllButTheFirst | code/cyber/data/fusion/all_latest.h:55-68 | over every run only the primaries before the first message of some other channel go unpaired; the rest are paired once, in order |
| Fusion.PositionsNeverGoBack | code/cyber/data/fusion/all_latest.h:55-68 | the positions taken from the other channels never decrease along the stream |
| Fusion.AllReceivedExactly | code/cyber/data/fusion/all_latest.h:57-63 | all channels have received if and only if each has had an arrival |
| Fusion.LatestIsTheLastArrival | code/cyber/data/channel_buffer.h:79-88 | the latest message of a channel is that of its last arrival |
| Fusion.PrimaryIsPaired | code/cyber/data/fusion/all_latest.h:55-68 | every primary that comes when all channels have received is paired with the positions latest then |
| Fusion.NextTuple | code/cyber/data/fusion/all_latest.h:60-67 | a primary with the latest of every channel is the next pairing of the reference |
| Fusion.NoTuple | code/cyber/data/fusion/all_latest.h:60-63 | any other arrival leaves the stream of the reference as it is |
| Fusion.AllLatest.constructor | code/cyber/data/fusion/all_latest.h:44-54 | starts with nothing fused and a ring as large as the primary's |
| Fusion.AllLatest.FillPrimary | code/cyber/data/fusion/all_latest.h:55-68 | the tuples in the ring go on being those of the reference pairing |
| Fusion.AllLatest.FillOther | code/cyber/data/cache_buffer.h:68-81 | a message on another channel only becomes its latest |
| Fusion.AllLatest.Fusion | code/cyber/data/fusion/all_latest.h:71-82 | the reader gets the tuple of the pairing its index names, or for an index past the next the newest of its slot |
| Fusion.AllLatest.AllLatestMessages | code/cyber/data/fusion/all_latest.h:57-63 | none if and only if some channel has received nothing; else the last of each |
| Wakeup.DispatcherKeepsInv | code/cyber/scheduler/policy/scheduler_classic.cc:163-182 | filling before looking at the state keeps every unread message announced |
| Wakeup.ProcessorKeepsInv | code/cyber/croutine/croutine.h:176-207 | acquiring, taking the flag, running and releasing keep it too, since DATA_WAIT is set before TryFetch |
| Wakeup.RunsLoseNoWakeup | code/cyber/croutine/routine_factory.h:56-66 | over every run: a suspended routine with a message unread and fully notified has an update pending |
| Wakeup.PendingUpdateResumes | code/cyber/scheduler/policy/classic_context.cc:52-73 | a pending update is enough, flag set or already taken: the processor that has the routine, or any one while it is free, delivers a message within eight steps |
| Wakeup.ReadyRoutineDelivers | code/cyber/scheduler/processor.cc:40-62 | a ready routine that is free delivers an unread message within six steps of any processor |
| Wakeup.HandledRoutineIsFree | code/cyber/croutine/routine_factory.h:56-66 | after a message is handled the routine is ready and free |
| Wakeup.NothingUnreadSuspends | code/cyber/croutine/routine_factory.h:56-66 | a routine that finds nothing unread is suspended and free |
| Wakeup.NothingIsPassedOver | code/cyber/croutine/routine_factory.h:56-66 | no step passes over an unread message, but for the first delivery and an overflow, which go to the newest |
| Wakeup.DispatchWakes | code/cyber/scheduler/policy/scheduler_classic.cc:163-182 | a dispatch to a suspended routine leaves its message unread and an update pending |
| Wakeup.DispatchToReadyIsQuiet | code/cyber/scheduler/policy/scheduler_classic.cc:163-182 | a dispatch to a routine that is not waiting leaves its flag alone |
| RecordReader.RecordReader.constructor | code/cyber/record/record_reader.cc:32-58 | everything in the file is still to be read |
| RecordReader.RecordReader.Reset | code/cyber/record/record_reader.cc:60-65 | everything in the file is to be read again |
| RecordReader.RecordReader.ReadSection | code/cyber/record/record_reader.cc:115-170 | a section loads a chunk, gives up only messages before the window, or shows that all that follow are after it |
| RecordReader.RecordReader.ReadNextChunk | code/cyber/record/record_reader.cc:112-172 | skipping bodies by their headers loses nothing of the window; no chunk means none is left in it |
| RecordReader.RecordReader.ScanChunk | code/cyber/record/record_reader.cc:85-100 | the cursor passes exactly the messages before the window |
| RecordReader.RecordReader.ReadMessage | code/cyber/record/record_reader.cc:75-110 | the next message of the window in file order, or proof that none is left; what is after the window stays |
| RecordReader.NonemptyChunksBound | code/cyber/record/record_reader.cc:135-148 | headers that bound nonempty chunks of a sorted file bound all that the reader relies on |
| RecordViewer.MergedIsStableSort | code/cyber/record/record_viewer.h:200-201 | the reference merge is sorted, in range, and at each time has every file's messages in reader and file order |
| RecordViewer.SortedUnique | code/cyber/record/record_viewer.h:200-201 | a sorted sequence is determined by what it has at each time |
| RecordViewer.SelectedIsAFilter | code/cyber/record/record_viewer.cc:66-70 | selecting keeps every copy of a message on a selected channel and drops every other |
| RecordViewer.SelectedKeepsOrder | code/cyber/record/record_viewer.cc:66-70 | selecting keeps the order |
| RecordViewer.HeaderRangeIsExact | code/cyber/record/record_viewer.cc:112-127 | the bounds used are the tightest of all files that could be opened |
| RecordViewer.InsertAt | code/cyber/record/record_viewer.cc:167-167 | emplacing puts a message after those of the same time |
| RecordViewer.CutToHeaders | code/cyber/record/record_viewer.cc:112-138 | cutting the range to the headers loses nothing |
| RecordViewer.RecordViewer.constructor | code/cyber/record/record_viewer.cc:40-49 | opening a viewer keeps the merge of the range asked for |
| RecordViewer.RecordViewer.UpdateTime | code/cyber/record/record_viewer.cc:112-138 | the range becomes its intersection with the headers of the valid files |
| RecordViewer.RecordViewer.DrainReader | code/cyber/record/record_viewer.cc:161-168 | the buffer gains exactly one file's messages of the window, at each time after what it had |
| RecordViewer.RecordViewer.RetireReaders | code/cyber/record/record_viewer.cc:148-154 | exactly the readers that ended before the window are finished, and resetting them loses and repeats nothing |
| RecordViewer.RecordViewer.FillWindow | code/cyber/record/record_viewer.cc:156-169 | the buffer gains exactly the window of the reference merge |
| RecordViewer.RecordViewer.TakeWindow | code/cyber/record/record_viewer.cc:141-173 | what is still to come does not change, and time advances |
| RecordViewer.RecordViewer.FillBuffer | code/cyber/record/record_viewer.cc:140-176 | what is still to come does not change; an empty buffer means nothing is; it stops only with a full buffer or past the range |
| RecordViewer.RecordViewer.Update | code/cyber/record/record_viewer.cc:60-75 | the first selected message still to come, or none if and only if there is none |
| RecordViewer.RecordViewer.Reset | code/cyber/record/record_viewer.cc:103-110 | the whole merge is to come again |
| RecordViewer.RecordViewer.Iterate | code/cyber/record/record_viewer.cc:178-206 | iterating sees exactly the selected part of the merge |
| RecordViewer.ViewRecords | code/cyber/record/record_viewer.cc:40-206 | for any readers, chunks and windows: exactly the messages in range on the selected channels, by time, reader order and file order |
| RecordViewer.WindowAdvances | code/cyber/record/record_viewer.cc:141-172 | a window makes progress if and only if neither 64-bit addition wraps |
| RecordViewer.RangeFitsExactly | code/cyber/record/record_viewer.cc:140-173 | every window reached advances if and only if the end is not the largest time and the last window's end is representable |
| RecordViewer.LastTimeStartsOver | code/cyber/record/record_viewer.cc:141-172 | an input for which it does not |
| RecordViewer.LastTimeIsNeverUsedUp | code/cyber/record/record_viewer.cc:141-176 | with a range that ends at the largest time, however many windows are read, the loop stops exactly when the buffer is full: it never answers that nothing is left |
| RecordViewer.FittingRangeEnds | code/cyber/record/record_viewer.cc:141-173 | a range that fits is used up after finitely many windows |
| RecordViewer.Window | code/cyber/record/record_viewer.cc:142-146 | the window computed in 64 bits is the intended one |
| RecordViewer.MergedSplit | code/cyber/record/record_viewer.cc:171-172 | closed windows, each starting one after the last, partition the range |
| RequestResponse.Client.AsyncSendRequest | code/cyber/service/client.h:266-283 | an initialized client numbers and sends the request and has one more unanswered; otherwise nothing happens |
| RequestResponse.Client.HandleResponse | code/cyber/service/client.h:290-310 | sets the promise of its own pending request of that number, at most once, and ignores every other response |
| RequestResponse.PendingOrResolved | code/cyber/service/client.h:266-310 | the pending numbers are exactly the unanswered ones of 1 to the sequence number |
| RequestResponse.Promise.SetValue | code/cyber/service/client.h:308-308 | a promise is set only while it is not |
| RequestResponse.ReplyReachesOnlyTheAsker | code/cyber/service/service.h:209-237 | the response resolves that request of its client, once, and changes no other client |
| RequestResponse.Service.Init | code/cyber/service/service.h:160-207 | true if and only if there is a receiver; a first success leaves the worker serving, a missing receiver leaves it running without one, and nothing restarts a destroyed service |
| RequestResponse.Service.Process | code/cyber/service/service.h:143-158 | a turn of the worker is the protocol's service of the oldest task, or its discard while there is no receiver, or the end; what it sends answers that request for its client and nothing else for anyone |
| RequestResponse.Service.HandleRequest | code/cyber/service/service.h:209-237 | what is transmitted is the protocol's response to the oldest task: it sets the answer of exactly that pending request of its client, to what the callback produced, and changes no other client |
| RequestResponse.Service.Enqueue | code/cyber/service/service.h:136-141 | the queue follows the protocol when a request arrives |
| RequestResponse.Service.Destroy | code/cyber/service/service.h:123-134 | the queue follows the protocol when the service stops |
| RequestResponse.StepKeepsInv | code/cyber/service/client.h:266-310 | every packet, task, record and answer stays traceable to a request, under loss, repetition and reordering |
| RequestResponse.AnswersAreForTheirRequests | code/cyber/service/client.h:266-310 | over every run with any number of clients: an answer is a response the service produced for that client's request of that number |
| RequestResponse.AnswersAreFinal | code/cyber/service/client.h:290-310 | over every run an answer once there never changes and no request is forgotten |
| RequestResponse.AskIsPending | code/cyber/service/client.h:266-283 | a request gets the next number of its client, waits for an answer and is on its way; no other client notices |
| RequestResponse.QueueMovesUp | code/cyber/service/service.h:143-158 | every task taken, served or discarded, moves the queue up by one, and nothing else does |
| RequestResponse.StoppedServesNothing | code/cyber/service/service.h:123-134 | after a stop nothing that had arrived before is served |
| RequestResponse.ServedInTurn | code/cyber/service/service.h:136-158 | a request with k before it has its response after k+1 services, whatever else happens |
| RequestResponse.ReplyResolves | code/cyber/service/client.h:290-310 | receiving any response to a request leaves it answered |
| RequestResponse.RequestIsAnswered | code/cyber/service/service.h:136-237 | in every state, every request of every client is answered if it arrives once more, is served in turn, and one response gets through |
| Registry.LoopEndsIffRoom | code/cyber/common/global_data.cc:169-178 | the probe loop ends if and only if the name is registered or the map is not full |
| Registry.StopKeepsSound | code/cyber/common/global_data.cc:168-181 | storing at the first stop keeps ids unique and probe paths full, and finds a registered name again |
| Registry.GlobalData.Register | code/cyber/common/global_data.cc:168-181 | re-registering returns the old id and changes nothing; a new name gets its hash if that is free, and else the first free id after it |
| Registry.GlobalData.ProbeLoop | code/cyber/common/global_data.cc:169-178 | the loop ends at the first id that is free or has the name |
| Registry.GlobalData.IdsAreInjectiveAndStable | code/cyber/common/global_data.cc:168-189 | over any sequence of registrations, same name if and only if same id, and the lookup returns the name ever after |
| Registry.GlobalData.GetById | code/cyber/common/global_data.cc:183-189 | the name of every registration that got the id, and empty only if there was none or the name is |
| DataPath.NewestIsKept | code/cyber/data/cache_buffer.h:85-87 | the newest position in a slot shares it, and a kept position is its own newest |
| Modular.SameSlot | code/cyber/base/bounded_queue.h:229-232 | positions at most one lap apart share a slot if and only if they are a lap apart |

## Left out

- Memory orders weaker than sequential consistency, torn copies of an element that is being overwritten, and wrap-around of 64-bit counters in the queue, the pool and the ring.
- Freeing of replaced map values: a value swap compares identities that are never reused, so a recycled address (and a reader of a freed value) is not modelled.
- Hash-table routing to buckets: a bucket's keys never meet another bucket's, so one bucket is the model.
- TimingWheel.TimingWheel.AddTask: one step, so an add that reads one index before and the other after the tick thread moved is not modelled; TimerTable.OnTimeExactly says what each phase in between does.
- TimingWheel.TimingWheel.TickFunc: Shutdown, the check of the running flag when a callback starts, and the thread pool the callbacks run on are not modelled; a task is handed out when Tick hands it over.
- PeriodicTimer.TimerTask.Execute: one-shot timers have no state here; times and errors are unbounded integers, where the code computes them modulo 2^64 with the same result while they fit.
- PeriodicTimer.AcceptedPeriodIsOnTime: speaks of the first add; PeriodicTimer.ReaddIsOnTimeExactly has the later ones.
- PeriodicTimer.DoesNotDrift: how early and how late a callback starts is a parameter; WallClock.TimerKeepsTheGrid derives both from the wheel and the clock.
- WallClock.TimerKeepsTheGrid: assumes that the tick thread is never more than a cycle late (WallClock.Timely) and bounds the two latencies that thread scheduling adds, from the end of a callback to its add and from the firing to the start, by parameters.
- BoundedQueue.StepIsFifoStep: WaitEnqueue, WaitDequeue, the wait strategies and Size under concurrency are not modelled.
- BoundedQueue.RejectedIffFull: for an unmoved tail only; BoundedQueue.RejectionIsRightExactly has every stale tail.
- ObjectPool.InitInv: needs a capacity of at least 1, since the constructor writes the link of the last node.
- RwLock.OpenLockIsTaken: progress is of a thread alone; under contention a spin lock promises none, and readers can starve behind writers. ReentrantRWLock is not modelled, because its owner is cleared after the count is released.
- DataPath.ChannelBuffer.Fetch: what a slot that was never filled holds is not stated; only an index past the next message, which no reader here has, can hit one.
- DataPath.DataVisitor.Dispatch: one visitor's ring; DataPath.DataDispatcher.Dispatch has all rings of a channel, with the callbacks of the notifiers left out.
- Fusion.AllLatest.FillPrimary: the latest messages of several channels are read under separate locks in the code, and in one step here; one sequence of rings stands for the versions with two, three and four channels.
- Wakeup.RunsLoseNoWakeup: the states SLEEP and FINISHED, stopping, several channels per routine and the wait of an idle processor are not modelled.
- RecordReader.RecordReader.ReadNextChunk: sections that cannot be read and unknown section types are not modelled; a file ends at its index or with its sections.
- RecordViewer.ViewRecords: one way only for ranges that end within a second of the last time, except at the last time itself (RecordViewer.LastTimeIsNeverUsedUp): a window that wraps reads with its end before its begin, and what that skips depends on chunk boundaries and not on the range alone. Sorting the readers and channel_list_ are left out: the theorem holds for every order of readers, and the order given is the reader order.
- RequestResponse.Service.Init: a second call after the receiver could not be made starts a second worker in the code, which ends the program; here it only sets the fields.
- RequestResponse.RequestIsAnswered: that a request arrives and a response gets through is assumed, as the network may lose both.
- RequestResponse.Service.Process: the shutdown check of the worker loop and the blocking wait itself are not modelled; user callbacks on the client and the timed wait of SendRequest are not either.
- Registry.GlobalData.Register: channels, services and tasks use the same loop on their own maps; concurrent registrations are not modelled.
- UnboundedQueue: its reference count is decremented before it is loaded, which gives no clean argument for reclamation.
- Transports, RTPS, discovery, the scheduler policies beyond NotifyProcessor and NextRoutine, Poller and sessions, parameters, blockers and signals, message headers, logging, configuration and the Python bindings.
