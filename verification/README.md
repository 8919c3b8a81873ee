# Verified models of the core of the xr library

Dafny models of the stateful core of the library, with proofs of what it promises: the
hierarchical second-timer wheel over intrusive linked lists, the single-producer
single-consumer byte ring, the asynchronous log protocol on top of it, log file rotation,
the next-occurrence computations, and the INI parser.

`dafny verify dfyconfig.toml` checks everything.

## The parts

**Timer wheel** (`timer_wheel.dfy`, `wheel_cascade.dfy`, `wheel_scan.dfy`, `wheel_termination.dfy`,
`wheel_runs.dfy`).
`TimerWheel` says on values what each operation does to the five lists and their cached
minima. `WheelCascade` and `WheelScan` hold the invariants of one operation. `WheelRuns`
quantifies over all interleavings of clock updates, additions, removals and scans:

- A scan calls every due timer, in every run, if and only if scans come at most 4 seconds after the
  previous handled second or construction (`OnTimeIffGapAtMostFour`; the witness for a gap of 5 is
  `LateState`). Under arbitrary jumps a due timer waits for at most one more handled scan
  (`LateByAtMostOneScan`).
- With such gaps the wheel refines a multiset of timers (`WheelRefinesFlatSet`).
- A scan need not end: some callbacks keep the firing loop going for ever exactly when list 0 holds
  a due timer that is not its last (`MayRunForEverIff`). If no callback adds a timer that
  is already due, the calls are exactly the due timers of list 0 (`ScanCallsExactlyDue`). Every scan
  that ends is one with a finite script of callbacks (`EndingScansHaveScripts`), which is what the other
  results quantify over.
- The cached minima stay sound although removals never refresh them, no timer is ever
  too deep after a scan, and cascades move timers at most four times per addition.

**Linked lists and the wheel on the heap** (`xr_list.dfy`, `timer_links.dfy`, `timer_heap.dfy`,
`timer_runs.dfy`). `XrList` models every list operation on `next`/`prev` pointers; a list is the
ring of its nodes. `TimerLinks` links each timer into two families of lists at once, the
wheel's through `entry` and the owners' through `sprite`. `TimerHeap.TimerT` is the pointer code of
`timer_t`: each method is proved to compute what `TimerWheel` says, while keeping every live timer in
exactly one wheel list and one owner's list. `TimerRuns` joins the two layers: whatever sequence
of calls the heap object receives, it is in step with a reachable state of
`WheelRuns`, so the theorems about runs hold of the pointer structure. Its contracts compose:
`TwoTimersOnTime` is a program built from them, from the constructor to the calls.

**Ring buffer** (`bits.dfy`, `ring_buf.dfy`, `ring_spsc.dfy`). `RingBuf.Ring` refines a bounded
byte FIFO with 32-bit indices that wrap; `RingSpsc` interleaves one writer and one
reader at every index load, byte copy and index store.

**Log** (`log_protocol.dfy`, `log_progress.dfy`, `log_delivery.dfy`, `log_rotation.dfy`).
`LogProtocol` composes the push loop, the semaphore and the log thread over the interleaved ring.
`shift_fd` may fail on any wake-up, and the model keeps what the code then does: the wake-up is
swallowed and the records stay in the ring.

- The sink is always a prefix of the stream of records (`SinkIsPrefix`).
- With the log thread at rest and a record being written, every run posts the record within an
  exactly given number of steps if the rest of it fits into the ring, and no run ever does if it
  does not fit (`PostsIffFits`): `write` posts only after its loop, so nothing wakes the
  reader and the loop spins. Such states are reachable: fifty-one longest records whose rotations fail
  (`StuckState`). While the last wake-up was not swallowed the rest always fits
  (`DrainedFits`, `DrainedRunPosts`).
- With both threads at rest everything posted is in the sink exactly when nothing was published
  after the last wake-up whose `shift_fd` succeeded (`DeliveredIffSeen`). Hence runs without failures
  deliver everything, a failure can leave records in the ring with both threads at rest
  (`LostWakeUp`), and a later successful wake-up recovers them (`LaterWakeUpRecovers`).

`LogRotation` shows that interval rotation is right for all histories if and only if clocks stay
below 2^32, where the 32-bit sequence number repeats. Daily rotation compares only the day of the year: every call
of a history is right, whichever opens fail, if and only if no two consecutive calls fall on the
same day of different years (`RotatesDailyIffYearsTold`; `StaleNextYear` is such a history).

**Calendar** (`next_second.dfy`) and **INI files** (`ini_file.dfy`). Both overloads of `cal_next_second` return the
least matching time for valid arguments, and for all others the exact condition is given. The weekday
overload adds up its fields in 32 unsigned bits, so a negative time of day on today's weekday ends up 136 years
ahead (`MinusOneMinute`).

## Assumptions

- The clock satisfies 0 <= now < 2^31 and does not run backwards, so the mixes of `int32_t`,
  `uint32_t` and `time_t` in the timer are exact; `time_t` itself is unbounded.
- A timer callback is a script entry: keep or delete, and a list of timers to add. A scan is given a
  finite script, so results about the state after a scan are about scans that end.
  Callbacks do not change `expire` (forbidden at include/xr_timer.h:65) and do not remove other timers.
- `malloc` and `realloc` succeed.
- The barriers in the ring are commented out (include/xr_ring_buf.h:71 and 83); index loads and
  stores are taken to be atomic and sequentially consistent.
- One logging thread, one log thread; each record fits in `LOG_BUF_SIZE`; `::write` takes
  all the bytes it is given; `::close` succeeds.
- `LOG_BUF_SIZE` and `RING_BUF_SIZE` are constants and not macros, so both `#if` tests compare 0 with 0 and
  the compiled `write` posts once, after the loop, whatever the two sizes are (src/xr_log.cpp:266-278).
  The comments beside them suggest a choice by size; the model follows the compiled code.
- `log_sec` and `log_tm` do not change during a call of `shift_fd`, although `update_time` (include/xr_log.h:116-120)
  may run on another thread than the log thread.
- The calendar is Gregorian with a fixed offset from UTC and without daylight saving.
- An INI file is given as the sequence of its lines.

## Modelling notes

- `min_expiring_time` of all five lists is one field `minExpiring` of `TimerT`, beside the array `vec`.
- `SecTimer` carries its payload as one value `info`; `fn == 0` is the NULL callback.
- The address arithmetic of `list_entry` is the field `host` of `ListHead`.
- List positions and the sequences behind the rings are ghost: methods such as `RmSec` receive from
  their callers, as ghost arguments, where a timer sits in its two lists.
- The owners' list heads are those registered by `NewOwner`, the constructor of `timer_event_t`.
- A call of `cal_next_second` with two to four arguments is ambiguous between the two overloads in C++; the
  first can be called directly only with its defaults, and the model states it for all arguments.
- `moves`, `base`, `adds`, `openedAt`, `opens`, `skipped` and `posted` are history variables.

## Model

| member | source | states |
|---|---|---|
| WheelRuns.OnTimeIffGapAtMostFour | src/xr_timer.cpp:143-171 | over all reachable states, handled scans call every due timer as often as the wheel holds it, exactly when they come within a gap of at most 4 seconds |
| WheelRuns.LateState | src/xr_timer.cpp:148-170 | a reachable state, 5 seconds after the last handled one, in which a scan misses a due timer |
| WheelRuns.LateByAtMostOneScan | src/xr_timer.cpp:96-119 | a timer due at one handled scan and still held at the next is called there, for any jump of the clock and any events between |
| WheelRuns.WheelRefinesFlatSet | src/xr_timer.cpp:9-58 | every trace of a run with gaps of at most 4 seconds is a trace of a flat multiset of timers: each due timer called once, exactly the rejected ones removed, NULL ones swept, callback additions and nothing else added |
| WheelRuns.StepIsFlatStep | src/xr_timer.cpp:143-171 | one step of that refinement, from any state of the run invariant |
| WheelRuns.CacheSoundAlways | include/xr_timer.h:121-129 | in every reachable state a cached minimum above list 0 is 0 only for an empty list and otherwise no later than any expiry, although removals never refresh it |
| WheelRuns.NeverTooDeep | src/xr_timer.cpp:164-170 | after any handled scan every timer of list i >= 1 is more than 4 * 2^(i-1) seconds away, in lists whose cascade was skipped too |
| WheelRuns.MovesAtMostFourPerAdd | src/xr_timer.cpp:105-111 | over any run the cascades move timers between lists at most 4 times per addition |
| WheelRuns.StepKeepsInv | src/xr_timer.cpp:9-58 | every event keeps sound caches, a list-0 horizon 4 seconds past the last handled second, and the move budget |
| WheelCascade.SearchesAgree | include/xr_timer.h:110-144 | the downward search from a list is the upward search capped at that list |
| WheelCascade.SearchesInNumbers | include/xr_timer.h:110-144 | both searches find the list i with 4 * 2^(i-1) < distance <= 4 * 2^i, up to their ends |
| WheelCascade.IntervalIs | src/xr_timer.cpp:4 | the bound of list i is 4 * 2^i |
| WheelCascade.AppendMins | include/xr_timer.h:121-129 | a timer joining a list sets that list's cached minimum to the earlier time, an unset one counting as none, and no other |
| WheelCascade.RenewDistributes | src/xr_timer.cpp:96-119 | a cascade of a list keeps the order of those that stay, appends each mover to the tail of its own list in original order, and leaves higher lists alone |
| WheelCascade.RenewKeeps | src/xr_timer.cpp:96-119 | a cascade keeps the invariant and the multiset of timers, and its list's cached minimum is exact afterwards |
| WheelCascade.CascadeAdvancesHorizon | src/xr_timer.cpp:164-170 | the cascading loop brings every timer within 4 seconds of now into list 0 from any depth and loses none |
| WheelCascade.CascadeIs | src/xr_timer.cpp:164-170 | the cascading loop in closed form: list i is cascaded exactly when its cached minimum is less than 4 * 2^i seconds away; what stays keeps its order, and behind it comes what the cascaded higher lists send down |
| WheelCascade.CascadePays | src/xr_timer.cpp:105-111 | each cascading move lowers the sum of list indices |
| WheelScan.ScanConserves | src/xr_timer.cpp:143-171 | a scan neither loses nor duplicates timers: those left plus those removed are those before plus those added |
| WheelScan.ScanCalls | src/xr_timer.cpp:148-162 | calls start with the due timers of list 0 in order; all called timers are due, and beyond list 0 they are just added |
| WheelScan.ScanDrops | src/xr_timer.cpp:155-161 | the armed timers removed are exactly the called ones whose callbacks returned 0, in call order |
| WheelScan.ScanAdds | src/xr_timer.cpp:155-161 | the timers added are exactly those the callbacks of the called timers add, in call order |
| WheelScan.ScanSweepsNull | src/xr_timer.cpp:151-154 | every timer of list 0 with a NULL callback is removed, due or not |
| WheelScan.ScanDropsOnlyCalled | src/xr_timer.cpp:151-161 | a timer whose callback is not NULL is removed at most as often as it is called |
| WheelScan.ScanCatchesUp | src/xr_timer.cpp:148-162 | a timer with a callback, expired and within 4 seconds of the previous scan, is called as often as the wheel holds it |
| WheelTermination.ScanCallsExactlyDue | src/xr_timer.cpp:148-162 | if no callback adds a timer that is already due, or only the last timer of list 0 is due, the calls are exactly the due timers of list 0 in order, so the scan ends |
| WheelTermination.MayRunForEverIff | src/xr_timer.cpp:148-162 | some behaviour of the callbacks keeps the firing loop going for ever exactly when list 0 holds a due timer that is not its last |
| WheelTermination.BreedingGoesOn | src/xr_timer.cpp:148-162 | callbacks that each add two timers due at once are called at least n times, for every n |
| WheelTermination.EndingScansHaveScripts | src/xr_timer.cpp:148-162 | whatever callbacks do without end, a scan that ends is the same for some finite prefix of their behaviour and every longer one |
| TimerHeap.TimerT.constructor | src/xr_timer.cpp:173-182 | five empty rings with bounds 4, 8, 16, 32 and 64, no minima, no owners and nothing handled |
| TimerHeap.TimerT.FindRootIdx | include/xr_timer.h:132-144 | the upward loop finds the list i with 4 * 2^(i-1) < distance <= 4 * 2^i, or an end |
| TimerHeap.TimerT.FindMinIdx | include/xr_timer.h:110-117 | the downward loop finds that list, or the one it starts from |
| TimerHeap.TimerT.SetMinExptm | include/xr_timer.h:123-129 | the new minimum is the old one or the given time and no later than either, an unset one counting as none; the other lists' minima stay |
| TimerHeap.TimerT.AddSec | src/xr_timer.cpp:22-36 | a fresh timer at the tail of its owner's list and of the wheel list whose bound, in seconds, covers its distance; two-list invariant kept |
| TimerHeap.TimerT.RmSec | src/xr_timer.cpp:38-46 | the timer leaves both of its lists, all others keep their order, caches are not refreshed; two-list invariant kept |
| TimerHeap.TimerT.RmAllSec | src/xr_timer.cpp:48-58 | exactly the timers of that owner leave the wheel, all others keep their order, the other owners are unchanged, as a sequence of single removals |
| TimerHeap.TimerT.RenewSecTimerList | src/xr_timer.cpp:96-119 | the loop over the ring, unlinking and relinking while it walks, terminates and computes the cascade of module TimerWheel on the heap |
| TimerHeap.TimerT.Visit | src/xr_timer.cpp:148-162 | one round of the firing loop on the heap, with a callback that may add timers |
| TimerHeap.TimerT.FireList | src/xr_timer.cpp:148-162 | for every finite script of callbacks the firing loop makes exactly the specified calls, with the next node chosen before the callback runs |
| TimerHeap.TimerT.ScanSec | src/xr_timer.cpp:143-171 | fire, then cascade, on the heap: same final wheel and same calls in the same order as the value specification |
| TimerHeap.TimerT.Scan | src/xr_timer.cpp:9-20 | scans once per new second and does nothing within the same second |
| TimerHeap.TimerT.DestroyList | src/xr_timer.cpp:189-196 | one list is emptied while it is walked, the others stay |
| TimerHeap.TimerT.Destroy | src/xr_timer.cpp:184-196 | every second-timer leaves the wheel and its owner's list |
| TimerHeap.TimerT.NewOwner | src/xr_timer.cpp:210-214 | one more owner with an empty list, the wheel unchanged |
| TimerRuns.Start | src/xr_timer.cpp:173-182 | a new heap timer with fresh nodes and no owners, in step with the initial run state |
| TimerRuns.NewOwner | src/xr_timer.cpp:210-214 | one more owner, whose head is the only new node; still in step with the same state |
| TimerRuns.RenewTime | include/xr_timer.h:86-91 | a clock update of the heap timer is a step of the run |
| TimerRuns.Add | src/xr_timer.cpp:22-36 | an addition on the heap is a step of the run, to a reachable state: one fresh timer at the tail of its owner's list and of the wheel list that its distance in seconds calls for, its two nodes the only new ones |
| TimerRuns.Remove | src/xr_timer.cpp:38-46 | a removal on the heap is a legal step of the run: exactly that timer leaves, and exactly its owner's list loses it |
| TimerRuns.RemoveAll | src/xr_timer.cpp:48-58 | removing an owner's timers leads to a reachable state, as a run of removals; that owner's list ends empty and the other owners' are unchanged |
| TimerRuns.Scan | src/xr_timer.cpp:9-20 | a scan on the heap is a step of the run, with the same calls; owners stay, and nodes are old or fresh |
| TimerRuns.TimelyScan | src/xr_timer.cpp:143-171 | on the heap, after any history: a scan of a new second at most 4 seconds after the previous one calls every due payload at least as often as timers with it are linked anywhere in the five lists |
| TimerRuns.HeldIsCounted | include/xr_timer.h:98-107 | the timers linked on the heap with a payload are as many as the wheel's value holds |
| TimerRuns.TwoTimersOnTime | src/xr_timer.cpp:9-36 | a whole program: an owner adds the same timer twice and the next scan, at most 4 seconds on, makes both calls |
| XrList.ListAddBetween | include/xr_list.h:45-52 | four writes insert a node between two neighbours of a ring, also when they are the same node |
| XrList.ListAdd | include/xr_list.h:61-64 | the node comes first behind the head |
| XrList.ListAddTail | include/xr_list.h:73-76 | the node comes last before the head |
| XrList.Bypass | include/xr_list.h:85-89 | the other nodes form a ring without the bypassed one; a node alone in its ring keeps its links |
| XrList.ListDel | include/xr_list.h:96-101 | the ring loses exactly that node, whose links become null |
| XrList.ListDelInit | include/xr_list.h:107-111 | the ring loses exactly that node, which becomes a ring of its own |
| XrList.ListMove | include/xr_list.h:118-122 | the node comes first behind the head, out of the same list or another one |
| XrList.ListMoveTail | include/xr_list.h:129-133 | the node comes last before the head, out of the same list or another one |
| XrList.ListSplice | include/xr_list.h:162-168 | all nodes of the list, in order, stand between the head and its old nodes; the old list head keeps its links |
| XrList.ListSpliceInit | include/xr_list.h:177-184 | the same, with the emptied list a well-formed empty ring |
| XrList.ListEmpty | include/xr_list.h:139-142 | true exactly for a head alone in its ring |
| XrList.AddTailAmong | include/xr_list.h:73-76 | adding to one of any number of disjoint lists leaves the others unchanged |
| XrList.DelAmong | include/xr_list.h:96-101 | deleting from one of any number of disjoint lists leaves the others unchanged |
| Bits.PowerTestIsExact | include/xr_ring_buf.h:110-113 | the bit test accepts exactly the powers of two |
| Bits.MaskedIsPosition | include/xr_ring_buf.h:30 | masking a wrapped 32-bit index is reducing the unbounded counter behind it |
| RingBuf.SlotIsPosition | include/xr_ring_buf.h:66-68 | byte k of a two-piece copy lands at the ring position of its counter |
| RingBuf.Ring.Create | include/xr_ring_buf.h:45-58 | succeeds exactly for powers of two and otherwise changes nothing; the contents survive when there are none or the size stays, the front of the buffer always |
| RingBuf.Ring.Write | include/xr_ring_buf.h:61-74 | appends exactly the first min(free, len) bytes, after any number of index wraps |
| RingBuf.Ring.Read | include/xr_ring_buf.h:76-86 | removes exactly the first min(used, len) bytes and hands them out, the rest of the caller's buffer unchanged |
| RingSpsc.NextKeeps | include/xr_ring_buf.h:61-86 | each load, byte copy and index store of either side keeps the invariant |
| RingSpsc.WriteTakes | include/xr_ring_buf.h:61-66 | a write takes on the first min(free, length) bytes, free being what is left when it loads the reader's index |
| RingSpsc.ReadAsks | include/xr_ring_buf.h:76-80 | a read asks for min(used, length) bytes, used being what is there when it loads the writer's index |
| RingSpsc.BothCanStep | include/xr_ring_buf.h:61-86 | in every state of the invariant either side can step without the other |
| RingSpsc.FifoAlways | include/xr_ring_buf.h:61-86 | in every interleaving the bytes all reads returned are a prefix of the bytes all writes accepted, and the rest sits in the buffer in order |
| RingSpsc.RegionsApartAlways | include/xr_ring_buf.h:63-82 | in every interleaving the two active copy regions are disjoint and inside the buffer, stale snapshots included |
| LogProtocol.NextKeeps | src/xr_log.cpp:261-278 | every step of either thread keeps the invariant, in which unread posted bytes have a wake-up on its way |
| LogProtocol.NoLostWakeUp | include/xr_semaphore.h:19-26 | in every reachable state with posted bytes unread the semaphore is positive, or the reader is past its wait, or its snapshot covers them, or a failed shift_fd swallowed the wake-up |
| LogProtocol.SinkIsPrefix | src/xr_log.cpp:358-369 | in every reachable state the sink is a prefix of the records in the order written, failed rotations included |
| LogProgress.PostsIffFits | src/xr_log.cpp:263-278 | with the reader at rest and a record being written: if the rest of it fits into the ring every long enough run posts it, and if not no run does, failed rotations included |
| LogProgress.FittingRunPosts | src/xr_log.cpp:263-278 | what fits is posted at exactly the StepsToPost-th step of every run, and until then a step is possible |
| LogProgress.SpinningRun | src/xr_log.cpp:263-274 | what does not fit is never posted, although the logger can always step: the retry loop spins |
| LogProgress.LoseRecord | src/xr_log.cpp:361-365 | from any reachable state at rest, a record that fits and whose shift_fd fails stays in the ring, with both threads at rest again |
| LogProgress.StuckState | src/xr_log.cpp:261-278 | a reachable state, after 51 lost records of 81920 bytes in a ring of 4194304, from which no run posts the record being written |
| LogProgress.DrainedFits | src/xr_log.cpp:263-274 | with the reader at rest after a wake-up that was not swallowed, the ring holds only bytes of the current record and the rest of it fits |
| LogProgress.DrainedRunPosts | src/xr_log.cpp:263-278 | in such a reachable state every run posts the record at exactly its StepsToPost-th step and until then a step is possible |
| LogDelivery.DeliveredIffSeen | src/xr_log.cpp:358-369 | for every run that ends with both threads at rest: the sink holds every posted record exactly when the last wake-up whose shift_fd succeeded saw all of it |
| LogDelivery.LaterWakeUpRecovers | src/xr_log.cpp:358-369 | a wake-up whose shift_fd succeeds, with nothing published after it, delivers everything that failed ones left behind |
| LogDelivery.SomeRunDelivers | src/xr_log.cpp:358-369 | from every reachable state with the logger idle and a wake-up at hand, some run delivers everything posted |
| LogProgress.RunToSink | src/xr_log.cpp:366-368 | once it has loaded the index the log thread alone gets to the end of its write, in exactly given steps |
| LogDelivery.QuietMeansDelivered | src/xr_log.cpp:358-369 | with the logger idle and the reader at rest after a wake-up that was not swallowed, everything is delivered and the ring is empty |
| LogDelivery.NoFailureDelivers | src/xr_log.cpp:358-369 | a run without failed rotations has delivered everything posted once both threads rest |
| LogDelivery.LostWakeUp | src/xr_log.cpp:362-365 | a reachable state in which a failed shift_fd has left a posted record in the ring with both threads at rest |
| LogRotation.LogFds.ShiftFd | src/xr_log.cpp:118-150 | by cases on descriptor, recorded number or day, and clock: an open current file is kept with SUCC, a first open that is then current is kept with SUCC, any other call returns its second open |
| LogRotation.RightFileIsKept | src/xr_log.cpp:125-138 | a call that finds the right file open, below 2^32, changes nothing and succeeds |
| LogRotation.FirstOpenIsKept | src/xr_log.cpp:120-131 | with nothing open and a current number, or daily rotation, one open suffices and its descriptor stays |
| LogRotation.FirstCallOpensOnce | src/xr_log.cpp:79-80 | after init the first call in the same bucket, or with daily rotation, opens its file once and keeps it |
| LogRotation.FailsIffOpenFails | src/xr_log.cpp:118-150 | a call fails exactly when an open that it needs fails |
| LogRotation.BucketIsOnly | src/xr_log.cpp:178-182 | the time in a file's name is the one multiple b of the interval with b <= clock < b + interval |
| LogRotation.SeqIs | src/xr_log.cpp:152-155 | the sequence number is the number of whole intervals, and 0 without an interval |
| LogRotation.RunKeeps | src/xr_log.cpp:118-176 | after every history of clock updates, calls and failed opens: at most one descriptor is open, and the sequence number and day recorded are those of the clock its file was named by |
| LogRotation.SeqIffBucket | src/xr_log.cpp:152-155 | for clocks below 2^32 equal sequence numbers mean equal bucket starts, for every interval |
| LogRotation.RotatesRightIffBelow2To32 | src/xr_log.cpp:118-182 | after every history of clock updates and failed opens, a call that does not fail leaves exactly one file open, of the current bucket, exactly when clocks stay below 2^32 |
| LogRotation.StaleAfterWrap | src/xr_log.cpp:125-131 | the file opened at second 0 is kept at second 2^32 |
| LogRotation.RotatesDailyIffYearsTold | src/xr_log.cpp:132-176 | for every sequence of calls: each one that does not fail leaves exactly today's file open, whichever opens fail, exactly when no two consecutive calls fall on the same day of different years |
| LogRotation.StaleNextYear | src/xr_log.cpp:134-137 | the file of 1 January 1970 is kept on 1 January 1971, and the call reports success |
| NextSecond.LocaltimeRoundTrip | include/xr_time.h:62-71 | the calendar model yields real dates and mktime inverts localtime |
| NextSecond.KnownDates | include/xr_time.h:77 | fixed points of the calendar: the epoch is Thursday 1 January 1970; which centuries are leap years |
| NextSecond.CalNextSecond | include/xr_time.h:62-73 | for a valid time of day the least time not before `second` that has it; for any other arguments the least time with the time of day they amount to, exactly when they lie less than a day from that of `second` |
| NextSecond.CalNextSecondOnDay | include/xr_time.h:75-110 | for a valid weekday and time of day the least time not before `second` that has both; for any other arguments the least time with those they amount to, exactly when it lies within the week from `second` and, on the wanted weekday, the sum of the fields lies in [0, 2^32) |
| NextSecond.MinusOneMinute | include/xr_time.h:79-95 | minute -1 asked for on that weekday: the unsigned sum wraps and the result lies 136 years ahead of the next such time |
| IniFile.Ini.GetNameAndVal | src/xr_file_ini.cpp:19-31 | splits a line at its first '=', and fails exactly when there is none |
| IniFile.Ini.Parse | src/xr_file_ini.cpp:33-54 | every lookup finds the last match in the lines, or else what was there before |
| IniFile.IsHeaderIs | src/xr_file_ini.cpp:7-16 | a kept line is a header exactly when it is `[s]` for some text s between the brackets, and names s |
| IniFile.SectionIs | src/xr_file_ini.cpp:35-43 | the section in force at a line is that of the nearest header above it, or the empty one |
| IniFile.Ini.Load | src/xr_file_ini.cpp:59-78 | the same for a whole file with its empty lines and comments |
| IniFile.LookupIsLastMatch | src/xr_file_ini.cpp:59-94 | after a load into an empty map a lookup finds val of the last line `name=val` below header `[section]` that is no comment and no header, and nothing otherwise |
| IniFile.HeaderAndLine | src/xr_file_ini.cpp:59-94 | a program: after loading `[section]` and a line `name=val`, get_str finds val |
| IniFile.FilterKeepsLastValue | src/xr_file_ini.cpp:64-75 | dropping empty lines and comments changes no lookup |
| IniFile.Ini.GetStr | src/xr_file_ini.cpp:80-94 | the value found, or the empty string |

## Left out

- Microsecond timers (`scan_micro`, `rm_all_micro`, src/xr_timer.cpp:60-94 and 121-141): one flat list, so only easier copies of what is proved for list 0.
- The forwarding methods of `timer_event_t` (src/xr_timer.cpp:205-246): each calls one modelled operation.
- Callbacks that remove other timers or change `expire`, and allocation failure.
- TimerHeap.TimerT.RmSec: does not model `free`; the node of a removed timer is unlinked with null links and stays an object.
- Clocks at or past 2^31 seconds, where the casts in the timer stop being exact, and overflow of `time_t`.
- Weak memory orderings in the ring and in the log; torn index accesses.
- RingSpsc.NextKeeps: one writer and one reader only, as the ring's header comment demands.
- RingBuf.Ring.Create: says nothing about the contents when a ring that holds bytes is given another size, where the masked positions change; new bytes of a grown buffer are zero instead of arbitrary.
- Message formatting, level filtering, terminal output, `init`, `boot`, thread start and stop of the log, and the variant of `write` without a log thread.
- LogRotation.RotatesRightIffBelow2To32: file names are represented by the bucket start and day they are made from, not as strings; `close` always succeeds.
- NextSecond.CalNextSecond: time zones whose offset changes, and years beyond the range of `tm_year`.
- NextSecond.CalNextSecondOnDay: signed overflow of `min * 60` and of `tm_mday`, for fields near the ends of `int`, which C++ leaves undefined; the sum of the fields is taken modulo 2^32 throughout.
- IniFile.Ini.Load: opening and reading the file; the integer and other typed getters of include/xr_file_ini.h.
- Sockets, multicast, pipes, file descriptors, the XML wrapper, random numbers, the tab-file parser and the append buffer: system-call plumbing or easier claims of the same kind.
