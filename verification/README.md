# Verification model

A model, in Dafny 4.11, of the parts of this home-automation firmware on which everything else rests
and that are hard to get right by testing: a crash-safe key/value store in flash, the kernel's timers,
co-routines and lists, the radio link, in-place list sorting, and several fast or concurrent forms of
simple computations. Check it with `dafny verify dfyconfig.toml`.

The code that works by changing things step by step is modelled that way: classes whose methods update
fields, arrays and linked nodes, with the loops of the original. Each method is proved against functions
on the state, and the promises are proved about those functions, over all inputs and whole runs.

## What is modelled

**Flash store** (`Flash`, `EepromLog`, `EepromSpec`, `EepromShape`, `EepromSafety`, `EepromRuns`,
`EepromDriver`). `nux/softeeprom/softeeprom.c` keeps an append-only log over a ring of flash pages.
Flash is pages of words with two atomic steps: program one erased word, erase one 1 KB block. Power can
fail between any two steps, also during start-up after a failure. `EepromSpec` says which steps each
operation takes; the driver class is proved to take exactly these; `EepromSafety` proves that every
prefix of them leaves an image from which start-up recovers the store before or the store after the
operation. Three boundaries are stated exactly. A clear survives every cut if and only if the active
page's counter is at least 1 (`ClearCrashAtomicIff`): the search for the most recently used page starts
its maximum at 0 and compares with `>`, so with counter 0 it finds nothing and a counter is read through
the pointer 0xFFFFFFFF. A write survives every cut if and only if it does not have to swap away from a
page with counter 0xFFFFFFFE (`WriteCrashAtomicIff`): the next counter would read as an erased word.
For the same reason a clear leaves the driver usable if and only if it does not start from that counter
(`ClearCompletes`).

**Kernel timers** (`TimerPlacement`, `TimerSpec`, `TimerSafety`, `TimerRuns`, `TimerTask`).
`timers.c` keeps two lists and compares 32-bit tick counts that wrap; the theorems are about unwrapped
time. Items and messages carry the unwrapped time they stand for as a record; no decision reads it.
`StartedTimerKeepsTime` is the main theorem about whole runs. `PlacementIff` gives the exact condition
under which placement is right; a command stamped after the time was sampled does not meet it, and
`EarlyIffAfterSample` shows that exactly such a command makes an early callback, `LateSampleFiresEarly`
a run in which it happens. `SampleKeepsOrderIff` is a second boundary: a list switch restarts a timer for
which a delete command is already waiting.

**Kernel lists** (`CursorRing`, `KernelList`). `list.c`: circular doubly linked lists with an end marker
and a round-robin cursor, on the heap, refining a sequence with a cursor.

**Co-routines** (`SeqSets`, `CoroutineSpec`, `CoroutineSafety`, `CoroutineSteps`, `CoroutineRuns`, `CoroutineTask`).
`croutine.c` as a state machine in which interrupts come in between any two of its steps; `Scheduler`
is the code, with interrupts served at every point that allows them, and its whole history is recorded
and proved to be a run of that machine. The code leaves `xLastTickCount` equal to its own counter rather
than to the kernel's tick count; both are equal then (`CheckDelayedList`).

**Radio link** (`SlinkProtocol`, `SlinkSafety`, `SlinkProgress`, `SlinkPacket`, `RingBuffer`, `SlinkEndpoint`).
`seriallink.c` over `ringbuf.c`: two symmetric endpoints, stop-and-wait with 8-bit sequence numbers over
channels that keep the order and lose packets. A frame that fails its CRC counts as lost. AES is a pair
of functions on 16-byte blocks, inverse to each other. `LinkDeliversPrefix` says that nothing wrong is
handed out, `EverythingArrives` that everything can still be.

**List sorting** (`ListOrder`, `ListSort`, `ListMerge`). `lists.c`: doubly linked lists with a head
node, merged, sorted, exchanged, joined and cut by relinking only.

**UART** (`UartRings`, `UartDriver`). `uart.c` with main code interruptible at every memory access.

**CRC** (`Crc16`, `CrcMessages`). `crc.c` with the configuration of `crc.h`: CRC-16, polynomial 0x8005,
start value 0, data and remainder reflected.

**Ethernet transmit** (`EthernetGather`). `low_level_transmit` of `LWIPStack.c`.

**Numbers** (`NumberText`, `NumberParse`, `NumberRoundTrip`). `number` and `ustrtoul` of `vstdlib.c`.

## Model

| member | source | states |
|---|---|---|
| Flash.Device.Program | nux/softeeprom/softeeprom.c:80-82 | programs one word, only if it is erased; the step is recorded |
| Flash.Device.Erase | nux/softeeprom/softeeprom.c:231-273 | erases one block of 1 KB; the step is recorded |
| Flash.RunPrefix | nux/softeeprom/softeeprom.c:65-84 | a prefix of a legal run is a legal run: what a power failure leaves behind |
| EepromLog.ViewAppend | nux/softeeprom/softeeprom.c:1313-1386 | appending an entry changes the store at that identifier and nowhere else |
| EepromLog.CompactKeepsNewest | nux/softeeprom/softeeprom.c:440-521 | compaction keeps the newest entry of every identifier not yet copied, and nothing else |
| EepromLog.CompactPreservesView | nux/softeeprom/softeeprom.c:440-521 | a compacted page stands for the same store |
| EepromLog.CompactSize | nux/softeeprom/softeeprom.c:440-521 | every identifier is copied at most once, so at most 255 entries are, each a legal entry of the page |
| EepromShape.MruIs | nux/softeeprom/softeeprom.c:847-895 | the search finds the used page with the highest counter if that is at least 1 |
| EepromShape.MruMissesZero | nux/softeeprom/softeeprom.c:862-879 | it finds nothing if every used page has counter 0 |
| EepromShape.EraseRun | nux/softeeprom/softeeprom.c:231-273 | erasing block by block is legal and leaves the page erased from there on |
| EepromShape.CopyRun | nux/softeeprom/softeeprom.c:294-337 | programming consecutive words of an erased range is legal and leaves exactly those words |
| EepromShape.InitNormal | nux/softeeprom/softeeprom.c:1086-1182 | with one active page start-up takes no flash step, finds that page and its free entry |
| EepromShape.InitTwoActive | nux/softeeprom/softeeprom.c:1188-1265 | with two active pages start-up continues on the full one, so the next write swaps again |
| EepromShape.InitCleared | nux/softeeprom/softeeprom.c:1025-1077 | with used pages only, start-up opens the successor of the newest |
| EepromShape.InitFresh | nux/softeeprom/softeeprom.c:965-1024 | on a blank region start-up opens page 0 with counter 0 |
| EepromShape.InitOutOfStep | nux/softeeprom/softeeprom.c:1104-1170 | a single active page out of step with the used page before it is erased and opened again with the next counter |
| EepromShape.InitErrors | nux/softeeprom/softeeprom.c:1188-1280 | three active pages, or two of which none is full, are reported as errors |
| EepromShape.InitWildIff | nux/softeeprom/softeeprom.c:1025-1045 | start-up reads through the wild pointer exactly if no page is active and all used pages have counter 0 |
| EepromSafety.CoversEveryCut | nux/softeeprom/softeeprom.c:364-609 | what Covers means: after every number of steps the image is good and holds one of the two stores |
| EepromSafety.SwapCovers | nux/softeeprom/softeeprom.c:364-609 | a page swap may be cut anywhere: the store never changes, and afterwards the copy is in service |
| EepromSafety.WriteIsCrashAtomic | nux/softeeprom/softeeprom.c:1313-1386 | between any two steps of a write, swap included, start-up recovers the store before or after it; complete, it is the store after |
| EepromSafety.WriteCrashAtomicIff | nux/softeeprom/softeeprom.c:1313-1386 | a write survives every cut if and only if it need not swap away from the last counter |
| EepromSafety.SwapAtLastCountIsLost | nux/softeeprom/softeeprom.c:544-577 | a swap away from counter 0xFFFFFFFE can lose the whole store |
| EepromSafety.ClearIsCrashAtomic | nux/softeeprom/softeeprom.c:1494-1570 | between any two steps of a clear start-up recovers the old store or the empty one, also from two active pages |
| EepromSafety.ClearCrashAtomicIff | nux/softeeprom/softeeprom.c:1494-1570 | that holds, at whatever counter, if and only if the active page's counter is at least 1 |
| EepromSafety.ClearAtZeroIsLost | nux/softeeprom/softeeprom.c:847-895 | with counter 0 a cut clear leaves an image on which start-up reads through a wild pointer |
| EepromSafety.ClearCompletes | nux/softeeprom/softeeprom.c:1494-1570 | an uncut clear leaves the empty store; RAM and flash agree afterwards if and only if the counter has a successor |
| EepromSafety.ClearAtLastCount | nux/softeeprom/softeeprom.c:965-1077 | a clear from the last counter may be cut anywhere, too |
| EepromSafety.InitIsCrashAtomic | nux/softeeprom/softeeprom.c:923-1296 | from any good image start-up ends without error and keeps the store, also when it is itself cut and rerun |
| EepromSafety.ShapeOfGood | nux/softeeprom/softeeprom.c:965-1285 | at most two pages are active; of two, one is full and its successor carries counter + 1; a used page before the page in service is in step, with one active page and with two |
| EepromRuns.EventIsAtomic | nux/softeeprom/softeeprom.c:923-1570 | any call or power failure leaves the device sound, with the store before it or the store it was to bring about |
| EepromRuns.RunIsAMap | nux/softeeprom/softeeprom.c:1313-1473 | over whole lives with resets the device is a map in which the last write that took effect wins |
| EepromRuns.BlankStart | nux/softeeprom/softeeprom.c:965-1024 | an erased region is a sound start with the empty store |
| EepromDriver.SoftEeprom.PageErase | nux/softeeprom/softeeprom.c:231-273 | takes exactly the erase steps of the page and leaves it blank |
| EepromDriver.SoftEeprom.PageDataWrite | nux/softeeprom/softeeprom.c:294-337 | programs exactly the words of the buffer, in order, and nothing else |
| EepromDriver.SoftEeprom.CopySurvivors | nux/softeeprom/softeeprom.c:404-541 | the batches of 6, then 32 words write all survivors, each once, in order, and never overrun the buffer |
| EepromDriver.SoftEeprom.PageSwap | nux/softeeprom/softeeprom.c:364-609 | takes exactly the steps of the specified swap and moves to the new page |
| EepromDriver.SoftEeprom.SoftEEPROMWrite | nux/softeeprom/softeeprom.c:1313-1386 | error codes; otherwise exactly the steps of a write, and the store has the new value |
| EepromDriver.SoftEeprom.SoftEEPROMClear | nux/softeeprom/softeeprom.c:1494-1570 | error code; otherwise exactly the steps of a clear, and the store is empty; the driver is usable afterwards if and only if the counter has a successor |
| EepromDriver.SoftEeprom.SoftEEPROMRead | nux/softeeprom/softeeprom.c:1411-1473 | error codes; otherwise the store's value, or 0xFFFF and not found |
| EepromDriver.SoftEeprom.SoftEEPROMInit | nux/softeeprom/softeeprom.c:923-1296 | does what the specified start-up does, on every image but those with the wild read; on good images it recovers the store |
| EepromDriver.SoftEeprom.GetActivePageCount | nux/softeeprom/softeeprom.c:695-728 | its 8-bit counter holds the number of active pages |
| EepromDriver.SoftEeprom.GetUsedPageCount | nux/softeeprom/softeeprom.c:740-773 | its 8-bit counter holds the number of used pages |
| EepromDriver.SoftEeprom.GetNextAvailEntry | nux/softeeprom/softeeprom.c:788-833 | finds the first erased entry, or the end of the page |
| EepromDriver.SoftEeprom.GetMostRecentlyUsedPage | nux/softeeprom/softeeprom.c:847-895 | finds what the specified search finds, or nothing |
| TimerPlacement.PlacementIff | nux/FreeRTOS/Source/timers.c:428-466 | placement is right for unwrapped time if and only if the command is not later than the sampled time |
| TimerPlacement.LateLooksExpired | nux/FreeRTOS/Source/timers.c:428-466 | a command later than the sample is taken to have expired, unless its timer falls due more than 2^32 ticks after the sample |
| TimerSpec.FlushHeadDecreases | nux/FreeRTOS/Source/timers.c:542-596 | each turn strictly lowers the sum of 2^32 minus item value over the list, so the list empties |
| TimerSafety.InsertTimerKeeps | nux/FreeRTOS/Source/timers.c:428-466 | insertion keeps each list sorted and in its epoch; it reports expiry exactly if the timer is due |
| TimerSafety.ExpireKeeps | nux/FreeRTOS/Source/timers.c:270-303 | processing an expired timer keeps the invariant; the callback is not early |
| TimerSafety.FlushKeeps | nux/FreeRTOS/Source/timers.c:556-595 | one turn of the switch loop keeps current-list items in the old epoch |
| TimerSafety.SwitchKeeps | nux/FreeRTOS/Source/timers.c:542-596 | the switch empties the old list first; afterwards both lists are in the right epochs |
| TimerSafety.SampleKeeps | nux/FreeRTOS/Source/timers.c:405-425 | sampling notices a wrap and keeps the invariant |
| TimerSafety.TakeKeeps | nux/FreeRTOS/Source/timers.c:469-539 | processing a command keeps the invariant |
| TimerSafety.StepKeeps | nux/FreeRTOS/Source/timers.c:306-539 | every step of the timer daemon keeps the invariant: sorted, one item per timer, right epochs, no callback early |
| TimerSafety.EarlyIffAfterSample | nux/FreeRTOS/Source/timers.c:469-504 | on every state of the daemon a start command makes an early callback if and only if it was issued after the sample it is processed with |
| TimerRuns.RunsAreNeverEarly | nux/FreeRTOS/Source/timers.c:306-539 | in every run from the start no callback is made before its unwrapped time |
| TimerRuns.LateSampleFiresEarly | nux/FreeRTOS/Source/timers.c:476-504 | a run from the start after which a 10 tick timer, commanded one tick after the sample, is called 11 ticks before it is due |
| TimerRuns.StartedTimerKeepsTime | nux/FreeRTOS/Source/timers.c:270-596 | in every run from the start, from the moment a command is taken that starts a timer at time C or gives it a new period then, and as long as clients leave it alone, its callbacks stand for exactly C+P, C+2P, ...; once the daemon has caught up, one for every period that has passed |
| TimerRuns.StoppedTimerIsSilent | nux/FreeRTOS/Source/timers.c:517-533 | in every run, once a command that stops or deletes a timer is taken, it makes no further callback as long as clients leave it alone |
| TimerRuns.ChangeIs | nux/FreeRTOS/Source/timers.c:522-526 | a new period is kept and counts from the sample: the timer is in exactly one list, due at last + P; the reload flag stays and no callback is made |
| TimerRuns.StopIs | nux/FreeRTOS/Source/timers.c:480-533 | a timer that is stopped or deleted is in no list; nothing else changes |
| TimerRuns.ChainBegins | nux/FreeRTOS/Source/timers.c:488-504 | taking a start command begins the timer's chain of expiries, whatever it did before |
| TimerRuns.RunsDoNotDrift | nux/FreeRTOS/Source/timers.c:270-596 | over any run that leaves the timer alone the chain goes on: no expiry is skipped, doubled or displaced |
| TimerRuns.CaughtUpIsExact | nux/FreeRTOS/Source/timers.c:330-376 | once the daemon has caught up the number of callbacks is the number of periods that have passed |
| TimerRuns.StepKeepsChain | nux/FreeRTOS/Source/timers.c:270-596 | no step but a client's command for the timer breaks the chain of its expiries |
| TimerTask.DrainKeeps | nux/FreeRTOS/Source/timers.c:469-539 | draining the queue with one sample keeps the invariant and ends with an empty queue |
| TimerTask.DrainIsARun | nux/FreeRTOS/Source/timers.c:469-539 | draining is a run of single commands, so the run theorems cover it |
| TimerTask.SampleKeepsOrderIff | nux/FreeRTOS/Source/timers.c:556-591 | if nothing was overdue at the previous sample, the restart commands of the list switch are in time, and the queue can be drained if and only if none of the timers restarted has a delete command waiting |
| TimerTask.DeletedTimerIsRestarted | nux/FreeRTOS/Source/timers.c:530-591 | otherwise a start command is processed for a timer that has been deleted |
| TimerTask.TimerService.InsertTimerInActiveList | nux/FreeRTOS/Source/timers.c:428-466 | computes the specified insertion and the specified result |
| TimerTask.TimerService.ProcessExpiredTimer | nux/FreeRTOS/Source/timers.c:270-303 | calls and reloads the head timer as specified |
| TimerTask.TimerService.SwitchTimerLists | nux/FreeRTOS/Source/timers.c:542-596 | terminates and computes the specified switch |
| TimerTask.TimerService.SampleTimeNow | nux/FreeRTOS/Source/timers.c:405-425 | reports a switch exactly if the counter has wrapped since the last sample |
| TimerTask.TimerService.ProcessTimerOrBlockTask | nux/FreeRTOS/Source/timers.c:330-376 | processes the head timer exactly if it is due and no switch happened |
| TimerTask.TimerService.ProcessReceivedCommands | nux/FreeRTOS/Source/timers.c:469-539 | samples once and drains the queue as specified; terminates |
| CursorRing.InsertEndIsLast | nux/FreeRTOS/Source/list.c:96-116 | after vListInsertEnd the new item is the last one the round-robin cursor reaches |
| CursorRing.RemoveKeepsOrder | nux/FreeRTOS/Source/list.c:176-195 | after vListRemove the cursor neither skips nor repeats a remaining item |
| CursorRing.InsertKeepsOrder | nux/FreeRTOS/Source/list.c:119-173 | a sorted insertion leaves the cursor's order of all other items unchanged |
| CursorRing.AdvanceRotates | nux/FreeRTOS/Source/include/list.h:196-208 | the macro delivers the next item of the round and moves it to the end |
| CursorRing.RoundIsFair | nux/FreeRTOS/Source/include/list.h:178-208 | n calls deliver the next n items in order, so a round delivers every item once |
| CursorRing.PlaceKeepsSorted | nux/FreeRTOS/Source/list.c:126-159 | insertion keeps the values ascending, behind all equal ones: first in, first out |
| CursorRing.PlaceOfGreatest | nux/FreeRTOS/Source/list.c:133-136 | the branch for portMAX_DELAY chooses the place the loop would |
| KernelList.List.constructor | nux/FreeRTOS/Source/list.c:67-86 | an empty ring with the cursor on the end marker |
| KernelList.List.InsertEnd | nux/FreeRTOS/Source/list.c:96-116 | refines the insertion behind the cursor; links, container and count are right |
| KernelList.List.Insert | nux/FreeRTOS/Source/list.c:119-173 | refines the sorted insertion, for every value up to portMAX_DELAY; the loop terminates |
| KernelList.List.FindPlace | nux/FreeRTOS/Source/list.c:155-159 | the search stops behind the last value that is not greater, at the end marker at the latest |
| KernelList.List.Next | nux/FreeRTOS/Source/include/list.h:196-208 | delivers the next item, never the end marker |
| KernelList.Remove | nux/FreeRTOS/Source/list.c:176-195 | refines removal, the cursor stepping back from the removed item |
| CoroutineSteps.DelayPlacedIff | nux/FreeRTOS/Source/croutine.c:188-223 | a delay goes to the list of the epoch in which it ends, and ends in the future if and only if it is at least one tick |
| CoroutineSteps.DelayedEmptyAtWrap | nux/FreeRTOS/Source/croutine.c:260-270 | the delayed list is empty whenever the counter wraps to 0 |
| CoroutineSteps.ExpireIsExact | nux/FreeRTOS/Source/croutine.c:272-301 | a co-routine is readied by timeout in the very tick its wake time names |
| CoroutineSteps.StepKeeps | nux/FreeRTOS/Source/croutine.c:188-379 | every step of main code or interrupt keeps the invariant |
| CoroutineSteps.RunKeeps | nux/FreeRTOS/Source/croutine.c:188-379 | so does every interleaving |
| CoroutineSteps.ExactlyOneList | nux/FreeRTOS/Source/croutine.c:73-80 | exactly one of the ready, delayed and overflow lists holds a co-routine that is not just being moved |
| CoroutineSteps.ChoosesHighest | nux/FreeRTOS/Source/croutine.c:307-334 | the chosen co-routine is ready, none of higher priority is, and it is its turn among its equals; with none ready nothing changes |
| CoroutineSteps.RunsAreExact | nux/FreeRTOS/Source/croutine.c:188-379 | from the start, over every run: all timeouts were exact and nobody waits past its time |
| CoroutineSteps.EventOut | nux/FreeRTOS/Source/croutine.c:282-297 | the event item is in the list it names, also when an interrupt has moved it to the pending list |
| CoroutineSteps.NobodyFallsBack | nux/FreeRTOS/Source/croutine.c:226-379 | in every step but its own delay, a co-routine that is ready stays ready, and one that an interrupt has readied stays on its way to the ready list |
| CoroutineRuns.DelayIs | nux/FreeRTOS/Source/croutine.c:188-223 | a delay of k ticks puts the co-routine into exactly one delay list, due in exactly k ticks, and its event item into the list named |
| CoroutineRuns.DelayEndsOnTime | nux/FreeRTOS/Source/croutine.c:188-304 | over every run a delay of k ticks that no event cuts short ends after exactly k ticks: until then the co-routine sleeps, then it is woken at that very time |
| CoroutineRuns.ReadyIsLast | nux/FreeRTOS/Source/croutine.c:96-103 | a co-routine that becomes ready is the last of its priority in the round |
| CoroutineRuns.CreateIs | nux/FreeRTOS/Source/croutine.c:130-185 | a new co-routine gets the priority asked for or the highest there is, and is ready, the last in the round |
| CoroutineRuns.SignalIs | nux/FreeRTOS/Source/croutine.c:357-379 | an event moves the first waiter, and no other, to the end of the pending list |
| CoroutineRuns.MostUrgentFirst | nux/FreeRTOS/Source/croutine.c:170-171 | the first waiter of an event list has the highest priority among its waiters |
| CoroutineTask.TraceTells | nux/FreeRTOS/Source/croutine.c:188-379 | the recorded steps determine the state, so a method that records a step has taken exactly that step |
| CoroutineTask.Scheduler.RemoveFromEventList | nux/FreeRTOS/Source/croutine.c:357-379 | the first waiter moves to the end of the pending list; the result compares the priorities |
| CoroutineTask.Scheduler.CheckPendingReadyList | nux/FreeRTOS/Source/croutine.c:226-246 | terminates with the pending list empty and every co-routine that was in it ready; all it and the interrupts did is a run of the machine |
| CoroutineTask.Scheduler.CheckDelayedList | nux/FreeRTOS/Source/croutine.c:249-304 | the counter catches up with the kernel's tick count, across the wrap; all is a run of the machine |
| CoroutineTask.Scheduler.Schedule | nux/FreeRTOS/Source/croutine.c:307-334 | whoever was ready or had been readied by an interrupt takes part; the co-routine to run is ready and none of higher priority is; none runs exactly if none is ready |
| CoroutineTask.Scheduler.AddToDelayedList | nux/FreeRTOS/Source/croutine.c:188-223 | the running co-routine sleeps for exactly the ticks asked for and waits in the event list named |
| CoroutineTask.Scheduler.Create | nux/FreeRTOS/Source/croutine.c:130-185 | the new co-routine is ready, with the priority cut to the highest there is |
| SlinkSafety.LinkDeliversPrefix | lib/seriallink/seriallink.c:290-476 | after any interleaving of puts, polls, deliveries, gets and losses each side's bytes are a prefix of what the other's slink_put accepted |
| SlinkProgress.EverythingArrives | lib/seriallink/seriallink.c:290-476 | the link never gets stuck: from every state of the two sides there is a run of polls, deliveries and gets after which each has handed out all the other accepted |
| SlinkProgress.SendAndAck | lib/seriallink/seriallink.c:418-464 | a packet on its way, new or repeated, is acknowledged, and then the next one can go |
| SlinkProgress.PollUntilResent | lib/seriallink/seriallink.c:290-310 | an outstanding packet is repeated after exactly as many polls as its timeout says |
| SlinkProgress.AckClears | lib/seriallink/seriallink.c:424-431 | an acknowledgement ends the transmission if and only if it is for the packet being sent |
| SlinkProgress.DataIsAcknowledged | lib/seriallink/seriallink.c:436-464 | every data packet that arrives is acknowledged, new or repeated |
| SlinkProtocol.FlushIs | lib/seriallink/seriallink.c:290-330 | flush counts down and repeats an outstanding packet; otherwise it sends as many waiting bytes as one packet takes |
| SlinkProtocol.PutIs | lib/seriallink/seriallink.c:466-472 | a byte is accepted exactly if the ring has room; a full payload goes out at once unless a packet is outstanding |
| SlinkSafety.SequenceTestsAgree | lib/seriallink/seriallink.c:418-464 | the tests on 8-bit numbers decide what unbounded packet counters would |
| SlinkSafety.StepKeeps | lib/seriallink/seriallink.c:290-476 | every step of either endpoint keeps the invariant of both directions |
| SlinkSafety.RoomIff | lib/seriallink/seriallink.c:446-464 | a new packet is taken over whole if and only if it fits into the receive ring; otherwise its rest is lost though acknowledged |
| SlinkPacket.RoundTrip | lib/seriallink/seriallink.c:240-288 | a packet within the limit takes at most 63 bytes on the air, and the other side reads the same length, number and data, plain or encrypted |
| SlinkPacket.WireFormat | lib/seriallink/seriallink.c:240-288 | on the air are the sequence number and the data, or whole blocks that decrypt to length, sequence number and data |
| SlinkPacket.RejectedIff | lib/seriallink/seriallink.c:360-367 | a frame is rejected exactly for a length of 0 or above 63 |
| SlinkPacket.BlockwiseInverse | lib/seriallink/seriallink.c:240-262 | decrypting block by block undoes encrypting block by block |
| SlinkPacket.Apkt.Send | lib/seriallink/seriallink.c:240-288 | encrypts only once, so a repeated transmission sends the same bytes; a packet that is too long is not sent |
| SlinkPacket.Apkt.Recv | lib/seriallink/seriallink.c:332-416 | fills the structure from a frame as specified and rejects the lengths it must |
| RingBuffer.MaskIsMod | lib/seriallink/ringbuf.c:53-106 | masking with size - 1 is the remainder |
| RingBuffer.RingBuf.Put | lib/seriallink/ringbuf.c:53-70 | appends a byte if there is room for it, which is for one less than the size |
| RingBuffer.RingBuf.Get | lib/seriallink/ringbuf.c:73-94 | removes the oldest byte, or returns -1 |
| RingBuffer.RingBuf.Elements | lib/seriallink/ringbuf.c:103-106 | the number of bytes in the ring |
| SlinkEndpoint.Endpoint.Flush | lib/seriallink/seriallink.c:290-330 | computes the specified flush; what goes on the air carries that packet, and a retransmission is the first frame byte for byte |
| SlinkEndpoint.Endpoint.Put | lib/seriallink/seriallink.c:466-472 | computes the specified put |
| SlinkEndpoint.Endpoint.Get | lib/seriallink/seriallink.c:474-476 | hands out the oldest byte taken, or -1 |
| SlinkEndpoint.Endpoint.Receive | lib/seriallink/seriallink.c:418-464 | the matching acknowledgement ends the transmission; a new packet fills the ring as far as there is room; new and repeated packets are acknowledged, others ignored |
| ListOrder.MergeMultiset | nux/utils/lists.c:369-397 | merging keeps exactly the nodes of both ranges |
| ListOrder.MergeSorted | nux/utils/lists.c:369-397 | merging two sorted ranges gives a sorted one |
| ListOrder.MergeSortCorrect | nux/utils/lists.c:412-430 | the recursion gives a sorted permutation of the same nodes |
| ListSort.MergeSortedSublists | nux/utils/lists.c:369-397 | in the heap: exactly the two ranges are merged, everything else keeps its place, links and head are right, the result is the new last node |
| ListSort.MergesortIntern | nux/utils/lists.c:414-427 | sorts exactly its range in place and returns its last node; terminates on the size |
| ListSort.MergesortList | nux/utils/lists.c:412-430 | a sorted permutation of the same nodes; prev mirrors next, and the head's prev is the last node |
| ListSort.SwapListElements | nux/utils/lists.c:440-471 | exchanges two nodes in place, neighbours and one-apart nodes in either order included |
| ListSort.BubblesortList | nux/utils/lists.c:479-493 | meets the specification of mergesort_list |
| ListSort.ConcatLists | nux/utils/lists.c:282-290 | the nodes of the second list follow those of the first |
| ListSort.SpliceList | nux/utils/lists.c:300-314 | cuts a list in two; both halves are well-formed lists |
| ListMerge.ZipMultiset | nux/utils/lists.c:325-348 | merging whole lists, with the lists changing roles, keeps exactly their nodes |
| ListMerge.ZipSorted | nux/utils/lists.c:325-348 | two sorted lists give a sorted list |
| ListMerge.MergeSortedLists | nux/utils/lists.c:325-348 | in the heap: one well-formed list of exactly the nodes of both, sorted if both were |
| UartRings.MaskIsAfter | SD0/Firmware_common/uart.c:50-51 | masking the incremented index is wrapping at the size |
| UartRings.ReceiveKeeps | SD0/Firmware_common/uart.c:259-299 | the receive interrupt never overwrites the slot main code is about to read, although the tail has passed it |
| UartRings.TransmitKeeps | SD0/Firmware_common/uart.c:302-321 | the transmit interrupt sends the oldest byte and disables itself only on an empty ring |
| UartRings.StepKeeps | SD0/Firmware_common/uart.c:259-453 | every memory access of main code and every interrupt keeps the invariant |
| UartRings.StreamsAreFaithful | SD0/Firmware_common/uart.c:259-453 | over every run, wherever main code is: the bytes accepted are exactly those that arrived while the ring had room, both streams keep their order without loss or doubling, and a non-empty transmit ring has its interrupt enabled except while uart_putc is about to enable it |
| UartRings.ReceiveIs | SD0/Firmware_common/uart.c:259-299 | with room the byte joins the ring as the newest and its status is kept; without, it is lost and the overflow flagged |
| UartRings.TransmitIs | SD0/Firmware_common/uart.c:302-321 | the oldest byte of a non-empty ring is sent and the interrupt stays enabled; on an empty one it disables itself |
| UartRings.NoDataIff | SD0/Firmware_common/uart.c:414-416 | uart_getc reports no data if and only if the ring was empty when it looked, whatever comes in between its two reads |
| UartRings.WaitIsServed | SD0/Firmware_common/uart.c:443-445 | a uart_putc that waits for room is served by an enabled interrupt that makes room |
| UartDriver.Driver.ReceiveInterrupt | SD0/Firmware_common/uart.c:259-299 | on the arrays: the byte is stored behind the others, or lost with the overflow flagged exactly if the ring is full |
| UartDriver.Driver.TransmitInterrupt | SD0/Firmware_common/uart.c:302-321 | sends the oldest byte and returns it, or disables itself on an empty ring |
| UartDriver.Driver.Getc | SD0/Firmware_common/uart.c:408-427 | interrupted at every access it returns the oldest byte not yet returned with the last error in the high byte, or no data exactly if there is none at the call |
| UartDriver.Driver.Putc | SD0/Firmware_common/uart.c:436-453 | interrupted at every access it appends the byte to the stream to be sent, and leaves it served |
| Crc16.BitsLinear | nux/utils/crc.c:112-128 | dividing is linear over exclusive or |
| Crc16.LookupIsEight | nux/utils/crc.c:211-233 | one table lookup is eight shift-and-xor steps, for every remainder and byte |
| Crc16.Reflect | nux/utils/crc.c:56-80 | computes the specified mirror image |
| Crc16.ReflectTwice | nux/utils/crc.c:56-80 | reflecting 8 or 16 bits reverses their order; doing it twice gives them back |
| CrcMessages.CrcSlow | nux/utils/crc.c:94-136 | computes the checksum of the message |
| CrcMessages.CrcInit | nux/utils/crc.c:155-197 | fills the table with the remainder of every byte |
| CrcMessages.CrcFast | nux/utils/crc.c:211-233 | with that table it computes the same checksum as crcSlow for every message |
| CrcMessages.DetectsDamage | nux/utils/crc.c:94-136 | any damage confined to two neighbouring bytes changes the checksum |
| CrcMessages.ChecksumCancels | nux/utils/crc.c:94-136 | every message followed by its own checksum, low byte first, has the checksum 0 |
| CrcMessages.CheckValue | nux/utils/crc.h:51 | the checksum of the digits 1 to 9 is the stated check value 0xBB3D |
| EthernetGather.SplitValue | nux/LWIPStack.c:396-399 | the bytes of a gathered word are the bytes that were put into it, lowest first |
| EthernetGather.FlatBytes | nux/LWIPStack.c:396-463 | the bytes that go out of the FIFO are those of its words, lowest first |
| EthernetGather.Mac.FillUp | nux/LWIPStack.c:408-431 | bytes of a segment complete a partly filled word; nothing is lost, whatever the segment's length |
| EthernetGather.Mac.CopyWords | nux/LWIPStack.c:433-445 | whole words go straight to the FIFO, never past the end of the segment |
| EthernetGather.Mac.KeepRest | nux/LWIPStack.c:447-459 | the rest of the segment waits in the gather register |
| EthernetGather.Mac.Gather | nux/LWIPStack.c:396-463 | for every chain the FIFO gets the concatenated payload followed by zeros, in exactly floor(n/4) + 1 words |
| EthernetGather.Mac.Transmit | nux/LWIPStack.c:366-473 | link down: nothing is sent; otherwise the length header is stored and the whole packet is sent |
| NumberText.Number | nux/utils/vstdlib.c:40-103 | for every base, width, precision and flags the buffer receives exactly the specified text, limited as the code limits it, and nothing else changes |
| NumberText.FewDigits | nux/utils/vstdlib.c:41-76 | the digits of a 32-bit number fit into the temporary buffer |
| NumberParse.CutoffIff | nux/utils/vstdlib.c:349-377 | the test against cutoff and cutlim decides exactly whether the next value overflows |
| NumberParse.Ustrtoul | nux/utils/vstdlib.c:313-388 | the value of the digits and their end; ULONG_MAX exactly on overflow, with the end at the digit that is too much; nothing without a digit |
| NumberParse.ReadsDecimal | nux/utils/vstdlib.c:319-347 | base 0: behind white space and sign, a number that does not begin with 0 is decimal |
| NumberParse.ReadsOctal | nux/utils/vstdlib.c:319-347 | base 0: a number that begins with 0, with no x behind it, is octal |
| NumberParse.ReadsHex | nux/utils/vstdlib.c:319-344 | base 0 or 16: behind 0x or 0X it is hexadecimal |
| NumberParse.ReadsInBase | nux/utils/vstdlib.c:319-347 | any other base is the one asked for |
| NumberRoundTrip.DigitsBack | nux/utils/vstdlib.c:72-76 | the printed digits stand for the number |
| NumberRoundTrip.RoundTrip | nux/utils/vstdlib.c:313-388 | printing and parsing in the same base is the identity on 32-bit values, for all flags, widths and precisions, and stops behind the digits |
| NumberRoundTrip.RoundTripWithoutBase | nux/utils/vstdlib.c:313-388 | octal and hexadecimal with their prefixes, and decimal without leading zeros, are read back with base 0 |
| NumberRoundTrip.TextWidth | nux/utils/vstdlib.c:40-103 | without a limit the text is as wide as the field or as the number needs, with the blanks on the side the flags name |
| NumberRoundTrip.TextFront | nux/utils/vstdlib.c:50-96 | the sign asked for comes first, then the prefix, then the zeros that fill the field |
| NumberRoundTrip.DigitsCase | nux/utils/vstdlib.c:43-46 | letters are all capital or all small, as the flag says |
| NumberText.FitIs | nux/utils/vstdlib.c:38 | the output is cut off exactly where the counter reaches the limit |

## Left out

- Flash failures and torn steps: FlashProgram and FlashErase always succeed, and a step is done or not done; the recovery code does not handle every half-finished step.
- The flash region is a field of sequence type in `Device`: what is not captured is aliasing of flash with other memory.
- Parameter checks of SoftEEPROMInit (ERR_RANGE and the alignment tests): the geometry is a precondition.
- EepromDriver.SoftEeprom.SoftEEPROMInit: does not start from an image with the wild read, because what that read returns is not determined; InitIsCrashAtomic and ClearCrashAtomicIff say exactly when such an image can arise.
- EepromRuns.RunIsAMap: runs stop short of a swap away from counter 0xFFFFFFFE (WriteCrashAtomicIff), of a cut clear at counter 0 (ClearCrashAtomicIff) and of a clear at counter 0xFFFFFFFE (ClearCompletes), the three cases for which those lemmas give the exact conditions.
- Regions of more than 255 pages, in which the 8-bit page counters could wrap: they would be larger than the flash.
- TimerTask.TimerService.ProcessReceivedCommands: no client adds a command while it drains the queue; commands that arrive in between are covered by the Arrive step of the run theorems. The queue is in order when it is called: SampleKeepsOrderIff says exactly when the list switch leaves it so.
- Timer commands that are processed before their own time or 2^32 ticks after it: PlacementIff shows that the first cannot be allowed. The command queue does not fill up.
- Callbacks of timers that themselves call the timer interface, and blocking of the timer task.
- Co-routine functions themselves, memory allocation, and delays of 0 ticks, which the macros and the queue code never pass on.
- CoroutineTask.Scheduler: the delay and event lists are fields of sequence type with the operations of `CursorRing`; the links of the heap are in `KernelList`.
- CoroutineRuns.MostUrgentFirst: for at most six co-routine priorities, so that configMAX_PRIORITIES minus a priority does not wrap; the configuration has two.
- The choice of a co-routine is one step: interrupts touch nothing that it reads.
- slink_init during operation, key changes between transmissions of one packet, slink_avail (it reports one byte more than the ring takes), and the radio itself.
- SlinkEndpoint.Endpoint.Receive: does not take an encrypted frame that decrypts to a length beyond the structure; frames of a peer with the same key never do.
- `malloc` and `free` in lists.c: new heads are fresh nodes, and freed heads are no longer mentioned.
- uart_init, uart_puts, the second UART, and the error bits of the status register: a status byte is passed through.
- UartDriver.Driver.Putc: needs a transmit ring of at least two slots; one of a single slot never has room.
- UartDriver.Driver.AwaitRoom: polls between two interrupts read the same tail, so one turn stands for all polls up to the next transmit interrupt.
- Other CRC configurations of crc.h.
- EthernetGather.Mac.Transmit: the first segment holds at least the two bytes of the length header, as the stack's padding guarantees.
- uvsnprintf around `number`: the count is passed by value, so its size limit is not a property the code keeps.
- USB, LUFA and CDC code, descriptors, GPIO, I2C, SPI, console, web server, bootloaders, TUL: hardware plumbing, user interfaces and flat dispatchers that would add only easy members.
