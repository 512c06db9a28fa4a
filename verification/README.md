# Verified model of the base library

This project models the state-keeping parts of the library in Dafny and proves what they are
for.  Code that works in place is modelled in place: `BaseMem.Heap` writes block headers,
`TimerWheel.Wheel` relinks real ring nodes, `CommandShell.Session`, `FilterChain.Printer` and
`LineEditor.LineBuffer` update their fields, and loops are loops.  Beside each of them stands a
specification on values, and the theorems are about that specification, for every input, every
run or every interleaving.

| files | what they are about |
|---|---|
| `FreeSpace`, `PoolModel`, `BaseMem` | the first-fit, coalescing allocator of `src/linux/base_mem.c` |
| `WheelModel`, `TickWalk`, `TimerWheel` | the hashed timer wheel of `src/timer/base_timer.c` |
| `TickDriver` | the conversion of clock readings to ticks in `src/timer/base_mgmt.c` |
| `EventFlags` | the event flags of a task in `src/linux/base_event.c` |
| `Words`, `Commands`, `Lookup`, `CommandShell`, `Registry` | command lines, abbreviations, command lookup and registration in `src/cli/base_cli_lib.c` |
| `Filters`, `FilterChain` | the output filters of the same file |
| `LineEditor` | the line buffer of its input loop |

`dafny verify dfyconfig.toml` checks everything.

**Allocator.**  The free list is not part of the specified state: it is the list of gaps between
the live blocks, and `Tiling` shows that nothing else can tile the arena with them.  The heap
stores headers in a map from addresses and is proved to keep its linked list equal to those
gaps through every split and fusion.  Order independence of frees, full recovery, conservation
and the low-water mark follow for every run.

**Timer wheel.**  The specification is a queue of running timers with the ticks each still has to
wait.  The class has spokes with sentinels, two links and a rotation count per timer.  The walk
of a spoke may append to the very ring it walks; `TickWalk` gives its state after every round
and so its end.  The header comment of `stw_timer_start` promises expiry after the delay.  The
code waits one turn of the wheel longer when the number of ticks is a multiple of the wheel
size, because the displacement is then 0 and the rotation count already counts the turn.  The
model follows the code: `StartOnTime` and `RestartOnTime` say exactly when this happens.  For
every delay and period, `EveryTickCounts` balances the ticks passed over a whole run against the
periods and the extra turns.

**Event flags.**  Every call is cut at lock, update, signal, wait and unlock, and a run is any
interleaving of any number of senders with the receiver, with spurious wake-ups.  Besides safety,
`RunServes` ties every party to the last call it made, so that a blocking receive is never
refused and a non-blocking one never sleeps, and `PendingIsDelivered` shows that a waiting
receiver and a pending bit can always come together.

**Command line.**  `Words` gives the grammar that the tokenizer's loop implements, including that
a quote inside a word, or a quote of the other kind inside a quoted word, makes it forget the
text before.  `Lookup` takes a line from its characters to the callback.  `SessionRoundTrip`
says, for every state of every session, that the printed name of a command leads back to it,
and `RegisteredRoundTrip` says it for every tree that can be registered.  `SessionAllows` is the
other half: nothing is ever run that the mode and the privilege of the session at that moment do
not allow.  The limits and codes
of the missing header `libcli.h` (`MODE_ANY`, `MODE_CONFIG`, `CLI_MAX_*`) are symbolic; so are
the `STW_*` limits of `stw_timer.h`.

Inputs from outside are parameters: the placement and contents of memory, clock readings,
callbacks (a log entry, a given result and their changes of mode and privilege), regular
expressions (any predicate), and the result of setting up the filters of a line.

## Model

| member | source | states |
|---|---|---|
| FreeSpace.FreeListUnique | src/linux/base_mem.c:55-106 | for placed live blocks, a list tiles the rest of the arena in ascending order without touching blocks if and only if it is the list of maximal gaps |
| FreeSpace.GapsCover | src/linux/base_mem.c:55-106 | every byte of the arena lies in exactly one live block or one gap, and no byte outside does |
| FreeSpace.FuseGaps | src/linux/base_mem.c:67-105 | removing a live block fuses it with exactly the gaps it touches: below, above, both or neither |
| FreeSpace.GapsTotal | src/linux/base_mem.c:154 | the sizes of gaps and live blocks add up to the arena |
| PoolModel.RoundedBounds | src/linux/base_mem.c:184-188 | the rounded size is the least multiple of 128 that holds request and header, and 8-aligned |
| PoolModel.FirstFit | src/linux/base_mem.c:199-205 | the chosen index is that of the first free block large enough; every earlier one is too small |
| PoolModel.MallocValid | src/linux/base_mem.c:164-239 | a request, granted or not, keeps the pool sound: blocks placed, at least 128 bytes, 8-aligned |
| PoolModel.FreeValid | src/linux/base_mem.c:241-279 | a free, of whatever pointer, keeps the pool sound and never lowers the free bytes |
| PoolModel.Conservation | src/linux/base_mem.c:221-229 | free bytes plus live bytes are always the size of the arena |
| PoolModel.Tiling | src/linux/base_mem.c:55-106 | in a sound pool the free list is the one and only ascending, non-touching list that tiles the arena together with the live blocks |
| PoolModel.PayloadsDisjoint | src/linux/base_mem.c:209 | no byte belongs to the payloads of two live blocks |
| PoolModel.HeadersClearOfPayloads | src/linux/base_mem.c:209-229 | no header of a live block, a free block or the end marker reaches into a payload |
| PoolModel.MallocRefuses | src/linux/base_mem.c:180-232 | malloc returns NULL if and only if the size is 0, has the top bit, or no single free block holds the rounded size; then nothing changes; the test against the counter refuses nothing that could be granted |
| PoolModel.MallocFits | src/linux/base_mem.c:184-219 | a granted block is 8-aligned, live, holds the request with its header, and is at most 255 bytes larger |
| PoolModel.MallocAdds | src/linux/base_mem.c:207-230 | the granted block is new, and every other live block keeps its place and size |
| PoolModel.MallocFirstFit | src/linux/base_mem.c:199-209 | the pointer comes from the lowest-addressed free block that is large enough |
| PoolModel.MallocSplits | src/linux/base_mem.c:184-219 | the free block is split exactly when it exceeds the least multiple of 128 bytes for request and header by more than 128; then the request takes that multiple, otherwise the whole block |
| PoolModel.MallocLimits | src/linux/base_mem.c:180-199 | a request is granted only for at least one byte and less than 2147483648 |
| PoolModel.FreeUndoesMalloc | src/linux/base_mem.c:164-279 | freeing what malloc just returned restores live blocks and free list |
| PoolModel.RunValid | src/linux/base_mem.c:164-279 | every state of every run of requests and frees is sound, over an arena that never changes |
| PoolModel.RunBlocks | src/linux/base_mem.c:164-279 | in every state of every run every block, live or free, lies in the arena, is 8-aligned and has at least 128 bytes |
| PoolModel.LowWaterMark | src/linux/base_mem.c:223-226 | the minimum counter is the least number of free bytes over all states of the run, and is reached in one of them |
| PoolModel.FreeRemoves | src/linux/base_mem.c:241-279 | a free makes exactly the named block free, and a pointer that names none changes nothing |
| PoolModel.FreesLeave | src/linux/base_mem.c:241-279 | after any series of frees exactly the blocks not named in it are live |
| PoolModel.FreeListCanonical | src/linux/base_mem.c:67-105 | runs that leave the same blocks live leave the same free list; if none is live it is the single initial block |
| PoolModel.FreeOrder | src/linux/base_mem.c:241-279 | blocks may be freed in any order, with repetitions: the resulting pools are equal |
| BaseMem.Heap.constructor | src/linux/base_mem.c:109-160 | alignment at both ends of the static array, the sentinels and the single free block; both counters start at its size |
| BaseMem.Heap.FindBefore | src/linux/base_mem.c:60-65 | the iteration stops at the last list node below the block |
| BaseMem.Heap.LinkAfter | src/linux/base_mem.c:67-105 | the branches of the insertion as one function of the headers |
| BaseMem.Heap.Insert | src/linux/base_mem.c:55-106 | afterwards the headers spell the list with the block fused in, and only two headers were written |
| BaseMem.InsertedList | src/linux/base_mem.c:67-105 | the headers written by the insertion link exactly the fused list, whichever neighbours touch |
| BaseMem.Heap.FindFit | src/linux/base_mem.c:199-205 | the walk ends at the first block that fits, or at the end marker, with its predecessor |
| BaseMem.Heap.Detach | src/linux/base_mem.c:210-219 | the block leaves the list, and a surplus of more than 128 bytes becomes a block of its own |
| BaseMem.Heap.SplitOff | src/linux/base_mem.c:213-218 | a block is cut in two and the rest is linked in |
| BaseMem.Heap.Carve | src/linux/base_mem.c:209-229 | counter, low-water mark, list and mark of a granted block change as in the model |
| BaseMem.Heap.MarkAllocated | src/linux/base_mem.c:228-229 | top bit and NULL link make the block live; all other marks survive |
| BaseMem.RoundingIsExact | src/linux/base_mem.c:184-195 | with 32-bit wrap-around the two-step rounding is the least multiple of 128, so the early return for a failed rounding is dead |
| BaseMem.Heap.RoundUp | src/linux/base_mem.c:180-195 | the size computed in 32 bits is the rounded size, or 0 for 0 |
| BaseMem.Heap.Grant | src/linux/base_mem.c:197-232 | first fit on the real list, and no grant when the counter is too small |
| BaseMem.Heap.Malloc | src/linux/base_mem.c:164-239 | does to the pool what the model does, for every 32-bit size; writes only headers of blocks of the pool before or after |
| BaseMem.Heap.Free | src/linux/base_mem.c:241-279 | does to the pool what the model does; NULL and headers that do not read as allocated change nothing; afterwards the header does not read as allocated |
| BaseMem.Heap.GiveBack | src/linux/base_mem.c:266-272 | clearing the mark, counting and inserting frees exactly that block |
| BaseMem.Heap.Reinsert | src/linux/base_mem.c:269-270 | insertion restores the list of the model and keeps the marks of all other live blocks |
| BaseMem.Heap.Unmark | src/linux/base_mem.c:266 | clearing the top bit gives the size back and disturbs no list |
| BaseMem.Heap.FreeTwice | src/linux/base_mem.c:251-260 | an immediately repeated free leaves the memory exactly as the first left it |
| BaseMem.Heap.StoreInPayload | src/linux/base_mem.c:209 | whatever a client writes behind its header leaves the allocator intact |
| BaseMem.Heap.FreeSizeGet | src/linux/base_mem.c:45-48 | the counter is the sum of the free list and the arena less the live bytes |
| BaseMem.Heap.MinUsedSizeGet | src/linux/base_mem.c:50-53 | the counter is the low-water mark and never above the free bytes |
| BaseMem.WritesClearOfPayloads | src/linux/base_mem.c:164-279 | no header written by malloc or free lies in the payload of a block live before and after the call |
| WheelModel.Ticks | src/timer/base_timer.c:140-151 | the number of whole granules in a delay, at least one |
| WheelModel.Wait | src/timer/base_timer.c:153-166 | the wait is the tick count or a whole turn more |
| WheelModel.FiredOf | src/timer/base_timer.c:547-586 | a tick fires exactly the timers with one tick to go, each once |
| WheelModel.TickRem | src/timer/base_timer.c:510-607 | every tick lowers every running countdown by exactly one; a timer at one fires, and is gone or restarted with its period, plus a turn only if the walk misses it |
| WheelModel.StartRem | src/timer/base_timer.c:356-423 | a start sets the countdown of that timer and of no other, running or not before |
| WheelModel.StopRem | src/timer/base_timer.c:447-489 | a stop clears the countdown of that timer and of no other |
| WheelModel.RunValid | src/timer/base_timer.c:356-607 | every run keeps a timer queued at most once and countdowns positive, and the period of a timer left alone |
| WheelModel.StepRem | src/timer/base_timer.c:356-607 | an operation that does not name a timer changes its countdown only if it is a tick |
| WheelModel.CountsDown | src/timer/base_timer.c:510-607 | until it fires, a timer left alone counts exactly the ticks, whatever happens to others: never early |
| WheelModel.StartOnTime | src/timer/base_timer.c:140-166 | a start waits n ticks if and only if n is not a multiple of the wheel size, and otherwise exactly n plus the wheel size; that the spoke and rotation count of the code mean this wait is TickWalk.WaitPlacement and TimerWheel.Wheel.Enqueue |
| WheelModel.RestartOnTime | src/timer/base_timer.c:588-595 | a periodic restart waits n if and only if n is not a multiple of the wheel size or the walk does not miss it |
| WheelModel.WholeTurnIsLate | src/timer/base_timer.c:156-166 | concrete: four spokes of 10 ms, a delay of 40 ms waits eight ticks |
| WheelModel.NoDrift | src/timer/base_timer.c:547-599 | for a period that is not a whole number of turns, the countdown after any k ticks is a closed form of k, whatever happens to other timers |
| WheelModel.StepCounts | src/timer/base_timer.c:510-607 | one operation that does not name a periodic timer: ticks passed and countdown balance against a period if it fires and a turn if its restart is missed |
| WheelModel.EveryTickCounts | src/timer/base_timer.c:510-607 | for every period, after every run: ticks passed plus countdown are the first countdown, a period for every firing and a turn for every late restart; a restart is late only if the period is a whole number of turns |
| WheelModel.FiresOnSchedule | src/timer/base_timer.c:140-168 | with a period of p ticks, p not a whole number of turns, a timer fires exactly at first, first + p, first + 2p, ... for ever |
| WheelModel.FiresOnCount | src/timer/base_timer.c:140-168 | for every delay and period, the next tick fires a timer if and only if it is the first wait plus a period for every earlier firing plus a turn for every late restart after the start |
| WheelModel.LoneTick | src/timer/base_timer.c:510-607 | one tick of a timer that runs alone with a period of whole turns: its restart is always missed |
| WheelModel.LoneTimerIsAlwaysLate | src/timer/base_timer.c:156-166 | such a timer fires, after its first firing, every period and a turn for ever, never every period |
| WheelModel.StepBalanced | src/timer/base_timer.c:388-420 | starts and re-arms equal running, expired, cancelled and restarted-while-running timers; the high-water mark follows the number running |
| WheelModel.RunBalanced | src/timer/base_timer.c:388-595 | the balance holds in every state reached from a new wheel |
| WheelModel.HighWaterMark | src/timer/base_timer.c:418-420 | the mark is the largest number of timers running in any state of the run, and reached |
| WheelModel.TickCounters | src/timer/base_timer.c:547-599 | a tick counts as expired every timer with one tick to go, and as rearmed those of them with a period |
| WheelModel.RunCounters | src/timer/base_timer.c:356-607 | after any run the statistics are what they are named for: ticks, starts, starts of running timers, stops of running timers; and the wheel stands as many spokes on as there were ticks |
| WheelModel.StartOrder | src/timer/base_timer.c:388-420 | a started timer goes behind all others, which keep their order |
| WheelModel.TickOrder | src/timer/base_timer.c:528-599 | timers that one tick fires are fired in the order in which they were enqueued; those it restarts go behind the others, both keeping their order |
| TickWalk.SpokeKept | src/timer/base_timer.c:528-529 | a timer keeps its spoke when the wheel turns and its countdown drops |
| TickWalk.DueSpoke | src/timer/base_timer.c:528-537 | the timers due are exactly those on the next spoke |
| TickWalk.WaitPlacement | src/timer/base_timer.c:153-168 | displacement and rotation count computed by the code are those of a countdown of n, or n plus a turn |
| TickWalk.RotationsOfTurn | src/timer/base_timer.c:556-557 | a rotation less is a turn less; rotation count 0 is exactly one turn left |
| TickWalk.AmidStep | src/timer/base_timer.c:547-599 | each round of the loop visits the next due timer, although restarts are appended to the ring being walked |
| TickWalk.AfterStep | src/timer/base_timer.c:547-599 | round k of the loop is visit k, and it ends after a number of visits known in advance |
| TickWalk.AfterEnd | src/timer/base_timer.c:547-599 | what is left on the spoke, what was restarted and what fired when the loop ends |
| TickWalk.TickOnSpoke | src/timer/base_timer.c:547-599 | what the ticked queue has on each spoke, in terms of the walk |
| TickWalk.WalkIsTick | src/timer/base_timer.c:510-607 | the walk of one spoke computes the tick of the whole queue, spoke by spoke |
| TimerWheel.Unlink | src/timer/base_timer.c:470-472 | takes a node out of a circular doubly linked ring and leaves a ring |
| TimerWheel.Append | src/timer/base_timer.c:176-181 | puts a node at the end of a ring, of any length including none |
| TimerWheel.Detach | src/timer/base_timer.c:388-397 | only the spoke of the timer changes; no node is shared between rings |
| TimerWheel.Attach | src/timer/base_timer.c:170-181 | only the chosen spoke grows |
| TimerWheel.HomeIsQueue | src/timer/base_timer.c:166-181 | a timer is in a ring if and only if it runs, and then in the one its countdown says |
| TimerWheel.Wheel.constructor | src/timer/base_timer.c:704-784 | every spoke an empty ring, every counter 0: the new wheel of the model |
| TimerWheel.Wheel.IsRunning | src/timer/base_timer.c:275-289 | a timer, also one that was only prepared, runs if and only if its link is not NULL |
| TimerWheel.Wheel.Enqueue | src/timer/base_timer.c:133-184 | the timer is appended to the spoke, and gets the rotation count, of its wait |
| TimerWheel.Wheel.Start | src/timer/base_timer.c:356-423 | refines the start of the model, running timers being taken off first; statistics included |
| TimerWheel.Wheel.TakeOff | src/timer/base_timer.c:388-398 | before a start the timer is in no ring, and was counted as restarted if it was in one |
| TimerWheel.Wheel.Release | src/timer/base_timer.c:388-397 | a running timer leaves its ring without being marked free |
| TimerWheel.Wheel.Launch | src/timer/base_timer.c:408-420 | set-up, enqueueing and bookkeeping of a start |
| TimerWheel.Wheel.SetUp | src/timer/base_timer.c:408-414 | delay, period and place of a started timer, with every invariant kept |
| TimerWheel.Wheel.Stop | src/timer/base_timer.c:447-489 | refines the stop of the model; a stopped timer has a NULL link, and stopping one that does not run, also one that was only prepared, changes nothing |
| TimerWheel.Wheel.StopLinked | src/timer/base_timer.c:469-481 | the branch for a running timer |
| TimerWheel.Wheel.Tick | src/timer/base_timer.c:510-607 | refines the tick of the model; fired timers are reported in enqueue order |
| TimerWheel.Wheel.WalkSpoke | src/timer/base_timer.c:536-599 | the loop terminates, keeps every ring well-formed and ends in the ticked wheel |
| TimerWheel.Wheel.Visit | src/timer/base_timer.c:547-598 | one round: the successor is read before the callback and the restart, as the model step has it |
| TimerWheel.Wheel.Pass | src/timer/base_timer.c:556-557 | a rotation less moves the timer a turn nearer and nothing else |
| TimerWheel.Wheel.Expire | src/timer/base_timer.c:558-596 | unlinking, counting and restarting one timer is one step of the walk |
| TimerWheel.Wheel.StopAll | src/timer/base_timer.c:645-656 | terminates with no timer running, every link NULL, active 0 and every timer counted as cancelled |
| EventFlags.StepKeepsExclusive | src/linux/base_event.c:288-349 | every step keeps at most one party between lock and unlock: the owner of the mutex |
| EventFlags.StepLosesNoWakeUp | src/linux/base_event.c:288-349 | every step keeps: an unsignalled sleeper has nothing pending that it asked for, unless a sender is between OR and signal |
| EventFlags.StepKeepsLog | src/linux/base_event.c:288-349 | every step keeps: the pending mask is what the log of sends and deliveries leaves outstanding |
| EventFlags.RunKeepsInv | src/linux/base_event.c:288-349 | mutual exclusion, no lost wake-up and the agreement of mask and log hold after every interleaving of any number of senders with the receiver, spurious wake-ups included |
| EventFlags.SleeperHasNothing | src/linux/base_event.c:336-349 | no lost wake-up: whenever the mutex is free, a sleeping unsignalled receiver has no pending bit of its mask |
| EventFlags.WakeUpDelivers | src/linux/base_event.c:288-349 | if a sleeper has a pending bit, four named steps deliver to it exactly the pending bits of its mask |
| EventFlags.OnwardStep | src/linux/base_event.c:288-349 | in every sound state in which a receiver waits and a bit of its mask is pending, some party under way can take a step, and it brings the delivery nearer |
| EventFlags.PendingIsDelivered | src/linux/base_event.c:288-349 | from every reachable state of that kind, whatever the stage of the call, at most six such steps deliver every pending bit of the mask and no bit outside it: no deadlock |
| EventFlags.OutstandingBit | src/linux/base_event.c:289-342 | a bit is pending if and only if it was sent and not delivered since |
| EventFlags.DeliveryIsExact | src/linux/base_event.c:338-344 | a delivered bit is one of the mask, sent before and not delivered since, and every such bit is delivered |
| EventFlags.NoBitLost | src/linux/base_event.c:289-342 | a sent bit is delivered later or still pending |
| EventFlags.StepKeepsServing | src/linux/base_event.c:288-349 | until its unlock a party serves the call it is in, whatever the others do |
| EventFlags.RunServes | src/linux/base_event.c:288-349 | in every run a busy party serves the last of its calls that was taken: a sender stores the bits of that call, the receiver works for its mask; a call that may wait is never refused, one that may not never sleeps and loops only to take something |
| EventFlags.FlagIsObeyed | src/linux/base_event.c:329-349 | with the flag of the last receive taken: a blocking one is never being refused, a non-blocking one never asleep or woken |
| EventFlags.CheckDecides | src/linux/base_event.c:329-334 | the check before the loop refuses exactly when the call must not wait and nothing of its mask is pending, and otherwise goes on to the loop |
| EventFlags.TestDecides | src/linux/base_event.c:336-349 | in the loop a call takes exactly the pending bits of its mask, or sleeps if there are none, which only a blocking one does |
| EventFlags.OrStores | src/linux/base_event.c:289 | a sender adds to the mask the bits of its call and nothing else |
| EventFlags.SendRuns | src/linux/base_event.c:288-291 | a whole send with the mutex free: its bits are pending, a sleeper is woken, nothing else changes |
| EventFlags.ReceiveRuns | src/linux/base_event.c:322-349 | a whole receive with the mutex free: takes what is pending of its mask, or sleeps, or is refused, as its flag says |
| EventFlags.SpuriousIsHarmless | src/linux/base_event.c:346-347 | a wake-up for no reason leaves the receiver asleep and everything as it was |
| TickDriver.Drive | src/timer/base_mgmt.c:631-660 | ten times the ticks delivered plus the remainder is the sum of the tenths credited, the remainder stays below 10, and the wheel has ticked exactly so often |
| TickDriver.TenthsBounds | src/timer/base_mgmt.c:645 | one conversion never exceeds the elapsed time, and loses less than a tenth if and only if it fits 32 bits |
| TickDriver.CreditedBounds | src/timer/base_mgmt.c:638-645 | the same for one sleep, rolled over or not |
| TickDriver.CreditBounds | src/timer/base_mgmt.c:631-660 | the tenths credited over any sleeps are never more than the time assumed, a sleep with rollover being taken for one tick as the code does, and lag by less than one each |
| TickDriver.AssumedIsReal | src/timer/base_mgmt.c:637-645 | without rollover the time assumed is the clock time that passes during the sleeps |
| TickDriver.NeverAheadBoundedLag | src/timer/base_mgmt.c:631-660 | delivered ticks never exceed the ticks assumed for the sleeps and lag behind them by less than (sleeps + 9) / 10; without rollover those are the ticks that pass during the sleeps |
| TickDriver.SleptAndBetween | src/timer/base_mgmt.c:633-635 | the time from the first reading to the last is the time slept and the time between the sleeps |
| TickDriver.WallClock | src/timer/base_mgmt.c:631-661 | delivered ticks are never ahead of the wall clock, and lag behind it by less than (sleeps + 9) / 10 and the time between the sleeps, which the code drops |
| TickDriver.LagUnbounded | src/timer/base_mgmt.c:633-660 | concrete for every time: with that time between two sleeps no tick is delivered for it, so the lag behind the wall clock has no bound |
| TickDriver.TickedIsRun | src/timer/base_mgmt.c:655-660 | ticks delivered over several wake-ups are a run of the wheel, so its theorems apply |
| Words.SkipTo | src/cli/base_cli_lib.c:618-624 | the first character that is not a space |
| Words.WordEnds | src/cli/base_cli_lib.c:627-642 | where a word is cut off and what the loop goes on with |
| Words.QuoteOpens | src/cli/base_cli_lib.c:643-645 | a quote begins a new word; text before it in the same word is forgotten, also behind a quote of the other kind |
| Words.BetweenStep | src/cli/base_cli_lib.c:646-656 | between words a space is skipped, a bar is a word and anything else begins one |
| Words.ParseLine | src/cli/base_cli_lib.c:611-660 | the pointer-stepping loop terminates and computes the grammar, cut at the number of words there is room for |
| Words.JoinWords | src/cli/base_cli_lib.c:662-681 | the words with single spaces between them |
| Words.JoinSnoc | src/cli/base_cli_lib.c:662-681 | a word more is one space and the word more |
| Words.LexJoin | src/cli/base_cli_lib.c:611-681 | reading joined words gives the words back, for all words that a quote-free line can give |
| Words.LexSplittable | src/cli/base_cli_lib.c:611-660 | what a quote-free line can give: plain words and lone bars, with an empty word first exactly when a bar comes first |
| Words.SplitUndoesJoin | src/cli/base_cli_lib.c:611-681 | for quote-free words that fit, splitting the joined words gives them back if and only if they could have come from a line |
| Words.SplitJoinSplit | src/cli/base_cli_lib.c:611-681 | splitting, joining and splitting again is splitting, for every quote-free line, if and only if not both a bar comes first and only one word fits |
| Words.SpaceCodes | src/cli/base_cli_lib.c:618-656 | a space is one of the codes 32 and 9 to 13 |
| Words.SkipsSpaces | src/cli/base_cli_lib.c:618-619 | exactly the spaces in front are skipped |
| Words.LexKeeps | src/cli/base_cli_lib.c:611-660 | splitting a quote-free line loses nothing but spaces: one after the other the words are the line without them |
| Words.ParseRoom | src/cli/base_cli_lib.c:622-624 | the words are the first ones of the line, all of them if they are fewer than the pointers and otherwise one less than these |
| Words.QuotingKeepsWords | src/cli/base_cli_lib.c:627-645 | words in quotes of either kind, with spaces and bars in them or empty, are read back as they are |
| Words.QuoteForgetsWord | src/cli/base_cli_lib.c:643-645 | a quote right behind a word makes the loop forget the word |
| Words.QuoteForgetsQuoted | src/cli/base_cli_lib.c:643-645 | a quote of the other kind makes it forget everything since the opening quote |
| Commands.Common | src/cli/base_cli_lib.c:286-287 | the length of the common beginning of two names |
| Commands.MatchesMeans | src/cli/base_cli_lib.c:718-722 | the two comparisons hold if and only if the word abbreviates the name, letter case aside, and is as long as the unique length or the whole name |
| Commands.LowerCodes | src/cli/base_cli_lib.c:718-722 | two characters are the same letter only as ASCII codes 32 apart |
| Commands.AmbiguousWord | src/cli/base_cli_lib.c:718-722 | some word matches two names if and only if the beginning they share, letter case aside, is long enough for both; for any names and lengths |
| Commands.AbbreviationsAreSound | src/cli/base_cli_lib.c:271-293 | no word matches two visible siblings with different lower-case names |
| Commands.AbbreviationsAreMinimal | src/cli/base_cli_lib.c:271-293 | a beginning of a name matches it if and only if it is as long as the unique length or the whole name, and every shorter one also begins another visible sibling |
| Commands.MixedCaseIsAmbiguous | src/cli/base_cli_lib.c:286-287 | concrete: "s" matches both "Stop" and "start", because lengths are computed with letter case and words compared without |
| Commands.BuiltShortens | src/cli/base_cli_lib.c:265-297 | after the recursion every visible command down the tree has its unique length among its siblings |
| Commands.BuiltFrame | src/cli/base_cli_lib.c:265-297 | commands outside the tree keep theirs |
| CommandShell.Session.CommonLength | src/cli/base_cli_lib.c:282-287 | the comparison loop counts the common beginning, plus one |
| CommandShell.Session.LengthOf | src/cli/base_cli_lib.c:273-291 | the inner loop finds the longest over the visible siblings |
| CommandShell.Session.BuildShortest | src/cli/base_cli_lib.c:265-297 | the nested loops and the recursion build the table of the model |
| CommandShell.Session.SetConfigMode | src/cli/base_cli_lib.c:317-334 | the lengths are rebuilt if and only if the mode changes |
| CommandShell.Session.SetPrivilege | src/cli/base_cli_lib.c:299-308 | the lengths are rebuilt if and only if the privilege changes |
| CommandShell.Session.ApplyAll | src/cli/base_cli_lib.c:299-334 | several changes, each with its rebuild, in order |
| Lookup.OnlyCandidate | src/cli/base_cli_lib.c:714-722 | a long enough word that is no other sibling's whole name selects one sibling among all, visible or not |
| Lookup.ScanPicks | src/cli/base_cli_lib.c:714-844 | the scan takes a command of the current mode at once, and remembers one of any mode |
| Lookup.FindStep | src/cli/base_cli_lib.c:683-861 | one level of the lookup ends at the picked command, in the mode the session is in |
| Lookup.AcceptRuns | src/cli/base_cli_lib.c:731-756 | a command behind which nothing fits is run with the words left, also after a lookup among its children came back empty; without a callback the line is reported as incomplete or the word as unknown |
| Lookup.FindReaches | src/cli/base_cli_lib.c:683-861 | words that lead down a path make the callback at its end first, with the words behind the path as arguments, and only it unless it complains of them; the session ends with the mode and privilege the callback asks for |
| Lookup.FindTries | src/cli/base_cli_lib.c:745-823 | exactly which callbacks such words make, in which order and with which arguments: from the end of the path upwards while the last one complains; its result is reported |
| Lookup.FindFails | src/cli/base_cli_lib.c:763-823 | when the filters of such a line cannot be set up, that failure is what is reported, no callback is made and the session does not change |
| Lookup.FindComplains | src/cli/base_cli_lib.c:733-745 | words that lead to a command without a callback, with nothing to go on with, make no callback at all, are reported as an error and change nothing |
| Lookup.HelpMeans | src/cli/base_cli_lib.c:694 | a word asks for help if and only if it is something followed by a question mark |
| Lookup.FindHelps | src/cli/base_cli_lib.c:694-711 | asking for help runs nothing and changes nothing |
| Lookup.PermitsVisible | src/cli/base_cli_lib.c:714-844 | the commands that a lookup can run are those visible in the mode of the session, or, from a submode, in the configuration mode |
| Lookup.ScanMeans | src/cli/base_cli_lib.c:714-844 | for any siblings, however many of them answer: the first of the current mode, or second of any mode, is taken; without one the last of the configuration mode, from a submode, and the one of any mode are remembered; a command of another mode never is |
| Lookup.ScanRefuses | src/cli/base_cli_lib.c:714-844 | nothing is found if and only if no sibling answers to the word in mode, privilege, letters and length |
| Lookup.FindRefuses | src/cli/base_cli_lib.c:835-860 | a word that abbreviates no sibling of a permitted mode and privilege is refused as an unknown argument, and the session does not change |
| Lookup.FindMakes | src/cli/base_cli_lib.c:683-861 | every callback of a lookup is one that the words allow in the mode and with the privilege that the session had: each command on the way of the mode, of any, or of the configuration mode from a submode, and not above the privilege; each after the one before complained; none when the filters fail |
| Lookup.AllowsPrivileged | src/cli/base_cli_lib.c:714-844 | what is called is a command in the tree, with a callback, not above the privilege of the session, and of a mode it is in or can drop to |
| Lookup.ScanRemembers | src/cli/base_cli_lib.c:835-838 | in a submode a match of the configuration mode is remembered, not taken, and goes before one of any mode |
| Lookup.DropsToConfig | src/cli/base_cli_lib.c:846-851 | in a submode, the whole name of a configuration command does what it does in the configuration mode, to which the session goes with rebuilt lengths, unless a command of the submode itself answers to it |
| Lookup.TypedLineReaches | src/cli/base_cli_lib.c:863-896 | any line, however spaced or quoted, abbreviated or not, with arguments and filters, runs the command to which its words before the first bar lead, with the others as arguments |
| Lookup.CommandWords | src/cli/base_cli_lib.c:876-882 | the words before the first that begins with a bar belong to the command; all of them if that is the very first |
| Lookup.LineMakes | src/cli/base_cli_lib.c:863-896 | a line makes only callbacks that its words allow in the mode and with the privilege of the session when it is typed, and reports a request to quit exactly when the last of them makes one |
| Lookup.LineRefused | src/cli/base_cli_lib.c:857-896 | a line whose first word stands for no command of a permitted mode and privilege runs nothing and changes nothing |
| Lookup.TitleIsJoin | src/cli/base_cli_lib.c:157-178 | the printed name is the joined names if and only if there is at most one or the last is not empty |
| Lookup.NameSplits | src/cli/base_cli_lib.c:157-178 | splitting the printed name gives the names on the path |
| Lookup.NamesLead | src/cli/base_cli_lib.c:714-756 | the names on a path lead down that path |
| Lookup.CommandRoundTrip | src/cli/base_cli_lib.c:157-178 | typing the printed name of a visible command runs that command, and only it unless it complains of its arguments |
| Lookup.ChangedKeeps | src/cli/base_cli_lib.c:299-334 | changing the mode or the privilege computes the unique lengths for it |
| Lookup.LastChangeStays | src/cli/base_cli_lib.c:299-334 | the mode after several changes is that of the last change of mode, and so for the privilege |
| Lookup.UnchangedStays | src/cli/base_cli_lib.c:299-334 | what is not changed stays, and a change to what is there already does nothing |
| Lookup.FindKeeps | src/cli/base_cli_lib.c:683-861 | a lookup, with whatever modes and privileges it and the callbacks go through, leaves the unique lengths of those in which it ends |
| Lookup.SessionKeeps | src/cli/base_cli_lib.c:863-896 | so does every line, and every change in between, of every session that begins by computing them |
| Lookup.SessionRoundTrip | src/cli/base_cli_lib.c:157-178 | in every state of every session, mode and privilege changing at will, typing the printed name of a command visible in it runs that command |
| Lookup.SessionAllows | src/cli/base_cli_lib.c:863-896 | in every session every callback ever made was made by a line that the mode and the privilege of the session at that moment allowed |
| CommandShell.Session.RunCallback | src/cli/base_cli_lib.c:763-823 | the callback is made once, with the words behind the command, if the filters are set up, and its changes of mode and privilege take effect in order |
| CommandShell.Session.AcceptCommand | src/cli/base_cli_lib.c:731-761 | the branches behind a match: no callback, last word, incomplete, children, fall-back |
| CommandShell.Session.FindCommand | src/cli/base_cli_lib.c:683-861 | the recursive lookup with its two remembered matches terminates and is the lookup of the model, mode and lengths included; which commands that can run is Lookup.ScanMeans and Lookup.FindMakes |
| CommandShell.Session.RunCommand | src/cli/base_cli_lib.c:863-896 | words, filter position and result of a whole line |
| CommandShell.Session.Serve | src/cli/base_cli_lib.c:1038 | computing the lengths and taking line after line, and changes in between, up to a request to quit is a session of the model |
| Registry.GrownIds | src/cli/base_cli_lib.c:352-358 | appending a new command below another adds exactly its id to the tree, if that one is there, and keeps all ids apart |
| Registry.GrownKnown | src/cli/base_cli_lib.c:345-358 | and the parent it is given is the command below which it stands |
| Registry.GrownGains | src/cli/base_cli_lib.c:352-358 | the new command is found in the tree exactly as it was given |
| Registry.GrownKeeps | src/cli/base_cli_lib.c:352-358 | every older command keeps name, callback, privilege and mode, and the commands below it with their order; the parent gains the new one behind them |
| Registry.RegisteredValid | src/cli/base_cli_lib.c:336-370 | every registration, at the root or below a command, keeps ids apart and parents in accord with the tree, and adds exactly one command |
| Registry.RegisteredGains | src/cli/base_cli_lib.c:344-370 | after a registration the new id is a leaf with the given name, callback, privilege and mode, last below its parent or last of the roots; every other command is as it was |
| Registry.FirstGoes | src/cli/base_cli_lib.c:387-408 | exactly the first root of that name goes, and the others keep their order |
| Registry.WithoutAt | src/cli/base_cli_lib.c:387-408 | unregistering changes none of the commands that remain |
| Registry.WithoutKeeps | src/cli/base_cli_lib.c:387-408 | unregistering takes away no more than a root with all below it, and keeps both |
| Registry.GrowValid | src/cli/base_cli_lib.c:336-408 | every tree that can be registered is of that kind |
| Registry.EveryCommandHasOrigin | src/cli/base_cli_lib.c:336-408 | in every tree that can be registered each command carries exactly the name, callback, privilege and mode of one registration |
| Registry.ParentIsThere | src/cli/base_cli_lib.c:345 | the parent of a registered command is registered, and was so before it |
| Registry.ChainIsPath | src/cli/base_cli_lib.c:157-178 | the names that a command reaches through its parents are those on its path in the tree |
| Registry.RegisteredRoundTrip | src/cli/base_cli_lib.c:157-178 | for every tree that can be registered and every state of every session on it, typing what the library prints as the name of a visible command runs that command |
| Registry.CommandList.constructor | src/cli/base_cli_lib.c:498-503 | no commands |
| Registry.CommandList.Register | src/cli/base_cli_lib.c:336-370 | a command gets a new address and becomes the last child of its parent, or the last root, with the name, callback, privilege and mode given; all other commands keep theirs |
| Registry.CommandList.Unregister | src/cli/base_cli_lib.c:387-408 | the first root of that name goes, and nothing else |
| Registry.CommandList.CommandName | src/cli/base_cli_lib.c:157-178 | the loop through the parents ends and spells the title of their names |
| Filters.StreamIsCompose | src/cli/base_cli_lib.c:1679-1701 | sending lines one by one through the short-circuiting chain gives the same lines, and the same final states, as applying each filter to the whole output in order |
| Filters.ComposeCons | src/cli/base_cli_lib.c:1689-1692 | one line more in front goes through the chain once and leaves the filters to the rest |
| Filters.StreamAppend | src/cli/base_cli_lib.c:1679-1701 | output sent in parts is output sent at once |
| Filters.ContainsMeans | src/cli/base_cli_lib.c:1911-1914 | a line contains a text if and only if the text stands at some position of it |
| Filters.MatchSelects | src/cli/base_cli_lib.c:1829-1860 | include and the like keep exactly the lines whose test differs from the inversion flag, in order |
| Filters.RangeIsSegments | src/cli/base_cli_lib.c:1899-1918 | a line is printed if and only if some line up to it has the opening text at some position and so opens a segment that no line before it has closed: both ends included, opening again |
| Filters.BeginIsSuffix | src/cli/base_cli_lib.c:1909-1917 | begin prints exactly the suffix from the first line that has the text at some position |
| Filters.CountCounts | src/cli/base_cli_lib.c:1933-1949 | count prints no line and counts the non-blank ones |
| Filters.BlankMeans | src/cli/base_cli_lib.c:1940-1945 | a line counts as blank if and only if every character is a space |
| Filters.CountIsSurvivors | src/cli/base_cli_lib.c:1933-1949 | a count at any place in the chain is the number of non-blank lines that survive the filters before it, and those behind it see nothing |
| FilterChain.Filter.Line | src/cli/base_cli_lib.c:1829-1949 | verdict and new state, in terms of the positions at which the texts occur, of each of the three filter functions on a line |
| FilterChain.LinesAreText | src/cli/base_cli_lib.c:1678-1701 | cutting a text into lines loses nothing |
| FilterChain.AllLinesAppend | src/cli/base_cli_lib.c:1678-1701 | the lines of several texts are those of the first ones and then those of the rest |
| FilterChain.CountIsPrinted | src/cli/base_cli_lib.c:1933-1949 | with one count anywhere in the chain the client receives exactly the number of non-blank lines that the filters before it let through |
| FilterChain.Printer.Add | src/cli/base_cli_lib.c:814-816 | a filter goes to the end of the chain, in its initial state |
| FilterChain.Printer.SetUp | src/cli/base_cli_lib.c:764-820 | the filters of a line stand in the chain in the order of the line |
| FilterChain.Printer.Offer | src/cli/base_cli_lib.c:1689-1692 | the loop feeds the chain as far as the first rejection and changes no filter behind it |
| FilterChain.Printer.Print | src/cli/base_cli_lib.c:1654-1709 | a text is cut at its line feeds and each line printed if the chain lets it through; error messages are not filtered |
| FilterChain.Printer.CleanUp | src/cli/base_cli_lib.c:825-832 | every filter is cleaned up in order, counts being printed |
| FilterChain.Printer.RunFiltered | src/cli/base_cli_lib.c:822-832 | the client receives what the filters, one after the other, make of the whole output of the callback, then the counts |
| LineEditor.WordStartUnique | src/cli/base_cli_lib.c:1251-1258 | the last word, with the spaces behind it, begins in one place only |
| LineEditor.LineBuffer.constructor | src/cli/base_cli_lib.c:1095-1097 | an empty line |
| LineEditor.LineBuffer.Type | src/cli/base_cli_lib.c:1483-1512 | a character goes in at the cursor and the buffer stays well-formed if and only if there is room; else characters are lost or the text is no longer ended |
| LineEditor.LineBuffer.Append | src/cli/base_cli_lib.c:1483-1492 | at the end of the line: taken if and only if the NUL keeps a cell |
| LineEditor.LineBuffer.InsertInside | src/cli/base_cli_lib.c:1493-1512 | inside the line: the text is edited if and only if two cells are free; else a copy of the last character stays behind the line |
| LineEditor.LineBuffer.ShiftRight | src/cli/base_cli_lib.c:1499-1500 | the tail moves one cell to the right and nothing else changes |
| LineEditor.LineBuffer.ShiftLeft | src/cli/base_cli_lib.c:1277 | the tail moves one cell to the left and nothing else changes; the accesses stay inside the buffer if and only if a cell is free behind the NUL |
| LineEditor.LineBuffer.DeleteBack | src/cli/base_cli_lib.c:1268-1286 | one character before the cursor goes, at the end or in the middle of the line; inside the buffer if and only if at the end or with a free cell |
| LineEditor.LineBuffer.DeleteTimes | src/cli/base_cli_lib.c:1267-1288 | the deletion loop takes away exactly that many characters before the cursor, or leaves the buffer exactly when its first step does |
| LineEditor.LineBuffer.WordLength | src/cli/base_cli_lib.c:1248-1258 | how far Ctrl-W reaches back |
| LineEditor.LineBuffer.Back | src/cli/base_cli_lib.c:1245-1289 | backspace and Ctrl-W as edits of the text, one character or one word, and exactly when they leave the buffer |
| LineEditor.LineBuffer.ClearLine | src/cli/base_cli_lib.c:958-974 | Ctrl-U empties the line and leaves no trace of the characters it writes into the buffer; it stays inside if and only if three times the length fit |
| LineEditor.LineBuffer.KillLine | src/cli/base_cli_lib.c:1319-1331 | Ctrl-K keeps exactly the text before the cursor |
| LineEditor.LineBuffer.Move | src/cli/base_cli_lib.c:1443-1480 | the four cursor keys as edits of the pair |
| LineEditor.LineBuffer.Press | src/cli/base_cli_lib.c:1483-1520 | a character key, with the exact condition under which the buffer survives it; a question mark at the end hands out the line with it and goes on with the line without it |
| LineEditor.LineBuffer.Act | src/cli/base_cli_lib.c:1245-1520 | for every key: whether the buffer holds the edited text, is spoilt, or is left, each exactly |
| LineEditor.LineBuffer.Edit | src/cli/base_cli_lib.c:1245-1520 | any sequence of keys equals the same edits on the text before and behind the cursor if and only if every key is admitted; otherwise it stops at the first that is not, and says whether it left the buffer |
| LineEditor.TypingAppends | src/cli/base_cli_lib.c:1483-1512 | typing a string puts it before the cursor |
| LineEditor.BackspaceUndoesChar | src/cli/base_cli_lib.c:1264-1286 | a character typed anywhere in the line and a backspace give the text back |
| LineEditor.BackspacesTake | src/cli/base_cli_lib.c:1264-1286 | n backspaces take away the n characters before the cursor, or as many as there are, and nothing behind it |
| LineEditor.BackspacesUndoTyping | src/cli/base_cli_lib.c:1264-1286 | as many backspaces as characters typed give the text back |
| LineEditor.MovesByOne | src/cli/base_cli_lib.c:1443-1480 | left and right move the cursor by one character or not at all at the ends; home and end go all the way |
| LineEditor.MovesUndo | src/cli/base_cli_lib.c:1443-1480 | left then right, and right then left, give the text back if and only if the first is not stopped at an end where the second is not |
| LineEditor.TypingAtTheEnds | src/cli/base_cli_lib.c:1443-1512 | what is typed behind Home comes first in the line, and behind End last |
| LineEditor.KillAndClear | src/cli/base_cli_lib.c:1319-1331 | Ctrl-K drops exactly what was typed behind the cursor, and Ctrl-U all |
| LineEditor.QuestionMark | src/cli/base_cli_lib.c:1513-1520 | a question mark asks for help at the end of the line and is a character inside it |
| LineEditor.WordBackUndoesWord | src/cli/base_cli_lib.c:1251-1258 | Ctrl-W takes back exactly a word typed at the start or behind a space, with the spaces typed after it |
| LineEditor.MovesKeepLine | src/cli/base_cli_lib.c:1443-1480 | cursor keys never change the line |
| LineEditor.ClearLeaves | src/cli/base_cli_lib.c:958-974 | every typed line longer than a third of the buffer is one of which Ctrl-U leaves it, and no shorter one |
| LineEditor.DeleteLeaves | src/cli/base_cli_lib.c:1277 | deleting inside a typed line leaves the buffer if and only if the line fills it |
| LineEditor.InsertionAdmitted | src/cli/base_cli_lib.c:1493-1512 | inside a typed line a character is admitted if and only if two cells are free behind it, at its end one |

## Left out

- The allocator's headers as bytes: a header is one map entry at its address, so a write that
  straddles two headers is not expressible; that headers and payloads do not overlap is proved
  separately.  Lazy initialisation and the semaphore: operations are atomic and come after
  initialisation.  `base_mem_set` and `base_mem_cpy` are plain loops.
- BaseMem.Heap.Free: asks that a header which reads as allocated belong to a live block; a stale
  pointer whose old header has since been overwritten by a client is outside the model.
- NULL and magic-tag checks of the wheel and the size limits of `stw_timer_create`; freeing its
  memory in `stw_timer_destroy`.
- TimerWheel.Wheel.Start: delays and counters are unbounded, so the 32-bit wrap-around of the
  statistics is not modelled.
- Races of the wheel (the head of a spoke is read, and counters are updated, outside its lock):
  every operation is atomic.  Timer callbacks do not touch the wheel.
- The timer registry of `src/timer/base_mgmt.c` and the name tables of `src/linux/base_event.c`
  and `src/linux/base_task.c`: linear searches over fixed tables, with easy claims only.
- EventFlags.RunKeepsInv: the mask is a set of bits rather than a 32-bit word; the failing
  lookups of tasks by name are not modelled.  `base_event_receive` uses two names that its
  parameter list spells differently (`u4Flg`, `pu4RcvEvents`); the model reads them as the
  parameters.  Fairness of the scheduler is not modelled: `EventFlags.PendingIsDelivered` says which
  steps suffice.
- Registry.CommandList.Register: sibling lists are sequences rather than `next` links, and an id
  stands for an address; running out of memory and help texts are left out.
- Registering commands in the middle of a session: the tree of a session is fixed.  `unique_len`
  is kept in a table; a command that is not in it has length 0, as in the code.
- CommandShell.Session.FindCommand: help and error messages are not printed, and a word with a
  trailing question mark only ends the lookup.  For an empty word the code looks at the
  character before it; the model takes it for no question mark.
- CommandShell.Session.RunCallback: setting up the filters of a line (option parsing, its error
  messages and early returns, which skip the clean-up) is given by its result; the clean-up is
  `FilterChain.Printer.CleanUp`.
- CommandShell.Session.RunCommand: only the position of the first bar is computed, as setting up
  the filters behind it is given by its result.
- FilterChain.Printer.SetUp: begins with the kinds of filters that the words of a line ask for.
- Lookup.CommandRoundTrip: asks for distinct lower-case sibling names without spaces, quotes and
  bars; `Commands.MixedCaseIsAmbiguous` shows what goes wrong without lower case.
- FilterChain.Printer.Print: formatting, growing the buffer and buffered printing; an
  incomplete last line is therefore always printed.
- LineEditor.LineBuffer.Edit: what an access outside the buffer does; the model stops before it.
- Escape sequences, history, TAB completion, Ctrl-Z, password states and everything written to
  the terminal.
- The circular message queue of `src/linux/base_queue.c`.
- Sockets, telnet negotiation, prompts, passwords, tracing,
  the mutex wrappers and tasks: input and output, or thin wrappers.
