# NovaOS: a verified model of the kernel core, the serial console and the network stack

This project models the parts of NovaOS that hold real state, and proves what they do over whole
runs: the priority scheduler, the IPC ring, the page allocator and the address spaces
(`nova-os/kernel/core`), the line editor and shell of the boot kernel (`nova-os/boot/kernel.c`), and
the device registry, the socket table and the packet path (`nova-os/kernel/network`).

`dafny verify dfyconfig.toml` checks everything.

## How it is built

The C code changes arrays and records in place, so each such object is a class with the same fields,
and each function of the C code is a method with the same loops and branches. Every method is proved
equal to an operation on a value (`Sched`, `Ring`, `Table`, `Shell`, `Fds`, ...), and the theorems are
about every sequence of those operations. Capacities are symbolic; the shipped sizes are constants
beside them. Unsigned counters wrap around where the C types do.

| file | what it is about |
|---|---|
| Scheduler.dfy, Fairness.dfy, Accounting.dfy, ThreadHistories.dfy | pick and account; who is served when; where ticks and counts come from; threads told by the calls about them |
| Ipc.dfy | the ring of messages as an unbounded FIFO history |
| PageAllocator.dfy, AddressSpace.dfy, Isolation.dfy | first fit; append-or-overwrite as a map; when spaces stay apart |
| CStrings.dfy, Decimals.dfy, Texts.dfy, Console.dfy | terminated strings, printed numbers, the editor and the dispatcher |
| Terminal.dfy, ConsoleRuns.dfy, ConsoleAnswers.dfy | the terminal that reads the output; what the screen shows after every byte; what each byte does and each line is answered |
| Descriptors.dfy, RegistryRuns.dfy, Packets.dfy | descriptors, the device list and packets over runs |
| Network.dfy, NetworkRuns.dfy, SocketRuns.dfy | the heap code; arbitrary runs of the registry, of packets and of socket calls carried out on it |

## What is proved, in short

- **Scheduling.** A top-priority thread is first served after exactly `Wait` turns of others, a sum over
  its peers, and every other turn lowers that sum by one. The class catches up to any bound in exactly
  its shortfall, serving nobody else. Equal peers rotate in slot order. After any calls, who is next
  follows from the calls alone (`NextByHistory`).
- **Where fairness ends.** A 64-bit `quanta` at its maximum can be overtaken only by wrapping. For the
  next turn that matters in one case: a thread in that state behind an equal-priority thread in an
  earlier slot never gets it (`ServedIffCanReachTurn`; `StarvationIsReachable` gives the calls). Over a
  whole run it always matters: once the class has caught up with the maximum only its lowest slot is
  served (`OnlyFirstInTheEnd`), so a top-priority thread is served for ever if and only if it has the
  lowest slot of its class (`ServedForEverIffFirst`; `SecondIsForgotten` gives two fresh equal threads).
  `RoundRobin` holds exactly while the numbers it speaks of fit.
- **Conservation.** `tick` is the quanta of all slots ever used plus those discarded with reused slots,
  and `count` is the live threads plus the deaths, both modulo 2^64, after every sequence of calls. So
  `count` is the number of live threads exactly while no thread has died; one add and one death show
  it (`CountKeepsTheDead`).
- **Isolation.** The page code does not enforce it. For every call there is an exact condition under
  which isolation survives, and a run is isolated throughout exactly when every call in it met its
  condition; a client that maps only fresh pages and frees only unmapped ones always
  meets it; the sequence in the host test, which frees a mapped page, does not.
- **Console.** After every byte of every input the row under the cursor reads the prompt followed by the
  contents of the buffer and nothing else, so what stands on the screen is what Enter executes. What each
  byte does, and what each line is answered, is told by literal bytes and by a table of command words
  (`ByteByByte`, `EnterIsAnswered`). In a full line a key that was ignored is not what the next backspace
  takes back (`RuboutTakesBackIff`, with 159 letters and one more in `RuboutTakesAnother`).
- **Network.** The list stays finite, acyclic and free of repeated names because registration compares
  names; running a device constructor again while its device is registered cuts off every device
  registered before it. lo counts each packet twice as received and never gives the buffer back.
- **Sockets.** The n-th good socket call since the table was started afresh returns n, up to 63, and
  spends its number with or without memory. Any calls through descriptors, carried out on the heap from
  power-on, return what the value run returns and leave the table it computes. A send is acknowledged
  exactly when lo is registered, or was at some call that looked for it since the descriptor was opened.
  lo has then transmitted exactly the packets and bytes acknowledged, and not one of their buffers was
  freed.

Where code and documentation differ the code is followed: `docs/networking-design.md` asks the loopback
device to clone the packet, `loopback.c` passes on the original.

## Model

| member | source | states |
|---|---|---|
| Scheduling.Scheduler.constructor | nova-os/kernel/core/scheduler.c:3-12 | over any memory contents, only state, count and tick are set |
| Scheduling.Scheduler.Init | nova-os/kernel/core/scheduler.c:3-12 | every slot dead, ids, priorities and quanta left as they were; count and tick zero |
| Scheduling.Scheduler.Add | nova-os/kernel/core/scheduler.c:14-31 | the loop computes `Sched.Add` |
| Scheduling.Scheduler.SetState | nova-os/kernel/core/scheduler.c:33-46 | Ok exactly for a live thread; that slot takes the state and nothing else, any other slot stays; otherwise NOT_FOUND and no change |
| Scheduling.Scheduler.PickNext | nova-os/kernel/core/scheduler.c:48-71 | the loop returns the id of the slot `Pick` |
| Scheduling.Scheduler.Account | nova-os/kernel/core/scheduler.c:73-82 | the quanta of the slot that a live id names go up by one, wrapping, and so does the tick; no other slot changes |
| Scheduling.Select | nova-os/kernel/core/scheduler.c:54-69 | the scan of a prefix keeps the slot that comes before all other runnable ones in it |
| Scheduling.PickIsBest | nova-os/kernel/core/scheduler.c:54-70 | the slot picked is the unique lexicographic best; there is none exactly when nothing is runnable |
| Accounting.AddRefusesWhenAllLive | nova-os/kernel/core/scheduler.c:19-30 | FULL exactly when live threads equal capacity; otherwise the least dead slot is taken and no other is touched |
| Accounting.NextIsBestInEveryRun | nova-os/kernel/core/scheduler.c:14-82 | in every reachable state the id returned is that of the unique best slot and accounting to it charges that slot |
| Accounting.EveryRunConserves | nova-os/kernel/core/scheduler.c:8-82 | after every sequence of calls: slot i carries id i+1, tick and count are conserved sums modulo 2^64 |
| Accounting.CountIsLiveIffNoDeaths | nova-os/kernel/core/scheduler.c:26-44 | `count` is the number of live threads exactly while none has died |
| Accounting.CountKeepsTheDead | nova-os/kernel/core/scheduler.c:26-44 | after one add and the death of that thread the count is 1 and no thread is live |
| Accounting.StarvationIsReachable | nova-os/kernel/core/scheduler.c:14-82 | two adds and 2^64 - 1 charges to the second thread lead to a state in which it is of top priority and never next again |
| Accounting.SecondIsForgotten | nova-os/kernel/core/scheduler.c:14-82 | after two adds of equal priority the second thread has a turn to come, yet only the first is served for ever |
| Accounting.HostTestScenario | nova-os/kernel/core/host_test.c:13-20 | high priority first, low priority once the other is blocked |
| ThreadHistories.StateChangeTouchesState | nova-os/kernel/core/scheduler.c:33-46 | a state change is refused exactly without a live thread; id, priority, quanta, count, tick and all other slots are kept |
| ThreadHistories.LastStateCounts | nova-os/kernel/core/scheduler.c:44 | the last of two state changes counts: blocking a thread and waking it restores the scheduler |
| ThreadHistories.ChargeTouchesOneSlot | nova-os/kernel/core/scheduler.c:73-82 | charging any live id, runnable or not, adds one quantum to its slot and one tick, modulo 2^64; any other id charges nothing |
| ThreadHistories.EveryThreadIsItsHistory | nova-os/kernel/core/scheduler.c:3-82 | in every run each slot holds the priority its thread was added with, the state last set and the number of charges since, modulo 2^64 |
| ThreadHistories.NextByHistory | nova-os/kernel/core/scheduler.c:14-82 | who is next, told by the calls alone: the waiting thread of highest priority, then fewest charges modulo 2^64, then lowest id; -1 exactly when none waits |
| Fairness.SleeperIsPassedOver | nova-os/kernel/core/scheduler.c:44-70 | blocking or killing a thread moves the turn only if it was its turn |
| Fairness.WakerCompetes | nova-os/kernel/core/scheduler.c:44-70 | a woken thread takes the turn exactly when it comes before every other runnable one |
| Fairness.DispatchCharges | nova-os/kernel/core/scheduler.c:48-82 | one pick-and-account turn charges the best slot and nothing else |
| Fairness.DispatchIdle | nova-os/kernel/core/scheduler.c:70-77 | with nothing runnable the result is -1 and accounting to it changes nothing |
| Fairness.TurnIsZeroWait | nova-os/kernel/core/scheduler.c:54-70 | a top-priority thread is next exactly when its wait is zero |
| Fairness.OtherTurnLowersWait | nova-os/kernel/core/scheduler.c:54-82 | every turn of another thread lowers the wait by exactly one |
| Fairness.ExactWaitingTime | nova-os/kernel/core/scheduler.c:54-82 | the first turn comes after exactly the sum over peers of their lead |
| Fairness.SaturatedStarves | nova-os/kernel/core/scheduler.c:65-79 | at the maximal quanta, behind an earlier peer, the turn never comes |
| Fairness.ServedIffCanReachTurn | nova-os/kernel/core/scheduler.c:54-82 | a top-priority thread gets a next turn if and only if it is not in that case |
| Fairness.CatchUp | nova-os/kernel/core/scheduler.c:54-82 | the top class is level at a bound after exactly the summed shortfall, never above it, with no other slot changed |
| Fairness.OnlyFirstInTheEnd | nova-os/kernel/core/scheduler.c:54-82 | after the shortfall to the maximal quanta every turn goes to the lowest slot of the top class |
| Fairness.ServedForEverIffFirst | nova-os/kernel/core/scheduler.c:54-82 | a top-priority thread is served again and again if and only if it has the lowest slot of its class |
| Fairness.StrictPriority | nova-os/kernel/core/scheduler.c:54-82 | for any number of turns only the top class is served, every other slot is unchanged |
| Fairness.RoundRobin | nova-os/kernel/core/scheduler.c:65-81 | from equality, k turns among n give k/n each and one more to the first k mod n in slot order, exactly while that fits in 64 bits |
| Ipc.Endpoint.constructor | nova-os/kernel/core/ipc.c:5-11 | over any memory contents the ring starts empty |
| Ipc.Endpoint.Init | nova-os/kernel/core/ipc.c:5-11 | head, tail and count are zero, the queue is empty, the slots keep their bytes |
| Ipc.Endpoint.Send | nova-os/kernel/core/ipc.c:13-30 | ERR for a payload that does not fit, else FULL with all slots queued, else OK; OK alone appends to the queue |
| Ipc.Endpoint.Receive | nova-os/kernel/core/ipc.c:32-41 | EMPTY exactly on an empty queue, leaving the caller's message alone; otherwise OK with the oldest message |
| Ipc.SendEnqueues | nova-os/kernel/core/ipc.c:19-29 | ERR, FULL and OK each exactly when; sender and payload arrive at the end of the queue; later bytes and other slots are kept |
| Ipc.ReceiveDequeues | nova-os/kernel/core/ipc.c:35-40 | EMPTY exactly for the empty queue and OK exactly otherwise; the first message, with sender, length and payload, leaves the queue |
| Ipc.AnswersFollowHistory | nova-os/kernel/core/ipc.c:19-36 | every answer is determined by the lengths of the history: OK exactly when the payload fits and fewer messages are on their way than there are slots |
| Ipc.HistoryRefinesFifo | nova-os/kernel/core/ipc.c:5-41 | over every interleaving accepted = delivered + queued, per sender too, and tail = (head + count) mod capacity |
| Ipc.HostTestScenario | nova-os/kernel/core/host_test.c:30-36 | a 15-byte message from sender 7 goes through unchanged |
| PageAllocator.Allocator.constructor | nova-os/kernel/core/vm.c:3-10 | every page starts free whatever the memory held |
| PageAllocator.Allocator.Init | nova-os/kernel/core/vm.c:3-10 | the loop clears every flag |
| PageAllocator.Allocator.AllocPage | nova-os/kernel/core/vm.c:12-25 | the loop computes `Alloc` |
| PageAllocator.Allocator.FreePage | nova-os/kernel/core/vm.c:27-35 | the code computes `Free` |
| PageAllocator.AllocTakesLeastFree | nova-os/kernel/core/vm.c:17-24 | the least free page is taken and no other; FULL exactly when all are held |
| PageAllocator.FreeGivesBack | nova-os/kernel/core/vm.c:30-34 | exactly a held page can be freed, and only it changes |
| PageAllocator.HeldIsOutstanding | nova-os/kernel/core/vm.c:3-35 | in every run the held set is what was taken and not given back, and nothing is taken while it is out |
| PageAllocator.FreedBetweenAllocations | nova-os/kernel/core/vm.c:12-35 | between two allocations of a page there is a successful free of it |
| AddressSpaces.AddressSpace.constructor | nova-os/kernel/core/vm.c:37-41 | the table starts empty whatever the memory held |
| AddressSpaces.AddressSpace.Init | nova-os/kernel/core/vm.c:37-41 | the table becomes empty |
| AddressSpaces.AddressSpace.Map | nova-os/kernel/core/vm.c:43-63 | the scan and the append compute `Table.Map` |
| AddressSpaces.AddressSpace.Translate | nova-os/kernel/core/vm.c:65-79 | the scan computes `Table.Translate` |
| AddressSpaces.MapRefinesUpdate | nova-os/kernel/core/vm.c:49-62 | mapping is map update; FULL exactly for a new page in a full table, without change; virtual pages stay distinct |
| AddressSpaces.TranslateRefinesLookup | nova-os/kernel/core/vm.c:71-78 | the scan answers with the entry that the table, as a map, has for the page |
| AddressSpaces.CountIsDomainSize | nova-os/kernel/core/vm.c:56-61 | the count is the number of mapped pages |
| AddressSpaces.TranslateIsLastMapped | nova-os/kernel/core/vm.c:37-79 | in every run translation answers with the last successful mapping of that page |
| Isolation.IsolationIffAllowed | nova-os/kernel/core/vm.c:12-79 | each call keeps every translated page held and unshared exactly under a condition checkable before it |
| Isolation.FreeKeepsIsolationIff | nova-os/kernel/core/vm.c:27-35 | freeing a page is safe exactly when no space translates to it |
| Isolation.MapKeepsIsolationIff | nova-os/kernel/core/vm.c:43-63 | mapping is safe exactly when it is refused, or the page is held and reached from nowhere else |
| Isolation.IsolatedAlongIffAllowed | nova-os/kernel/core/vm.c:12-79 | a run is isolated at every point exactly when every call was allowed when it was made |
| Isolation.DisciplinedRunIsIsolated | nova-os/kernel/core/vm.c:12-79 | clients that map fresh pages and free unmapped ones stay isolated, over any number of spaces, with remaps and refusals |
| Isolation.HostTestLosesIsolation | nova-os/kernel/core/host_test.c:48-55 | alloc, map, free of the same page ends with a translation to a free page |
| CStrings.Strlen | nova-os/boot/kernel.c:87-94 | the length up to the first NUL, without reading past it |
| CStrings.StartsWith | nova-os/boot/kernel.c:113-123 | the prefix relation of the two strings, without reading past a terminator |
| Decimals.PrintThenParse | nova-os/boot/kernel.c:96-111 | a printed number reads back as itself |
| Decimals.PrintsCanonically | nova-os/boot/kernel.c:101-108 | no leading zero except for zero itself |
| Decimals.ParseThenPrint | nova-os/boot/kernel.c:105-110 | every canonical numeral is what is printed for its value |
| Decimals.TwentyDigits | nova-os/boot/kernel.c:99-105 | the 20-digit guard never cuts a 64-bit value short |
| Consoles.Console.constructor | nova-os/boot/kernel.c:257-265 | the banner, the welcome and the prompt are sent, the line is empty |
| Consoles.Console.SerialPutc | nova-os/boot/kernel.c:77-85 | a newline is followed by a carriage return |
| Consoles.Console.FillDigits | nova-os/boot/kernel.c:99-108 | the array holds all digits, lowest first, and the guard never cuts them short |
| Consoles.Console.DrainDigits | nova-os/boot/kernel.c:109-110 | the digits are sent from the highest down |
| Consoles.Console.WriteUnsigned | nova-os/boot/kernel.c:96-111 | filling the array and draining it in reverse prints the decimal notation |
| Consoles.Console.SysWrite | nova-os/boot/kernel.c:153-158 | exactly the string is sent, newlines expanded |
| Consoles.Console.SerialPrompt | nova-os/boot/kernel.c:160-164 | the prompt is sent |
| Consoles.Console.CommandIs | nova-os/boot/kernel.c:166-173 | equality of the buffer, as a string, with the word |
| Consoles.Console.LineIsString | nova-os/boot/kernel.c:200-202 | the terminated buffer denotes exactly the edited line despite stale bytes behind it |
| Consoles.Console.EchoArgument | nova-os/boot/kernel.c:212-213 | the pointer five bytes on denotes the rest of the line |
| Consoles.Console.PrintUname | nova-os/boot/kernel.c:175-184 | the five names on one line |
| Consoles.Console.PrintPs | nova-os/boot/kernel.c:186-195 | the header and one row for each task |
| Consoles.Console.PrintEcho | nova-os/boot/kernel.c:212-213 | the rest of the line and a newline, nothing more |
| Consoles.Console.Dispatch | nova-os/boot/kernel.c:202-226 | the chain of C-string tests answers with `Reply` to the line, which `ConsoleAnswers.EnterIsAnswered` tells by a table |
| Consoles.Console.RunCommand | nova-os/boot/kernel.c:197-229 | newline, reply, prompt; the line is executed and emptied |
| Consoles.Console.SerialBackspace | nova-os/boot/kernel.c:231-238 | the last character goes, the erase sequence is sent; nothing on an empty line |
| Consoles.Console.SerialPoll | nova-os/boot/kernel.c:240-255 | the code computes `Shell.Poll` and sends what `Emits` says; bytes 13 and 10 execute the line, 8 and 127 shorten it (`ConsoleAnswers.ByteByByte` tells every byte) |
| Consoles.Console.Turn | nova-os/boot/kernel.c:266-269 | a tick and a poll |
| ConsoleRuns.EditorRefinesEditFunction | nova-os/boot/kernel.c:197-255 | for every byte stream the executed lines are the edited segments between newlines, and the buffer holds the edit of the last |
| ConsoleRuns.EditedWithoutRubout | nova-os/boot/kernel.c:251-253 | without rubouts the line is the first 159 printable characters |
| ConsoleRuns.RuboutTakesBackIff | nova-os/boot/kernel.c:231-254 | BS or DEL undoes the key before it exactly when that key entered the line or the line is empty |
| ConsoleRuns.RuboutTakesAnother | nova-os/boot/kernel.c:231-254 | after 159 letters, one more and a rubout leave 158 |
| ConsoleRuns.RunStaysValid | nova-os/boot/kernel.c:249-252 | the line never exceeds 159 characters and holds only printable ones |
| ConsoleRuns.ReplySettles | nova-os/boot/kernel.c:202-226 | after every command, `clear` included, the cursor is at the start of a blank row |
| ConsoleRuns.ScreenAgreesWithBuffer | nova-os/boot/kernel.c:160-265 | after every byte the cursor's row is the prompt and the buffer, blank to the right and below |
| ConsoleRuns.ShownIsExecuted | nova-os/boot/kernel.c:197-255 | the text shown behind the prompt when Enter comes is the line executed, and what is sent is the reply to it |
| ConsoleRuns.TicksCountTurns | nova-os/boot/kernel.c:266-269 | the counter is the number of turns modulo 2^32 |
| ConsoleRuns.UptimeReadsBack | nova-os/boot/kernel.c:222-223 | entering `uptime` sends a canonical numeral that reads back as the number of turns, modulo 2^32 |
| ConsoleAnswers.ByteByByte | nova-os/boot/kernel.c:240-255 | in every reachable state the line is executed exactly by 13 and 10, shortened exactly by 8 and 127 unless empty, extended exactly by 32 to 126 below 159 characters, and otherwise kept |
| ConsoleAnswers.ByteIsSent | nova-os/boot/kernel.c:231-254 | a character taken sends back, blank, back; one added sends itself; any other byte but 13 and 10 sends nothing |
| ConsoleAnswers.FirstIsGreeting | nova-os/boot/kernel.c:261-265 | a newline, the banner, the welcome and the prompt come first |
| ConsoleAnswers.EnterIsAnswered | nova-os/boot/kernel.c:197-229 | after any inputs 13 or 10 sends a newline, the answer and the prompt: the text of the table for its nine words, with the full lines of `uname` and `ps`, the rest of the line for `echo`, nothing for an empty line, else the unknown-command message |
| ConsoleAnswers.UnknownExactly | nova-os/boot/kernel.c:202-226 | the unknown-command message is in the answer exactly for a non-empty line that is no word and does not start with "echo " |
| ConsoleAnswers.TypedIsLine | nova-os/boot/kernel.c:249-254 | up to 159 printable characters typed at an empty line are echoed and become the line |
| ConsoleAnswers.TypedEcho | nova-os/boot/kernel.c:197-255 | typing "echo ", any text that fits and Enter sends back the text on a line of its own |
| Terminal.FeedRubout | nova-os/boot/kernel.c:236-237 | back, blank, back removes the last character from the row |
| Terminal.FeedNewline | nova-os/boot/kernel.c:82-84 | line feed and carriage return land at the start of a blank row |
| Terminal.FeedClear | nova-os/boot/kernel.c:220-221 | erase and home leave a blank screen |
| Networking.NetworkStack.constructor | nova-os/kernel/network/network_stack.c:8-11 | the static state before the first call, no packet buffer allocated or freed yet |
| Networking.NetworkStack.NetworkInit | nova-os/kernel/network/network_stack.c:20-26 | empty table, first descriptor 1, empty registry |
| Networking.NetworkStack.NetworkShutdown | nova-os/kernel/network/network_stack.c:28-38 | every node's `next` is cleared, the registry is empty, the table stays |
| Networking.NetworkStack.Lookup | nova-os/kernel/network/network_stack.c:13-18 | NULL exactly for a descriptor that is not open |
| Networking.NetworkStack.Find | nova-os/kernel/network/network_stack.c:267-279 | the registered device of that name, NULL exactly when there is none |
| Networking.NetworkStack.Register | nova-os/kernel/network/network_stack.c:221-241 | refused exactly without a device, a name or a free name; otherwise the device becomes the first, and is opened; the list stays acyclic |
| Networking.NetworkStack.Unregister | nova-os/kernel/network/network_stack.c:243-265 | exactly that node leaves, the rest keeps its order, its `next` is clear |
| Networking.NetworkStack.Construct | nova-os/kernel/network/loopback.c:56-63 | the effect of wiping and registering a static node; the registry survives a second call exactly when that node is unregistered or the oldest |
| Networking.NetworkStack.LoopbackInit | nova-os/kernel/network/loopback.c:56-63 | lo, with its name, mtu, flags and driver, becomes the first device, or is refused and the list is cut behind it |
| Networking.NetworkStack.NicStubInit | nova-os/kernel/network/nic_stub.c:49-59 | nic0, with its name, mtu, flags and driver, becomes the first device, or is refused and the list is cut behind it |
| Networking.Bootstrap | nova-os/docs/networking-design.md:40 | after init, lo and nic0 the list holds both, with their flags and drivers and no statistics; table, buffers and invariant are intact |
| Networking.HostTestScenario | nova-os/kernel/network/host_test.c:13-44 | both devices, a socket opened, connected and closed, a packet over each: lo counts 1 sent and 2 received, nic0 1 sent, one of two buffers is freed |
| Networking.SecondNicStubInit | nova-os/kernel/network/nic_stub.c:49-59 | setting up nic0 again after the documented boot is refused and lo is no longer found |
| Networking.SecondLoopbackInit | nova-os/kernel/network/loopback.c:56-63 | setting up lo again is refused and nic0, where it was registered before lo, is no longer found |
| Networking.NetworkStack.OpenSocket | nova-os/kernel/network/network_stack.c:40-83 | the next number exactly for domain 0, 1, 2 or 10, type 1, 2, 3 or 5, memory and a number below 64, otherwise -1; a fresh socket routed to lo, other cells untouched |
| Networking.NetworkStack.Close | nova-os/kernel/network/network_stack.c:209-219 | the code computes `Fds.Close`; other cells untouched |
| Networking.NetworkStack.Connect | nova-os/kernel/network/network_stack.c:95-107 | state 1 and a route to lo if there was none; nothing changes on a descriptor that is not open |
| Networking.NetworkStack.Listen | nova-os/kernel/network/network_stack.c:109-117 | state 2; nothing changes on a descriptor that is not open |
| Networking.NetworkStack.ShutdownSocket | nova-os/kernel/network/network_stack.c:173-181 | state 0; nothing changes on a descriptor that is not open |
| Networking.NetworkStack.AllocSkb | nova-os/kernel/network/network_stack.c:281-301 | a fresh zeroed buffer, or NULL and no change |
| Networking.NetworkStack.FreeSkb | nova-os/kernel/network/network_stack.c:303-309 | a live buffer is live no more |
| Networking.NetworkStack.NetifReceive | nova-os/kernel/network/network_stack.c:311-322 | one reception is counted on the packet's device |
| Networking.NetworkStack.LoStartXmit | nova-os/kernel/network/loopback.c:24-40 | one transmission and two receptions are counted, the buffer stays live |
| Networking.NetworkStack.NicStartXmit | nova-os/kernel/network/nic_stub.c:24-33 | one transmission is counted, the buffer is freed |
| Networking.NetworkStack.DevQueueXmit | nova-os/kernel/network/network_stack.c:324-330 | dispatch by driver; without one an error and no change |
| Networking.NetworkStack.Transmit | nova-os/kernel/network/network_stack.c:146-158 | the buffer is allocated, carries the payload, and is freed when the driver refuses it |
| Networking.NetworkStack.Send | nova-os/kernel/network/network_stack.c:129-159 | refusals change nothing; otherwise the outcome is the driver's, on the socket's device only |
| RegistryRuns.RegistryIsMostRecentFirst | nova-os/kernel/network/network_stack.c:20-38 | in every run the listed devices are those registered and not taken off since, names distinct, most recent first |
| NetworkRuns.RunRegistry | nova-os/kernel/network/network_stack.c:20-265 | any sequence of init, shutdown, register and unregister carried out on the heap leaves the linked list that this run computes |
| RegistryRuns.RegisterStep | nova-os/kernel/network/network_stack.c:221-241 | registering keeps that, and a live device again changes nothing |
| RegistryRuns.UnregisterStep | nova-os/kernel/network/network_stack.c:243-265 | unregistering keeps that |
| Descriptors.DescriptorsAreNeverReused | nova-os/kernel/network/network_stack.c:40-83 | between initialisations returned descriptors increase strictly in 1..63 and the open ones are those returned and not closed |
| Descriptors.ClosedStaysClosed | nova-os/kernel/network/network_stack.c:209-219 | a closed descriptor is not open again until the table is started afresh, by init or by a socket call after a shutdown |
| Descriptors.AnswersFollowCalls | nova-os/kernel/network/network_stack.c:40-219 | over every run a good socket call with memory returns one more than the good calls since the table was started afresh, up to 63, any other -1; a close succeeds exactly on a descriptor granted and not closed |
| Descriptors.ShutdownStartsAfresh | nova-os/kernel/network/network_stack.c:28-46 | after a shutdown the next good socket call returns 1, the only open descriptor |
| Packets.PacketsAreAccountedFor | nova-os/kernel/network/network_stack.c:129-159 | over every run on live buffers, failing and refused sends included, no double free, allocated = freed + outstanding, lo receptions are twice its transmissions, nic0 receives nothing |
| NetworkRuns.RunTraffic | nova-os/kernel/network/network_stack.c:129-330 | any sequence of allocations, frees, transmissions and sends by a client that uses live buffers of its own, carried out on the heap, ends in the state this run computes |
| NetworkRuns.RunShows | nova-os/kernel/network/network_stack.c:129-330 | device statistics and the numbers of buffers allocated, freed and outstanding are then those of the run |
| NetworkRuns.BootAndRunTraffic | nova-os/kernel/network/network_stack.c:129-330 | the same from a new stack with lo, nic0 and a refusing device: every buffer and every packet is accounted for on the heap |
| SocketRuns.RunSockets | nova-os/kernel/network/network_stack.c:13-265 | any sequence of socket, registry and set-up calls carried out on the heap returns the answers and leaves the sockets, routes, statistics and buffer numbers that the value run computes |
| SocketRuns.BootAndRunSockets | nova-os/kernel/network/network_stack.c:8-265 | the same from a new stack, with the descriptor table of `Descriptors.Run` and lo showing exactly what `nova_send` acknowledged, modulo 2^64 |
| SocketRuns.SocketsFollowDescriptors | nova-os/kernel/network/network_stack.c:40-219 | over every run the descriptor table is the one of `Descriptors.Run`, and exactly its open descriptors have a socket |
| SocketRuns.SocketAnswersFollowCalls | nova-os/kernel/network/network_stack.c:40-219 | socket and close calls in a run of all socket calls are answered in the same way |
| SocketRuns.WhatIsAcknowledgedIsSent | nova-os/kernel/network/network_stack.c:129-159 | packets and bytes transmitted by lo are the number and the sum of the sends answered without error, and none of their buffers is freed |
| SocketRuns.RouteStays | nova-os/kernel/network/network_stack.c:40-219 | a route outlives the registration of lo, until the descriptor is closed or the table is started afresh |
| SocketRuns.RoutedIffLoWasFound | nova-os/kernel/network/network_stack.c:79-142 | a socket has a device exactly when lo was registered at a call that looked for it since the descriptor was opened |
| SocketRuns.SendIsAcknowledgedIff | nova-os/kernel/network/network_stack.c:129-159 | with memory to be had, a non-empty send is acknowledged exactly when the descriptor is open and lo is registered or was found before; otherwise nothing is sent |
| Packets.XmitShows | nova-os/kernel/network/loopback.c:29-38 | one accepted packet adds 1 and len to tx, and on lo exactly 2 and 2 * len to rx, modulo 2^64 |
| Packets.SendsOverLoStayOutstanding | nova-os/kernel/network/loopback.c:24-40 | what is outstanding after any sends is exactly what lo accepted |

## Left out

- Port I/O, the UART set-up and its busy-wait: sending is appending to the output, a poll takes an optional character.
- Results beside an error: where `nova_sched_add`, `nova_vm_alloc_page` or `nova_vm_translate` fail, the C code leaves the caller's variables alone; the model returns a placeholder zero there.
- Interrupts, threads and locks: the modelled code uses none; runs interleave whole calls.
- Scheduling.Scheduler.PickNext: the cast of the id to a signed 32-bit result is not modelled; in every reachable state ids are at most the number of slots, where it is exact.
- Terminal: rows are unbounded in width and number, so wrapping and scrolling at the edge of a real screen are not modelled; of the control sequences only the two that the kernel sends are understood.
- Networking.NetDevice: names are strings that end at their first NUL; the 16-byte arrays that hold them, the MAC address and the four error and drop counters, which no code touches, are not modelled.
- Networking.NetworkStack.DevQueueXmit: drivers outside the repository are represented by one that refuses every packet and leaves it with its caller; `open` of a driver only raises flags.
- Networking.NetworkStack.Construct: assumes that a static node that is registered still carries the name its constructor gave it.
- Networking.NetworkStack.FreeSkb: asks for a live buffer, as C does; the fate of freed memory is not modelled, nor are a socket's `ops` and `private_data`, which stay NULL.
- RegistryRuns: devices are numbers with fixed names, as names are while a device is registered.
- NetworkRuns.RunTraffic: sends go through `Transmit`, the part of `nova_send` behind the choice of the device, so that nic0 and a refusing driver are covered too; whole `nova_send` calls, which only ever choose lo, are in SocketRuns. Buffers that `nova_send` left outstanding are never freed, as no client has a pointer to them.
- SocketRuns.RunSockets: the registry holds lo or nothing, and lo is set up once.
- Networking.HostTestScenario: `nova_bind` is left out, and the payload bytes of the two packets, which no code reads.
- Consoles.Reply: the wording of the longer messages is a parameter, any whole lines of printable characters, as those in the source are; the prompt, `uname`, `ps`, `uptime` and the control sequences are spelled out.
- `nova_bind`, `nova_accept`, `nova_recv`, `nova_getsockopt`, `nova_setsockopt`: stubs behind the descriptor check.
- The `stop` and `get_stats` callbacks, and the byte-order helpers: single assignments or one-shot facts.
- `nova-os/kernel/io/io_stack.c`: uses a field its header does not declare; its device list is the idea of the network registry.
- `nova-os/kernel/novakit/registry.c`, `nova-os/drivers/linuxkpi`: append-only tables of devices and drivers, with the index plus one as the id.
- `nova-os/userland`, the Rust and FreeBSD scaffolds, boot assembly, build files and scripts: flags, declarations or no state.
