# Verification of the stm32-dds firmware and its bundled lwIP

This project models the parts of the firmware with the most state, and proves what they keep
over whole runs. `dafny verify dfyconfig.toml` checks all of it.

| part of the system | files |
|---|---|
| heap of lwIP: first fit, splitting, coalescing, trimming, the cached lowest free block | `Blocks`, `BlocksTheorems`, `HeapRuns`, `Heap` |
| `lwip_select` against event callbacks, as interleaved critical sections | `Select`, `SelectTheorems`, `SelectWakeups`, `SelectHistory` |
| packet buffers: reference counts, chains, totals, copies | `Pbufs`, `PbufTheorems`, `PbufChains`, `PbufTrim`, `PbufAlloc`, `PbufHeap`, `PbufCopy`, `CopyRounds`, `PbufDechain` |
| memory pools and their cycle check | `Floyd`, `Memp` |
| command queue, interpreter and flash image of the firmware | `Commands`, `CommandRuns`, `CommandQueue`, `Startup` |
| AD9910 register fields and SPI frames | `Bits`, `Ad9910` |
| timers, DNS, DHCP, SLIP, resumable TCP write, local ports | `Timers`, `Dns`, `Dhcp`, `Slip`, `Writemore`, `TcpPort` |
| shared definitions | `Basics`, `Bytes` |

Code that updates memory in place is a class (or a method on an array), proved against functions
on the values it holds; the theorems are lemmas about those functions, or invariants that every
method keeps. What the code reads from outside (the clock, the network, results of `tcp_write`,
whether memory is available, the checksum function) is a parameter. Struct sizes and alignments
are symbolic.

Configuration: no pools behind `mem_malloc`, no `mem_free` from other contexts, no custom pbufs,
no core locking, the variant of the timers without an operating system, addresses of the DHCP
client checked by ARP or not.

## Findings

Properties one would expect that do not hold, each with a concrete case and the exact condition.

- `mem_malloc` and `mem_trim`: a request whose rounding wraps around `mem_size_t` is served with too
  little memory, or cuts the block below it (`HeapRuns.MallocIsLargeEnough`,
  `HeapRuns.HugeRequestGetsMinimum`, `HeapRuns.TrimCovers`, `HeapRuns.HugeTrimLeavesMinimum`).
- `lwip_select`: a remainder that `recv` keeps makes a socket readable for `lwip_selscan` but wakes
  nobody. Exactly which waiting calls are woken is `SelectWakeups.WakeupExact`, exactly which steps
  lose a wake-up `SelectWakeups.LossExactly` and `SelectWakeups.NoWakeupLostIff`, a run that does
  `SelectWakeups.RemainderWakeupLost`.
- `pbuf_chain`: with NULL as its first argument it raises the count of its second without a
  reference for it (`PbufHeap.Heap.Chain`, `PbufHeap.CountWithoutReference`).
- `pbuf_dechain`: the `u8_t` count of `pbuf_free` wraps around, and the result is then a pbuf that
  is gone (`PbufDechain.DechainResult`, `PbufDechain.DechainDangles`).
- `pbuf_copy`: packets that end in empty pbufs may be refused although the target is long enough
  (`PbufCopy.Copy` with `CopyRounds.Succeeds`, `CopyRounds.EmptyEndsRefused`).
- `sys_timeout`: a timeout counts from the last time one has fired, not from the call, so that it may
  fire too early (`Timers.NeverTooEarly`, `Timers.FiresEarly`).
- `slipif_rxbyte`: accepts one byte more than `SLIP_MAX_SIZE` (`Slip.RoundTrip`).
- `command_queue_register`: a refused request may leave the register command without its SPI write,
  or a lone SPI write (`CommandQueue.RefusedUnchanged`, `CommandQueue.FillThenRegister`).
- `dns_enqueue`: after the wrap-around of `dns_seqno` it may refuse a query although a completed
  entry could be reused (`Dns.FullExactly`, `Dns.FullTooEarly`).
- DHCP: the client stops asking after an offer without server identifier, and at its 256th renewal
  (`Dhcp.Client.Receive` and `Dhcp.OfferWithoutServer`, `Dhcp.Client.FineTimer` and
  `Dhcp.RenewalsStop`). In the second case the timers T1 and T2 of the lease can still restart it.
- `do_writemore`: `write_offset` is not reset when a write with accepted bytes ends in a timeout or
  an error, although `do_write` asserts that it is 0 (`Writemore.Netconn.WriteMore`,
  `Writemore.OffsetLeftOver`).

## Model

| member | source | states |
|---|---|---|
| `BlocksTheorems.BlocksDisjoint` | lib/lwip/src/core/mem.c:235-268 | blocks that tile the heap do not overlap |
| `BlocksTheorems.LiveDetermines` | lib/lwip/src/core/mem.c:235-268 | a well-formed heap is determined by its live blocks: coalescing leaves one possible free structure |
| `BlocksTheorems.InitKeeps` | lib/lwip/src/core/mem.c:273-302 | the initial heap is well formed and has no live block |
| `BlocksTheorems.AllocKeeps` | lib/lwip/src/core/mem.c:503-632 | an allocation keeps the heap well formed and adds exactly one live block inside the chosen free block |
| `BlocksTheorems.FreeKeeps` | lib/lwip/src/core/mem.c:310-356 | a free keeps the heap well formed and removes exactly the freed block from the live ones |
| `BlocksTheorems.TrimKeeps` | lib/lwip/src/core/mem.c:368-482 | a trim keeps the heap well formed, shrinks only the trimmed block and leaves the other live blocks alone |
| `Blocks.RoundedSize` | lib/lwip/src/core/mem.c:503-516 | the rounded size is aligned, at least the minimum, and not below the request exactly when the rounding does not wrap around mem_size_t |
| `HeapRuns.StepKeeps` | lib/lwip/src/core/mem.c:235-633 | every single call keeps the heap well formed |
| `HeapRuns.RunKeeps` | lib/lwip/src/core/mem.c:235-633 | every run of malloc, free and trim keeps the heap well formed: aligned blocks of at least minimum size tile it and no two adjacent blocks are free |
| `HeapRuns.RunsAgree` | lib/lwip/src/core/mem.c:235-633 | two runs from mem_init that end with the same live blocks end in the same heap |
| `HeapRuns.FreeUndoesMalloc` | lib/lwip/src/core/mem.c:310-632 | freeing a just-allocated block restores the exact block list, and with it lfree, which is a function of the list |
| `HeapRuns.FreeAfterTrim` | lib/lwip/src/core/mem.c:310-482 | a trim before the free makes no difference to the heap that results |
| `HeapRuns.FreeAllRestores` | lib/lwip/src/core/mem.c:235-356 | freeing all live blocks in any order returns the heap to the state after mem_init |
| `HeapRuns.FirstFitIsLowest` | lib/lwip/src/core/mem.c:503-632 | the block handed out lies at the lowest address where header and data fit among the live blocks; NULL exactly when there is no such address |
| `HeapRuns.MallocServes` | lib/lwip/src/core/mem.c:493-632 | a request changes the heap exactly when it is for at least one byte and header and data fit somewhere among the live blocks |
| `HeapRuns.MallocIsLargeEnough` | lib/lwip/src/core/mem.c:503-632 | a served request gets a new live block, and the block is large enough if and only if the rounding did not wrap around (or the request is within the minimum) |
| `HeapRuns.RoundedIsLeast` | lib/lwip/src/core/mem.c:503-516 | of the aligned sizes not below the minimum, the rounded one is the smallest that covers the request |
| `HeapRuns.MallocIsSmallest` | lib/lwip/src/core/mem.c:503-632 | the block handed out is the smallest with room for the request that can start there in any well-formed heap with the same other live blocks: it is split whenever that is possible |
| `HeapRuns.TrimIsSmallest` | lib/lwip/src/core/mem.c:368-482 | so is the block that a trim leaves, also when it leaves all of it |
| `HeapRuns.TrimCovers` | lib/lwip/src/core/mem.c:368-482 | a trimmed block still covers the request if and only if the rounding did not wrap around (or the request is within the minimum) |
| `HeapRuns.HugeRequestGetsMinimum` | lib/lwip/src/core/mem.c:503-516 | with 16-bit sizes a request for 65535 bytes succeeds and gets 12 bytes |
| `HeapRuns.HugeTrimLeavesMinimum` | lib/lwip/src/core/mem.c:368-482 | with 16-bit sizes a block of 100 bytes trimmed to 65535 bytes keeps 12 of them |
| `Heap.Mem.constructor` | lib/lwip/src/core/mem.c:273-302 | mem_init writes headers that represent the initial block list |
| `Heap.Mem.PlugHoles` | lib/lwip/src/core/mem.c:235-268 | merges the freed block with free neighbours on both sides; links and lfree stay correct |
| `Heap.Mem.Free` | lib/lwip/src/core/mem.c:310-356 | refines the free of the block list; NULL and pointers outside the heap change nothing; lfree is again the lowest free block; the data of all other live blocks stays as it was |
| `Heap.Mem.Search` | lib/lwip/src/core/mem.c:518-545 | the search from lfree over the next links, stopping at MEM_SIZE_ALIGNED - size, finds the block that a first-fit scan of the whole list finds |
| `Heap.Mem.AdvanceLfree` | lib/lwip/src/core/mem.c:590-611 | moving over used blocks makes lfree the lowest free block or the end |
| `Heap.Mem.Malloc` | lib/lwip/src/core/mem.c:493-633 | refines first fit on the block list and returns the address behind the header, or NULL for size 0, for an oversized request, or when nothing fits; the data of all live blocks stays as it was |
| `Heap.Mem.Take` | lib/lwip/src/core/mem.c:548-611 | splits the found block when a minimal one fits behind, otherwise takes all of it; headers, links and lfree stay correct |
| `Heap.Mem.Trim` | lib/lwip/src/core/mem.c:368-482 | refines the trim of the block list; NULL for sizes that do not fit, the pointer itself otherwise, also for a pointer outside the heap; the trimmed block keeps the data it still has, and all other live blocks keep theirs |
| `SelectTheorems.StepKeeps` | lib/lwip/src/api/sockets.c:1107-1360 | every critical section of select and of event callbacks keeps the invariant of list, counters, semaphores and pending wake-ups |
| `SelectTheorems.RunKeeps` | lib/lwip/src/api/sockets.c:1107-1360 | so does every interleaving, for any number of threads and sockets |
| `SelectTheorems.NoLostWakeup` | lib/lwip/src/api/sockets.c:1107-1360 | a blocked, unsignalled call with a socket in its sets that the callback would find ready still has a callback for that socket on its way to it |
| `SelectTheorems.NoDanglingLink` | lib/lwip/src/api/sockets.c:1286-1359 | a callback whose remembered counter is current stands on an element of a select call that has not returned |
| `SelectTheorems.WaitingCounterExact` | lib/lwip/src/api/sockets.c:1122-1222 | select_waiting never goes below zero and is zero exactly when no call counts on the socket |
| `SelectWakeups.PendingSignals` | lib/lwip/src/api/sockets.c:1286-1359 | a callback on its way to a waiting call does signal it when it continues its walk while the socket stays ready |
| `SelectWakeups.SignalledCanWake` | lib/lwip/src/api/sockets.c:1185-1240 | a signalled blocked call has exactly one semaphore count and can go on |
| `SelectWakeups.WakeupExact` | lib/lwip/src/api/sockets.c:1025-1360 | a waiting call will be signalled by a callback under way if and only if the socket is ready by the test of event_callback |
| `SelectWakeups.OnlyRemainderIsMissed` | lib/lwip/src/api/sockets.c:1025-1360 | a call waiting for a socket that lwip_selscan finds ready is not woken if and only if all that makes it ready is the kept remainder of a message |
| `SelectWakeups.LossExactly` | lib/lwip/src/api/sockets.c:1025-1360 | a step loses a wake-up if and only if it stores a remainder while a call waits to read and nothing else is ready, or takes away the last other readiness while a remainder is there |
| `SelectWakeups.NoWakeupLostIff` | lib/lwip/src/api/sockets.c:1025-1360 | in every run, no wake-up is lost in any of its states if and only if the run makes no such step |
| `SelectWakeups.RemainderWakeupLost` | lib/lwip/src/api/sockets.c:1025-1360 | a run that ends with a blocked call on a readable socket that nothing will signal: lwip_selscan tests lastdata, event_callback does not |
| `SelectHistory.FlagsExact` | lib/lwip/src/api/sockets.c:1246-1310 | in every run a socket is writable, failed or holds a remainder if and only if the last step that has to do with this (opening, SENDPLUS, SENDMINUS, ERROR, storing or dropping a remainder) says so |
| `SelectHistory.MessagesExact` | lib/lwip/src/api/sockets.c:1246-1310 | in every run rcvevent is the number of RCVPLUS minus that of RCVMINUS since the socket was opened |
| `SelectHistory.EventWakes` | lib/lwip/src/api/sockets.c:1246-1360 | in every run a SENDPLUS, ERROR or RCVPLUS signals each waiting call that has the socket in the set for it, at once or by a callback under way |
| `SelectHistory.FirstScanExact` | lib/lwip/src/api/sockets.c:1025-1109 | a scan that nothing disturbs lets its call go on to wait if and only if no socket in its sets is ready |
| `PbufTheorems.FreeKeeps` | lib/lwip/src/core/pbuf.c:617-694 | pbuf_free gives up exactly the one reference: all counts stay exact and the chains acyclic |
| `PbufTheorems.RefKeeps` | lib/lwip/src/core/pbuf.c:722-732 | pbuf_ref adds one reference and one count |
| `PbufTheorems.LiveExactlyReachable` | lib/lwip/src/core/pbuf.c:236-831 | with exact counts and acyclic chains the live pbufs are exactly those reachable from handles |
| `PbufChains.CatKeeps` | lib/lwip/src/core/pbuf.c:744-767 | pbuf_cat keeps counts exact and chains acyclic; the reference to the tail passes to the chain |
| `PbufChains.CatContent` | lib/lwip/src/core/pbuf.c:744-767 | the joined chain holds the bytes of both chains, one behind the other |
| `PbufChains.CatTotals` | lib/lwip/src/core/pbuf.c:744-767 | every tot_len of the joined chain is right as long as the sum fits into a u16_t |
| `PbufTrim.CutKeeps` | lib/lwip/src/core/pbuf.c:429-488 | cutting the chain at the new end keeps counts exact, with the rest as a reference to give up |
| `PbufTrim.ReallocResult` | lib/lwip/src/core/pbuf.c:429-488 | pbuf_realloc leaves exactly the prefix of the bytes with every tot_len correct, whatever happens to the pbufs behind the cut |
| `PbufTrim.SeparatedKeeps` | lib/lwip/src/core/pbuf.c:802-831 | separating the first pbuf turns its link into a reference to give up |
| `PbufTrim.SeparatedLeaves` | lib/lwip/src/core/pbuf.c:802-819 | the separated pbuf stands alone with its own bytes as its total; the pbufs behind it are a chain with the bytes they had and correct totals |
| `PbufTrim.DechainLeaves` | lib/lwip/src/core/pbuf.c:802-831 | the same after the rest was freed, as far as it is still there |
| `PbufDechain.FreedIsSole` | lib/lwip/src/core/pbuf.c:617-694 | pbuf_free deallocates exactly the pbufs of the chain before the first shared one |
| `PbufDechain.DechainResult` | lib/lwip/src/core/pbuf.c:802-831 | pbuf_dechain returns the tail, or NULL when it was deallocated, if and only if the number of unshared pbufs at the start of the tail is 0 or not a multiple of 256 (pbuf_free counts in a u8_t) |
| `PbufDechain.DechainDangles` | lib/lwip/src/core/pbuf.c:802-831 | for a chain of 257 pbufs (and 513, and so on) it returns a pbuf that is no longer live |
| `PbufAlloc.RollBack` | lib/lwip/src/core/pbuf.c:237-305 | freeing a chain under construction restores memory exactly |
| `PbufAlloc.NeededIsLeast` | lib/lwip/src/core/pbuf.c:237-305 | the number of pool pbufs for a packet is the smallest, at least one, that has room for it |
| `PbufHeap.Heap.constructor` | lib/lwip/src/core/pbuf.c:236-348 | all elements are free and nothing is live |
| `PbufHeap.Heap.Ref` | lib/lwip/src/core/pbuf.c:722-732 | adds one reference for the caller; nothing for NULL |
| `PbufHeap.Heap.Free` | lib/lwip/src/core/pbuf.c:617-694 | gives up one reference of the caller, returns pbufs to the pool they came from and the number of freed pbufs modulo 256 |
| `PbufHeap.Heap.Cat` | lib/lwip/src/core/pbuf.c:744-767 | raises every tot_len of the first chain and links the second; nothing for NULL |
| `PbufHeap.Heap.Chain` | lib/lwip/src/core/pbuf.c:785-792 | like pbuf_cat, and the caller keeps its reference; counts stay exact if and only if the first pbuf is not NULL or the second is |
| `PbufHeap.CountWithoutReference` | lib/lwip/src/core/pbuf.c:785-792 | pbuf_chain(NULL, t) leaves the count of every live pbuf t too high |
| `PbufHeap.Heap.Dechain` | lib/lwip/src/core/pbuf.c:802-831 | cuts the first pbuf off, which then has its own bytes as its total, and gives up its reference to the rest, which keeps its bytes with correct totals if it is still there; decides its result from the u8_t count |
| `PbufHeap.Heap.Realloc` | lib/lwip/src/core/pbuf.c:429-488 | shrinks the chain to exactly its first bytes with correct totals, leaves pbufs outside of it alone and keeps all counts exact; growing does nothing |
| `PbufHeap.Heap.AllocSingle` | lib/lwip/src/core/pbuf.c:306-349 | a new pbuf of the requested kind and length with one reference, from the heap for PBUF_RAM and from the pool of bare structs otherwise; NULL, and nothing changed, exactly when that is empty |
| `PbufHeap.Heap.AllocPool` | lib/lwip/src/core/pbuf.c:206-305 | a chain of pool pbufs, each filled before the next one is used, with correct totals, or NULL exactly when the pool has too few elements, and then memory, handles and pool are as before |
| `PbufCopy.Take` | lib/lwip/src/core/pbuf.c:965-995 | pbuf_take replaces the first bytes of the chain and nothing else; error when the chain is too short |
| `PbufCopy.CopyPartial` | lib/lwip/src/core/pbuf.c:917-953 | pbuf_copy_partial returns the bytes at any offset and length, cut at the end of the packet, for any segmentation |
| `PbufCopy.SliceIs` | lib/lwip/src/core/pbuf.c:917-953 | that is as many bytes as there are, up to len, in order |
| `PbufCopy.TakeThenCopyPartial` | lib/lwip/src/core/pbuf.c:917-995 | what pbuf_take stored comes back at any offset and length |
| `PbufCopy.Copy` | lib/lwip/src/core/pbuf.c:851-904 | pbuf_copy terminates; success means the target starts with the bytes of the source and nothing else has changed; for all packets it succeeds exactly when the boundaries of the two chains say so; otherwise an error, and no change when the target is missing or too short |
| `CopyRounds.RoundPasses` | lib/lwip/src/core/pbuf.c:863-901 | when the condition on the boundaries holds, every round of the loop passes the checks for room and against packet queues |
| `CopyRounds.EndSucceeds` | lib/lwip/src/core/pbuf.c:863-901 | when all rounds have passed the checks, the condition on the boundaries holds |
| `CopyRounds.SucceedsPlain` | lib/lwip/src/core/pbuf.c:851-904 | for packets that do not end in an empty pbuf the condition is that the target is long enough |
| `CopyRounds.EmptyEndsRefused` | lib/lwip/src/core/pbuf.c:851-904 | three pairs of packets that end in empty pbufs and are refused although the target is long enough, and one that is not |
| `Commands.EncodingIs` | include/commands.h:14-64 | the number of each kind of command and the order of the fields behind it |
| `Bytes.ByteOrder` | include/commands.h:14-64 | numbers are stored least significant byte first |
| `Commands.DecodeEncode` | src/commands.c:141-176 | execute_command finds at a position exactly the command that was stored there |
| `Commands.Boundary` | src/commands.c:315-350 | get_command_length leads from command to command, and from the last one exactly to end |
| `Commands.CommandDecodes` | src/commands.c:123-176 | execute_command finds at each boundary the command that was queued there |
| `CommandRuns.SpreadRun` | src/commands.c:62-77 | one SPI write follows each maximal run of register commands |
| `CommandRuns.SpreadKeepsRequests` | src/commands.c:62-97 | apart from the SPI writes the queue holds the requests themselves in order |
| `CommandRuns.RunMeaning` | src/commands.c:123-206 | running the queue performs the register writes in order on the shadow registers, and the dirty mask at each SPI write is exactly the addresses of its run |
| `CommandRuns.MaskExact` | src/commands.c:178-206 | the mask of an SPI update is exactly the chip addresses of the registers that its run has written to |
| `CommandRuns.OthersPerformed` | src/commands.c:141-241 | apart from the SPI updates exactly the other requests leave their mark, in order: a trigger waits for the pin, an update pulses IO_UPDATE, a wait waits its time, a pin command sets its pin to its level |
| `CommandQueue.SpreadRegister` | src/commands.c:62-77 | adding a register request moves the trailing SPI write behind it |
| `CommandQueue.SpreadOther` | src/commands.c:45-60 | adding any other request appends it |
| `CommandQueue.ExecutionMeaning` | src/commands.c:62-206 | after accepted requests, executing n times folds the requests n times over the shadow registers, with one SPI update per maximal register run |
| `CommandQueue.ActionsRepeat` | src/commands.c:123-139 | what n runs send out is what one run sends out, n times |
| `CommandRuns.FieldReadsBack` | src/commands.c:178-187 | after the requests, the field of a register request that no later one overlaps reads back its value modulo 2^bits |
| `CommandQueue.FieldAfterRun` | src/commands.c:62-206 | the same after the accepted queue has run, once or more often |
| `CommandQueue.Queue.constructor` | src/commands.c:21-34 | an empty queue |
| `CommandQueue.Queue.Clear` | src/commands.c:99-103 | empties the queue and keeps repeat |
| `CommandQueue.Queue.Repeat` | src/commands.c:105-109 | sets repeat and nothing else |
| `CommandQueue.Queue.Append` | src/commands.c:79-97 | appends the encoding of a command, or returns 1 and changes nothing when 1024 bytes are not enough |
| `CommandQueue.Queue.FindLast` | src/commands.c:337-350 | the position of the last command, or -1 for an empty queue |
| `CommandQueue.Queue.QueueOther` | src/commands.c:45-60 | the queue holds the request behind what it held, or is unchanged without room |
| `CommandQueue.Queue.QueueRegister` | src/commands.c:62-77 | drops a trailing SPI write, then tries to append the register command and an SPI write; success exactly when both fit; after accepted requests the queue is the spread of the requests |
| `CommandQueue.RegisterFitsIs` | src/commands.c:62-97 | a register request is accepted exactly when it fits, with its SPI write and in the place of a trailing one, into 1024 bytes |
| `CommandQueue.RefusedUnchanged` | src/commands.c:62-97 | a refused register request leaves the queue as it was if and only if the register command finds no room and the SPI write is put back or finds no room either |
| `CommandQueue.FillThenRegister` | src/commands.c:45-97 | behind 253 trigger commands a refused register request leaves the register command without its SPI write, behind 254 or 255 a lone SPI write, behind 256 nothing; up to 252 it is accepted |
| `CommandQueue.Machine.constructor` | src/commands.c:36-36 | the interpreter starts with no register marked |
| `CommandQueue.Machine.ExecuteCommand` | src/commands.c:141-206 | performs one command and returns its length |
| `CommandQueue.Machine.ExecuteOnce` | src/commands.c:130-136 | one pass over the bytes is the run of the encoded commands and stops exactly at end |
| `CommandQueue.Machine.Execute` | src/commands.c:123-139 | runs the commands repeat + 1 times |
| `CommandQueue.Machine.ExecuteQueue` | src/commands.c:117-121 | runs the queue repeat + 1 times; when all requests were accepted, that is the fold of the requests over the shadow registers with one SPI update, carrying exactly its addresses, per maximal register run |
| `Startup.Flash.Erase` | src/eeprom.c:22-33 | the sector is erased |
| `Startup.Flash.Write` | src/eeprom.c:3-20 | byte by byte, the data is stored where the sector was erased; all other bytes stay |
| `Startup.Save` | src/commands.c:291-313 | the sector holds the checksum of everything behind it, the length and the queue bytes |
| `Startup.SavedIs` | src/commands.c:291-313 | the layout in flash: checksum at 0, length at 4, commands from 8 on, and then erased bytes |
| `Startup.SavedReadsBack` | src/commands.c:268-289 | a saved image passes the check and gives back the length, for any checksum function |
| `Startup.StartupExecute` | src/commands.c:268-289 | nothing happens when the check fails, otherwise the stored commands run once, however they were stored |
| `Startup.SaveThenStartup` | src/commands.c:268-313 | saving and starting up runs exactly the queued commands once, for every queue and any checksum function |
| `Bits.MaskValue` | include/ad9910.h:383-401 | the mask of a field is 2^bits - 1 |
| `Bits.MaskIsMod` | include/ad9910.h:383-401 | masking is the remainder modulo 2^bits |
| `Ad9910.GetAfterSet` | include/ad9910.h:383-401 | a field reads back what was written, masked |
| `Ad9910.GetAfterOther` | include/ad9910.h:383-401 | a write to another field does not show |
| `Ad9910.ReadsBack` | include/ad9910.h:383-401 | after any sequence of field writes a field that no later write overlaps reads back its last value modulo 2^bits |
| `Ad9910.Registers.SetValue` | include/ad9910.h:383-401 | after the in-place clear and set the field reads back the masked value and every other field what it read before |
| `Ad9910.UpdateReg` | src/ad9910.c:155-172 | the frame is the instruction and then the register bytes, most significant first |
| `Ad9910.ReadRegister` | src/ad9910.c:189-201 | the shift loop puts the received bytes together, first byte highest |
| `Ad9910.FrameRoundTrip` | src/ad9910.c:155-201 | a frame read back is the shadow value modulo 2^(8*size) |
| `Timers.DeadlinesSorted` | lib/lwip/src/core/timers.c:265-308 | the deadlines that a list of differences stands for are in order |
| `Timers.InsertDeadlines` | lib/lwip/src/core/timers.c:291-307 | inserting with adjusted differences leaves all other deadlines as they are |
| `Timers.RemoveDeadlines` | lib/lwip/src/core/timers.c:329-343 | removing with the difference given to the successor leaves all other deadlines as they are |
| `Timers.DueAt` | lib/lwip/src/core/timers.c:370-398 | the list prefix whose differences fit into the elapsed time is exactly the deadlines not beyond it |
| `Timers.FiredDeadlines` | lib/lwip/src/core/timers.c:370-398 | after firing, the remaining deadlines count from the last one fired; the time beyond it is dropped |
| `Timers.CallsAre` | lib/lwip/src/core/timers.c:370-398 | each fired deadline with a handler is called once, in order, with its argument |
| `Timers.List.Insert` | lib/lwip/src/core/timers.c:265-308 | sys_timeout adds the deadline behind all that are not later and changes no other; no difference underflows; nothing without memory |
| `Timers.List.Remove` | lib/lwip/src/core/timers.c:320-347 | sys_untimeout removes only the first deadline with this handler and argument and moves no other; without one it changes nothing; the sum does not wrap around |
| `Timers.List.Check` | lib/lwip/src/core/timers.c:357-400 | fires exactly the deadlines that do not exceed the elapsed time (modulo 2^32), in order |
| `Timers.FiresWhenDue` | lib/lwip/src/core/timers.c:265-400 | a timeout set at time r fires in a check at time n if and only if its time does not exceed the time since the last one fired, no matter what r is; it fires too soon if and only if n - r < msecs <= n - last (modulo 2^32) |
| `Timers.NeverTooEarly` | lib/lwip/src/core/timers.c:265-400 | a timeout cannot fire before its time if and only if it is set in the millisecond in which a timeout has fired |
| `Timers.FiresEarly` | lib/lwip/src/core/timers.c:265-400 | a run in which a timeout of 100 ms fires 10 ms after it was set |
| `Floyd.CyclicIffEndless` | lib/lwip/src/core/memp.c:181-199 | in finite memory a list has a cycle exactly when it has no end |
| `Floyd.MeetingExists` | lib/lwip/src/core/memp.c:181-199 | the two pointers meet or the list ends, however it is linked |
| `Floyd.NoCycle` | lib/lwip/src/core/memp.c:186-196 | the two-pointer loop terminates and succeeds exactly when the list has no cycle |
| `Memp.Sanity` | lib/lwip/src/core/memp.c:181-199 | memp_sanity succeeds exactly when no free list has a cycle |
| `Memp.ListIsSane` | lib/lwip/src/core/memp.c:181-199 | a list of elements has no cycle |
| `Memp.Pools.constructor` | lib/lwip/src/core/memp.c:337-375 | every pool starts with a free list of its number of elements, apart by its element size, and behind the pools before it |
| `Memp.Pools.Malloc` | lib/lwip/src/core/memp.c:389-426 | hands out an element of the pool that is not handed out, or NULL exactly when none is left |
| `Memp.Pools.Free` | lib/lwip/src/core/memp.c:434-468 | puts the element back; the free lists stay disjoint and complete and the cycle check succeeds |
| `Memp.Pools.UseElement` | lib/lwip/src/core/memp.c:389-426 | what the owner writes into a handed-out element does not harm the lists |
| `Slip.Output` | lib/lwip/src/netif/slipif.c:114-159 | the frame sent is END, the escaped content, END, whatever the segmentation of the chain |
| `Slip.OnTheLine` | lib/lwip/src/netif/slipif.c:114-159 | the frames of single bytes: 0xC0 is sent as 0xDB 0xDC, 0xDB as 0xDB 0xDD, any other byte as itself |
| `Slip.BehindEsc` | lib/lwip/src/netif/slipif.c:169-226 | behind an ESC the two escapes are undone and any other byte is taken as it is |
| `Slip.FeedFrame` | lib/lwip/src/netif/slipif.c:169-259 | a frame ends what came before it and delivers its packet |
| `Slip.FeedFrames` | lib/lwip/src/netif/slipif.c:169-259 | the receiver delivers the non-empty packets in order, each cut behind byte SLIP_MAX_SIZE + 1 |
| `Slip.RoundTrip` | lib/lwip/src/netif/slipif.c:114-259 | exactly the packets that were sent come out if and only if each has 1 to SLIP_MAX_SIZE + 1 bytes |
| `Slip.Receiver.RxByte` | lib/lwip/src/netif/slipif.c:169-259 | with its chain of pbufs, several to a buffer, the receiver does what the byte-wise specification says; a byte that needs a buffer and gets none is dropped and nothing else changes |
| `Dns.TickCounts` | lib/lwip/src/core/dns.c:635-712 | each tick brings the end of an unanswered query one tick nearer; it fails in the tick that reaches it; the queries left to send go down with each one sent |
| `Dns.UnansweredEnds` | lib/lwip/src/core/dns.c:635-712 | an unanswered query waits exactly 7 ticks per configured server and then ends |
| `Dns.TickLeaves` | lib/lwip/src/core/dns.c:635-712 | a tick sends only for pending entries and fails only waiting ones; an entry that ends forgets its callback, one that goes on keeps it |
| `Dns.QueriesSent` | lib/lwip/src/core/dns.c:635-712 | an unanswered query is sent once at the start and three times per configured server |
| `Dns.ServerAsked` | lib/lwip/src/core/dns.c:635-712 | the configured servers are asked in order, 7 ticks each |
| `Dns.AnswerExpires` | lib/lwip/src/core/dns.c:695-703 | an answer stays in the table for exactly as many ticks as its time to live says |
| `Dns.CalledInTime` | lib/lwip/src/core/dns.c:635-914 | whatever ticks, messages and queries come, a query with a callback has been called back exactly once when the timer has ticked 7 times per configured server since it was made |
| `Dns.SamePending` | lib/lwip/src/core/dns.c:635-712 | retries keep every callback count |
| `Dns.Finished` | lib/lwip/src/core/dns.c:766-843 | a query that ends gets its callback, and no other query does |
| `Dns.Enqueued` | lib/lwip/src/core/dns.c:859-914 | a new query waits for its callback, and no other query is touched |
| `Dns.FullExactly` | lib/lwip/src/core/dns.c:859-895 | the table is called full exactly when all entries are pending, unless nothing is unused, the first entry is pending, and there are completed entries, all of them from before the wrap-around of dns_seqno |
| `Dns.FullTooEarly` | lib/lwip/src/core/dns.c:859-914 | a run of 256 queries and their answers after which a query is refused although an entry is completed |
| `Dns.Client.constructor` | lib/lwip/src/core/dns.c:231-264 | an empty table |
| `Dns.Client.Check` | lib/lwip/src/core/dns.c:635-712 | dns_check_entry changes the entry as the tick function says and calls back with NULL exactly when the query fails |
| `Dns.Client.Tick` | lib/lwip/src/core/dns.c:717-725 | every entry takes its tick; only failures are called back; each query keeps exactly one callback, and the ticks seen and left of a pending one add up to its lifetime |
| `Dns.Client.Receive` | lib/lwip/src/core/dns.c:766-843 | a message for a waiting entry ends it with one callback; any other message changes nothing |
| `Dns.Client.FindSlot` | lib/lwip/src/core/dns.c:867-895 | the first unused entry if there is one, otherwise the completed one with the largest positive age, otherwise entry 0 if that is completed; never a pending one; fails exactly in the stated case |
| `Dns.Client.Enqueue` | lib/lwip/src/core/dns.c:859-914 | takes an entry that is not pending, leaves all others alone and starts the query; refuses exactly in the stated case |
| `Dhcp.Client.constructor` | lib/lwip/src/core/dhcp.c:628-700 | after dhcp_start on a down interface the client discovers and the interface is down |
| `Dhcp.Client.Bind` | lib/lwip/src/core/dhcp.c:926-1014 | the interface takes the offered address, goes up, and the state is BOUND |
| `Dhcp.Client.Release` | lib/lwip/src/core/dhcp.c:1167-1212 | state OFF, interface down, no address |
| `Dhcp.Client.Renew` | lib/lwip/src/core/dhcp.c:1021-1068 | state RENEWING with one more try and its back-off, interface and address unchanged |
| `Dhcp.Client.HandleNak` | lib/lwip/src/core/dhcp.c:196-212 | the interface goes down and loses its address; discovery starts again |
| `Dhcp.Client.HandleOffer` | lib/lwip/src/core/dhcp.c:251-272 | the offer is requested; an offer without server identifier leaves the client selecting with its timer stopped |
| `Dhcp.Client.Receive` | lib/lwip/src/core/dhcp.c:1536-1631 | for every state and message the whole new state: an offer leaves its own address and server, an acknowledgement its address; the interface is up only in BOUND, RENEWING or REBINDING with the offered address, which some message has carried, and goes up only on an acknowledgement; the client stops asking exactly after an offer without server identifier |
| `Dhcp.Client.Timeout` | lib/lwip/src/core/dhcp.c:401-457 | the next attempt in every state, with its try count and back-off; the lease is given up after the last rebind |
| `Dhcp.Client.FineTimer` | lib/lwip/src/core/dhcp.c:368-391 | counts down and then makes the next attempt; the interface goes up by a timer only when the ARP check has found no other host; the client stops asking exactly when its renewal count wraps around |
| `Dhcp.Client.T1` | lib/lwip/src/core/dhcp.c:464-479 | starts renewing, interface and address unchanged |
| `Dhcp.Client.T2` | lib/lwip/src/core/dhcp.c:486-500 | starts rebinding, interface and address unchanged |
| `Dhcp.Client.NetworkChanged` | lib/lwip/src/core/dhcp.c:765-794 | the interface goes down until the lease is confirmed |
| `Dhcp.Client.ArpReply` | lib/lwip/src/core/dhcp.c:802-862 | an answer for the offered address makes the client back off |
| `Dhcp.WaitingTimes` | lib/lwip/src/core/dhcp.c:225-1160 | the waiting times of all requests in ticks of 500 ms, by state and try |
| `Dhcp.RequestGivenUp` | lib/lwip/src/core/dhcp.c:283-457 | a request that nobody answers is given up after 244 ticks |
| `Dhcp.LeaseLost` | lib/lwip/src/core/dhcp.c:401-500 | a lease that nobody rebinds is lost 90 ticks after T2 |
| `Dhcp.AddressChecked` | lib/lwip/src/core/dhcp.c:225-248 | an address that no host answers for is in use after two ARP checks |
| `Dhcp.OfferWithoutServer` | lib/lwip/src/core/dhcp.c:1612-1627 | a run in which the client stops asking after an offer that names no server |
| `Dhcp.RenewalsStop` | lib/lwip/src/core/dhcp.c:1021-1068 | a run in which the client stops asking at its 256th renewal, with the interface up |
| `Writemore.Netconn.WriteMore` | lib/lwip/src/api/api_msg.c:1207-1333 | the bytes accepted by tcp_write grow without gap or repeat; a finished blocking write without timeout covers all data; success reports what was accepted; write_offset is left over exactly when accepted bytes end in a timeout or an error |
| `Writemore.Netconn.Write` | lib/lwip/src/api/api_msg.c:1342-1389 | a request is refused with its error and one completion, or starts: what is accepted, whether it waits, and what it reports are those of one do_writemore from offset 0 |
| `Writemore.TakenIsMost` | lib/lwip/src/api/api_msg.c:1241-1271 | tcp_write is offered all that is left, cut only to a u16_t and to the room in the send buffer |
| `Writemore.WaitsExactly` | lib/lwip/src/api/api_msg.c:1286-1306 | a blocking write waits exactly when tcp_write had no memory or did not get all bytes |
| `Writemore.ReportedIs` | lib/lwip/src/api/api_msg.c:1226-1320 | what a finished write reports, case by case |
| `Writemore.WriteInRounds` | lib/lwip/src/api/api_msg.c:1207-1389 | a blocking write of any length with room in the send buffer ends after as many rounds as its shares of at most 65535 bytes, with all bytes accepted in order and one completion |
| `Writemore.Netconn.Continue` | lib/lwip/src/api/api_msg.c:276-337 | sent and poll callbacks do one do_writemore on a write in progress, with everything that states, and nothing else |
| `Writemore.Netconn.Error` | lib/lwip/src/api/api_msg.c:346-404 | a write in progress is completed once with the error; write_offset stays as it was |
| `Writemore.OffsetLeftOver` | lib/lwip/src/api/api_msg.c:1207-1389 | a run that leaves an idle connection with write_offset 1 |
| `TcpPort.Ports.NewPort` | lib/lwip/src/core/tcp.c:646-669 | terminates with the first port cyclically behind the previous one that no PCB uses, and with 0 exactly when all 16384 ports are in use |
| `TcpPort.Ports.Taken` | lib/lwip/src/core/tcp.c:657-667 | a port is taken exactly when some PCB list holds it |

## Left out

- Hardware access (GPIO, SPI, DMA, clocks, interrupts, Ethernet): no logic beyond register writes.
- The SCPI parser callbacks and the floating-point conversions of the driver.
- `ad9910_update_multiple_regs`: the claims about SPI updates stop at the dirty mask handed to it.
- The two parallel command kinds: `get_command_length` does not know them, so queues hold none.
- Timing of commands: waiting, triggers and pin changes are entries of a log.
- 32-bit wrap-around of `select_cb_ctr`, 16-bit wrap-around of `rcvevent`, and closing a socket that a select call counts on.
- The third scan of `lwip_select` and the values it returns.
- The event path for connections that have no socket yet, and the rest of the socket layer.
- Wrap-around of a pbuf's own `ref` counter, payload alignment, `pbuf_header` and `pbuf_coalesce`.
- PbufChains.CatTotals: totals of other chains that share pbufs with the extended one are not claimed, because `pbuf_cat` does not update them.
- PbufHeap.Heap.Realloc: the link of the new last pbuf is cleared before the rest is freed, where the code does it afterwards (nothing reads it in between); returning unused bytes of a heap pbuf with `mem_trim` is not modelled.
- PbufHeap.Heap.AllocSingle: whether a RAM pbuf is refused does not depend on its length, because the heap it comes from is a set of addresses here; the heap of `mem.c` has its own model.
- PbufCopy.Take: a NULL data pointer is not modelled, because the data is a sequence.
- Timers: handlers that add or remove timeouts while the list is processed.
- DNS: parsing of messages, names and time to live beyond the countdown; callbacks that enqueue; changing servers during a query.
- DHCP: parsing of replies, option contents, netmask and gateway, the countdown to T1 and T2, AutoIP, dhcp_stop and restart, and changes of the interface by others.
- Slip.RoundTrip: allocation of buffers succeeds, because the code drops single bytes of a packet otherwise.
- SLIP: the queue filled by an interrupt routine.
- Startup.StartupExecute: a sector whose checksum is right but that holds anything else than commands of the modelled kinds, because what the interpreter then does depends on memory outside it.
- Startup.Flash.Write: programming succeeds, because the caller ignores the result.
- Writemore: the events for select and the flags that go with them; connecting, closing and receiving.
- TCP segments, UDP, IP, ARP and the Ethernet driver.
