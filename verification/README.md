# Verification of the wch-ch56x firmware library core

A Dafny model of the stateful parts of the CH56x bare-metal library, with proofs over whole
runs. `dafny verify dfyconfig.toml` checks the project.

| part | modules |
|---|---|
| Ring FIFO, sequential and without critical sections | `Fifo`, `FifoSpsc` |
| First-fit block allocators, with and without reference counts | `BlockTable`, `BlockPools` |
| Argument pool and interrupt task queue | `Pool`, `InterruptQueue` |
| Scheduled HSPI: sends, receive interrupts and queue runs interleaved | `Hspi`, `HspiProofs`, `HspiLeaks`, `HspiSend`, `HspiDriver` |
| USB2 registers, bulk endpoints, OUT and IN runs | `Usb2Registers`, `Usb2Bulk`, `Usb2Out`, `Usb2OutSplit`, `Usb2In` |
| USB2 endpoint 0: handlers, data stages, runs on the bus | `Usb2Control`, `Usb2ControlRuns`, `Usb2ControlBus` |
| USB3 IN bursts, endpoint 0 and its packet numbers | `Usb3Word`, `Usb3Burst`, `Usb3Control`, `Usb3Numbering` |
| Shared types, arithmetic and byte memory | `Common`, `Arithmetic`, `FlatMemory` |

How the parts are put together:

- Code that changes state is a class whose methods follow the source statement by statement. The
  `ensures` of each method equates the new state with a function of the old one. Whole runs are
  then proved over these functions, against definitions that do not mention them: a bounded queue,
  a heap of disjoint runs, a count of holders, the events seen on the bus, a payload cut into packets.
- The hardware and the host are step relations: a USB host that loses packets and handshakes, takes
  part of a burst or abandons a transfer; an HSPI interrupt that comes between any two critical sections.
- User callbacks are represented by what they do for their own endpoint, as parameters that range over all
  of it: the answer of rx_callback, the buffer and the OUT state that tx_complete sets, the reply to a request.
- 8-, 16- and 32-bit arithmetic is written out where it can wrap. Where a narrowing limits a property, the
  property is stated with the exact limit, as an if-and-only-if.
- The HSPI model assumes what the driver needs of its users: they free only references they own,
  counts stay below 255, and (re)initialisation happens with no task outstanding. `Hspi.Enabled`
  states these; `HspiProofs.DriverUsesLiveBuffers` proves the part the driver itself is responsible for.

## Where code and comments disagree

The model follows the code.

- memory/fifo.h:50-53 says the read index is the next readable slot; unread elements are in the slots
  after it, up to and including the write index.
- The allocator comments differ on whether a pool may have 256 blocks; with 8-bit counts it has to be
  fewer, as memory/ramx_alloc.c:31 says.
- hspi_scheduled.h:70-72 leaves freeing a received buffer to the user; `_hspi_cleanup`
  (hspi_scheduled.c:227-233) frees it after the callback, so a user who keeps it must take ownership.
- hspi_scheduled.h:75 calls 26 bits of the custom register valid; 13 are kept.
- USB2 string descriptors and vendor replies are not cut to wLength (usb20.c:548, 598).
- Endpoint 0 has one address register for both directions (usb2_utils.h:171, 220) and a SETUP does not
  move it back to the EP0 buffer. After an abandoned OUT data stage the data of later requests lands, and
  the answers to IN requests are read, behind the start of the buffer (`Usb2ControlBus`).
- The byte count of an EP0 transfer is not cleared by a request that has no answer (GET_STATUS, an unset
  descriptor, an empty vendor reply), so that such a request may send what an abandoned transfer left.
- The counter that numbers USB3 endpoint-0 packets (usb30.c:947) is not reset by a SETUP, so abandoned
  reads misnumber later ones, and the packet that closes a read is always numbered 0 (`Usb3Numbering`).
- The NRDY at usb30.c:567 goes to the register of `endp | IN`, which is not that of the endpoint, and
  changes nothing there.

## Model

| member | source | states |
|---|---|---|
| `Fifo.Count` | src/wch-ch56x-lib/memory/fifo.h:107-115 | The count is below the size and is the distance from the read to the write index going up modulo the size |
| `Fifo.FreeSpace` | src/wch-ch56x-lib/memory/fifo.h:119-127 | Free space and count always add up to the capacity, one less than the size |
| `Fifo.AdvanceWraps` | src/wch-ch56x-lib/memory/fifo.h:226-238 | Advancing an index by less than the size subtracts the size at most once |
| `Fifo.CopiedIsExact` | src/wch-ch56x-lib/memory/fifo.h:147-165 | A copy whose byte count is narrowed to 16 bits moves all its elements if and only if the byte count is below 65536 |
| `Fifo.WriteAppends` | src/wch-ch56x-lib/memory/fifo.h:177-238 | Any buffer that holds the data behind the write index and is otherwise unchanged has, once the index moves, the old unread elements followed by the data |
| `Fifo.Ring.constructor` | src/wch-ch56x-lib/memory/fifo.h:335-343 | A new ring is empty, for every capacity whose bytes fit 16 bits |
| `Fifo.RingLimit` | src/wch-ch56x-lib/memory/fifo.h:177-222 | A new ring can be filled in one write, whatever the data, if and only if its capacity in bytes is below 65536 |
| `Fifo.Ring.CopyOut` | src/wch-ch56x-lib/memory/fifo.h:132-172 | The two-part copy returns the oldest n unread elements, or nothing if there are fewer, and leaves the rest of the destination alone |
| `Fifo.Ring.CopyIn` | src/wch-ch56x-lib/memory/fifo.h:177-222 | The two-part copy stores the data behind the write index, or nothing if it does not fit, and changes no other slot; without the 16-bit limit, what filling a new ring really stores |
| `Fifo.Ring.ReadN` | src/wch-ch56x-lib/memory/fifo.h:268-278 | All or nothing: n elements leave the front of the queue in order |
| `Fifo.Ring.PeekN` | src/wch-ch56x-lib/memory/fifo.h:289-298 | Gives what read_n would give and leaves the queue as it was |
| `Fifo.Ring.Read` | src/wch-ch56x-lib/memory/fifo.h:246-258 | Takes everything, in order, and leaves the queue empty |
| `Fifo.Ring.Write` | src/wch-ch56x-lib/memory/fifo.h:308-318 | All or nothing: the data goes to the end of the queue exactly when it fits the capacity |
| `Fifo.Ring.Size` | src/wch-ch56x-lib/memory/fifo.h:325-329 | The count is the length of the queue |
| `Fifo.Ring.Clean` | src/wch-ch56x-lib/memory/fifo.h:335-343 | The queue is empty and the buffer zeroed |
| `Fifo.Execute` | src/wch-ch56x-lib/memory/fifo.h:105-343 | Every sequence of calls on a ring of every capacity gives the same replies and the same contents as the bounded queue |
| `FifoSpsc.ProducerKeepsInv` | src/wch-ch56x-lib/memory/fifo.h:177-222 | Every load, element copy and index store of a writer keeps the invariant of the shared ring, whatever the reader is in the middle of |
| `FifoSpsc.ConsumerKeepsInv` | src/wch-ch56x-lib/memory/fifo.h:132-172 | Every load, element copy and index store of a reader keeps the invariant, whatever the writer is in the middle of |
| `FifoSpsc.HomesDiffer` | src/wch-ch56x-lib/memory/fifo.h:129-238 | Two elements less than the size apart in the order of writing never share a slot |
| `FifoSpsc.SpscSafety` | src/wch-ch56x-lib/memory/fifo.h:59-68 | Without critical sections, in every interleaving of one producer and one consumer: the elements read are a prefix of the elements written, also with the copy in progress, and the producer never writes a slot that a copy in progress reads |
| `FifoSpsc.WriteIsWhole` | src/wch-ch56x-lib/memory/fifo.h:177-222 | A write that has ended was published whole if it fits the space it loaded, and not at all otherwise |
| `FifoSpsc.SpaceIsLoaded` | src/wch-ch56x-lib/memory/fifo.h:119-127 | The space a write loads is the space that is free at that moment |
| `FifoSpsc.ReadIsWhole` | src/wch-ch56x-lib/memory/fifo.h:132-172 | A read that has ended moved, in order, the elements due of those unread when it loaded the write index; a peek copied them and took nothing |
| `BlockTable.SearchFrom` | src/wch-ch56x-lib/memory/ramx_alloc.h:109-141 | The result is a window of free blocks, no earlier start is one, and there is no result exactly when no window exists |
| `BlockTable.AllocRefines` | src/wch-ch56x-lib/memory/ramx_alloc.h:91-143 | On the heap of runs: the answer is the least start that no live run touches, refused exactly for zero blocks or when there is none, and the table afterwards pictures the heap with the new run exactly |
| `BlockTable.TakeRefines` | src/wch-ch56x-lib/memory/ramx_alloc.h:162-183 | Below 255 owners, taking ownership adds one owner to that run and touches no other |
| `BlockTable.FreeRefines` | src/wch-ch56x-lib/memory/ramx_alloc.h:191-223 | A free takes one owner away; the run disappears exactly with its last owner; used count and all other runs stay right |
| `BlockTable.OwnersWrapAt255` | src/wch-ch56x-lib/memory/ramx_alloc.h:162-223 | With 255 owners the counter wraps: the next take makes it 0 and one free then releases the run |
| `BlockTable.NonZeroGrows` | src/wch-ch56x-lib/memory/ramx_alloc.h:129-134 | The number of used blocks grows by exactly the blocks marked |
| `BlockTable.RunRefines` | src/wch-ch56x-lib/memory/ramx_alloc.h:91-223 | Every legal sequence of alloc, take and free answers as the heap of disjoint runs does, and leaves a table that pictures it: each block stores length and owners of its run, and the used count is the number of nonzero entries |
| `BlockTable.FirstFitUnique` | src/wch-ch56x-lib/memory/ramx_alloc.h:91-143 | The first-fit answer is determined by the live runs alone |
| `BlockTable.EmptyRep` | src/wch-ch56x-lib/memory/ramx_alloc.c:33-48 | An initialised pool pictures the empty heap |
| `BlockTable.PlainFreeAgrees` | src/wch-ch56x-lib/memory/alloc.c:138-158 | With sole owners, the free of alloc.c changes table and count as the free of ramx_alloc.h does |
| `BlockTable.AllocatorsAgree` | src/wch-ch56x-lib/memory/alloc.c:61-158 | On every sequence of calls without ownership transfers both allocators keep the same table and used count and return the same blocks |
| `BlockPools.FindWindow` | src/wch-ch56x-lib/memory/ramx_alloc.h:109-140 | The nested search loops, with the flag carried from one outer iteration to the next, return the first fit |
| `BlockPools.BlocksNeededSuffice` | src/wch-ch56x-lib/memory/ramx_alloc.h:150-155 | The blocks asked for hold the bytes if and only if the 32-bit addition does not wrap and at most 255 blocks are needed |
| `BlockPools.AddressRoundTrip` | src/wch-ch56x-lib/memory/ramx_alloc.h:135-223 | The address of a block decodes back to that block |
| `BlockPools.RamxPool.constructor` | src/wch-ch56x-lib/memory/ramx_alloc.c:33-48 | The tables are empty and picture the empty heap |
| `BlockPools.RamxPool.AllocBlocks` | src/wch-ch56x-lib/memory/ramx_alloc.h:91-143 | The arrays and the returned address are those of the first-fit allocation |
| `BlockPools.RamxPool.MarkRun` | src/wch-ch56x-lib/memory/ramx_alloc.h:129-133 | Exactly the blocks of the run get the length and one owner |
| `BlockPools.RamxPool.AllocBytes` | src/wch-ch56x-lib/memory/ramx_alloc.h:150-155 | A non-null answer is a region of at least the requested bytes inside the pool, for requests of at most 255 blocks without overflow |
| `BlockPools.RamxPool.TakeOwnership` | src/wch-ch56x-lib/memory/ramx_alloc.h:162-183 | Every block of the run gets one more owner in 8-bit arithmetic; null is ignored |
| `BlockPools.RamxPool.DropOwner` | src/wch-ch56x-lib/memory/ramx_alloc.h:209-220 | Blocks with one owner are cleared and counted, the others lose one owner, and no other block changes |
| `BlockPools.RamxPool.Release` | src/wch-ch56x-lib/memory/ramx_alloc.h:191-223 | The arrays become those of the free; null is ignored |
| `BlockPools.RamPool.constructor` | src/wch-ch56x-lib/memory/alloc.c:35-49 | The same empty table as that of ramx_alloc.h |
| `BlockPools.RamPool.AllocBlocks` | src/wch-ch56x-lib/memory/alloc.c:61-112 | Array, count and address are those of the first-fit allocation without reference counts |
| `BlockPools.RamPool.Release` | src/wch-ch56x-lib/memory/alloc.c:138-158 | The run is cleared and its length taken off the used count; null is ignored |
| `Pool.Get` | src/wch-ch56x-lib/memory/pool.h:75-91 | The first free slot is handed out and only its flag is set; none is given exactly when all are in use |
| `Pool.Put` | src/wch-ch56x-lib/memory/pool.h:98-110 | Exactly the named slot becomes free, and nothing happens for one outside the pool or not in use |
| `Pool.HydraPool.GetMember` | src/wch-ch56x-lib/memory/pool.h:75-91 | The loop hands out the first free slot and marks only that one |
| `Pool.HydraPool.FreeMember` | src/wch-ch56x-lib/memory/pool.h:98-110 | Frees exactly the named slot |
| `Pool.HydraPool.Clean` | src/wch-ch56x-lib/memory/pool.h:116-126 | No slot is in use afterwards |
| `InterruptQueue.TaskQueue.SetNextTask` | src/wch-ch56x-lib/interrupt_queue/interrupt_queue.h:102-123 | The task is appended and true returned exactly when there is room |
| `InterruptQueue.TaskQueue.PeekNextTask` | src/wch-ch56x-lib/interrupt_queue/interrupt_queue.h:131-136 | Gives the oldest task and leaves the queue as it is |
| `InterruptQueue.TaskQueue.Run` | src/wch-ch56x-lib/interrupt_queue/interrupt_queue.h:64-77 | The oldest task is removed, run once and cleaned up once if it has a cleanup; an empty queue changes nothing |
| `InterruptQueue.TaskQueue.FreeAll` | src/wch-ch56x-lib/interrupt_queue/interrupt_queue.h:82-90 | The loop ends, the queue is empty, and exactly the cleanups of the queued tasks were called, in order, with no task run |
| `InterruptQueue.StepKeepsInv` | src/wch-ch56x-lib/interrupt_queue/interrupt_queue.h:64-123 | Every step of run, free_all and set_next_task keeps the lifecycle invariant, also when tasks run the queue themselves |
| `InterruptQueue.TaskLifecycle` | src/wch-ch56x-lib/interrupt_queue/interrupt_queue.h:64-123 | In every interleaving: tasks leave in the order of acceptance; one that is done with has run exactly once if run took it and never if free_all did, and its cleanup was called exactly once if it has one |
| `InterruptQueue.AcceptedIfRoom` | src/wch-ch56x-lib/interrupt_queue/interrupt_queue.h:102-123 | A task is accepted exactly when there is room, and goes to the end |
| `InterruptQueue.RunServesOne` | src/wch-ch56x-lib/interrupt_queue/interrupt_queue.h:64-77 | Undisturbed, run runs the oldest task once and cleans it once |
| `InterruptQueue.FreeServesOne` | src/wch-ch56x-lib/interrupt_queue/interrupt_queue.h:82-90 | Undisturbed, a round of free_all cleans the oldest task once and runs nothing |
| `HspiProofs.StepKeepsInv` | src/wch-ch56x-lib/hspi_scheduled/hspi_scheduled.c:312-398 | Every critical section of send, receive interrupt, queue run, cleanup, user calls and reinitialisation keeps the allocator, the slots and the conservation of references |
| `HspiProofs.BufferSafety` | src/wch-ch56x-lib/hspi_scheduled/hspi_scheduled.c:227-398 | In every interleaving each reference count is the number of holders plus the references dropped, and an allocation of any size touches no block of a buffer that somebody holds |
| `HspiProofs.CountsAreExact` | src/wch-ch56x-lib/hspi_scheduled/hspi_scheduled.c:312-398 | While the interrupt always finds an argument slot and the driver is not reinitialised, each reference count is exactly its number of holders |
| `HspiProofs.DropsOnlyWhenExhausted` | src/wch-ch56x-lib/hspi_scheduled/hspi_scheduled.c:357-397 | References are dropped only by an interrupt that finds no argument slot and by reinitialisation |
| `HspiProofs.QueueNeverOverflows` | src/wch-ch56x-lib/hspi_scheduled/hspi_scheduled.c:312-398 | Every enqueue that follows a slot finds room, also when interrupts come between the slot and the enqueue |
| `HspiProofs.QueueHasRoom` | src/wch-ch56x-lib/hspi_scheduled/hspi_scheduled.c:36-68 | A slot that is in use and not queued leaves room in the queue |
| `HspiProofs.Pigeonhole` | src/wch-ch56x-lib/hspi_scheduled/hspi_scheduled.c:36-68 | Distinct slots below n are at most n |
| `HspiProofs.DriverUsesLiveBuffers` | src/wch-ch56x-lib/hspi_scheduled/hspi_scheduled.c:227-233 | In every invariant state the buffers the driver frees or shares are live, so the allocator's own preconditions hold |
| `HspiLeaks.LeaksExactly` | src/wch-ch56x-lib/hspi_scheduled/hspi_scheduled.c:318-323 | A slot is leaked exactly by a send of data outside the pool that finds no window for a packet, and recovered only by reinitialisation |
| `HspiLeaks.LeaksAreFailedSends` | src/wch-ch56x-lib/hspi_scheduled/hspi_scheduled.c:312-340 | In every run the leaked slots are as many as the sends that failed so since the last initialisation |
| `HspiLeaks.ExhaustedByFailedSends` | src/wch-ch56x-lib/hspi_scheduled/hspi_scheduled.c:312-398 | Once these are as many as the slots, no send gets a slot, nothing is queued or running, and every receive drops its buffer |
| `HspiSend.SendStarts` | src/wch-ch56x-lib/hspi_scheduled/hspi_scheduled.c:312-316 | hspi_send is refused at once exactly when all slots are in use, and else takes a free one |
| `HspiSend.SendFills` | src/wch-ch56x-lib/hspi_scheduled/hspi_scheduled.c:318-331 | The arguments get the caller's buffer or the first fit, unless there is no window for a copy |
| `HspiSend.SendQueues` | src/wch-ch56x-lib/hspi_scheduled/hspi_scheduled.c:332-336 | The task goes to the end of the queue |
| `HspiSend.SendIsEnabled` | src/wch-ch56x-lib/hspi_scheduled/hspi_scheduled.c:312-336 | After a slot is taken the remaining steps can always be made, with any receives in between, while the caller's buffer has fewer than 255 owners |
| `HspiSend.SendAfterRun` | src/wch-ch56x-lib/hspi_scheduled/hspi_scheduled.c:312-398 | In every reachable state, and whatever receives come between its steps: hspi_send is refused with all slots in use or for want of a buffer, and otherwise appends exactly one task, with the caller's buffer or the first fit as its argument, behind what the receives have queued |
| `HspiSend.ReceiveRearms` | src/wch-ch56x-lib/hspi_scheduled/hspi_scheduled.c:374-397 | A receive arms the first fit in place of the filled buffer, null exactly when there is none |
| `HspiSend.ReinitArms` | src/wch-ch56x-lib/hspi_scheduled/hspi_scheduled.c:178-204 | Initialisation frees all slots and gets four buffers, each the first fit of what is left |
| `HspiSend.UserSteps` | src/wch-ch56x-lib/memory/ramx_alloc.h:91-223 | The application gets the first fit, one more owner, or one fewer |
| `HspiProofs.HeaderRoundTrip` | src/wch-ch56x-lib/hspi_scheduled/hspi_scheduled.c:259-262 | Size and custom register survive the header if and only if both are below 0x2000 |
| `HspiProofs.HeaderLayout` | src/wch-ch56x-lib/hspi_scheduled/hspi_scheduled.c:259-262 | The size is in the low 13 bits, the custom register above it, and nothing else is in the 26 bits |
| `HspiDriver.Driver.constructor` | src/wch-ch56x-lib/hspi_scheduled/hspi_scheduled.c:68-73 | Allocator, pool, queue and arguments start as the blank state of the interleaving model |
| `HspiDriver.Driver.HandleReceive` | src/wch-ch56x-lib/hspi_scheduled/hspi_scheduled.c:355-398 | On the real structures, the interrupt is exactly the receive step of the interleaving model |
| `HspiDriver.Driver.PassOn` | src/wch-ch56x-lib/hspi_scheduled/hspi_scheduled.c:359-372 | The filled buffer goes to a queued task, or is dropped when no slot is free |
| `HspiDriver.Driver.SendTakesSlot` | src/wch-ch56x-lib/hspi_scheduled/hspi_scheduled.c:312-316 | hspi_send up to the slot is the first send step; no slot exactly when all are in use |
| `HspiDriver.Driver.SendFillsArguments` | src/wch-ch56x-lib/hspi_scheduled/hspi_scheduled.c:318-331 | Sharing the caller's buffer or allocating a new one is the second send step; on failure the slot is kept |
| `HspiDriver.Driver.SendQueuesTask` | src/wch-ch56x-lib/hspi_scheduled/hspi_scheduled.c:332-336 | The enqueue is the third send step |
| `HspiDriver.Driver.TakeNextTask` | src/wch-ch56x-lib/interrupt_queue/interrupt_queue.h:64-90 | Taking the next task out of the ring is the step of the interleaving model |
| `HspiDriver.Driver.CleanupFreesBuffer` | src/wch-ch56x-lib/hspi_scheduled/hspi_scheduled.c:227-232 | The free of the task's buffer is the step of the model, on a live buffer or null |
| `HspiDriver.Driver.CleanupFreesSlot` | src/wch-ch56x-lib/hspi_scheduled/hspi_scheduled.c:227-233 | The free of the task's arguments is the step of the model |
| `HspiDriver.Driver.ReinitBuffers` | src/wch-ch56x-lib/hspi_scheduled/hspi_scheduled.c:178-204 | Clearing the arguments and arming four new buffers is the reinitialisation step |
| `Usb2Registers.Hw` | src/wch-ch56x-lib/usb/usb2_utils.h:67-306 | Every logical endpoint is served by one of eight register blocks: its own number below 8, its number less 8 above, block 4 for endpoint 8 |
| `Usb2Registers.TableSound` | src/wch-ch56x-lib/usb/usb20.c:44-63 | Every entry of the incompatibility table is a pair of one direction that shares a register |
| `Usb2Registers.TableComplete` | src/wch-ch56x-lib/usb/usb20.c:44-63 | Every pair of one direction that shares a register is in the table |
| `Usb2Registers.CheckMask` | src/wch-ch56x-lib/usb/usb20.c:119-128 | A mask is refused if and only if two enabled endpoints of one direction share a register |
| `Usb2Bulk.EventIsLocal` | src/wch-ch56x-lib/usb/usb20.c:808-928 | With an accepted mask a bulk event changes neither the registers nor the records of any enabled endpoint with another number |
| `Usb2Bulk.OtherDirection` | src/wch-ch56x-lib/usb/usb20.c:808-928 | In the other direction of its own endpoint an event changes at most the driver's record of the OUT state, by tx_complete |
| `Usb2Bulk.EndpointsAreIndependent` | src/wch-ch56x-lib/usb/usb20.c:808-940 | After every run of the device, with callbacks that touch both directions of their own endpoint, each enabled direction of an endpoint is where the events of its number alone would have brought it |
| `Usb2Bulk.RxStateSurvives` | src/wch-ch56x-lib/usb/usb20.c:815-869 | An OUT state set inside tx_complete survives the IN handler, which writes back the RX register it read at the start, if and only if the register already answered so |
| `Usb2Bulk.DeferredRearmIsLost` | src/wch-ch56x-lib/usb/usb20.c:815-869 | A deferred re-arm made inside tx_complete leaves the record at ACK and the host refused, until it is made again from outside |
| `Usb2Bulk.Usb2Driver.EndpTxReady` | src/wch-ch56x-lib/usb/usb20.c:964-991 | The whole new device state: one endpoint armed with its first packet, all others as before; endpoint 0 keeps its address register |
| `Usb2Bulk.Usb2Driver.EndpTxSetNewBuffer` | src/wch-ch56x-lib/usb/usb_device.h:139-164 | Refuses null and oversized buffers without any change, else arms the new buffer |
| `Usb2Bulk.Usb2Driver.InTransferHandler` | src/wch-ch56x-lib/usb/usb20.c:808-870 | The whole new device state after an acknowledged IN, with the buffer that tx_complete hands in and the OUT state it sets |
| `Usb2Bulk.Usb2Driver.TxComplete` | src/wch-ch56x-lib/usb/usb20.c:849-849 | The calls a tx_complete callback may make for both directions of its endpoint |
| `Usb2Bulk.Usb2Driver.OutTransferHandler` | src/wch-ch56x-lib/usb/usb20.c:877-928 | The whole new device state after an OUT packet, by the answer of rx_callback |
| `Usb2Bulk.Usb2Driver.EndpRxSetState` | src/wch-ch56x-lib/usb/usb20.c:930-940 | The whole new device state after a deferred re-arm |
| `Usb2Out.StepKeepsInv` | src/wch-ch56x-lib/usb/usb20.c:877-940 | Losses, lost handshakes, NAK delays and deferred re-arms keep the agreement of the two toggles |
| `Usb2Out.ExactlyOnceDelivery` | src/wch-ch56x-lib/usb/usb20.c:877-940 | In every run with lost packets, lost handshakes and arbitrary NAK delays each host packet reaches rx_callback exactly once and in order |
| `Usb2Out.HostSeesWhatWasAsked` | src/wch-ch56x-lib/usb/usb20.c:877-940 | In every run the endpoint answers the host exactly as rx_callback or endp_rx_set_state has last asked, and receives into its buffer |
| `Usb2Out.RefusalRefuses` | src/wch-ch56x-lib/usb/usb20.c:912-920 | After a packet answered with anything but ACK nothing is delivered and the host gets no further until the user asks for ACK, whatever the host retries |
| `Usb2Out.NoBufferRefuses` | src/wch-ch56x-lib/usb/usb20.c:923-926 | An endpoint without a buffer refuses and keeps its toggle |
| `Usb2Out.NextPacketArrives` | src/wch-ch56x-lib/usb/usb20.c:1047-1063 | Once the endpoint answers ACK, a transaction without losses delivers the packet the host is trying to send |
| `Usb2Out.DisciplineIsNeeded` | src/wch-ch56x-lib/usb/usb20.c:930-940 | A state set by the user keeps the protocol exactly if it does not take the endpoint out of ACK; otherwise coming back to ACK loses or repeats a packet |
| `Usb2Out.StartingElsewhereLosesAPacket` | src/wch-ch56x-lib/usb/usb20.c:930-940 | An endpoint set up with DATA0 in any state but ACK loses its first packet when the user makes it ACK |
| `Usb2Out.StartsAtAck` | src/wch-ch56x-lib/usb/usb20.c:877-940 | Of the endpoints set up with DATA0, exactly those that start at ACK deliver exactly once in all disciplined runs |
| `Usb2OutSplit.MoveKeepsInv` | src/wch-ch56x-lib/usb/usb20.c:930-940 | With load and store of the RX register apart, calls begun outside ACK keep the agreement of the toggles, whatever comes in between |
| `Usb2OutSplit.UnbrokenCall` | src/wch-ch56x-lib/usb/usb20.c:930-940 | Load and store with nothing in between are the one step of Usb2Out |
| `Usb2OutSplit.SplitCallIsSafe` | src/wch-ch56x-lib/usb/usb_device.c:189-204 | A call of endp_rx_set_state that interrupts may break into keeps delivery exactly-once in all that can follow if and only if it begins while the endpoint does not answer ACK |
| `Usb2OutSplit.InterruptedRearm` | src/wch-ch56x-lib/usb/usb20.c:930-940 | Begun at ACK, a packet delivered between load and store costs the next packet |
| `Usb2In.StepKeepsInv` | src/wch-ch56x-lib/usb/usb20.c:808-870 | Every hand-in and every acknowledged IN keeps toggles, accounting and the position in the buffer |
| `Usb2In.BulkInRuns` | src/wch-ch56x-lib/usb/usb20.c:808-870 | In every run the k-th acknowledged packet carries toggle k mod 2, each accepted buffer completes exactly once and in order, and a completed transfer has put consecutive bytes of its buffer on the wire |
| `Usb2In.WireIsExact` | src/wch-ch56x-lib/usb/usb20.c:856-862 | The wire carries exactly the buffer if and only if the size is at most one packet or a multiple of the packet size, since the length register is not rewritten |
| `Usb2In.RearmSurvives` | src/wch-ch56x-lib/usb/usb20.c:827-855 | A buffer handed in by tx_complete is still armed, with the right toggle, when the handler returns |
| `Usb2In.NoAddressRefuses` | src/wch-ch56x-lib/usb/usb20.c:864-868 | An endpoint without an address refuses and completes nothing |
| `Usb2Control.Usb2ControlDriver.HandleRequest` | src/wch-ch56x-lib/usb/usb20.c:486-622 | State and first packet length after a request, for every request type and error branch |
| `Usb2Control.Usb2ControlDriver.HandleSetupStage` | src/wch-ch56x-lib/usb/usb20.c:629-670 | State after the setup stage: data armed, stall, status or OUT data stage |
| `Usb2Control.Usb2ControlDriver.HandleIn` | src/wch-ch56x-lib/usb/usb20.c:677-744 | State after an acknowledged IN: next packet, empty packet, status stage or commit of the address |
| `Usb2Control.Usb2ControlDriver.FinishData` | src/wch-ch56x-lib/usb/usb20.c:690-705 | An empty packet follows a full last one, otherwise the status stage is armed |
| `Usb2Control.Usb2ControlDriver.FinishStatus` | src/wch-ch56x-lib/usb/usb20.c:718-744 | Only here a new address of at most 127 takes effect |
| `Usb2Control.Usb2ControlDriver.HandleOut` | src/wch-ch56x-lib/usb/usb20.c:751-801 | State after an OUT packet, with 16-bit subtraction, and whether the user is called |
| `Usb2Control.Usb2ControlDriver.SetupEndpoints` | src/wch-ch56x-lib/usb/usb20.c:428-443 | Endpoint 0 is back at its buffer with both directions NAK and DATA0 |
| `Usb2Control.Usb2ControlDriver.HandleBusReset` | src/wch-ch56x-lib/usb/usb20.c:1074-1082 | Address 0 and default state |
| `Usb2ControlRuns.PacketsMakeUpPayload` | src/wch-ch56x-lib/usb/usb20.c:474-478 | L/M + 1 packets, all full but a strictly shorter last one, that concatenate to the payload |
| `Usb2ControlRuns.InRequestsAreCovered` | src/wch-ch56x-lib/usb/usb20.c:486-622 | Every IN request is answered with bytes, answered with nothing or refused, and never two of these |
| `Usb2ControlRuns.RefusedStalls` | src/wch-ch56x-lib/usb/usb20.c:638-655 | A refused request stalls, listens for the next one, and changes neither memory nor address register |
| `Usb2ControlRuns.WantedIsDescriptor` | src/wch-ch56x-lib/usb/usb20.c:499-557 | GET_DESCRIPTOR picks the first min(wLength, length) bytes of the device or of the configuration descriptor, whichever is asked for, or all of the string descriptor |
| `Usb2ControlRuns.NoDataStage` | src/wch-ch56x-lib/usb/usb20.c:656-744 | Every OUT request without data, SET_ADDRESS and SET_CONFIGURATION among them, is answered by exactly one empty packet on DATA1, and then IN is refused and the device listens |
| `Usb2ControlRuns.EmptyAnswer` | src/wch-ch56x-lib/usb/usb20.c:584-717 | An IN request answered with nothing sends one empty packet and then serves the status stage if and only if the byte count left by earlier transfers, which the handler does not clear, is below a packet |
| `Usb2ControlRuns.InDataStage` | src/wch-ch56x-lib/usb/usb20.c:584-765 | For a request answered with bytes, that is with the descriptor asked for or the reply of the user, and whatever else earlier transfers left: the host is sent exactly those bytes cut into packets, on toggles alternating from DATA1, and its status stage is taken, for all contents of the memory, if and only if the address register, which both directions share, points at the EP0 buffer when the SETUP arrives (or at a payload that fits one packet); also when the payload is the EP0 buffer |
| `Usb2ControlRuns.WrongAddress` | src/wch-ch56x-lib/usb/usb2_utils.h:165-225 | With the register elsewhere there is a memory for which the wire carries something else |
| `Usb2ControlRuns.OutDataStage` | src/wch-ch56x-lib/usb/usb20.c:603-798 | For every split of wLength bytes each packet finds the toggle it expects, the user is called exactly once, after the last byte, the bytes lie together where the address register stood at the SETUP, the register is back at the EP0 buffer, and then the host is sent the empty packet of the status stage and no more |
| `Usb2ControlRuns.BufferHoldsOutData` | src/wch-ch56x-lib/usb/usb20.c:777-798 | The EP0 buffer holds the concatenation for every split if and only if the address register stands at the EP0 buffer when the SETUP arrives |
| `Usb2ControlRuns.Misplaced` | src/wch-ch56x-lib/usb/usb20.c:656-667 | Unless it does, there is a packet whose bytes are not where the user reads them |
| `Usb2ControlBus.StepFollowsBus` | src/wch-ch56x-lib/usb/usb20.c:751-801 | Every SETUP, IN, OUT and reset moves the address register and the remaining count as the bytes on the bus say |
| `Usb2ControlBus.AddressRegisterFollowsBus` | src/wch-ch56x-lib/usb/usb20.c:428-801 | In every run the address register is behind the EP0 buffer by exactly the bytes of OUT data stages that were neither finished nor followed by a reset, SET_CONFIGURATION or ENDPOINT_HALT |
| `Usb2ControlBus.InAfterRun` | src/wch-ch56x-lib/usb/usb20.c:584-717 | After any run an answer with bytes reaches the host if and only if no such byte is outstanding (or the payload lies where the register points and fits one packet) |
| `Usb2ControlBus.EmptyAnswerAfterRun` | src/wch-ch56x-lib/usb/usb20.c:486-622 | After any run an IN request answered with nothing is served rightly if and only if fewer bytes than a packet are awaited, read off the bus |
| `Usb2ControlBus.AbandonedInSpoilsEmptyAnswer` | src/wch-ch56x-lib/usb/usb20.c:584-765 | A vendor IN request abandoned with more than a packet to send, then a request like GET_STATUS: after the empty packet stale data is armed on DATA0 and the host's status stage is refused |
| `Usb2ControlBus.OutAfterRun` | src/wch-ch56x-lib/usb/usb20.c:603-798 | After any run the EP0 buffer holds what the host sends, for every split, if and only if no such byte is outstanding |
| `Usb2ControlBus.AbandonedOutSpoilsNextIn` | src/wch-ch56x-lib/usb/usb20.c:777-798 | An OUT request abandoned after n bytes leaves the register n bytes behind, and the answer to the next IN request, loaded and armed, is not what the host is sent |
| `Usb2ControlBus.AddressIsGiven` | src/wch-ch56x-lib/usb/usb20.c:560-744 | In every run from reset without class or vendor OUT requests numbered SET_ADDRESS the address register is the one of the last completed SET_ADDRESS, or 0, at most 127, it changes only in that IN event or on bus reset, and the device state is the one the host has brought it into |
| `Usb2ControlBus.SetAddressCompletes` | src/wch-ch56x-lib/usb/usb20.c:560-744 | After any run a SET_ADDRESS with a legal address can complete, each of its transactions being answered, and then the device answers to that address |
| `Usb2ControlBus.RequestIsServed` | src/wch-ch56x-lib/usb/usb20.c:656-744 | Each transaction of such a request is answered, and the address given last takes effect exactly if it is at most 127 |
| `Usb2ControlBus.AddressingIsRight` | src/wch-ch56x-lib/usb/usb20.c:560-735 | For a set of requests that can give an address: the device answers to the given address in every run if and only if the set holds no class or vendor OUT request numbered SET_ADDRESS |
| `Usb2ControlBus.VendorRequestCommitsAddress` | src/wch-ch56x-lib/usb/usb20.c:560-735 | A class or vendor OUT request with the number of SET_ADDRESS, served to its end, commits an abandoned address |
| `Usb3Word.Decode` | src/wch-ch56x-lib/usb/usb30_utils.h:101-129 | The packet count of a control word is below 32 |
| `Usb3Word.PackedFields` | src/wch-ch56x-lib/usb/usb30_utils.h:122-129 | The fields ORed into an empty word do not disturb each other or the sequence number |
| `Usb3Word.InSetOnCleared` | src/wch-ch56x-lib/usb/usb30_utils.h:122-129 | On a cleared word every field reads back as set and the sequence number is kept |
| `Usb3Word.ClearKeepsSequence` | src/wch-ch56x-lib/usb/usb30_utils.h:204-210 | Clearing leaves the sequence number and nothing else |
| `Usb3Burst.SplitSize` | src/wch-ch56x-lib/usb/usb30.c:708-748 | Any size up to the maximum burst is cut into 1 to max_burst packets: size = (packets - 1) * packet size + last length |
| `Usb3Burst.ReadyArms` | src/wch-ch56x-lib/usb/usb30.c:708-748 | A new buffer on an idle endpoint is armed as a whole burst |
| `Usb3Burst.DrainPackets` | src/wch-ch56x-lib/usb/usb30.c:541-553 | Draining k of n packets leaves the bytes of the others, and nothing once all are gone |
| `Usb3Burst.PartialAcceptance` | src/wch-ch56x-lib/usb/usb30.c:518-598 | When the host takes k packets of the burst, k packet sizes are gone, the rest is armed with the same last length and the sequence number as it stands, the clamp does not fire and tx_complete is not called |
| `Usb3Burst.FullAcceptance` | src/wch-ch56x-lib/usb/usb30.c:555-571 | When all packets are taken tx_complete is called; a buffer handed in by it is armed when the handler returns, otherwise the endpoint is idle |
| `Usb3Burst.HandlerIsAlwaysSafe` | src/wch-ch56x-lib/usb/usb30.c:555-598 | In every reachable state the rest of the burst can be programmed, and the transfer completes if and only if every packet was taken |
| `Usb3Burst.IdleEndpointIsCleared` | src/wch-ch56x-lib/usb/usb30.c:708-748 | Between transfers the control word is cleared, as tx_ready relies on |
| `Usb3Burst.StepKeepsInv` | src/wch-ch56x-lib/usb/usb30.c:518-598 | Every hand-in and every acceptance keeps bytes taken + bytes remaining = size |
| `Usb3Burst.BurstRuns` | src/wch-ch56x-lib/usb/usb30.c:518-748 | In every run: conservation holds and each accepted buffer completes exactly once, in order, with all its bytes taken |
| `Usb3Burst.SequenceIsKept` | src/wch-ch56x-lib/usb/usb30_utils.h:122-210 | In every run the driver leaves the packet sequence number as the hardware has it |
| `Usb3Burst.Usb3TxEndpoint.EndpTxReady` | src/wch-ch56x-lib/usb/usb30.c:708-748 | Registers and counters on the real control word after arming |
| `Usb3Burst.Usb3TxEndpoint.CutIntoPackets` | src/wch-ch56x-lib/usb/usb30.c:718-731 | Packet count and last length of a size |
| `Usb3Burst.Usb3TxEndpoint.TakePackets` | src/wch-ch56x-lib/usb/usb30.c:541-553 | The decrement loop computes the drain |
| `Usb3Burst.Usb3TxEndpoint.EpInHandler` | src/wch-ch56x-lib/usb/usb30.c:518-598 | Registers and counters on the real control word after an IN event |
| `Usb3Control.PiecesMakeUpPayload` | src/wch-ch56x-lib/usb/usb30.c:484-497 | The pieces concatenate to the payload, none exceeds 512 bytes, and their number is finite and known |
| `Usb3Control.DescriptorRead` | src/wch-ch56x-lib/usb/usb30.c:310-497 | For every descriptor, wLength and earlier state the host is offered, one packet at a time and by the lengths in the control word, the first min(wLength, length) bytes in such pieces, then an empty packet with the status stage armed, and the status stage is armed with no earlier packet |
| `Usb3Word.FirstDecodes` | src/wch-ch56x-lib/usb/usb30.c:1104-1106 | The word written at the SETUP arms one packet of the given length, sequence number 0, status ACK |
| `Usb3Word.FurtherDecodes` | src/wch-ch56x-lib/usb/usb30.c:1027-1028 | The fields of the word written for a further packet: the counter modulo 32, and a status that bit 6 of the counter spoils and that stays spoiled |
| `Usb3Numbering.ReadIsNumbered` | src/wch-ch56x-lib/usb/usb30.c:1011-1030 | From any earlier state every packet the host takes of a read carries its number modulo 32 and status ACK if and only if (1) there is one packet with data, or the counter at the SETUP is a multiple of 32 and (counter mod 128) + further packets < 64, and (2) the host does not fetch the closing empty packet, which it does when min(wLength, length) is a positive multiple of 512 below wLength, or number 0 is due for it |
| `Usb3Numbering.ClosingPacketIsMisnumbered` | src/wch-ch56x-lib/usb/usb30.c:1015-1021 | On a fresh device a descriptor of exactly 512 bytes, of which the host asks for more, is followed by a closing packet numbered 0 where 1 is due |
| `Usb3Numbering.PiecesOfRead` | src/wch-ch56x-lib/usb/usb30.c:484-497 | The pieces of a read are the first, the further ones counted here and the empty one |
| `Usb3Numbering.ReadResetsCounter` | src/wch-ch56x-lib/usb/usb30.c:1015-1021 | A read that goes to its end leaves the counter at 0 |
| `Usb3Numbering.CounterIsCarried` | src/wch-ch56x-lib/usb/usb30.c:947-1030 | In every run the counter is the number of further packets since the last empty one, over all abandoned reads |
| `Usb3Numbering.ReadAfterRun` | src/wch-ch56x-lib/usb/usb30.c:947-1030 | After any run the next read is numbered rightly exactly by that number and by whether the host fetches the closing packet |
| `Usb3Numbering.AbandonedReadMisnumbersNext` | src/wch-ch56x-lib/usb/usb30.c:947-1030 | A read abandoned after one IN event makes the second packet of the next read go out as number 2; without it, as number 1 |
| `Usb3Control.Usb3ControlDriver.LoadNextPacket` | src/wch-ch56x-lib/usb/usb30.c:484-497 | Exactly the next packet is copied and the position moves over it |
| `Usb3Control.Usb3ControlDriver.HandleGetDescriptor` | src/wch-ch56x-lib/usb/usb30.c:310-410 | State after a GET_DESCRIPTOR of a descriptor that is set, control word included |
| `Usb3Control.Usb3ControlDriver.HandleIn` | src/wch-ch56x-lib/usb/usb30.c:1011-1030 | State after an IN event on endpoint 0, counter and control word included |

## Left out

- Raw register addresses and bit positions of the USB2 and HSPI blocks: control registers are records of response and toggle, request types an enumeration, an endpoint mask a set of endpoints.
- EP0 passthrough mode, in which the caller owns the protocol.
- USB3 link training, power modes, resets, the OUT handler and ERDY: undocumented hardware sequencing, or one arithmetic step.
- Logging, SerDes, the plain HSPI driver, GPIO setup and the 500 microsecond delay between sends: plumbing and timing.
- Critical-section macros: a critical section is one atomic step.
- hspi_init and hspi_reinit_buffers with work outstanding, or interrupted half way: one step, taken while no task is queued or running.
- The bytes, sizes and custom registers in HSPI buffers: only ownership is followed there; the header fields have their own round trip.
- `Hspi.Enabled` bounds references to 255 for each buffer; what happens beyond is `BlockTable.OwnersWrapAt255`.
- Retransmission by the host on USB2 endpoint 0: each IN and OUT event there is a completed transaction.
- Where the hardware stores a SETUP packet while the endpoint-0 address register is not at the EP0 buffer: requests are taken as the host sent them.
- Changes the hardware makes to the USB3 endpoint-0 control word by itself: it reads back as written.
- Descriptors that are not set, and string indices past the table, on USB3 endpoint 0: they would only add easy branches.
- Payloads that overlap the EP0 buffer without starting at it: memcpy does not allow them.
- Contents of a bulk IN buffer that the user changes while it is being sent.
- `usb_setup_req.bRequestType` as bits: the outcome of the request-type test at usb20.c:493 is a flag of the request.
- TaskQueue.Run: tasks are identities whose calls are logged; what a task does in between is in the interleaved models.
- Usb3Control.DescriptorRead: contents and order of the pieces; their sequence numbers and status are `Usb3Numbering.ReadIsNumbered`.
- Fifo.Ring.CopyIn: beyond 65535 bytes the source also copies the first bytes of the next element; elements are all or nothing here.
- Usb2Out: endp_rx_set_state is one step there, as it is in a handler or with interrupts off; called otherwise it is `Usb2OutSplit`.
- Class and vendor IN replies on USB3 that are longer than wLength.
- Pool.HydraPool.Clean: the members are not part of this class; `HspiDriver.Driver.ReinitBuffers` zeroes them.
- HspiDriver.Driver.ReinitBuffers: only while no task is queued or running.
- Usb2Bulk.Usb2Driver.EndpTxSetNewBuffer: endpoint 0, where the data is copied to the EP0 buffer, is not covered.
