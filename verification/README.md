# SOS-2x in Dafny

SOS-2x is an operating system kernel for sensor nodes. This project models the parts of it that live
by whole-run invariants, and proves them: the block heap with its garbage collectors, the slab
allocator on top of it, the delta-queue timers, the HDLC link of the serial driver, the flash code
memory, the fragment fetch protocol, the dataflow engine, the function linker and the memory
map with its sub-byte records. `dafny verify dfyconfig.toml` checks all of it.

Every component has the form of its source. State that the C code updates in place is a class or an
array, loops are loops with invariants, and each method is tied to a specification that does not
mention its steps:

- **Heap** (`HeapSpec`, `Heap`, `Gc`, `GcModule`). Block headers, links and bytes are arrays; the links
  and headers share storage with the user bytes, so that writing them destroys what lies there. A
  client sees the map of live areas. The invariant says that areas tile the blocks up to the sentinel
  and that the list is circular, ascending, doubly linked and holds exactly the unreserved areas.
  Allocation is specified by the free runs of the client's view and not by the list. The module
  collector is specified by reachability through pointers stored at any byte offset.
- **Slab** (`SlabSpec`, `Slab`). Pools are areas of that heap; an item is a pool and an index. Both
  collectors run on the same heap.
- **Timers** (`TimerSpec`, `Timers`, `SosList`). Relative deltas stand for absolute deadlines over a
  ghost base, the instant of the last update; base, outstanding ticks and hardware counter together
  are the current time, which no operation changes. That every block is in one list and every name in
  use once is one multiset equation. `SosList` is the linked list itself, on pointers.
- **Link** (`LinkSpec`, `LinkChecks`, `Uart`). The framing of section 4.2 of RFC 1662 with an arbitrary CRC step
  function; the receiver is an automaton over all octets, line errors and memory failures, and both
  interrupt handlers are proved against it, then run against each other. `LinkChecks` says what it refuses.
- **Code memory** (`CodememCache`, `CodememAlloc`). A one-page write-back cache over flash bytes, and a
  bitmap with salted handles.
- **Fetch** (`FetchProtocol`, `FetchProgress`, `Fetcher`). A network of nodes whose messages are lost,
  repeated and reordered; the handlers on bitmaps are proved to be the steps of the protocol. Safety
  holds in every run, and from every correct state a fetch with a serving source can be brought to
  success.
- **Dataflow** (`Wiring`, `TokenSpec`, `TokenProgress`, `Dataflow`). The compiled routing table against direct
  interpretation, and the token queues as a state machine whose steps end where the engine calls into
  an element, so that every nesting of calls is a run. Tokens stay in order in every run, and none is ever stuck.
- **Linker** (`Fntable`). Incremental linking against linking from scratch.
- **Memory map** (`Memmap`). Packed records against one record per block.

`Common` holds the option type and the byte type.

Some statements one would expect are false of the code. For those the exact condition is proved, and
an input or a run on which the code fails:

- Stopping a timer delays the others when it is overdue and not the last (`RemoveKeepsOthersIff`,
  `OverdueRemovalDelays`).
- A message is lost on the link exactly when a header octet is 0x7e or the payload has 128 octets or
  more, so payloads of 126 octets never arrive (`FrameRoundTrip`, `Length126IsLost`): the receiver
  compares the decoded header octet with the flag.
- A read of code memory misses a write when it runs from an uncached page into the changed part of the
  cached one (`FetchIsViewIff`, `FetchAlwaysViewIff`, `StaleRead`); flushing a cache that was allocated
  but never filled overwrites the first page (`FlushAlwaysKeepsIff`, `EmptyFlush`).
- Allocating code memory without a cache page gives a handle to an address outside of flash (`Alloc`,
  `AllocWithoutCache`).
- Heap requests of 0xFFF5 to 0xFFFC bytes come to zero blocks, and break the tiling when there is any free
  area (`AllocAny`, `ZeroBlocksBreakTiling`); a second free that passes the guard test breaks the list
  (`DoubleFreeBreaksList`).
- A reallocation that has to move gives the old area back exactly when the byte at the end of the
  merged area holds the owner (`Realloc`, `OldAreaStays`).
- A node between the failure of a fetch and its restart serves whatever is in its flash. A step is safe
  for every content of the flash exactly when it is not such an answer (`RequestIsSafeIff`,
  `StepIsSafeIff`), and there is a run from the start in which a wrong fragment gets on the air
  (`UnguardedServesGarbage`). `FetchSafety` is about the runs without such a step.
- A fetch that misses nothing from the start, such as that of an empty image, never reports success
  (`SucceedsIffAllArrive` has the exact condition, `GivesUp` the end).
- An old code memory handle is accepted again after a multiple of 256 allocations (`StaleHandle`,
  `ReusedHandle`).

Where comments and code differ the model follows the code: `ker_timer_init` is documented to refuse a
running timer, but stops and reinitialises it.

## Model

| member | source | states |
|---|---|---|
| `HeapModel.Heap.constructor` | kernel/malloc.c:738-767 | from `mem_init` on: one free area of all blocks, a free list of one, and the heap invariant |
| `HeapModel.Heap.Alloc` | kernel/malloc.c:289-384 | NULL exactly when the size is 0 or no run of that many consecutive free blocks exists; otherwise the start of the lowest such run; exactly one area becomes live, and no byte of another live area changes |
| `HeapModel.Heap.LongTermAlloc` | kernel/malloc.c:201-283 | NULL under the same condition; otherwise the highest-addressed place where the blocks fit, which is the tail of the last free run |
| `HeapModel.Heap.Free` | kernel/malloc.c:391-475 | exactly an area with an intact guard byte stops being live; sizes and bytes of all others stay; a pointer outside of the heap, or to a block whose guard byte does not hold its owner, is ignored; once freed, the same pointer passes the guard test again exactly when the owner was the null pid |
| `HeapSpec.DoubleFreeBreaksList` | kernel/malloc.c:391-475 | when the guard test does not stop it, freeing an area that is on the list already breaks the list |
| `HeapModel.Heap.AllocAny` | kernel/malloc.c:289-384 | for every 16-bit size: the heap invariant is kept exactly unless the size sum wraps to zero blocks (0xFFF5 to 0xFFFC) and the free list is not empty; otherwise as `Alloc` |
| `HeapSpec.ZeroBlocksBreakTiling` | kernel/malloc.c:342-384 | an area header with zero blocks is in no tiling |
| `HeapModel.Heap.RemoveAll` | kernel/malloc.c:575-592 | exactly the areas of the owner with an intact guard byte go, whatever merging happened before |
| `HeapModel.Heap.Realloc` | kernel/malloc.c:601-730 | in place whenever the area and the free run behind it are large enough; else first fit and move, or NULL exactly when nothing fits; the first min(old, new) user bytes survive on success, all bytes of the old area on NULL, and every other area always; the old area is given back exactly when the byte at the end of the merged area happens to hold the owner |
| `HeapModel.OldAreaStays` | kernel/malloc.c:601-730 | a run of three allocations, a release and a reallocation after which the old area of the moved one is still live |
| `HeapModel.Heap.MergeBlocks` | kernel/malloc.c:777-796 | absorbs the whole free run behind the area; the live areas and their bytes do not change |
| `HeapModel.Heap.MergeBlocksQuick` | kernel/malloc.c:798-813 | absorbs free areas until the request fits or the run ends |
| `HeapModel.Heap.SplitBlock` | kernel/malloc.c:818-825 | cuts an area in two and links the rest behind it; tiling and free list are kept |
| `HeapModel.Heap.InsertAfter` | kernel/malloc.c:829-848 | links a detached area into the address-ordered free list |
| `HeapModel.Heap.Unlink` | kernel/malloc.c:852-856 | takes exactly one area off the list |
| `HeapModel.Heap.Defragment` | kernel/malloc.c:859-871 | merges all adjacent free areas; what is live does not change |
| `HeapModel.Heap.StealTail` | kernel/malloc.c:247-276 | the tail of a free area becomes the new live area; the invariant and all other areas stay |
| `HeapSpec.FreeListIsUnreservedAreas` | kernel/malloc.c:777-856 | the walk along the links from the sentinel is strictly ascending and meets exactly the areas not marked as reserved, and every pair of neighbours is linked both ways |
| `HeapSpec.BlocksConserved` | kernel/malloc.c:777-856 | the sizes of the areas on the free list and the sizes of the live areas add up to all blocks below the sentinel |
| `HeapSpec.AreasAddUp` | kernel/malloc.c:777-856 | from the start of any area on, blocks no live area covers and the sizes of the live areas add up to the blocks up to the sentinel |
| `HeapSpec.MergeKeepsInv` | kernel/malloc.c:777-796 | merging two adjacent free areas keeps tiling, free list and live areas |
| `HeapSpec.SplitKeepsInv` | kernel/malloc.c:818-825 | splitting keeps them as well, with one more free area |
| `HeapSpec.UnlinkKeepsLinked` | kernel/malloc.c:852-856 | unlinking a node leaves a well-formed ascending circular list of the others |
| `HeapSpec.InsertKeepsLinked` | kernel/malloc.c:829-848 | inserting between a node and its successor does so with one more |
| `HeapSpec.TailIsLastFit` | kernel/malloc.c:201-283 | the tail of the last free area that is large enough is the highest place in the whole heap |
| `HeapSpec.NoRunBeforeNext` | kernel/malloc.c:289-384 | merging lazily misses nothing: no fitting run starts before the next node of the list |
| `HeapSpec.ReqBlocksFits` | kernel/malloc.c:216-219 | the area holds the requested bytes and a guard byte exactly when the 16-bit size sum does not wrap; the sizes that give zero blocks |
| `HeapSpec.ReqBlocksIsLeast` | kernel/malloc.c:216-218 | as many blocks as the bytes, the header and the guard byte need, and not one more |
| `HeapSpec.UserByteAt` | kernel/malloc.c:601-730 | each byte asked for is among the user bytes that a reallocation keeps, at its place behind the header |
| `HeapModel.GuardIsLast` | kernel/malloc.c:102-102 | the guard byte is the last one of the area and behind every byte that was asked for |
| `HeapSpec.LiveAreasDisjoint` | kernel/malloc.c:201-475 | live areas do not overlap and end before the sentinel |
| `HeapGc.GcMark` | kernel/malloc.c:930-962 | marks the area exactly when it is live and belongs to the pid, and changes nothing else |
| `HeapGc.MallocGc` | kernel/malloc.c:967-1013 | exactly the unmarked areas of the pid with intact guard byte are freed; its other areas lose their mark; foreign areas keep header and bytes |
| `ModuleGc.GcModule` | kernel/malloc.c:1057-1235 | what is kept is closed under pointers stored at any byte offset and every kept area is justified by a chain of suspected pointers from the root; exactly the rest is freed; no mark is left; the leak count. It happens exactly when the module has fewer than 16 areas or the heap has room for both buffers, placed by first fit; else nothing changes |
| `ModuleGc.ClosedHoldsReachable` | kernel/malloc.c:1157-1202 | a kept set that holds the root and is closed holds every owned area reachable through stored pointers |
| `ModuleGc.AddrIsFirstByte` | kernel/malloc.c:1190-1193 | the address that a stored value is compared with is that of the first user byte of the area |
| `ModuleGc.WordIs` | kernel/malloc.c:1184-1191 | two bytes make a pointer exactly when they are its low and its high byte, in that order |
| `ModuleGc.PointedAreaSurvives` | kernel/malloc.c:1157-1221 | an area stays live when a kept area holds, at any byte offset, the two bytes of its user address |
| `ModuleGc.NoMarkIsLeft` | kernel/malloc.c:1208-1221 | after a collection no area of the module is marked, and headers of other owners are as before |
| `ModuleGc.MarkPhase` | kernel/malloc.c:1157-1202 | the stack is an array with a slot for every owned area, and each push finds one free, as every area is marked before its only push; the marked set is closed and justified |
| `ModuleGc.ScanArea` | kernel/malloc.c:1176-1201 | scanning one area byte by byte marks and pushes exactly the owned areas it may point to |
| `ModuleGc.SweepPhase` | kernel/malloc.c:1208-1221 | frees the unmarked areas of the list and unmarks the others |
| `ModuleGc.CountOwned` | kernel/malloc.c:1097-1105 | the number of live areas of the pid |
| `ModuleGc.ListOwned` | kernel/malloc.c:1135-1148 | a list of exactly the live areas of the pid, without repetition |
| `ModuleGc.GetBuffers` | kernel/malloc.c:1111-1129 | both buffers or none: none exactly when no run fits the first or, with the first placed at the lowest fit, no run fits the second; no module area is touched |
| `Slab.Slab.Init` | kernel/slab.c:21-54 | fails exactly for more than 8 items or when no free run fits a pool; else one pool without items, at the highest place for a long-term slab and at the lowest for another |
| `Slab.Slab.AllocItem` | kernel/slab.c:56-103 | NULL exactly when all pools are full and no further pool fits the heap; otherwise the lowest free item of the first pool with room, or the first one of a new pool, placed as the kind of slab wants; no other item changes state |
| `Slab.Slab.FreeItem` | kernel/slab.c:105-126 | exactly the item that the address belongs to is freed; its pool leaves the heap exactly when it was the last item of a pool behind the first |
| `Slab.Slab.GcMarkItem` | kernel/slab.c:128-156 | an allocated item with that very address gets marked; a free, misaligned or foreign address changes nothing |
| `Slab.Slab.SlabGc` | kernel/slab.c:158-188 | marks become allocations, pools behind the first without a mark are freed, the others are marked for the heap collector |
| `Slab.Slab.Collect` | kernel/slab.c:158-188 | with `malloc_gc` for the same owner: exactly the marked items stay, all marks are gone, the first pool and every pool with a marked item stay in the heap, the other pools leave it, and of the other areas only unmarked ones of the owner do |
| `SlabSpec.SurvivorItems` | kernel/slab.c:158-188 | after slab_gc an item is allocated exactly when it was marked, and nothing is marked |
| `SlabSpec.CollectedBy` | kernel/malloc.c:967-1013 | which areas are live after both collectors |
| `Slab.ItemInside` | kernel/slab.c:21-54 | the bytes of an item lie inside of the pool area, behind the fields of the pool and before the guard byte |
| `Slab.AllocatedApart` | kernel/slab.c:56-103 | no two allocated items share a byte, in the same pool or in different ones |
| `Slab.FullMeans` | kernel/slab.c:56-103 | a pool counts as full exactly when all its items are allocated |
| `Slab.PoolsApart` | kernel/slab.c:105-126 | an address lies among the items of one pool at most |
| `TimerSpec.DeltaInsertIsInsert` | kernel/sos_timer.c:257-322 | insertion by relative deltas is insertion by absolute deadline, for every queue |
| `TimerSpec.InsertIsStable` | kernel/sos_timer.c:305-321 | the new timer comes behind all deadlines that are not later and before all later ones; nothing else moves |
| `TimerSpec.DeltaRemoveIsRemove` | kernel/sos_timer.c:416-429 | removal takes out one deadline and puts off the later ones by how far the removed timer was overdue |
| `TimerSpec.RemoveKeepsOthersIff` | kernel/sos_timer.c:416-429 | no other deadline moves exactly when the removed timer is not overdue or is the last |
| `TimerSpec.OverdueRemovalDelays` | kernel/sos_timer.c:416-429 | an input for which stopping an overdue timer delays the next one |
| `TimerSpec.RegularIsSorted` | kernel/sos_timer.c:257-322 | deadlines are in order exactly when all deltas behind the first are non-negative |
| `TimerSpec.UpdateKeepsDeadlines` | kernel/sos_timer.c:460-488 | advancing the base changes no absolute deadline |
| `TimerSpec.TickMeans` | kernel/sos_timer.c:767-811 | a timer fires exactly when its deadline is not after the new base, in deadline order; the fired ones are the one-shot ones, which are exactly the new idle ones, and the periodic ones; what runs afterwards, in order, are the others with their old deadlines and the fired periodic ones at their next instants |
| `TimerSpec.OnlySplits` | kernel/sos_timer.c:773-804 | every timer of a list is among the one-shot or among the periodic ones, once |
| `TimerSpec.RenewedRenews` | kernel/sos_timer.c:786-792 | a periodic timer is due again at the first later instant that is a whole number of periods after its deadline |
| `TimerSpec.OneListEach` | kernel/sos_timer.c:51-54 | no two places of the four lists hold the same block, and no two initialised timers have the same pid and tid |
| `TimerSpec.NameOnce` | kernel/sos_timer.c:326-411 | a name is in one of the running, idle and periodic lists at most |
| `TimerSpec.OthersAre` | kernel/sos_timer.c:139-182 | removing the timers of a module keeps exactly those of the others, each as often as before |
| `TimerSpec.ClearingStep` | kernel/sos_timer.c:139-152 | one round of the removal of a module's timers from the queue |
| `Timers.Timers.constructor` | kernel/sos_timer.c:86-99 | four empty lists |
| `Timers.Timers.DeltaQInsert` | kernel/sos_timer.c:257-322 | the timer is due exactly the given number of ticks from now (from the base when it is re-queued), behind equal deadlines, whatever the hardware counter shows |
| `Timers.Timers.RemoveTimer` | kernel/sos_timer.c:416-429 | the queue after removing one timer: its deadline is gone, and the later ones are put off by how far it was overdue |
| `Timers.Timers.SetHwTop` | kernel/sos_timer.c:213-236 | restarting the hardware counter loses no time and moves no deadline: its ticks become outstanding, or part of the base when the queue is empty |
| `Timers.Timers.TimerInterrupt` | kernel/sos_timer.c:1015-1017 | the ticks of a full interval are kept as outstanding |
| `Timers.Timers.UpdateDelta` | kernel/sos_timer.c:460-488 | the base moves up to the last hardware interrupt |
| `Timers.Timers.SoftInterrupt` | kernel/sos_timer.c:767-830 | one tick as `Ticked` describes it; lists, order and the current time are kept |
| `Timers.Timers.FireHead` | kernel/sos_timer.c:773-804 | the head goes to the idle or the periodic list and its timeout is dispatched |
| `Timers.Timers.Requeue` | kernel/sos_timer.c:807-811 | the periodic list is inserted into the queue in order |
| `Timers.Timers.Init` | kernel/sos_timer.c:502-540 | succeeds exactly when the name is in use, the module has a preallocated block, or memory can be had; the timer is then idle, last in the pool, of the given type, and in no other list; a new name gets the first block preallocated for the module, else the fresh one |
| `Timers.Timers.PermanentInit` | kernel/sos_timer.c:542-551 | a block and a name not in use join the idle timers |
| `Timers.Timers.Preallocate` | kernel/sos_timer.c:105-134 | all blocks or none join the preallocated list; more than the limit is refused |
| `Timers.PreallocateThenInit` | kernel/sos_timer.c:105-134 | after preallocation a module gets a timer even when no memory is left |
| `Timers.Timers.Start` | kernel/sos_timer.c:587-611 | exactly an idle timer starts, with deadline now plus interval |
| `Timers.Timers.Stop` | kernel/sos_timer.c:617-637 | exactly a running or periodic timer becomes the last idle one |
| `Timers.Timers.StopAndRelease` | kernel/sos_timer.c:640-657 | exactly a known timer is released: its block and name are in no list any more |
| `Timers.Timers.Restart` | kernel/sos_timer.c:660-699 | from whichever list; a non-positive interval stands for the last one; below the minimum the timer becomes idle instead |
| `Timers.Timers.RemoveAll` | kernel/sos_timer.c:139-182 | no timer of the module is left in any list; the others keep order and deadlines, put off by the lateness of a removed overdue head only |
| `Timers.Place` | kernel/sos_timer.c:305-321 | the search for the position computes delta insertion |
| `Timers.Advance` | kernel/sos_timer.c:472-487 | the loop computes the delta update |
| `Timers.Find` | kernel/sos_timer.c:326-344 | the first timer of a list with the name |
| `SosList.Init` | kernel/sos_list.c:56-59 | an empty ring |
| `SosList.Empty` | kernel/sos_list.c:61-64 | true exactly for the list without elements |
| `SosList.InsertBefore` | kernel/sos_list.c:4-10 | on a well-formed ring the element comes to stand before the given link and the rest keeps its order |
| `SosList.InsertHead` | kernel/sos_list.c:12-15 | the element becomes the first |
| `SosList.InsertTail` | kernel/sos_list.c:17-20 | the element becomes the last |
| `SosList.Remove` | kernel/sos_list.c:22-40 | all cases of the guards: properly linked, not linked at all, and half linked |
| `SosList.RemoveElement` | kernel/sos_list.c:22-40 | on a well-formed ring exactly that element leaves |
| `LinkSpec.StuffedIsClean` | drivers/uart/uart.c:103-121 | between the flags neither the flag octet nor ETX occurs |
| `LinkSpec.FlipIsXor` | drivers/uart/uart.c:103-121 | the escaped octet is the octet exclusive-or 0x20 |
| `LinkSpec.CrcCovers` | drivers/uart/uart.c:229-229 | the CRC starts at zero and covers the protocol octet, the header and the payload |
| `LinkSpec.FeedStuffed` | drivers/uart/uart.c:445-473 | unstuffing undoes stuffing: stuffed octets act on the receiver like the original ones |
| `LinkSpec.FrameRoundTrip` | drivers/uart/uart.c:213-587 | one frame from a receiver between frames: the message is delivered exactly when no header octet is 0x7e and the payload is below 128 octets |
| `LinkSpec.LinkRoundTrip` | drivers/uart/uart.c:213-587 | for every receiver state: after one flag, the frames of any messages deliver exactly the deliverable ones, in order and unchanged, for every CRC function |
| `LinkSpec.AllDelivered` | drivers/uart/uart.c:213-587 | when all messages are deliverable the delivered ones are all of them |
| `LinkSpec.Length126IsLost` | drivers/uart/uart.c:476-480 | the frame of a message with 126 octets of payload makes the receiver hand over nothing, as the length octet equals the flag |
| `LinkSpec.BodyEnds` | drivers/uart/uart.c:475-581 | where a frame body leaves a fresh receiver |
| `LinkChecks.AnyBody` | drivers/uart/uart.c:357-596 | every stuffed octet sequence between flags delivers a message exactly when its header has no 0x7e, its length is below 128, all its octets are there and its CRC is right; then it delivers that message |
| `LinkChecks.WrongCrcIsRefused` | drivers/uart/uart.c:552-581 | a deliverable message is delivered with its own CRC and with no other |
| `LinkChecks.DeliveredIsChecked` | drivers/uart/uart.c:357-596 | for every sequence of octets with line errors and memory failures: a message is handed over only at a flag, and the octets since the last opening of a frame, free of flags and errors, decode to its header, its payload and their CRC |
| `LinkChecks.DecodedStuff` | drivers/uart/uart.c:445-473 | that decoding undoes stuffing |
| `Uart.Transmitter.StartTx` | drivers/uart/uart.c:132-162 | the first flag and what the interrupts will emit are together the frame of the message; a busy transmitter refuses |
| `Uart.Transmitter.SendByte` | drivers/uart/uart.c:103-121 | what one octet becomes on the line, and the CRC over unescaped data |
| `Uart.Transmitter.SendInterrupt` | drivers/uart/uart.c:213-324 | emits the next octet of the frame, and becomes idle exactly when all are out |
| `Uart.Transmitter.SendHeader` | drivers/uart/uart.c:243-254 | one octet of the frame while the header is sent |
| `Uart.Transmitter.SendData` | drivers/uart/uart.c:256-268 | one octet of the frame while the payload is sent |
| `Uart.Receiver.RecvInterrupt` | drivers/uart/uart.c:357-596 | every octet, with or without line error and memory, takes the receiver where the automaton of `LinkSpec.Step` goes, and delivers what it delivers |
| `Uart.Receiver.RecvHeader` | drivers/uart/uart.c:476-510 | a decoded header octet, including the test against the flag |
| `Uart.Receiver.HeaderComplete` | drivers/uart/uart.c:486-509 | the payload length decides: refused, no payload, or a buffer |
| `Uart.Receiver.RecvData` | drivers/uart/uart.c:512-531 | a decoded payload octet |
| `Uart.Receiver.RecvCrc` | drivers/uart/uart.c:533-543 | the two CRC octets |
| `Uart.Receiver.RecvStop` | drivers/uart/uart.c:552-581 | delivery exactly when the CRC matches |
| `Uart.Receiver.ResetRecv` | drivers/uart/uart.c:342-351 | back to idle |
| `Uart.Transfer` | drivers/uart/uart.c:132-587 | the two handlers taking turns over a clean line: the message is delivered once and unchanged exactly when deliverable, and both ends are ready again |
| `CodememCache.FlashCache.DirectWrite` | kernel/codemem.c:370-412 | a write of any length at any address above the first page changes exactly that range of the logical contents; without memory nothing changes |
| `CodememCache.FlashCache.CacheWrite` | kernel/codemem.c:203-221 | the same within one page, with eviction |
| `CodememCache.FlashCache.Switch` | kernel/codemem.c:208-215 | changing the cached page leaves the logical contents unchanged |
| `CodememCache.FlashCache.CacheRead` | kernel/codemem.c:223-243 | what is read, and exactly when it is the logical contents |
| `CodememCache.FlashCache.Flush` | kernel/codemem.c:180-189 | the logical contents above the first page stay; the first page stays exactly when the cache was absent, held a page, or its garbage equals the page |
| `CodememCache.FlashCache.CacheAlloc` | kernel/codemem.c:168-178 | allocating the cache page changes no contents |
| `CodememCache.FetchIsViewIff` | kernel/codemem.c:223-243 | a read gives the logical contents exactly when it starts in the cached page, or the cached page has no unwritten change in the range |
| `CodememCache.FetchAlwaysViewIff` | kernel/codemem.c:223-243 | whatever the cached page holds, a read gives the logical contents exactly when it starts in that page, does not reach it, or is empty |
| `CodememCache.FlushAlwaysKeepsIff` | kernel/codemem.c:180-189 | whatever the page holds, a flush keeps the logical contents exactly when there is no page or it was filled |
| `CodememCache.EmptyFlush` | kernel/codemem.c:180-189 | a run in which flushing a page that was never filled changes a byte of flash |
| `CodememCache.ApartIsClean` | kernel/codemem.c:223-243 | a read that does not reach the cached page is such a case |
| `CodememCache.StaleRead` | kernel/codemem.c:223-243 | a read from an uncached page into the cached one that misses a write |
| `CodememAlloc.SetBitmap` | kernel/codemem.c:136-166 | exactly the bits of the range change |
| `CodememAlloc.PagesHold` | kernel/codemem.c:261-261 | as many pages as the bytes need, and not one more |
| `CodememAlloc.ModulesApart` | kernel/codemem.c:250-351 | the byte ranges of live handles lie inside of flash and are pairwise disjoint |
| `CodememAlloc.BytesApart` | kernel/codemem.c:250-351 | the same from the agreement of bitmap and handles |
| `CodememAlloc.FindRun` | kernel/codemem.c:261-286 | the lowest run of clear pages of that length, or none if there is none |
| `CodememAlloc.CodeMemory.constructor` | kernel/codemem.c:553-589 | a clear bitmap and no handles |
| `CodememAlloc.CodeMemory.Alloc` | kernel/codemem.c:305-351 | first fit; fails exactly without free slot, header memory or clear run; the lowest free slot; a bit stays set exactly when one live handle owns the page and ranges stay disjoint, exactly when the cache page could be had |
| `CodememAlloc.CodeMemory.FlashAlloc` | kernel/codemem.c:250-287 | the address of the lowest fitting pages, which are now marked |
| `CodememAlloc.CodeMemory.Free` | kernel/codemem.c:437-459 | exactly an accepted handle frees exactly its pages and its slot |
| `CodememAlloc.CodeMemory.FlashFree` | kernel/codemem.c:289-299 | exactly the pages of the range become clear |
| `CodememAlloc.CodeMemory.Check` | kernel/codemem.c:78-98 | accepted exactly with a live slot and the salt of its allocation |
| `CodememAlloc.StaleHandle` | kernel/codemem.c:305-351 | an old handle is accepted exactly when its slot is live and was filled a multiple of 256 allocations later |
| `CodememAlloc.AllocWithoutCache` | kernel/codemem.c:250-351 | a run in which an allocation without a cache page hands out a handle and reserves nothing |
| `CodememAlloc.ReusedHandle` | kernel/codemem.c:305-459 | a run of 257 allocations and 256 releases after which the first handle is given out again and accepted |
| `CodememAlloc.AllocBitmap` | kernel/codemem.c:305-351 | allocation keeps the agreement of bitmap and handles |
| `CodememAlloc.FreeBitmap` | kernel/codemem.c:437-459 | and so does freeing |
| `FetchProtocol.FetchSafety` | kernel/sos_module_fetcher.c:105-684 | in every state of every run with loss, duplication and reordering: fragments in flight and held are the origin's, only held fragments are offered, and a fetch reported as successful has the exact image |
| `FetchProtocol.StepKeepsNet` | kernel/sos_module_fetcher.c:346-684 | every step of every node keeps the whole network correct |
| `FetchProtocol.RunKeepsNet` | kernel/sos_module_fetcher.c:346-684 | so every state of a run is |
| `FetchProtocol.FragmentKeepsNode` | kernel/sos_module_fetcher.c:573-640 | a fragment keeps its receiver correct, up to the success report |
| `FetchProtocol.RequestKeepsNode` | kernel/sos_module_fetcher.c:522-571 | answering a request for fragments that are not missing here offers held fragments only |
| `FetchProtocol.RequestIsSafeIff` | kernel/sos_module_fetcher.c:522-571 | answering is right for every content of the code memory exactly when the node is not between the failure of a fetch and its restart, or the newly wanted fragments are not missing |
| `FetchProtocol.StepIsSafeIff` | kernel/sos_module_fetcher.c:346-684 | a step keeps the whole network correct for every content of the node's code memory exactly when it is guarded by that condition |
| `FetchProtocol.UnguardedServesGarbage` | kernel/sos_module_fetcher.c:346-571 | a run from the start, with a failed fetch and a late request, that ends with a wrong fragment in flight |
| `FetchProgress.FragmentProgress` | kernel/sos_module_fetcher.c:573-640 | a missing fragment is stored and missing no more; the last one ends the fetch with one report of success |
| `FetchProgress.FragmentOverheard` | kernel/sos_module_fetcher.c:381-394 | a fragment is offered no more once somebody has sent it; one that is not missing changes no content |
| `FetchProgress.RequestProgress` | kernel/sos_module_fetcher.c:522-571 | a node with the key offers exactly what it offered before and what is wanted, without what it misses |
| `FetchProgress.TimeoutProgress` | kernel/sos_module_fetcher.c:346-379 | the request goes to the source and asks for exactly what is missing; after the limit the fetch is parked as it is and failure reported |
| `FetchProgress.TransmitProgress` | kernel/sos_module_fetcher.c:396-489 | a fragment is sent as stored while the queue has room, and leaves the offer; an offer that is done ends |
| `FetchProgress.GivesUp` | kernel/sos_module_fetcher.c:346-379 | a fetch that hears nothing asks three times and reports failure once with the fourth timeout |
| `FetchProgress.HearingIsPatience` | kernel/sos_module_fetcher.c:238-337 | a request to somebody else, or a fragment, lets the waiting start anew |
| `FetchProgress.SucceedsIffAllArrive` | kernel/sos_module_fetcher.c:573-640 | in any order and with repetitions: the fetch succeeds with exactly the image if and only if something is missing and every missing fragment arrives, and otherwise goes on with those left |
| `FetchProgress.FetchCompletes` | kernel/sos_module_fetcher.c:346-640 | from every correct state of the network there is a run that brings a fetch with a serving source to success |
| `FetchProgress.EveryNodeCanFetch` | kernel/sos_module_fetcher.c:105-640 | from the start every other node can get the image from the origin |
| `FetchProgress.RestartCompletes` | kernel/sos_module_fetcher.c:196-216 | a failed fetch goes on where it was when restarted, and can be brought to success |
| `Fetcher.FetcherModule.FetcherRequest` | kernel/sos_module_fetcher.c:105-163 | the bitmap starts with exactly the bits of the fragments |
| `Fetcher.FetcherModule.FetcherRestart` | kernel/sos_module_fetcher.c:196-216 | the failed fetch goes on where it was |
| `Fetcher.FetcherModule.HandleOverheardFragment` | kernel/sos_module_fetcher.c:381-394 | a fragment sent by somebody else is dropped from the offer |
| `Fetcher.FetcherModule.HandleFragment` | kernel/sos_module_fetcher.c:573-620 | the handler on bytes does what the protocol step does on sets |
| `Fetcher.FetcherModule.CheckMapAndPost` | kernel/sos_module_fetcher.c:622-640 | success is reported exactly when no bit is left |
| `Fetcher.FetcherModule.HandleRequest` | kernel/sos_module_fetcher.c:522-571 | take or merge the wanted bits, without those missing here |
| `Fetcher.FetcherModule.HandleOtherRequest` | kernel/sos_module_fetcher.c:238-337 | a request to somebody else resets the retransmission count |
| `Fetcher.FetcherModule.HandleRequestTimeout` | kernel/sos_module_fetcher.c:346-379 | ask again, or report failure after the limit |
| `Fetcher.FetcherModule.HandleTransmitTimeout` | kernel/sos_module_fetcher.c:396-489 | the lowest wanted fragment is sent with what is stored for it |
| `Fetcher.FetcherModule.HandleSendDone` | kernel/sos_module_fetcher.c:238-337 | one packet less in the queue |
| `Fetcher.FetcherModule.LowestBit` | kernel/sos_module_fetcher.c:396-489 | the lowest set bit of the map |
| `Fetcher.FetcherModule.IsEmpty` | kernel/sos_module_fetcher.c:675-684 | true exactly when no bit is set |
| `Fntable.Linker.Register` | kernel/fntable.c:236-253 | refused exactly when the pid is registered or its timers cannot be had; incremental linking still equals linking from scratch, and no run-time slot changes |
| `Fntable.Linker.Deregister` | kernel/fntable.c:374-414 | removal keeps that equality too, and resets exactly the run-time slots that point to the module |
| `Fntable.Linker.Subscribe` | kernel/fntable.c:101-136 | a run-time slot gets the provider's entry exactly when function id and prototype match, else its own |
| `Fntable.Linker.LinkProvided` | kernel/fntable.c:299-372 | every slot of every registered module is treated once |
| `Fntable.Linker.LinkSubscribed` | kernel/fntable.c:256-290 | the slots of the new module are those of linking from scratch |
| `Fntable.Linker.RealSubscribe` | kernel/fntable.c:168-202 | the entry found, if module, function id and prototype agree |
| `Fntable.Linker.GetModule` | kernel/sched.c:269-279 | found exactly when registered |
| `Fntable.RegisterKeepsLinked` | kernel/fntable.c:299-372 | linking the subscribers of a new module gives the links from scratch |
| `Fntable.RemoveKeepsLinked` | kernel/fntable.c:374-414 | so does unlinking those of a removed one |
| `Fntable.StaticSlotMeans` | kernel/fntable.c:168-217 | a static slot is linked to another module exactly when that module is registered and the first entry it provides with the function id has the same prototype, all octets of it |
| `Fntable.OrderDoesNotMatter` | kernel/fntable.c:236-414 | static slots depend on the set of registered modules only |
| `Fntable.NoDanglingSlot` | kernel/fntable.c:374-414 | no slot points into the table of a module that is gone |
| `Fntable.GetProvCb` | kernel/fntable.c:204-217 | the first provided entry with the function id |
| `Wiring.ParseIff` | extensions/dataflow/wiring_engine.c:545-743 | a list gives certain groups exactly when it consists of their output and input records, the last input of each group marked, and an end record |
| `Wiring.Router.Interpret` | extensions/dataflow/wiring_engine.c:545-743 | succeeds exactly for a well-formed list; table and group ids are those of its groups |
| `Wiring.Router.ReadInputs` | extensions/dataflow/wiring_engine.c:629-711 | the input records of one output port |
| `Wiring.Router.WriteGroup` | extensions/dataflow/wiring_engine.c:713-740 | the fanout row and the rows of the group |
| `Wiring.Router.Dispatch` | extensions/dataflow/wiring_engine.c:1406-1441 | the rows that a group id leads to |
| `Wiring.Router.DispatchPort` | extensions/dataflow/wiring_engine.c:1406-1441 | dispatch through the table is direct interpretation: exactly the input ports of the last group of the output port, in order, with element and port unpacked |
| `Wiring.PatchedPort` | extensions/dataflow/wiring_engine.c:620-627 | the rows of a port's last group are where its group id says |
| `Wiring.Unpack` | extensions/dataflow/wiring_engine.c:699-701 | the byte of an input port gives back element number and port |
| `TokenSpec.TokensInOrder` | extensions/dataflow/wiring_engine.c:1366-1523 | in every run, nested calls included: per port the delivered tokens followed by the waiting ones are the arrived ones in order; a ready port waits for nothing; at most one token per port is posted |
| `TokenSpec.StepKeepsElem` | extensions/dataflow/wiring_engine.c:151-190 | every step keeps this |
| `TokenSpec.RunKeepsElem` | extensions/dataflow/wiring_engine.c:151-190 | so does every run |
| `TokenSpec.PostAllQueue` | extensions/dataflow/wiring_engine.c:1366-1397 | posting takes the first waiting token of each port and leaves ready only ports without one |
| `TokenProgress.PostAllExact` | extensions/dataflow/wiring_engine.c:1366-1397 | posting takes exactly the first queued token of each ready port, and exactly those ports become busy |
| `TokenProgress.SetReadyWakes` | extensions/dataflow/wiring_engine.c:1512-1521 | an element without posted tokens gets the first waiting token of every port, and is ready on exactly the ports for which none waits |
| `TokenProgress.NoPortIsForgotten` | extensions/dataflow/wiring_engine.c:1512-1521 | afterwards every port is ready or has its first waiting token posted |
| `TokenProgress.BusyIsHeldBack` | extensions/dataflow/wiring_engine.c:1434-1506 | in every run: a port that has returned -EBUSY stays busy until the element puts out a token, and what arrives for it is queued |
| `TokenProgress.EveryTokenCanBeDelivered` | extensions/dataflow/wiring_engine.c:1366-1523 | no token is stuck: every state of every run can be continued to one in which each port has been delivered all that arrived for it, in order |
| `Dataflow.Engine.VisitPort` | extensions/dataflow/wiring_engine.c:1434-1506 | a ready port is called, any other queues the token |
| `Dataflow.Engine.SetBusy` | extensions/dataflow/wiring_engine.c:1343-1353 | exactly the bit of the port is cleared |
| `Dataflow.Engine.SetElementReady` | extensions/dataflow/wiring_engine.c:1512-1521 | nothing while a token is posted; else all ports ready, then posting |
| `Dataflow.Engine.PostTokens` | extensions/dataflow/wiring_engine.c:1366-1397 | the loop over the queue and the busy byte does what `PostAll` says |
| `Dataflow.Engine.TokensPosted` | extensions/dataflow/wiring_engine.c:1226-1238 | true exactly when a token is posted |
| `Dataflow.Engine.IsElementReady` | extensions/dataflow/wiring_engine.c:1335-1341 | the bit of the port |
| `Dataflow.Engine.BeginTask` | extensions/dataflow/wiring_engine.c:151-167 | the posted token is handled and delivered |
| `Dataflow.Engine.FinishTask` | extensions/dataflow/wiring_engine.c:180-184 | the handled token leaves the queue |
| `Memmap.MemoryMap.constructor` | kernel/memmap.c:33-41 | every record is that of a free block |
| `Memmap.MemoryMap.SetPerms` | kernel/memmap.c:46-91 | exactly the records of the blocks of the range change, across bytes, for records of two and of four bits; nothing for a length that is no multiple of the block size |
| `Memmap.MemoryMap.ChangePerms` | kernel/memmap.c:96-139 | exactly the longest run of matching records from the base changes, and its length is returned |
| `Memmap.GetRecBits` | kernel/include/memmap.h:157-164 | bit i of record j is bit r * j + i of the byte, and a record has no further bits |
| `Memmap.BlockAtIs` | kernel/memmap.c:46-91 | the records of a byte take up its eight bits, and records follow each other in the table as blocks do |
| `Memmap.PutRec` | kernel/include/memmap.h:169-180 | writing one record leaves the other records of the byte |
| `Memmap.TestRec` | kernel/memmap.c:109-116 | the masked comparison looks at one record |

## Left out

- Hardware registers, critical sections, logging, debugging output and LEDs: every kernel entry point
  is one atomic step.
- The build with SOS_USE_PREEMPTION, and the SFI branches of the heap; the memory map is modelled on
  its own.
- `sos_blk_mem_change_own` and the kernel-wide collector `malloc_gc_kernel`: they would add easy members.
- HeapModel.Heap.Alloc: requires that the 16-bit size sum does not give zero blocks; `ReqBlocksFits` says
  which sizes do, and `AllocAny` what they do.
- HeapModel.Heap.LongTermAlloc: the same sizes are excluded.
- HeapModel.Heap.Free: a pointer into the heap that is no live area and passes the guard test by chance; what then
  becomes of the list is stated for areas on it only.
- HeapModel.Heap.Realloc: the same sizes are excluded; and for an area that the collector has marked the code reads the mark as part of the size;
  the area is required to be unmarked.
- ModuleGc.GcModule: the root is a live area of the module and the module has at most 255 areas, as the counter
  has eight bits.
- Slab.Slab.Init: item size and items per pool are at least 1; the code divides by the item size.
- Slab.Slab.FreeItem: no mark may be set, as freeing leaves the mark bit of the item.
- The link and the two bit vectors of a pool are fields of the model and not bytes of the heap
  area; that no other operation writes those bytes is what the heap proves.
- Timers.Timers.SoftInterrupt: handlers that use timers while the firing loop runs are not part of the tick;
  the list invariant is kept by each of the operations separately and so holds for them too. Periods
  are required to be positive, as the code does not terminate otherwise.
- In the timers: 32-bit overflow of deltas, the programming of the hardware interval, real-time clocks,
  `timer_gc`, and the wrappers that take the current module. Permanent timers get fresh names and are
  neither released nor removed.
- Timers.Timers.TimerInterrupt: the interval that has passed is taken from the counter.
- Timers.Timers.Preallocate: the limit is that of the POSIX platform.
- Uart.Receiver.RecvInterrupt: raw frames, and the time stamp that is written into messages of type MSG_TIMESTAMP on
  either end.
- The CRC function itself, which is arbitrary.
- CodememCache.FlashCache.DirectWrite: addresses above the first page, as the address zero stands for an empty cache.
- CodememCache.FlashCache.CacheRead: addresses above the first page, for the same reason.
- CodememAlloc.CodeMemory.Alloc: 1 to 255 pages, as the page count has eight bits. The bitmap has a bit for every page of its
  last byte, also beyond the end of flash.
- CodememAlloc.CodeMemory.Check: a handle with slot number 16, for which the code looks behind the table.
- CodememAlloc.CodeMemory.FlashFree: the erasing of the freed pages.
- In the code memory: marking as executable and killing the module of a freed handle.
- FetchProtocol.FetchSafety: one key, one version and one fetch per node; allocations and posts succeed; the
  retry after a failed post and cancelling are not part of it.
- TokenSpec.TokensInOrder: allocations succeed, element numbers are distinct modulo 16, and the wiring does not
  change during the run; token data and its copying are left out.
- Wiring.Router.Interpret: at most 255 rows that fit the table; what module creation and subscription give for a
  record is part of the record. Hot swapping, parameter updates and the elements table are left out.
- Fntable.Linker.Register: the one-entry cache of `ker_get_module` and the messages to the module; the header is the
  module's own, with its pid in the provided entries.
- Fntable.Linker.Deregister: the messages MSG_DFUNC_REMOVED.
- Fntable.Linker.Subscribe: slots declared with RUNTIME_PID only.
- Memmap.MemoryMap.SetPerms: the range ends before the last byte of the table, and the value fits a record; a range up to
  the end makes the code touch the byte behind the table.
- Memmap.MemoryMap.ChangePerms: some block from the base on does not match, for the same reason; mask and values fit a
  record.
- Message queues, shared memory, random numbers, the monitor, the sensor registry, other drivers, time
  synchronisation and the ELF loader.
