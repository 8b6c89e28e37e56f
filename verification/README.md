# dx verified models

Dafny models of the hardest parts of the dx operating system, with proofs of the
properties they are built around.  `dafny verify dfyconfig.toml` checks the whole
project.

| part | modules | what is modelled |
|---|---|---|
| Messages and scheduling | `SchedulerState`, `SchedulerChains`, `SchedulerTickets`, `SchedulerInvariant`, `SchedulerTheorems`, `SchedulerLottery`, `SchedulerDeletion`, `SchedulerMail`, `IoManager` | blocking sends, mailboxes, the ticket pool, lottery scheduling with hand-off along blocking chains, the clock, thread deletion |
| Page frames | `Arith`, `Bits`, `Bitmap32`, `Bitmap`, `Buddy`, `PageFrameRegion`, `MisnamedBlocks`, `PageFrameManager` | two-level bitmaps, the buddy allocator of a region, the manager over all regions |
| Shared frames | `SharedFrames`, `SharedSteps`, `SharedConservation`, `AddressSpaces` | reference counts over shared-frame tables and large messages, payload delivery, copy-on-write, expansion, conservation of frames |
| Heap | `TreeBins`, `Trie`, `TreeSearch`, `MallocHeap`, `MallocBins`, `MallocArena`, `MallocSteps`, `Malloc`, `MallocRuns` | dlmalloc on one segment: boundary tags, small bins, bitwise tries, best fit, the designated victim, coalescing |
| libc | `Strstr`, `Calendar`, `Mktime`, `Numerals` | Horspool search, `localtime_r`/`mktime`, `uitoa`/`strrev`/`strtoul` |

**Messages and scheduling.**  `SchedulerState` defines the state of the kernel's
threads, messages and ticket pool, the steps that change it, and runs as sequences
of such steps.  A step is what happens between two points where another thread or
an interrupt can get in, so retrieving a message and forgetting its ticket are two
steps, as in the source.  One invariant is kept by every step; the theorems hold in
every state of every run.  `SchedulerLottery` says who gets the CPU and for how
long, `SchedulerMail` what becomes of a message.  The class `IoManager` is the code with its fields, loops
and early exits; each method is proved to perform exactly the step it stands for.

**Page frames.**  A machine word, and then the two-level tree of words, is proved to
be a set of indices.  The buddy allocator names a merged block by whichever half was
freed last, so a free bit is read as the aligned block that its index lies in; with
that reading split and join keep all free blocks disjoint and never change which
frames are free.

**Shared frames.**  The state relates page tables, shared-frame tables, messages
and the allocator.  For every descriptor a set of holders is kept as specification;
the invariant says that it is the set of all references and that the count is its
size.  `SharedSteps` makes the operations the steps of a state machine; the methods
of the class `Memory` are proved to be runs of it.  `SharedConservation` says which
frames are still owned by somebody after a run.

**Heap.**  `MallocHeap` has the chunks and their tags, `MallocBins` and the trie
modules the bins, `MallocArena` the two together.  `MallocSteps` gives each call as a
function of the whole state, the class `Malloc.Arena` is the code of `dlmalloc` and
`dlfree`, and `MallocRuns` puts calls together to whole runs.

Some of the properties one would expect are false of the code.  The code is kept as
it is, with a concrete input and the exact condition for each:

- `mktime` does not undo `localtime_r` before 14 December 1901 and from 20 January
  2038 on, because it multiplies days by seconds in a 32-bit `long`
  (`Mktime.RoundTripIff`).
- `localtime_r` never names the first day of a month after the epoch: it gives
  32 January for 1 February (`Mktime.NormalIff`).  Before the epoch the weekday is
  wrong on most days (`Mktime.WeekdayBeforeEpoch`).
- A merged block of frames need not start at its name, so a contiguous request can
  be answered with frames that it does not hold
  (`PageFrameRegion.AnswerIsContiguousIff`, `MisnamedBlocks.MergedPairIsMisnamed`).
- `expand` loses frames if page tables run out on the way: `decommit_frame` overwrites
  the list of allocated frames before it is freed, although the comment there says that
  nothing leaks (`AddressSpaces.Memory.Expand`).  Frames are conserved over a run if and
  only if neither this nor a failed `share_frame` occurs
  (`SharedConservation.NothingLostIff`).
- Clearing an empty range can spoil a bitmap (`Bitmap.Bitmap1024.ClearRange`).

The documentation comment of `localtime_r` promises normalised time and
`allocate_block` promises contiguous frames; the models follow the code.

## Model

| member | source | states |
|---|---|---|
| `SchedulerChains.AddLink` | src/kernel/thread_manager/thread.cpp:245-289 | if the sender is not the end of the recipient's blocking chain, blocking the sender on the recipient leaves every thread with a finite chain: comparing with the end alone rules out every cycle |
| `SchedulerChains.ChainsRuleOutCycles` | src/kernel/thread_manager/thread.cpp:355-379 | if every thread has a finite chain to an unblocked thread, the blocked-on graph has no cycle of any length |
| `SchedulerChains.CutLink` | src/kernel/thread_manager/thread.cpp:761-785 | waking one thread keeps every chain finite |
| `SchedulerChains.EndsAtUnique` | src/kernel/thread_manager/thread.cpp:355-379 | a thread's blocking chain has one end |
| `SchedulerTickets.PoolRemoveFacts` | src/kernel/inc/message_pool.hpp:81-120 | swap-removal takes out exactly the one message and leaves every cached index right |
| `SchedulerTickets.RemoveAllFacts` | src/kernel/io_manager/io_manager.cpp:136-169 | flushing a list of distinct pool members takes out exactly those |
| `SchedulerInvariant.StepKeeps` | src/kernel/io_manager/io_manager.cpp:422-514 | every step of the protocol, whichever thread or interrupt makes it, keeps the whole invariant |
| `SchedulerInvariant.InitHolds` | src/kernel/io_manager/io_manager.cpp:29-60 | the initial state satisfies the invariant |
| `SchedulerTheorems.RunKeeps` | src/kernel/io_manager/io_manager.cpp:422-514 | the invariant holds in every state of every run |
| `SchedulerTheorems.NoDeadlock` | src/kernel/thread_manager/thread.cpp:661-747 | in every reachable state the blocked-on graph is acyclic and every thread's chain ends in a ready thread |
| `SchedulerTheorems.SelectionIsReady` | src/kernel/io_manager/io_manager.cpp:623-728 | from every reachable state and for every draw there is exactly one selection, and the selected thread is ready |
| `SchedulerTheorems.PreemptedOwnsTicket` | src/kernel/io_manager/io_manager.cpp:306-338 | an enabled thread that loses the CPU to the clock owns a ticket in every later state until it runs again or is deleted |
| `SchedulerTheorems.PoolIsExact` | src/kernel/io_manager/io_manager.cpp:466-484 | in every reachable state the pool holds exactly the messages in mailboxes, the bonus messages and those being retrieved or flushed, each once, and every cached index is the real position |
| `SchedulerTheorems.RetrievesTheReply` | src/kernel/thread_manager/thread.cpp:704-721 | an enabled thread back from a blocking send finds the reply with the source and id it waited for at the head of its mailbox, whatever came in meanwhile and however deep sends are nested |
| `SchedulerTheorems.BlockedOnInnermostSend` | src/kernel/thread_manager/thread.cpp:207-237 | a blocked thread waits for its innermost unfinished send |
| `SchedulerTheorems.BonusGoesToOwner` | src/kernel/io_manager/io_manager.cpp:655-700 | exactly the recipient of the drawn message loses its bonus ticket, whether it or the end of its chain gets the CPU; nothing else about any thread changes but the quantum of the selected one |
| `SchedulerLottery.SelectionRule` | src/kernel/io_manager/io_manager.cpp:623-728 | if the running thread is blocked the CPU goes to the end of its blocking chain; else, if messages are pending, to the recipient of the drawn message or the end of that thread's chain, and exactly that recipient pays with its bonus ticket; else to the idle thread |
| `SchedulerLottery.YieldRule` | src/kernel/io_manager/io_manager.cpp:623-728 | the same in every state of every run |
| `SchedulerLottery.TickRule` | src/kernel/io_manager/io_manager.cpp:305-345 | when the quantum is used up, the running thread gets a bonus ticket exactly if it is not the idle thread, takes messages, and has neither mail nor a bonus; then the recipient of the drawn message, or the end of its chain, gets the CPU, and exactly that recipient's bonus leaves the pool |
| `SchedulerLottery.PreemptedRunsWhenDrawn` | src/kernel/io_manager/io_manager.cpp:655-700 | over every run, a preempted thread gets the CPU as soon as one of its tickets is drawn |
| `SchedulerLottery.QuantumRunsDown` | src/kernel/io_manager/io_manager.cpp:305-318 | a selected thread keeps the CPU until it is given away and has 12 ticks less the clock ticks since |
| `SchedulerLottery.QuantumIsTwelve` | src/kernel/io_manager/io_manager.cpp:305-318 | the clock takes the CPU from a thread at the twelfth tick after it was selected, and not before |
| `SchedulerTheorems.SelectSparesLosers` | src/kernel/io_manager/io_manager.cpp:655-710 | a thread that is not blocked and not selected comes out of the selection unchanged |
| `SchedulerDeletion.DeletedHasNoTickets` | src/kernel/io_manager/io_manager.cpp:136-169 | in every reachable state, a thread whose mailbox has been disabled has an empty mailbox and no bonus ticket, and the only tickets left for it are messages it is retrieving itself or that a deleter is just flushing |
| `SchedulerDeletion.WaitedSince` | src/kernel/thread_manager/thread.cpp:661-690 | over every run, whoever is blocked on a disabled thread has been waiting for the same reply ever since it was disabled: nobody newly blocks on it, and it is never enabled again |
| `SchedulerDeletion.AbortWakes` | src/kernel/io_manager/io_manager.cpp:180-196 | when the abort of a request is put, an enabled sender that still waits becomes ready, and its next message has the abort type, the deleted thread as source, itself as destination and the id it waits for, and is not blocking |
| `SchedulerDeletion.NeverWaitsAgain` | src/kernel/io_manager/io_manager.cpp:171-192 | from that put on, in every later state, no enabled sender waits for that request |
| `SchedulerDeletion.RunAwaits` | src/kernel/thread_manager/thread.cpp:704-735 | in every reachable state, if u is blocked on v and has requests in the mailbox of v, the latest of them is the one it waits for |
| `SchedulerDeletion.DeletedSendersWake` | src/kernel/io_manager/io_manager.cpp:136-196 | after v is marked, with any steps of any threads between and during the phases: once every flushed blocking request has been answered with an abort, no enabled sender of such a request is blocked on v, in that or any later state |
| `SchedulerMail.PutStatusIs` | src/kernel/thread_manager/thread.cpp:661-747 | which condition gives which status: disabled mailbox, deadlock, overflow, success |
| `SchedulerMail.PutOutcome` | src/kernel/thread_manager/thread.cpp:661-747 | a put is refused, changing nothing, exactly in these cases; an awaited message wakes the recipient and is its next one, any other goes to the end of its mailbox; the sender of a blocking message is blocked on the recipient under the message's id; nobody else changes |
| `SchedulerMail.FirstInFirstOut` | src/kernel/thread_manager/thread.cpp:700-722 | over every run, messages that nobody was waiting for are retrieved in the order they were put |
| `SchedulerMail.AbortsWakeAll` | src/kernel/io_manager/io_manager.cpp:180-196 | answering a list of requests wakes every enabled sender that waits for one of them, with the abort as its next message |
| `SchedulerMail.DeletesWakeAll` | src/kernel/io_manager/io_manager.cpp:136-196 | delete_messages wakes every enabled thread that waits for a request in the mailbox, with the abort as its next message |
| `SchedulerMail.CreatedIsIdle` | src/kernel/thread_manager/thread.cpp:86-118 | a new thread takes messages, waits for nobody and has no tickets; nothing else changes |
| `IoManager.IoManager.constructor` | src/kernel/io_manager/io_manager.cpp:29-60 | the initial state of the protocol |
| `IoManager.IoManager.PoolInsert` | src/kernel/inc/message_pool.hpp:81-91 | adds one ticket at the end |
| `IoManager.IoManager.PoolErase` | src/kernel/inc/message_pool.hpp:98-120 | performs the swap-removal on the array behind the pool |
| `IoManager.IoManager.FindBlockingThread` | src/kernel/thread_manager/thread.cpp:355-379 | the loop terminates in every valid state and returns the ready end of the chain, or nothing if the thread is not blocked |
| `IoManager.IoManager.CausesSchedulingLoop` | src/kernel/thread_manager/thread.cpp:245-289 | answers exactly whether the blocking send would close a cycle |
| `IoManager.IoManager.Deliver` | src/kernel/thread_manager/thread.cpp:661-747 | an awaited reply wakes the receiver and goes to the head, anything else to the tail unless the mailbox is full |
| `SchedulerInvariant.BlockedOnOk` | src/kernel/thread_manager/thread.cpp:207-237 | blocking a ready thread keeps what holds of every thread: it is blocked exactly on its innermost send, and the replies to its outer sends still lead its mailbox in order |
| `IoManager.IoManager.PutMessage` | src/kernel/io_manager/io_manager.cpp:422-514 | performs the put step, and returns the status that the state before it calls for: disabled, deadlock, overflow or success |
| `IoManager.IoManager.TakeFromMailbox` | src/kernel/thread_manager/thread.cpp:427-457 | performs the pop step; after a blocking send the message taken is the awaited reply |
| `IoManager.IoManager.ForgetTicket` | src/kernel/io_manager/io_manager.cpp:216-288 | performs the step that takes the retrieved message out of the pool |
| `IoManager.IoManager.DrawWinner` | src/kernel/io_manager/io_manager.cpp:668-682 | the winner is the recipient of the drawn message; exactly it loses its bonus ticket |
| `IoManager.IoManager.SelectNextThread` | src/kernel/io_manager/io_manager.cpp:623-728 | performs the selection: hand-off along the chain of a blocked thread, or the recipient of the drawn message or the end of its chain, or the idle thread; the selected thread is ready |
| `IoManager.IoManager.ClockTick` | src/kernel/io_manager/io_manager.cpp:306-338 | performs the clock step: count down, bonus ticket at the end of the quantum, selection |
| `IoManager.IoManager.MarkForDeletion` | src/kernel/thread_manager/thread.cpp:505-561 | disables the mailbox and collects everything left in it, in order |
| `IoManager.IoManager.FlushTickets` | src/kernel/io_manager/io_manager.cpp:136-169 | takes every leftover out of the pool |
| `IoManager.IoManager.AbortRequest` | src/kernel/libk/message.cpp:149-176 | a blocking request is answered with a message of the abort type, back to the sender under its id, which wakes an enabled sender that waits; other requests are not answered |
| `IoManager.IoManager.DeleteMessages` | src/kernel/io_manager/io_manager.cpp:136-196 | mark, flush and aborts as a sequence of steps; every enabled sender waiting for a request in the mailbox is ready afterwards, with the abort as its next message |
| `Bits.MaskBits` | src/kernel/inc/bits.hpp:148-168 | bit i of the mask is set exactly from the first bit up to the end, also where the end is 32 |
| `Bitmap32.FindZero` | src/kernel/inc/bits.hpp:64-77 | the lowest clear bit, or 0xFFFFFFFF exactly for a full word |
| `Bitmap32.SetBit` | src/kernel/inc/bitmap.hpp:208-215 | the machine word with that index, and no other, added |
| `Bitmap32.FreeBit` | src/kernel/inc/bitmap.hpp:190-195 | the machine word with that index, and no other, removed |
| `Bitmap32.FillBits` | src/kernel/inc/bitmap.hpp:218-229 | the machine word with exactly the range added |
| `Bitmap32.DrainBits` | src/kernel/inc/bitmap.hpp:177-187 | the machine word with exactly the range removed |
| `Bitmap32.FullOn` | src/kernel/inc/bitmap.hpp:198-200 | a word is all ones exactly if all 32 indices are set |
| `Bitmap.Bitmap1024.constructor` | src/kernel/inc/bitmap.hpp:263-274 | all bits below the size clear, all padding bits set |
| `Bitmap.Bitmap1024.Allocate` | src/kernel/inc/bitmap.hpp:281-306 | sets and returns the least clear index, or reports full exactly if none is clear; padding is never returned |
| `Bitmap.Bitmap1024.Free` | src/kernel/inc/bitmap.hpp:374-395 | clears exactly the one bit and keeps parent bits right, for every index of the tree; an index below the size leaves the padding set |
| `Bitmap.Bitmap1024.Set` | src/kernel/inc/bitmap.hpp:424-447 | sets exactly the one bit and keeps parent bits right |
| `Bitmap.Bitmap1024.SetRange` | src/kernel/inc/bitmap.hpp:450-505 | sets exactly the range, across child words |
| `Bitmap.Bitmap1024.ClearRange` | src/kernel/inc/bitmap.hpp:309-371 | clears exactly the range; the parent bits stay right if and only if it is not an empty range that starts inside a full child |
| `Bitmap.EmptyClearSpoils` | src/kernel/inc/bitmap.hpp:309-371 | after the first 32 bits are set, clearing no bits at index 5 leaves a tree whose parent is wrong |
| `Buddy.XorBlock` | src/kernel/memory_manager/page_frame_region.hpp:60-64 | f xor g is below 2^k exactly if f and g lie in the same aligned block of 2^k frames |
| `Buddy.Halves` | src/kernel/memory_manager/page_frame_region.hpp:60-64 | a block is the disjoint union of the two halves that the buddy computation names |
| `Buddy.SplitFrees` | src/kernel/memory_manager/page_frame_region.cpp:185-212 | split frees all of the larger block but the block asked for, and keeps all free blocks disjoint |
| `Buddy.JoinKeepsFrames` | src/kernel/memory_manager/page_frame_region.cpp:135-171 | join keeps all free blocks disjoint and never changes which frames are free |
| `Buddy.ServesIff` | src/kernel/memory_manager/page_frame_region.cpp:54-90 | the n frames from f on lie in the block of order k around f if and only if f mod 2^k + n <= 2^k |
| `PageFrameRegion.AnswerIsContiguousIff` | src/kernel/memory_manager/page_frame_region.cpp:54-90 | for whatever a request for n frames is answered with: the request has taken the n frames from there on, each free before and not after, if and only if the index it takes, the least clear one of the first non-empty pool before the call, leaves room for n frames up to the end of its block |
| `PageFrameRegion.AnswerIs` | src/kernel/memory_manager/page_frame_region.cpp:54-90 | the pools before a request determine which frame it is answered with and the pools after it |
| `Buddy.JoinKeepsName` | src/kernel/memory_manager/page_frame_region.cpp:135-171 | a merged block keeps the name of the frame that was freed, also if that is the upper half |
| `Buddy.JoinMerges` | src/kernel/memory_manager/page_frame_region.cpp:135-171 | join merges at every order until the buddy is not free or the largest order is reached; exactly these buddies leave their pools |
| `Buddy.MergesKeepsCoalesced` | src/kernel/memory_manager/page_frame_region.cpp:103-171 | freeing never leaves a free block beside a free buddy of the same order |
| `Buddy.SplitKeepsCoalesced` | src/kernel/memory_manager/page_frame_region.cpp:54-90 | nor does allocating |
| `Buddy.SplitThenMerge` | src/kernel/memory_manager/page_frame_region.cpp:54-171 | giving back the block that a request took restores all pools |
| `PageFrameRegion.AllocateAndFree` | src/kernel/memory_manager/page_frame_region.cpp:54-171 | on every region, a request of any size and the release of its answer leave the pools as they were |
| `MisnamedBlocks.MergedPairIsMisnamed` | src/kernel/memory_manager/page_frame_region.cpp:54-171 | in a new region, frames 0 and 1 are allocated and freed again; a request for two frames is then answered with frame 1, so that its caller uses 1 and 2, while 2 is still free and 0 is taken |
| `MisnamedBlocks.SecondFreed` | src/kernel/memory_manager/page_frame_region.cpp:135-171 | freeing frame 1 after frame 0 makes a pair that is named 1, and its name keeps it from merging with the pair of 2 and 3 |
| `PageFrameRegion.OrderFor` | src/kernel/memory_manager/page_frame_region.hpp:77-86 | the smallest order whose blocks hold the request |
| `PageFrameRegion.Region.constructor` | src/kernel/memory_manager/page_frame_region.cpp:20-40 | all 1024 frames are free, as one block of 64 every 64 frames |
| `PageFrameRegion.Region.AllocateBlock` | src/kernel/memory_manager/page_frame_region.cpp:54-90 | takes the least clear index of the first non-empty pool from the order of the request on, and exactly the wholly free block of that order around it; fails, changing nothing, exactly if those pools are all empty |
| `PageFrameRegion.Region.Split` | src/kernel/memory_manager/page_frame_region.cpp:185-212 | performs the split on the bitmaps |
| `PageFrameRegion.Region.FreeBlock` | src/kernel/memory_manager/page_frame_region.cpp:103-124 | frees exactly the block given back; it merges with its free buddy at each order up to the first one where the buddy is not free or nothing is larger, and keeps its name |
| `PageFrameRegion.Region.Join` | src/kernel/memory_manager/page_frame_region.cpp:135-171 | performs on the bitmaps the merges that `Buddy.JoinMerges` is about |
| `PageFrameManager.Manager.constructor` | src/kernel/memory_manager/page_frame_manager.cpp:25-74 | exactly the frames of the given regions are managed, and all are free |
| `PageFrameManager.Manager.AllocateBlock` | src/kernel/memory_manager/page_frame_manager.cpp:88-138 | the search over regions terminates, takes one free frame of the lowest region that has one, and fails only if no frame is free anywhere |
| `PageFrameManager.Manager.AllocateFrame` | src/kernel/memory_manager/page_frame_manager.cpp:88-138 | the frame handed out was free and not held, and free plus held frames stay the managed frames |
| `PageFrameManager.Manager.AllocateDiscontiguousFrames` | src/kernel/memory_manager/page_frame_manager.cpp:202-223 | fills the list with distinct frames nobody held; on failure no frame is left anywhere |
| `PageFrameManager.Manager.AllocateFrames` | src/kernel/memory_manager/page_frame_manager.cpp:238-279 | all or nothing: fails only if fewer frames are free than were asked for, and then holds nothing new |
| `PageFrameManager.Manager.FreeFrames` | src/kernel/memory_manager/page_frame_manager.cpp:289-341 | exactly the listed valid frames go back |
| `PageFrameManager.AllWereHanded` | src/kernel/memory_manager/page_frame_manager.cpp:238-279 | when nothing is left, everything that was free went to the caller |
| `SharedFrames.CountIsHolders` | src/kernel/inc/counted_object.hpp:50-87 | the reference count of a descriptor is the number of table entries in all address spaces, message slots and callers that refer to it |
| `SharedFrames.WritableIsExclusive` | src/kernel/memory_manager/address_space.cpp:423-537 | a writable page maps a frame that no other page of any address space maps |
| `SharedFrames.ShareNewOk` | src/kernel/memory_manager/address_space.cpp:881-960 | sharing a private page through a new descriptor with count two keeps the invariant |
| `SharedFrames.StashOk` | src/kernel/memory_manager/address_space.cpp:976-1008 | storing the caller's reference in a message's frame list keeps the invariant |
| `SharedFrames.BindOk` | src/kernel/memory_manager/address_space.cpp:363-410 | mapping a shared frame where nothing is mapped keeps the invariant |
| `SharedFrames.UnbindOk` | src/kernel/memory_manager/address_space.cpp:1088-1110 | unmapping a shared page keeps the invariant; the descriptor goes exactly if this was its last reference |
| `SharedFrames.ReleaseNextOk` | src/kernel/libk/large_message.cpp:39-47 | releasing a message's next reference keeps the invariant; the descriptor goes exactly if this was its last reference |
| `SharedFrames.FreeIsUnused` | src/kernel/memory_manager/shared_frame.cpp:14-20 | a free frame is neither mapped nor shared anywhere |
| `SharedFrames.AddCounts` | src/kernel/inc/counted_object.hpp:50-57 | a new holder and a count raised by one keep every count equal to the number of holders |
| `SharedFrames.DropCounts` | src/kernel/inc/counted_object.hpp:76-87 | one holder less and a count lowered by one keep every count equal to the number of holders; the descriptor goes, and its frame becomes free, exactly if that was the only holder |
| `AddressSpaces.Memory.ShareFrame` | src/kernel/memory_manager/address_space.cpp:881-960 | the page is shared, the caller has one more reference, and no page of any address space shows anything else than before; without memory for a descriptor the page is unmapped |
| `AddressSpaces.Memory.NewMessage` | src/kernel/libk/large_message.cpp:17-33 | a message without frames is added, and nothing else changes |
| `AddressSpaces.Memory.CollectPayload` | src/kernel/memory_manager/address_space.cpp:976-1008 | the message holds the descriptors of the payload's pages in order; every view and every frame is as before |
| `AddressSpaces.Memory.DeliverPayload` | src/kernel/memory_manager/address_space.cpp:363-410 | the message's frames are mapped read-only at consecutive pages, up to the first page that is taken; nothing else changes |
| `AddressSpaces.Memory.DestroyMessage` | src/kernel/libk/large_message.cpp:39-47 | exactly the frames of descriptors that lost their last reference become free |
| `AddressSpaces.Memory.UnshareFrame` | src/kernel/memory_manager/address_space.cpp:1088-1132 | the page is gone; its frame becomes free, and was not free before, exactly if nothing else refers to it |
| `AddressSpaces.Memory.UnshareFrames` | src/kernel/memory_manager/address_space.cpp:1147-1164 | exactly the pages of the range are gone; exactly those of their frames that no descriptor stands for any more become free; messages, contents and the remaining descriptors are as before |
| `AddressSpaces.Memory.CopyOnWrite` | src/kernel/memory_manager/address_space.cpp:423-537 | on success every page of every address space shows the same bytes, the faulting page is writable on a frame no other page maps, and the old frame is free exactly if that was its last reference; on failure nothing changes |
| `SharedSteps.CowCopies` | src/kernel/memory_manager/address_space.cpp:423-537 | the same about the step as a function of the state |
| `AddressSpaces.Memory.Write` | src/kernel/memory_manager/address_space.cpp:423-537 | a store is seen by the page it was made through and by no other page of any address space |
| `SharedSteps.StoreOk` | src/kernel/memory_manager/address_space.cpp:423-537 | a store through a writable page changes what that page shows, no other page, and no shared frame |
| `AddressSpaces.Memory.Expand` | src/kernel/memory_manager/address_space.cpp:692-807 | succeeds if and only if the caller is capable, 1 to 96 aligned user pages are asked for, none is present, and frames and page tables suffice, and then exactly these pages are new, each writable on a frame of its own that was free; else each error has its exact cause and nothing changes, except that a failure after n pages, for want of a page table, loses exactly the other frames |
| `AddressSpaces.PageCountIs` | src/inc/dx/hal/memory.h:50-71 | the pages that a number of bytes takes, rounded up, and none where rounding up overflows |
| `AddressSpaces.LastPage` | src/kernel/memory_manager/address_space.cpp:735-738 | comparing the first and the last page in 32 bits rejects exactly the ranges that leave the address space |
| `AddressSpaces.CommitUndone` | src/kernel/memory_manager/address_space.cpp:553-578 | unbinding the whole range after n pages were bound restores the page tables, and finds the first n frames and INVALID_FRAME after them |
| `AddressSpaces.RolledBack` | src/kernel/memory_manager/address_space.cpp:781-793 | freeing what was found gives back exactly the first n frames; the others stay allocated |
| `AddressSpaces.MapFramesRun` | src/kernel/memory_manager/address_space.cpp:304-342 | binding free frames to consecutive empty pages is a run of steps and keeps the invariant |
| `SharedConservation.StepConserves` | src/kernel/memory_manager/address_space.cpp:304-1132 | an operation keeps every frame that is free, mapped or behind a descriptor so, and makes no other frame so, but for the one frame that it forgets |
| `SharedConservation.RunConserves` | src/kernel/memory_manager/address_space.cpp:304-1132 | after every run the frames that are free, mapped or described are those at the start without the forgotten ones, which are as many as the steps that forget one |
| `SharedConservation.NothingLostIff` | src/kernel/memory_manager/address_space.cpp:304-1132 | every frame is still free, mapped or described after a run if and only if no share_frame failed for want of a descriptor and no expand for want of a page table |
| `SharedSteps.StepKeeps` | src/kernel/memory_manager/address_space.cpp:363-537 | every operation on pages, descriptors, messages and frames keeps the invariant and leaves what every remaining descriptor stands for unchanged |
| `SharedSteps.RunKeeps` | src/kernel/memory_manager/address_space.cpp:881-1164 | the invariant holds in every state of every run of these operations; each method is proved to be such a run |
| `SharedSteps.PayloadFrozen` | src/kernel/libk/large_message.cpp:60-128 | over every run of operations that are not about the message itself, the message keeps its frame list and none of those frames changes |
| `AddressSpaces.PayloadArrives` | src/kernel/libk/large_message.cpp:140-198 | after any such run the receiver reads, page by page, what the sender's pages held when the payload was collected |
| `TreeBins.BinRange` | src/lib/libc/malloc.c:2823-2834 | the bins split the sizes into consecutive ranges that start at the bins' minimum sizes |
| `TreeBins.BinPrefixOk` | src/lib/libc/malloc.c:2886-2897 | the sizes of a bin agree in all bits above those its trie branches on |
| `TreeBins.BinOrder` | src/lib/libc/malloc.c:2895-2897 | later bins hold larger sizes |
| `Trie.InsertAdds` | src/lib/libc/malloc.c:3625-3674 | inserting adds exactly the one chunk and keeps the trie a trie: each subtree has only sizes with its bit prefix, each size once |
| `Trie.TakeLeafSplits` | src/lib/libc/malloc.c:3708-3721 | taking the rightmost leaf splits a trie into that leaf's chunks and the rest |
| `Trie.ReplaceRootRemoves` | src/lib/libc/malloc.c:3693-3762 | putting a leaf from below in the place of a node removes exactly that node's size and keeps the trie a trie |
| `Trie.UnlinkRemoves` | src/lib/libc/malloc.c:3693-3762 | unlinking removes exactly the one chunk, whether in a ring, at a leaf or at an inner node |
| `TreeSearch.Descend` | src/lib/libc/malloc.c:4415-4437 | the bit-guided descent leaves a subtree and a best chunk such that nothing better can be elsewhere in the bin |
| `TreeSearch.LeftmostWalk` | src/lib/libc/malloc.c:4448-4455 | the walk along leftmost children ends with a smallest fitting chunk of the bin |
| `TreeSearch.SearchLarge` | src/lib/libc/malloc.c:4409-4455 | finds a smallest chunk of at least nb bytes among all treebins, or nothing exactly if none fits |
| `TreeSearch.SearchSmall` | src/lib/libc/malloc.c:4480-4495 | finds a smallest chunk among all treebins |
| `MallocHeap.UseWholeOk` | src/lib/libc/malloc.c:3044-3046 | handing out a whole free chunk keeps the heap well-formed: chunks tile the segment, tags tell the truth, no two free chunks are neighbours, none borders top |
| `MallocHeap.UseFrontOk` | src/lib/libc/malloc.c:4586-4591 | splitting a free chunk keeps the heap well-formed |
| `MallocHeap.UseTopOk` | src/lib/libc/malloc.c:4633-4643 | cutting a chunk from top keeps the heap well-formed |
| `MallocHeap.FreedOk` | src/lib/libc/malloc.c:4657-4764 | merging a freed chunk with its free neighbours or top keeps the heap well-formed and its extent |
| `MallocHeap.FreedStatus` | src/lib/libc/malloc.c:4657-4764 | exactly the freed chunk is no longer live, and exactly its free neighbours merge with it |
| `MallocHeap.PrevIsFree` | src/lib/libc/malloc.c:4680-4691 | a clear pinuse bit means that prev_foot leads to the free chunk that ends here |
| `MallocHeap.LiveDisjoint` | src/lib/libc/malloc.c:3196-3240 | the user areas of live chunks do not overlap and lie in the segment |
| `MallocHeap.AllFreedIsOneTop` | src/lib/libc/malloc.c:4657-4764 | once nothing is live the whole segment is one top chunk again |
| `MallocBins.InsertChunkAdds` | src/lib/libc/malloc.c:3766-3768 | inserting puts exactly the one chunk into the bins and keeps bins and bitmaps right |
| `MallocBins.UnlinkChunkRemoves` | src/lib/libc/malloc.c:3770-3772 | unlinking takes exactly the one chunk out of the bins and keeps bins and bitmaps right |
| `MallocBins.BestIsSmallest` | src/lib/libc/malloc.c:4409-4477 | what the tree searches return is a smallest fit among all large binned chunks |
| `MallocBins.NextSmallBin` | src/lib/libc/malloc.c:4571-4577 | the first non-empty small bin from an index on |
| `MallocArena.CarvedArena` | src/lib/libc/malloc.c:4519-4653 | using a free chunk keeps every free chunk in exactly one place: one bin, or the designated victim |
| `MallocArena.FreedArena` | src/lib/libc/malloc.c:4657-4764 | freeing keeps every free chunk in exactly one place |
| `Malloc.ChunkSize` | src/lib/libc/malloc.c:2212-2222 | an aligned chunk size with room for the request and at most 11 bytes more than it, or the minimum; out of reach for requests that can never be met |
| `Malloc.LargeChoice` | src/lib/libc/malloc.c:4457-4458 | preferring the better of the trees' best fit and the designated victim is a best fit among all free chunks, also where the remainder of a too small victim wraps around |
| `Malloc.MarkedIffExact` | src/lib/libc/malloc.c:4553-4560 | the bit of a small bin is set exactly if a free chunk of that size exists outside the designated victim |
| `Malloc.FirstBinIsSmallest` | src/lib/libc/malloc.c:4571-4580 | the first marked bin that fits has a smallest fit among all free chunks |
| `Malloc.Arena.constructor` | src/lib/libc/malloc.c:2567-2600 | a fresh segment is one top chunk, with nothing live |
| `Malloc.Arena.TmallocLarge` | src/lib/libc/malloc.c:4409-4477 | uses a smallest fitting free chunk, or reports that the designated victim fits at least as well or that nothing fits |
| `Malloc.Arena.TmallocSmall` | src/lib/libc/malloc.c:4480-4515 | uses a smallest chunk of the trees, which is a smallest fit among all free chunks |
| `Malloc.Arena.MallocSmall` | src/lib/libc/malloc.c:4550-4602 | uses a chunk of exactly the size or of 8 bytes more if a small bin has one, the last one binned; leaves the request to the designated victim if that is big enough; else uses a smallest fit; gives up only if nothing fits |
| `Malloc.Arena.TakeDv` | src/lib/libc/malloc.c:4613-4631 | splits or exhausts the designated victim |
| `Malloc.Arena.TakeTop` | src/lib/libc/malloc.c:4633-4643 | cuts the front off the top chunk |
| `Malloc.Arena.Malloc` | src/lib/libc/malloc.c:4519-4653 | an aligned block of the padded size, and less than a minimal chunk more, becomes live; a small request gets an exact fit, else one of 8 bytes more, else the designated victim, else a smallest fit; a large one gets a smallest fit, the designated victim if that is one; the rest stays or becomes the designated victim, or is binned, as the request is small or large; top is used only if no free chunk fits; null, with nothing changed, only if neither has room; each call is one step of a run |
| `Malloc.Arena.Free` | src/lib/libc/malloc.c:4657-4764 | exactly the given block is no longer live; merged with the free chunks on both sides it joins top, or is the designated victim if that was beside it, or is the first of its bin; null changes nothing; each call is one step of a run |
| `MallocSteps.TakenOk` | src/lib/libc/malloc.c:4550-4631 | unlinking a chunk, splitting it and keeping the rest as designated victim or in a bin, as the size of the request decides, leaves the whole state well-formed |
| `MallocSteps.MergedBinsOk` | src/lib/libc/malloc.c:4680-4740 | consolidation takes exactly the free neighbours out of the bins |
| `MallocSteps.GivenOk` | src/lib/libc/malloc.c:4657-4764 | freeing, with the merged chunk joined to top, kept as designated victim or binned, leaves the whole state well-formed |
| `MallocSteps.StepKeeps` | src/lib/libc/malloc.c:4519-4764 | every call, of malloc or free, keeps chunks, tags, bins and designated victim well-formed; a step is a function of the state before it, and the contracts of both say that each call is such a step |
| `MallocRuns.RunIsRight` | src/lib/libc/malloc.c:4519-4764 | over every run of requests and frees the whole state is well-formed and its live chunks are exactly those handed out and not returned |
| `MallocRuns.FreeChunksAreKept` | src/lib/libc/malloc.c:4519-4764 | over every run a chunk is free exactly if it is in the bin for its size or the designated victim, never both, and under one size only |
| `MallocRuns.BlocksNeverOverlap` | src/lib/libc/malloc.c:4519-4764 | two blocks in a client's hands never overlap and never leave the segment |
| `MallocRuns.NothingLeaks` | src/lib/libc/malloc.c:4657-4764 | a run that returns everything ends with the segment it started from |
| `MallocRuns.AllocateAndFree` | src/lib/libc/malloc.c:4519-4764 | on a segment with nothing live, a request of any size followed by its free leaves one top chunk of the same place and size |
| `MallocRuns.FreeThenMalloc` | src/lib/libc/malloc.c:4519-4764 | a small chunk that was freed into a bin is what the next request of its size gets |
| `Strstr.NoMatchSkipped` | src/lib/libc/strstr.c:70-78 | no shift passes over a match |
| `Strstr.BuildTable` | src/lib/libc/strstr.c:42-46 | each entry is the distance from the end of the last occurrence, the final character aside, or the pattern's length |
| `Strstr.MatchesAt` | src/lib/libc/strstr.c:58-67 | the backward comparison decides whether the pattern occurs here |
| `Strstr.Strstr` | src/lib/libc/strstr.c:22-86 | the first position where the pattern occurs, or nothing exactly if it occurs nowhere |
| `Calendar.DateIsUnique` | src/lib/libc/mktime.c:86-107 | two proper dates with the same day number are the same date |
| `Calendar.WeekdayIsDayCount` | src/lib/libc/mktime.c:270-277 | for every date the closed form with its month table gives the weekday that counting days gives, plus exactly what truncating division adds before year 1 |
| `Mktime.FindYear` | src/lib/libc/mktime.c:232-241 | the year loop, forward or backward, finds a year and a remainder that add up to the day count |
| `Mktime.FindMonth` | src/lib/libc/mktime.c:247-260 | the month loop finds a month and a remainder that add up to the day of the year |
| `Mktime.LocalTime` | src/lib/libc/mktime.c:148-281 | time of day in range, and date fields whose day number and time of day are those of t |
| `Mktime.FullDays` | src/lib/libc/mktime.c:312-331 | the day number of the fields, in a 32-bit long |
| `Mktime.MkTime` | src/lib/libc/mktime.c:290-350 | the seconds of the fields, with the 32-bit product, and the fields of those seconds |
| `Mktime.RoundTripIff` | src/lib/libc/mktime.c:334-335 | mktime gives t back for the fields of t if and only if the seconds of the full days fit in 32 signed bits |
| `Mktime.RoundTripRange` | src/lib/libc/mktime.c:334-335 | the same in seconds: t comes back if and only if -2147472000 <= t < 2147558400 |
| `Mktime.RoundTripFails` | src/lib/libc/mktime.c:334-335 | the first time from the epoch on, and the last one before it, that do not come back; all between them do |
| `Mktime.Normalizes` | src/lib/libc/mktime.c:284-350 | for fields outside their ranges, as long as the days fit, mktime writes back fields in range that denote the same instant |
| `Mktime.NormalIff` | src/lib/libc/mktime.c:232-267 | the fields are a proper date if and only if t is in the epoch's first day or earlier, or its day is not the first of a month |
| `Mktime.FirstOfFebruary` | src/lib/libc/mktime.c:250-267 | 1 February 1970 comes out as 32 January |
| `Mktime.WeekdayIsRight` | src/lib/libc/mktime.c:270-277 | from the epoch on the weekday is (4 + days) mod 7 |
| `Mktime.WeekdayBeforeEpoch` | src/lib/libc/mktime.c:270-277 | before the epoch, for the date that t falls on, the weekday is off by exactly the error of that date, from the wrong end of the month, truncating division and wrap-around, and right if and only if 7 divides it |
| `Mktime.LastDayBeforeEpoch` | src/lib/libc/mktime.c:270-277 | 31 December 1969 comes out as a Tuesday |
| `Numerals.StrRev` | src/lib/libc/strrev.c:14-43 | the string up to its terminator is reversed in place, the rest untouched |
| `Numerals.Uitoa` | src/lib/libc/uitoa.c:20-72 | the buffer starts with the numeral of the value and a terminator, and is otherwise untouched |
| `Numerals.Strtoul` | src/lib/libc/strtoul.c:27-110 | the value, modulo 2^32, of the longest run of digits after white space and prefix, and where it ends; what the prefix means is in the rows on reading |
| `Numerals.NumeralMeans` | src/lib/libc/uitoa.c:39-58 | the numeral consists of digits of the radix and denotes the value |
| `Numerals.RoundTrip` | src/lib/libc/strtoul.c:53-68 | for every 32-bit value and radix 2 to 36, reading the numeral gives the value and stops at the terminator; the prefix test eats no digit |
| `Numerals.DigitTable` | src/lib/libc/strtoul.c:73-88 | uitoa writes 0-9 and a-z; strtoul takes these and A-Z as digits, and no other character |
| `Numerals.ReadsRadix` | src/lib/libc/strtoul.c:27-110 | after any white space, a numeral in either case, followed by anything that is not a digit, gives its value modulo 2^32 and stops there |
| `Numerals.ReadsDecimal` | src/lib/libc/strtoul.c:50-68 | with base 0, a number that does not start with 0 is decimal |
| `Numerals.ReadsOctal` | src/lib/libc/strtoul.c:50-68 | with base 0, a number after 0 is octal |
| `Numerals.ReadsHexadecimal` | src/lib/libc/strtoul.c:50-68 | with base 0 or 16, a number after 0x or 0X is hexadecimal |
| `Numerals.ReadsZero` | src/lib/libc/strtoul.c:50-68 | a lone 0 is zero in every base |

## Left out

- Waking order, starvation and timing: the models are about safety, not about how soon a thread runs.
- The automatic kill on mailbox overflow re-enters message sending; the overflow itself is modelled as a refusal.
- IoManager.IoManager.TakeFromMailbox: asks that a thread inside a blocking send retrieves only that send's reply, as the callers in the kernel do; a retrieval above an unfinished outer send could take that send's reply.
- IoManager.IoManager.DeleteMessages: one call of the method makes its steps without another thread in between; the theorems of `SchedulerDeletion` are about all interleavings of those steps.
- Freeing of bonus messages, and senders whose request was already retrieved by a thread that is then deleted: the code gives no guarantee for them.
- Several processors: the models have one processor with interrupts, which is what the locks implement.
- PageFrameManager.Manager.AllocateBlock: does not model requests for several frames, which cross regions out as full that still have frames, as the comment in the source says; what a region answers to them is in `PageFrameRegion`.
- PageFrameManager.Manager.AllocateFrames: does not model the DMA flags, for the same reason.
- `bitmap32k_c`: its index arithmetic uses the constant 32 although each of its children has 1024 bits, so that child 0, bit 32 and child 1, bit 0 have the same index; it is not a set of indices.
- The kernel's memory pools, payload address ranges, the address-space destructor and the layout of page tables.
- Kernel superpages and the preloaded table entries for them: page tables here have ordinary pages only.
- MallocHeap: chunk links are values, so a chunk's list pointers and its user data are not in one memory; aliasing of links with user data is not captured.
- Trie.UnlinkRemoves: finds the node from the root by its size instead of through the chunk's parent pointer; the parent, child, fd and bk words are not modelled.
- Malloc.Arena.Malloc: does not say which of several free chunks of one large size is used; returns null where the code would ask the system for memory; growing the segment, mmapped chunks, several segments, mspaces, locks, footers, `realloc` and `memalign` are not modelled.
- AddressSpaces.Memory.Expand: asks how many pages page tables can be had for, since how they are allocated is not modelled; an entry that is not present reads as zero; the assertion in `decommit_frame` that the page is present is compiled out, as it is outside debug builds.
- Malloc.Arena.Free: does not trim the top chunk or release segments.
- Strstr.Strstr: does not cover character code 255, for which the skip table has no entry.
- Mktime.LocalTime: does not cover the last minute above the least 64-bit number, where negating and rounding up to a minute overflows.
- Mktime.MkTime: asks for a month of at most 12, beyond which the code reads past its month table, and for a time of day that fits in an int.
- Numerals.Uitoa: asks for a buffer that holds the numeral and its terminator, as the comment in the source does.
- Streams, formatted I/O, `strtod`, locale, drivers, boot code, system-call wrappers and assembly.
