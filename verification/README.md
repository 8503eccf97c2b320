# Verified model of the kernel's core

This project models the memory managers, the scheduler and the locks of a small x86-64 teaching
kernel, with five smaller parts around them: the linked rings, the disk tool's file creation, the
dining philosophers, the pipe, and the packer, loader and `memcpy` that bring the modules into
memory. It proves their central properties for all inputs and all runs. `dafny verify
dfyconfig.toml` checks everything.

Each part comes twice. A specification on values (trees, page maps, scheduler states, byte
sequences) carries the properties. Beside it stands the program in the source's own form, with
objects, arrays and loops, and each method is proved to compute exactly what the specification says.

| part | specification and properties | program |
|---|---|---|
| buddy allocator | `BuddyTree`, `BuddyHeap`, `BuddySlots`, `BuddyKernel` | `BuddyArena` |
| bitmap allocator | `BitmapMap` | `BitmapHeap` |
| scheduler | `Scheduler`, `SchedulerSteps`, `SchedulerRuns`, `SchedulerContracts`, `SchedulerLife`, `SchedulerFairness` | `SchedulerObjects`, `SchedulerRings` |
| rings | `Rings`, `CircularList` | `CircularList` |
| locks | `LockSystem`, `LockContracts`, `LockWakeUps`, `LockFailures` | `Semaphore` |
| file creation | `Bmfs`, `BmfsFull` | `BmfsDisk` |
| philosophers, pipe | `Philosophers`, `Pipe` | the same |
| copy, pack, load | `MemCopy`, `ModulePacker`, `ModuleLoader` | the same |

Both memory managers are proved to be steps of one abstract allocator, a set of disjoint live
blocks (`Allocator`). The lock runs on the scheduler: its steps block, wake and switch processes of
the scheduler's state, and the lock's program calls the scheduler's program.

## Hypotheses

- Buddy: arena and block region are disjoint; unused cells start with NULL children, because
  `create_childs` never clears them; the arena has a cell for every node of the tree
  (`BuddyArena.RepresentsNeedsRoom`). Requests are at most 2^30, powers of two, or larger than the
  region, since the rounding loop counts in an `int`.
- Scheduler: node and PCB allocation succeeds; priorities are those of `priority_t`, 0 to 3, which the
  system call passes on unchecked; no process is ZOMBIE, which no system call can make;
  idle is at the head of ring 0 and is never killed, blocked or given another priority; nobody is
  killed twice before burial (`SchedulerRuns.KillKeepsInvIff`).
- Locks: one step is everything the running process does up to the yield in `whiff`. Each result
  has its own rule (`LockSystem.Rule`). Exclusion asks that nobody posts while somebody else holds
  the lock, and nothing else. No lost wake-up and the bound on sleep ask that idle does not sleep at
  the lock and that nobody else blocks, wakes or kills the waiters. Both are exact, step by step, for
  the invariants behind them (`LockSystem.ExclusionIff`, `LockWakeUps.NextKeepsSoundIff`). Allocation
  in `add_to_queue` succeeds: `whiff` ignores its failure and would sleep without being queued.
- BMFS: extents on the disk are in bounds and not empty, and those of files are disjoint, as on a
  formatted disk; disks are at least 6 MiB, as the tool makes them; a name is shorter than 32
  characters and starts with neither a zero byte nor 0x01.
- Philosophers: the sections under `mutex_id` are atomic.
- Pipe: bytes are written only to a buffer that is not full and read only from one that is not
  empty. `Pipe.QueueStepIff` proves that this is exactly what FIFO order needs.

## Where the code differs from its intention

- `my_sem_open` gives binary locks: 0 opens one free and a positive value opens it taken
  (`LockSystem.UsableIff`). The pipe and the philosophers pass counts as if to a counting
  semaphore, so their guards are hypotheses here.
- `block_process` on a process that sleeps at a lock makes it READY and leaves it in the queue. A
  later post then spends its wake-up on the old entry, and a waiter can sleep at a free lock with
  nobody left to take it (`LockFailures.WakeUpIsLost`). `force_kill` of a sleeping waiter does the same
  (`LockFailures.WakeUpIsLostByKill`).
- `mem_allocated` adds the rounded request and subtracts the block size. The two agree only if the
  region is a power of two (`BuddyHeap.AccountingIff`); the kernel's is not
  (`BuddyKernel.KernelMiscounts`), and there one malloc and its free leave it below 0, in 64 bits
  (`BuddyKernel.KernelWraps`).
- The kernel's arena has room for the nodes of requests from 129 bytes up. Smaller ones put nodes into
  the block region (`BuddyKernel.KernelArenaSuffices`, `BuddyKernel.SmallRequestRunsOver`,
  `BuddyKernel.SecondRequestRunsOver`).
- `wake_up_processes` wakes half of the queue, not all of it, because its bound shrinks as it runs
  (`LockWakeUps.WokenWithin`, `LockSystem.BoundIsTight`).
- `add_philosopher` can strand a hungry philosopher at the seam of the table
  (`Philosophers.AddStrands`, `Philosophers.AddKeepsServedIff`).
- `create` can hand out used blocks when a deleted entry's old extent ends early enough, and without
  an end marker it counts no entry and may cut the directory off. `Bmfs.CreateKeepsIff` says exactly
  when it goes right (`Bmfs.DeletedMisleads`, `Bmfs.NoMarkerMisleads`, `BmfsFull.NextCreateFails`).
- The bitmap's `get_page_index` accepts the address `end`, which is on no page
  (`BitmapHeap.Heap.OnPageIff`).

## Model

| member | source | states |
|---|---|---|
| PowersOfTwo.BitTrick | Kernel/memory_manager/mem_buddy.c:5 | The bit expression holds of the powers of two and of no other number |
| BuddyTree.LiveIsSafe | Kernel/memory_manager/mem_buddy.c:47-112 | In a coalesced tree the blocks in use are non-empty, pairwise disjoint and inside the root range |
| BuddyTree.TreeIsCanonical | Kernel/memory_manager/mem_buddy.c:25-45 | Canonical form: the live blocks determine the coalesced tree, so two trees with the same blocks are equal |
| BuddyTree.TakeSucceeds | Kernel/memory_manager/mem_buddy.c:64-92 | When a free leaf is large enough, malloc cuts the left end of the leftmost such leaf; exactly one block joins the live ones, less than twice the request |
| BuddyTree.TakeFails | Kernel/memory_manager/mem_buddy.c:64-92 | With no free leaf large enough malloc returns NULL and the tree is exactly as before |
| BuddyTree.TakeFailsIff | Kernel/memory_manager/mem_buddy.c:64-92 | malloc fails iff no free leaf is large enough |
| BuddyTree.GiveRemoves | Kernel/memory_manager/mem_buddy.c:130-159 | free keeps the tree coalesced and removes the live block that starts at the address, no other |
| BuddyTree.GiveMisses | Kernel/memory_manager/mem_buddy.c:130-159 | A free of an address that starts no live block changes nothing |
| BuddyTree.GiveUndoesTake | Kernel/memory_manager/mem_buddy.c:64-159 | Exact undo: freeing the address malloc returned restores the tree |
| BuddyTree.GivesCommute | Kernel/memory_manager/mem_buddy.c:126-159 | Two frees commute |
| BuddyTree.GiveAllEmpties | Kernel/memory_manager/mem_buddy.c:126-159 | Freeing every live block, in any order, leaves one free root leaf |
| BuddyHeap.RoundedIsPow2 | Kernel/memory_manager/mem_buddy.c:53-59 | A request is rounded to the least power of two not below it, a request of 0 to 1 |
| BuddyHeap.MallocContract | Kernel/memory_manager/mem_buddy.c:47-92 | malloc of any size fails iff no free leaf holds the rounded size, and then changes nothing; otherwise it hands out a fresh block at the left end of the leftmost such leaf |
| BuddyHeap.FreeContract | Kernel/memory_manager/mem_buddy.c:126-159 | free releases exactly the live block at the address, or does nothing |
| BuddyHeap.GivenBackIsBlock | Kernel/memory_manager/mem_buddy.c:149-154 | The amount taken off `mem_allocated` is the size of the block released |
| BuddyHeap.RunsAreSafe | Kernel/memory_manager/mem_buddy.c:47-159 | After every run of malloc and free the live blocks are disjoint, non-empty and inside the region |
| BuddyHeap.RunsAreCanonical | Kernel/memory_manager/mem_buddy.c:15-159 | Two runs from `init_mm` that end with the same live blocks end with the same tree |
| BuddyHeap.RunsUndo | Kernel/memory_manager/mem_buddy.c:47-159 | On every reachable heap, free undoes malloc on the whole tree |
| BuddyHeap.RunsAccount | Kernel/memory_manager/mem_buddy.c:89-153 | Over a power-of-two region `mem_allocated` is the sum of the live blocks after every run |
| BuddyHeap.AccountingIff | Kernel/memory_manager/mem_buddy.c:89-153 | `mem_allocated` is that sum on every run iff the region size is a power of two or 0 |
| BuddyHeap.OverCount | Kernel/memory_manager/mem_buddy.c:89-153 | For any other size but 0 one malloc makes `mem_allocated` wrong |
| BuddyHeap.LiveIsAligned | Kernel/memory_manager/mem_buddy.c:94-112 | Over a power-of-two region every live block is a power of two, aligned to its size from the region start |
| BuddyHeap.MallocIsExact | Kernel/memory_manager/mem_buddy.c:47-92 | Over a power-of-two region malloc hands out exactly the rounded size |
| BuddyHeap.MallocCounts | Kernel/memory_manager/mem_buddy.c:89 | Over a region of any size a successful malloc adds the least power of two not below the request to `mem_allocated`, in 64 bits; a failing one adds nothing |
| BuddyHeap.FreeCounts | Kernel/memory_manager/mem_buddy.c:149-154 | free takes off the size of the block released, and wraps below 0 as a `uint64_t` does; nothing for an address of no block |
| BuddyHeap.RunsCount | Kernel/memory_manager/mem_buddy.c:89-153 | After every run, over a region of any size, `mem_allocated` is what was handed out minus what was released, modulo 2^64 |
| BuddySlots.ChildSlots | Kernel/memory_manager/mem_buddy.c:100-110 | A child's slot is its parent's slot plus the child's index |
| BuddySlots.SlotIncreases | Kernel/memory_manager/mem_buddy.c:94-112 | Slots increase strictly with the index |
| BuddySlots.SlotsDiffer | Kernel/memory_manager/mem_buddy.c:94-112 | No two tree nodes share a slot |
| BuddySlots.SlotBelowDouble | Kernel/memory_manager/mem_buddy.c:94-112 | A slot lies between its index and twice its index |
| BuddyArena.Halve | Kernel/memory_manager/mem_buddy.c:94-112 | The writes of a split give two fresh free children and leave the rest of the arena alone |
| BuddyArena.Join | Kernel/memory_manager/mem_buddy.c:25-45 | `check_state` completes an inner node whose children hold two given trees |
| BuddyArena.Coalesce | Kernel/memory_manager/mem_buddy.c:142-147 | Two free children under a node with cleared pointers are one free leaf |
| BuddyArena.RepresentsNeedsRoom | Kernel/memory_manager/mem_buddy.c:94-112 | A cell for every node is what it takes to hold a tree, so the arena methods ask for no more |
| BuddyArena.RoundUp | Kernel/memory_manager/mem_buddy.c:53-59 | The doubling loop computes the rounded size and its 32-bit `int` does not overflow, up to 2^30 |
| BuddyArena.Arena.constructor | Kernel/memory_manager/mem_buddy.c:15-23 | `init_mm` sets up the initial heap in any arena of at least one cell without children |
| BuddyArena.Arena.CheckState | Kernel/memory_manager/mem_buddy.c:25-45 | Writes the state that follows from the children, nothing else |
| BuddyArena.Arena.CreateChilds | Kernel/memory_manager/mem_buddy.c:94-112 | A free leaf becomes an inner node with two free halves; no other node changes |
| BuddyArena.Arena.MallocRec | Kernel/memory_manager/mem_buddy.c:64-92 | With a cell for every node of the tree after the call, the pointer program below a node computes the tree function: address, new tree, `mem_allocated`; nothing outside the subtree changes |
| BuddyArena.Arena.MallocLeaf | Kernel/memory_manager/mem_buddy.c:76-91 | The same, at a free leaf |
| BuddyArena.Arena.CheckAndCoalesce | Kernel/memory_manager/mem_buddy.c:142-147 | The way back up in `free_rec`: two free buddies become one free leaf |
| BuddyArena.Arena.FreeRec | Kernel/memory_manager/mem_buddy.c:130-159 | The pointer program computes the tree function for free and updates `mem_allocated`; a null node changes nothing |
| BuddyArena.Arena.FreeNode | Kernel/memory_manager/mem_buddy.c:135-158 | The same, at a node |
| BuddyArena.Arena.FreeLeafAt | Kernel/memory_manager/mem_buddy.c:149-155 | The same, at a leaf |
| BuddyArena.Arena.Malloc | Kernel/memory_manager/mem_buddy.c:47-62 | With a cell for every node of the tree after the call, malloc on the arena is malloc on the heap value |
| BuddyArena.Arena.Free | Kernel/memory_manager/mem_buddy.c:126-128 | free on the arena is free on the heap value |
| BuddyKernel.CellsBelowRegion | Kernel/kernel.c:54 | Below the block region there are 720896 node cells, and no more |
| BuddyKernel.KernelMiscounts | Kernel/kernel.c:54 | 0x2700000 is no power of two, and a run from `init_mm` makes `mem_allocated` wrong |
| BuddyKernel.KernelWraps | Kernel/memory_manager/mem_buddy.c:153 | In the kernel's region malloc of 4096 bytes and its free leave `mem_allocated` at 2^64 - 896 |
| BuddyKernel.NeededIsRoom | Kernel/memory_manager/mem_buddy.c:64-112 | Cells for the deepest split a request can make are room for the tree after it |
| BuddyKernel.GiveKeepsRoom | Kernel/memory_manager/mem_buddy.c:130-159 | free never needs more cells |
| BuddyKernel.KernelRoomIff | Kernel/memory_manager/mem_buddy.c:82-86 | The kernel's arena has the cells for the deepest split iff `malloc_rec` is asked for more than 156 bytes |
| BuddyKernel.KernelHasRoom | Kernel/memory_manager/mem_buddy.c:47-92 | A request of more than 128 bytes finds its cells in the kernel's arena, on every heap that fits |
| BuddyKernel.KernelArenaSuffices | Kernel/kernel.c:54 | Every run of such requests and of frees, from `init_mm(0x600000, 0x2700000)` on, stays in the kernel's arena |
| BuddyKernel.SmallRequestRunsOver | Kernel/memory_manager/mem_buddy.c:94-112 | A first request of at most 64 bytes needs a node inside the block region |
| BuddyKernel.SecondRequestRunsOver | Kernel/memory_manager/mem_buddy.c:94-112 | So does one of 65 to 128 bytes behind one of 16 MiB |
| BitmapMap.ScanIsExact | Kernel/memory_manager/mem_bitmap.c:64-80 | `find_pages` finds the lowest run of k free pages from where it starts, or there is none |
| BitmapMap.ChoiceIsExact | Kernel/memory_manager/mem_bitmap.c:82-91 | For k >= 1 and any hint the search fails iff there is no run anywhere; else it is the lowest from the hint, or the lowest of all when none is from there |
| BitmapMap.LiveIsSafe | Kernel/memory_manager/mem_bitmap.c:93-104 | The blocks a map encodes are pairwise disjoint and inside it |
| BitmapMap.WriteAdds | Kernel/memory_manager/mem_bitmap.c:93-104 | Writing a block over free pages adds exactly that block and keeps the tiling |
| BitmapMap.ClearRemoves | Kernel/memory_manager/mem_bitmap.c:124-129 | Clearing a block removes exactly that block and keeps the tiling |
| BitmapMap.MallocContract | Kernel/memory_manager/mem_bitmap.c:82-107 | In the size alone: malloc fails, changing nothing, iff it is 0 or no free run has the least number of pages that hold it; otherwise a run of exactly that many pages becomes one new block |
| BitmapMap.PagesAreLeast | Kernel/memory_manager/mem_bitmap.c:56-62 | The pages for a size are the least that hold it, and none only for 0 |
| BitmapMap.FreeContract | Kernel/memory_manager/mem_bitmap.c:110-130 | free of any page inside a block frees exactly the pages of that block; on a free page it changes nothing |
| BitmapMap.ReleaseUndoesMalloc | Kernel/memory_manager/mem_bitmap.c:82-130 | Freeing any page of the block malloc just made restores the map |
| BitmapMap.TilingIff | Kernel/memory_manager/mem_bitmap.c:93-104 | Bytes that fit their neighbours are the same thing as a concatenation of FREE, SINGLE and START ALLOCATED* END |
| BitmapMap.BlocksAreLive | Kernel/memory_manager/mem_bitmap.c:93-104 | The list of blocks in address order has every live block once |
| BitmapMap.PagesAreConserved | Kernel/memory_manager/mem_bitmap.c:163-170 | Free pages plus block lengths are all the pages |
| BitmapMap.RunsAreTiled | Kernel/memory_manager/mem_bitmap.c:82-130 | Every run keeps the tiling, disjoint blocks and the page count |
| BitmapHeap.MapFits | Kernel/memory_manager/mem_bitmap.c:16-37 | The region gets the least pages that hold it and the map the least that hold a byte for each; never more than it describes, so the second refusal of `init_mm` cannot happen |
| BitmapHeap.Heap.InitMm | Kernel/memory_manager/mem_bitmap.c:14-48 | Refuses iff region and map exceed the limit, and then changes nothing; otherwise the map lies before its pages and all are free |
| BitmapHeap.Heap.InitializePages | Kernel/memory_manager/mem_bitmap.c:50-54 | Every page is free |
| BitmapHeap.Heap.SizeToNumOfPages | Kernel/memory_manager/mem_bitmap.c:56-62 | k pages with k * 32 >= size and, unless the size is 0, (k - 1) * 32 < size |
| BitmapHeap.Heap.FindFreePages | Kernel/memory_manager/mem_bitmap.c:64-80 | The loop finds the run of the specification |
| BitmapHeap.Heap.AllocateBlock | Kernel/memory_manager/mem_bitmap.c:82-107 | The new map and the address are those of the specification; the block lies in start .. end and never over the map |
| BitmapHeap.Heap.GetPageIndex | Kernel/memory_manager/mem_bitmap.c:133-139 | The page of an address in start .. end inclusive |
| BitmapHeap.Heap.OnPageIff | Kernel/memory_manager/mem_bitmap.c:133-139 | An accepted address is on a page of the map iff it is not `end` |
| BitmapHeap.Heap.GetFirstPageIndex | Kernel/memory_manager/mem_bitmap.c:141-161 | The START page of the block, the page itself for a single one, nothing for a free page or an address out of range |
| BitmapHeap.Heap.WalkBack | Kernel/memory_manager/mem_bitmap.c:154-158 | The walk back ends at the START page of the block |
| BitmapHeap.Heap.FreeBlock | Kernel/memory_manager/mem_bitmap.c:110-130 | free of any address below `end` terminates and makes the map of the specification |
| BitmapHeap.Heap.ClearFrom | Kernel/memory_manager/mem_bitmap.c:125-129 | The clearing loop stops at the END page and frees exactly the pages up to it |
| BitmapHeap.Heap.CalculateFreePages | Kernel/memory_manager/mem_bitmap.c:163-170 | The count of free pages |
| CircularList.Unlink | Kernel/circular_list.c:69-72 | Two pointer writes take a position out of a ring; next and prev stay mutual inverses |
| CircularList.Append | Kernel/circular_list.c:37-41 | Four pointer writes put a new node at the end of a ring; next and prev stay mutual inverses |
| CircularList.Node.constructor | Kernel/circular_list.c:16-25 | A node with its data and no neighbours |
| CircularList.Queue.constructor | Kernel/circular_list.c:6-14 | An empty ring |
| CircularList.Queue.InsertNode | Kernel/circular_list.c:27-43 | Read from the current node, the new node is appended; `qty` is the length; the answer is the old length, -1 for no node |
| CircularList.Queue.InsertAlone | Kernel/circular_list.c:31-36 | The first node of a ring points at itself both ways |
| CircularList.Queue.InsertLast | Kernel/circular_list.c:37-42 | Later nodes go between the last and the current one |
| CircularList.Queue.RemoveNode | Kernel/circular_list.c:53-77 | Removing a member deletes just its position and returns its data; nothing happens for a null node or an empty ring |
| CircularList.Queue.RemoveMember | Kernel/circular_list.c:59-76 | The same, at a member |
| CircularList.Queue.RemoveOnly | Kernel/circular_list.c:62-68 | The last node leaves an empty ring |
| CircularList.Queue.RemoveOneOf | Kernel/circular_list.c:59-76 | Any other node's neighbours are joined, and the current node moves on if it was that one |
| SchedulerSteps.ListedByPriority | Kernel/basicScheduler.c:65-85 | A process is listed iff it is in the ring its priority names |
| SchedulerSteps.KillAllRemoves | Kernel/basicScheduler.c:337-344 | Exactly the processes of the removal queue leave the rings |
| SchedulerSteps.CreateAllAdds | Kernel/basicScheduler.c:394-403 | The creation queue joins the highest ring in order, all READY; no other process changes |
| SchedulerSteps.ChangePriorityMoves | Kernel/basicScheduler.c:275-295 | A change of priority keeps the set of listed processes and changes no other process |
| SchedulerSteps.FindNextDecides | Kernel/basicScheduler.c:31-58 | The first READY process of the highest ring that has one, and that ring turned past it; else a RUNNING one; else idle |
| SchedulerRuns.PreparedShape | Kernel/basicScheduler.c:238-242 | What `switch_context` chooses from: removals gone, creations in, the current process demoted, all else unchanged |
| SchedulerRuns.SwitchDecides | Kernel/basicScheduler.c:238-252 | After a switch exactly one process is RUNNING, the one the priority rule names; members change by minus the removal and plus the creation queue, both empty then |
| SchedulerRuns.SwitchStatuses | Kernel/basicScheduler.c:238-252 | What a switch does to the status of each process |
| SchedulerRuns.KeptIsCurrent | Kernel/basicScheduler.c:54-57 | With nobody READY, only the current process can be the one that keeps running |
| SchedulerRuns.KillKeepsInv | Kernel/process.c:190-210 | `force_kill` of a process that is not dead keeps the invariant |
| SchedulerRuns.KillKeepsInvIff | Kernel/process.c:190-210 | A kill keeps the invariant iff the process is not already dead and waiting for burial |
| SchedulerRuns.KilledTwice | Kernel/basicScheduler.c:337-344 | A run with a double kill: at the second burial the process is in no ring |
| SchedulerRuns.ApplyKeepsInv | Kernel/basicScheduler.c:238-408 | Every timer, yield, create, block, revive, kill and priority step keeps the invariant |
| SchedulerRuns.BootedIsSafe | Kernel/kernel.c:60-61 | The state after boot satisfies the invariant |
| SchedulerRuns.RunsAreSafe | Kernel/basicScheduler.c:238-408 | Single runner and ring membership, in every run from boot |
| SchedulerContracts.TickCounts | Kernel/asm/interrupts.asm:294-296 | Below the quantum a timer interrupt adds one tick to the current process and changes nothing else |
| SchedulerContracts.StopEarly | Kernel/basicScheduler.c:304-306 | A process stopped before its quantum is used keeps its ring and priority, READY with no ticks |
| SchedulerContracts.CreateContract | Kernel/process.c:19-33 | A created process stands READY at the end of the highest ring under the next pid; nothing else changes |
| SchedulerContracts.QueueContract | Kernel/basicScheduler.c:382-392 | The old creation queue is the front of the new one, and the next pid its last entry |
| SchedulerContracts.ReviveContract | Kernel/basicScheduler.c:355-358 | A listed BLOCKED or RUNNING process becomes READY; nothing else changes |
| SchedulerContracts.PriorityContract | Kernel/basicScheduler.c:275-295 | The process leaves its place and is last in the ring of its new priority, also when that is its old one; the others keep their order |
| SchedulerContracts.BlockContract | Kernel/basicScheduler.c:367-378 | Which answer exactly when, and all that changes: -1 for an unlisted or dead process, and then nothing; 1 blocks, 2 makes READY; a yield iff the current process blocks itself |
| SchedulerContracts.KillContract | Kernel/process.c:190-210 | -1 iff the process is shell or in no ring, and then nothing changes; else 1, and it is dead and last in the removal queue; a yield iff it is the current one |
| SchedulerContracts.KillAllKeepsOrder | Kernel/basicScheduler.c:337-344 | Burials leave the survivors of each ring in their order |
| SchedulerContracts.PreparedRings | Kernel/basicScheduler.c:238-242 | The four rings, in order, when a switch chooses: survivors, then in the highest ring the queued creations in their order, then the demoted process |
| SchedulerContracts.SwitchTicks | Kernel/basicScheduler.c:238-252 | After a switch who was RUNNING, or is selected again from outside ring 0, starts a new quantum; every other tick count stays |
| SchedulerContracts.CreationsAfter | Kernel/basicScheduler.c:238-408 | Every step leaves the creation queue alone, adds the next pid at its end, or empties it |
| SchedulerContracts.CreationsIncrease | Kernel/basicScheduler.c:382-403 | Pids of queued creations increase strictly in every run |
| SchedulerContracts.BootedIncreases | Kernel/basicScheduler.c:382-403 | So they do in every run from boot |
| SchedulerLife.SwitchKeepsResting | Kernel/basicScheduler.c:238-252 | A switch changes no BLOCKED or DEAD process and never selects one |
| SchedulerLife.StepKeepsResting | Kernel/basicScheduler.c:238-408 | Every step leaves a dead process dead, and a blocked one blocked and off the processor unless the step names it |
| SchedulerLife.DeadStaysDead | Kernel/basicScheduler.c:238-408 | A dead process never runs again, in every run |
| SchedulerLife.BlockedStaysBlocked | Kernel/basicScheduler.c:355-378 | A blocked process does not run in any run that does not block, revive or kill it |
| SchedulerLife.BlockStops | Kernel/basicScheduler.c:367-378 | `block_process` answers 1 and takes a process that can run off the processor |
| SchedulerLife.BlockUndoes | Kernel/basicScheduler.c:367-378 | For a READY process that is not the current one, a second `block_process` answers 2 and restores the state exactly |
| SchedulerLife.KillIsFinal | Kernel/process.c:190-210 | `force_kill` answers 1; the process is dead at once, off the rings after the next switch, and dead in every run from there |
| SchedulerLife.StepKeepsLevels | Kernel/basicScheduler.c:275-307 | Nobody falls into ring 0 but by a change of priority to it |
| SchedulerFairness.DemotionMoves | Kernel/basicScheduler.c:297-307 | A demotion takes one level off and passes nobody who waits in the lowest ring |
| SchedulerFairness.SwitchProgress | Kernel/basicScheduler.c:238-307 | A switch that selects somebody else brings every candidate that waits strictly closer |
| SchedulerFairness.WaitingIsCandidate | Kernel/basicScheduler.c:238-242 | A process that waits, or whose creation is queued, is a candidate of the next switch, also with kills pending |
| SchedulerFairness.CandidatesBound | Kernel/basicScheduler.c:238-242 | A switch's candidates are bounded by S + n and three more for each queued creation |
| SchedulerFairness.SelectedWithin | Kernel/basicScheduler.c:238-307 | A candidate is selected within its distance plus one switches |
| SchedulerFairness.NoStarvation | Kernel/basicScheduler.c:31-58 | Starvation freedom: a READY process of rings 1 to 3, or one whose creation is queued, is selected within S + n switches, and three more for each queued creation, also with kills pending |
| SchedulerFairness.TicksCount | Kernel/asm/interrupts.asm:294-296 | While the quantum lasts, each interrupt adds one tick, and process, rings and queues stay |
| SchedulerFairness.TicksToSwitch | Kernel/asm/interrupts.asm:285-316 | The interrupt that switches is exactly the one after what is left of the quantum; before it the current process, the rings and the queues stay |
| SchedulerFairness.NoStarvationByTimer | Kernel/asm/interrupts.asm:285-316 | The timer alone makes it run within quantum + 1 times as many interrupts |
| SchedulerObjects.Table.constructor | Kernel/kernel.c:60-61 | The tables after boot stand for the boot state |
| SchedulerObjects.Table.GetPcbEntry | Kernel/basicScheduler.c:65-85 | Finds the PCB of a listed pid, nothing for any other |
| SchedulerObjects.Table.RemoveFromQueueByPid | Kernel/basicScheduler.c:255-273 | Takes the first entry with the pid out of one ring and answers its priority, or 0 |
| SchedulerObjects.Table.ChangeProcessPriority | Kernel/basicScheduler.c:275-295 | Takes the priority step of the state machine |
| SchedulerObjects.Table.AddNewProcess | Kernel/basicScheduler.c:110-130 | A fresh READY PCB at the end of the highest ring |
| SchedulerObjects.Table.KillProcessesInRemovalQueue | Kernel/basicScheduler.c:337-344 | The loop empties the removal queue as the state machine does |
| SchedulerObjects.Table.CreateProcessesInCreationQueue | Kernel/basicScheduler.c:394-403 | The loop empties the creation queue as the state machine does |
| SchedulerObjects.Table.StopCurrentProcess | Kernel/basicScheduler.c:297-307 | Demotes a process that used its quantum, otherwise makes it READY |
| SchedulerObjects.Table.ScanRing | Kernel/basicScheduler.c:34-52 | One time around a ring: the first READY position, and the last RUNNING process before it |
| SchedulerObjects.Table.FindNextProcess | Kernel/basicScheduler.c:31-58 | The loops over rings and nodes choose what the state machine chooses |
| SchedulerObjects.Table.SwitchContext | Kernel/basicScheduler.c:238-252 | Takes the switch step of the state machine |
| SchedulerObjects.Table.FinishCurrentTick | Kernel/basicScheduler.c:405-408 | Takes the yield step |
| SchedulerObjects.Table.TicksRemaining | Kernel/basicScheduler.c:158-165 | Whether the quantum is used up, counting a tick if not |
| SchedulerObjects.Table.TimerInterrupt | Kernel/asm/interrupts.asm:285-316 | Takes the timer step |
| SchedulerObjects.Table.GetAvailablePid | Kernel/process.c:138-140 | Pids count up |
| SchedulerObjects.Table.CreateAndInsertProcess | Kernel/process.c:19-33 | Takes the create step and returns the new pid |
| SchedulerObjects.Table.AddProcessToCreationQueue | Kernel/basicScheduler.c:382-392 | A new pid at the end of the creation queue, whose length is the answer |
| SchedulerObjects.Table.OsReviveProcess | Kernel/basicScheduler.c:355-358 | Makes a BLOCKED or RUNNING process READY |
| SchedulerObjects.Table.OsBlockCurrentProcess | Kernel/basicScheduler.c:361-365 | Blocks the current process and returns its pid |
| SchedulerObjects.Table.BlockProcess | Kernel/basicScheduler.c:367-378 | Blocks, or unblocks, and yields for the current process; the four answers |
| SchedulerObjects.Table.AddProcessToRemovalQueue | Kernel/basicScheduler.c:132-141 | The pid at the end of the removal queue, whose length is the answer |
| SchedulerObjects.Table.ForceKill | Kernel/process.c:190-210 | Takes the kill step; refuses the shell and unknown pids |
| CircularList.Turn | Kernel/basicScheduler.c:45 | Reading a ring from another node leaves next and prev mutual inverses |
| CircularList.Queue.TurnPast | Kernel/basicScheduler.c:45 | Moving the current node behind a member rotates the ring and changes nothing else |
| CircularList.Queue.StepFrom | Kernel/basicScheduler.c:48-51 | The walk along next meets the positions in order and is back at the current node after the last |
| SchedulerRings.FindOnRing | Kernel/basicScheduler.c:69-81 | The pointer walk finds the PCB with the pid, or the ring has none |
| SchedulerRings.RemoveFromQueueByPid | Kernel/basicScheduler.c:255-273 | The pointer walk unlinks the first node with the pid and answers its priority; for none it answers 0 and changes nothing |
| SchedulerRings.TakeReady | Kernel/basicScheduler.c:34-52 | The pointer walk makes the PCB of the first READY node RUNNING, leaves every other status alone and the ring turned past it, as the state machine does; else it keeps the last RUNNING one |
| SchedulerRings.Enlist | Kernel/basicScheduler.c:104-107 | A new node for the PCB at the end of the linked ring |
| SchedulerRings.Transfer | Kernel/basicScheduler.c:275-295 | Out of one linked ring, to the end of another or of the same; the rings stay disjoint |
| SchedulerRings.Pop | Kernel/basicScheduler.c:338 | The oldest entry of a queue leaves it |
| SchedulerRings.ReassignChildrenToShell | Kernel/basicScheduler.c:321-335 | On every ring the children of the dead parent go to the shell and the others stay |
| SchedulerRings.AdoptOnRing | Kernel/basicScheduler.c:323-333 | The do-while walk meets every node of a ring once |
| LockContracts.EnterContract | Kernel/asm/semaphores.asm:18-34 | The exchange leaves the word at 1; who found 0 holds the lock and goes on, who did not is last in the queue, BLOCKED, and yields |
| LockContracts.LeaveContract | Kernel/asm/semaphores.asm:45-66 | A post frees the word; exactly the first half of the queue, rounded up, leaves it and becomes READY if it slept; nothing else changes |
| LockSystem.ExclusionIff | Kernel/asm/semaphores.asm:9-66 | Exclusion survives every acquire and everything the scheduler may do, kills included; it survives a post iff nobody else holds the lock |
| LockSystem.RunKeepsExclusion | Kernel/asm/semaphores.asm:9-66 | So it survives every run without such posts |
| LockSystem.LockExcludes | Kernel/semaphore.c:44-69 | Mutual exclusion: at most one holder in every such run, however the lock was opened and whatever the scheduler does |
| LockSystem.OpenedTakenStaysTaken | Kernel/semaphore.c:57 | Opened with a positive value, where only holders release: nobody ever holds it |
| LockSystem.UsableIff | Kernel/semaphore.c:57 | Where only holders release, somebody can ever hold a new lock iff it was opened with 0 |
| LockSystem.QueueHalves | Kernel/semaphore.c:206-214 | In every run without newcomers the queue is the last part of what it was, halved once for each release |
| LockSystem.BoundIsTight | Kernel/semaphore.c:209-212 | In every run without newcomers n waiters are all awake iff there were more than floor(log2(n)) releases |
| LockWakeUps.CreateAdds | Kernel/process.c:19-33 | A created process is READY in the highest ring under a new pid, and nobody else changes |
| LockWakeUps.ReviveUndisturbed | Kernel/basicScheduler.c:355-358 | `os_revive_process` makes a BLOCKED process READY and disturbs no other sleeper |
| LockWakeUps.KillUndisturbed | Kernel/process.c:190-210 | `force_kill` disturbs nobody but its victim |
| LockWakeUps.EventUndisturbed | Kernel/basicScheduler.c:238-408 | No event but those that name a process puts it to sleep or wakes it |
| LockWakeUps.ReviveAllWakes | Kernel/semaphore.c:206-214 | Woken waiters become READY, and nothing else in the system changes |
| LockWakeUps.EnterKeepsSound | Kernel/asm/semaphores.asm:18-34 | An exchange that takes the lock, or fails and sleeps, loses no wake-up, also for a holder that waits again |
| LockWakeUps.LeaveKeepsSound | Kernel/asm/semaphores.asm:45-66 | A post by anybody leaves a woken waiter if it leaves waiters |
| LockWakeUps.OtherKeepsSound | Kernel/basicScheduler.c:355-408 | Everything else loses no wake-up, kills of others and moves to ring 0 included |
| LockWakeUps.OtherKeepsSoundIff | Kernel/basicScheduler.c:355-408 | The exact condition: block_process and force_kill name nobody inside `enter_region`, os_revive_process nobody queued |
| LockWakeUps.NextKeepsSoundIff | Kernel/asm/semaphores.asm:9-66 | The exact condition on any step: besides that, idle does not sleep at the lock |
| LockWakeUps.RunKeepsSound | Kernel/asm/semaphores.asm:9-66 | Every such interleaving keeps waiters asleep exactly while queued, and the pending retry |
| LockWakeUps.BootedIsReady | Kernel/kernel.c:60-61 | The state after boot meets what the results on runs ask of their first state |
| LockWakeUps.NoLostWakeUp | Kernel/semaphore.c:125-214 | No lost wake-up: on a lock opened at any time, a free lock with waiters has a woken one that is listed and can run, whoever posts |
| LockWakeUps.FreeLockIsRetried | Kernel/asm/semaphores.asm:18-34 | The timer alone brings a woken waiter of a free lock to its next exchange within the fairness bound, if nobody but idle is in ring 0 |
| LockWakeUps.RunsReturnToLock | Kernel/asm/semaphores.asm:18-34 | So it does after every run that moves nobody into ring 0, from a state with nobody but idle there |
| LockWakeUps.ReleaseHalves | Kernel/semaphore.c:206-214 | Of n queue positions, one that a release does not wake moves to less than half, so its logarithm drops |
| LockWakeUps.WokenWithin | Kernel/semaphore.c:206-214 | The waiter at position p is woken within floor(log2(p + 1)) + 1 releases, whoever releases and whatever else joins or happens |
| LockFailures.YieldTo | Kernel/basicScheduler.c:238-307 | One yield of a running or blocked process, field by field |
| LockFailures.WakeUpIsLost | Kernel/basicScheduler.c:367-378 | The failure: a run from boot in which one block_process on a sleeping waiter ends with a free lock, a sleeping waiter and nobody about to retry |
| LockFailures.WakeUpIsLostByKill | Kernel/process.c:190-210 | The same by one force_kill of a sleeping waiter: nobody who could run is about to retry |
| Semaphore.QueueNode.constructor | Kernel/semaphore.c:137-139 | A queue node with its pid and predecessor |
| Semaphore.Lock.constructor | Kernel/semaphore.c:57-61 | The lock word and empty queue that `my_sem_open` sets up |
| Semaphore.Lock.AddToQueue | Kernel/semaphore.c:125-151 | The pid joins the end of the linked wait queue |
| Semaphore.Lock.RemoveFromQueue | Kernel/semaphore.c:153-180 | The head leaves and its pid is returned, -1 for an empty queue |
| Semaphore.Lock.WakeUpProcesses | Kernel/semaphore.c:206-214 | The loop with the shrinking bound wakes exactly the first half, rounded up, in FIFO order |
| Semaphore.Lock.WakeOne | Kernel/semaphore.c:210-211 | The head of the queue leaves and is revived |
| Semaphore.Lock.Whiff | Kernel/semaphore.c:194-204 | The current process queues, blocks and yields |
| Semaphore.Lock.EnterRegionTurn | Kernel/asm/semaphores.asm:18-34 | One turn of the acquire loop takes the enter step, on lock and scheduler together |
| Semaphore.Lock.LeaveRegion | Kernel/asm/semaphores.asm:45-66 | Takes the release step, on lock and scheduler together |
| Bmfs.SlotOf | Bootloader/BMFS/bmfs.c:202-227 | The entry `findfile` finds is the first in use before the end marker with the name, or there is none |
| Bmfs.FirstFree | Bootloader/BMFS/bmfs.c:626-642 | The free entry is the first one not in use |
| Bmfs.BlocksAreLeast | Bootloader/BMFS/bmfs.c:606-611 | The blocks asked for are the least that hold the size, for every 64-bit size but the largest odd one, which wraps to none |
| Bmfs.CmpIsOrder | Bootloader/BMFS/bmfs.c:590-600 | On one disk the 64-bit difference cut to an `int` orders entries by their start |
| Bmfs.SortedFiles | Bootloader/BMFS/bmfs.c:651-652 | Whatever order qsort returns, the files stay disjoint, each lies behind the one before, and deleted entries come last |
| Bmfs.QsortCanReturn | Bootloader/BMFS/bmfs.c:651-652 | Such an order exists for every sound directory |
| Bmfs.SearchDeleted | Bootloader/BMFS/bmfs.c:663-675 | Among deleted entries the search stops iff some old extent ends early enough |
| Bmfs.SearchIsExact | Bootloader/BMFS/bmfs.c:654-676 | The gap search returns the lowest start that fits if one does; else 0 iff every deleted entry's old extent ends too late, and otherwise a start that does not fit |
| Bmfs.WithFileIsSoundIff | Bootloader/BMFS/bmfs.c:684-689 | A new file leaves the files sound iff it is not empty and its blocks are free |
| Bmfs.EnterBeforeMarker | Bootloader/BMFS/bmfs.c:684-697 | With an end marker the new record joins the files and the directory ends behind them |
| Bmfs.EnterWithoutMarker | Bootloader/BMFS/bmfs.c:684-697 | Without one a record in the first entry cuts the directory off behind itself |
| Bmfs.CreateContract | Bootloader/BMFS/bmfs.c:602-710 | What create answers and changes, for every directory with sound extents: an existing name and a directory without free entry are refused, a refusal changes nothing, the search decides the rest |
| Bmfs.CreateInCleanDirectory | Bootloader/BMFS/bmfs.c:602-710 | Without deleted entries: no space iff no gap fits; else the file takes the lowest blocks that fit and joins the others, which stay |
| Bmfs.CreateKeepsIff | Bootloader/BMFS/bmfs.c:602-710 | The exact condition, with deleted entries and with or without an end marker: the files stay disjoint, in bounds and listed iff the call is safe, which a caller can check |
| Bmfs.NoMarkerMisleads | Bootloader/BMFS/bmfs.c:626-642 | Without an end marker the file goes to block 1: over a file that holds one of its blocks, and cutting all others off if the first entry was the free one |
| BmfsFull.CreateNext | Bootloader/BMFS/bmfs.c:602-710 | Each of 64 creates of one block takes the next entry and the next block |
| BmfsFull.NoMarkerIsReached | Bootloader/BMFS/bmfs.c:602-809 | 64 creates and one delete on a formatted disk lead to a sound directory without an end marker |
| BmfsFull.NextCreateFails | Bootloader/BMFS/bmfs.c:626-642 | The next create goes over the file at block 1, or cuts all others off if the first entry was deleted |
| Bmfs.DeletedMisleads | Bootloader/BMFS/bmfs.c:674-675 | A create on a directory with a deleted entry, where no gap fits, hands out a used block |
| Bmfs.StaleIsReached | Bootloader/BMFS/bmfs.c:602-809 | Three creates and two deletes on a formatted disk lead to that directory |
| Bmfs.EmptyFileMisleads | Bootloader/BMFS/bmfs.c:654-676 | With a file of size 0 in the directory, which the command line refuses to make, create can hand out a used block |
| Bmfs.DeleteContract | Bootloader/BMFS/bmfs.c:791-809 | delete takes exactly one file out and keeps the directory sound |
| Bmfs.RunsAreSound | Bootloader/BMFS/bmfs.c:602-809 | Every run of creates and deletes whose creates are safe keeps the extents disjoint and in bounds |
| Bmfs.CreatesAreSafe | Bootloader/BMFS/bmfs.c:602-710 | Without deletes every create is safe: no file overlaps, moves or is lost |
| Bmfs.FormattedIsSound | Bootloader/BMFS/bmfs.c:255-264 | A formatted directory is sound |
| BmfsDisk.Disk.constructor | Bootloader/BMFS/bmfs.c:255-264 | A directory of 64 end markers |
| BmfsDisk.Disk.FindFile | Bootloader/BMFS/bmfs.c:202-227 | The loop, which leaves by setting its counter past the end, finds the entry of the specification |
| BmfsDisk.Disk.CountEntries | Bootloader/BMFS/bmfs.c:626-642 | The scan computes the number of counted entries and the first free one |
| BmfsDisk.Disk.FindGap | Bootloader/BMFS/bmfs.c:654-676 | The loop computes the gap search |
| BmfsDisk.Disk.CreateFile | Bootloader/BMFS/bmfs.c:602-710 | The directory buffer and the answer are those of the specification |
| BmfsDisk.Disk.DeleteFile | Bootloader/BMFS/bmfs.c:791-809 | The directory buffer is that of the specification |
| Philosophers.Left | Userland/SampleCodeModule/phylo.c:36-38 | The seat before, around the table |
| Philosophers.Right | Userland/SampleCodeModule/phylo.c:40-42 | The seat after, around the table |
| Philosophers.NeighboursInvert | Userland/SampleCodeModule/phylo.c:36-42 | left and right are inverse, and from two seats on differ from the seat itself |
| Philosophers.TakeContract | Userland/SampleCodeModule/phylo.c:163-175 | After take_forks the seat eats iff neither neighbour does, else it is hungry; nobody else changes |
| Philosophers.PutContract | Userland/SampleCodeModule/phylo.c:177-193 | put_forks looks left first: which of the two neighbours eats afterwards, and that nobody else changes, on a table of any size |
| Philosophers.AddContract | Userland/SampleCodeModule/phylo.c:113-131 | The new seat is last and thinks; without a process the table stays |
| Philosophers.StepKeepsExclusive | Userland/SampleCodeModule/phylo.c:113-193 | No take, put or add section puts two neighbours at their food, on any table of two or more |
| Philosophers.StepKeepsServed | Userland/SampleCodeModule/phylo.c:163-193 | Take and put leave an eating neighbour beside everyone who is hungry, in whatever mood they are called |
| Philosophers.ServedIsNotStuck | Userland/SampleCodeModule/phylo.c:186-193 | Then a table with a hungry philosopher has one who eats |
| Philosophers.PutHandsOn | Userland/SampleCodeModule/phylo.c:177-184 | After put_forks a hungry neighbour eats iff the one beyond it does not |
| Philosophers.AddKeepsServedIff | Userland/SampleCodeModule/phylo.c:113-131 | Seating one more keeps that guarantee iff neither end of the row was hungry with its only eating neighbour across the seam |
| Philosophers.AddStrands | Userland/SampleCodeModule/phylo.c:113-131 | A run with one add after which a philosopher is hungry and nobody eats |
| Philosophers.TurnsStarve | Userland/SampleCodeModule/phylo.c:163-193 | Two neighbours taking turns keep a third hungry for any number of rounds: there is no starvation freedom to prove |
| Philosophers.RunsAreExclusive | Userland/SampleCodeModule/phylo.c:113-193 | Exclusion in every run, also as the table grows |
| Philosophers.RunsAreServed | Userland/SampleCodeModule/phylo.c:163-193 | On a fixed table every run leaves everyone hungry beside one who eats, so it is never stuck |
| Philosophers.Table.constructor | Userland/SampleCodeModule/phylo.c:44-58 | An empty table of thinking seats |
| Philosophers.Table.TestSeat | Userland/SampleCodeModule/phylo.c:186-193 | Starts a hungry philosopher between two who do not eat, and signals it; changes no other seat |
| Philosophers.Table.TakeForks | Userland/SampleCodeModule/phylo.c:163-175 | Takes the take step; the caller goes on to wait iff it is still hungry |
| Philosophers.Table.PutForks | Userland/SampleCodeModule/phylo.c:177-184 | Takes the put step |
| Philosophers.Table.AddPhilosopher | Userland/SampleCodeModule/phylo.c:113-131 | Takes the add step, also when the process cannot be created |
| Pipe.PutAppends | Kernel/pipe.c:58-75 | Under its guard a write appends to the contents, across the lazy wrap |
| Pipe.GetTakes | Kernel/pipe.c:92-108 | Under its guard a read takes the oldest byte, across the lazy wrap |
| Pipe.QueueStepIff | Kernel/pipe.c:56-109 | A step is a queue step iff its guard holds |
| Pipe.OverrunLoses | Kernel/pipe.c:58-75 | A write to a full buffer overwrites the oldest byte: the next read finds the new one |
| Pipe.RunsAreFifo | Kernel/pipe.c:56-109 | In every interleaving the bytes read and those still buffered are those buffered before and those written, in order |
| Pipe.NewPipeIsFifo | Kernel/pipe.c:31-39 | From a new pipe the bytes read are a prefix of the bytes written |
| Pipe.Pipe.constructor | Kernel/pipe.c:35-39 | An empty pipe |
| Pipe.Pipe.WriteByte | Kernel/pipe.c:59-74 | One pass of the write loop takes the write step |
| Pipe.Pipe.ReadByte | Kernel/pipe.c:93-107 | One pass of the read loop takes the read step |
| Pipe.Pipe.Write | Kernel/pipe.c:49-80 | A call that need not wait appends its message |
| Pipe.Pipe.Read | Kernel/pipe.c:82-112 | A call that need not wait takes its bytes from the front, stopping behind an end-of-file byte with -1 |
| MemCopy.CopiedFrame | Kernel/lib.c:35-36 | Bytes outside the destination stay |
| MemCopy.CopiedMoves | Kernel/lib.c:35-36 | With the destination below or clear of the source, the destination gets what the source held, overlap or not |
| MemCopy.CopiedRepeats | Kernel/lib.c:35-36 | With the destination inside the source, the bytes before the destination repeat |
| MemCopy.CopyMovesIff | Kernel/lib.c:17-40 | memcpy moves the bytes of every memory iff the destination does not start inside the source |
| MemCopy.WordIsBytes | Kernel/lib.c:27-28 | One aligned word copied is its four bytes copied one by one, however the ranges overlap |
| MemCopy.CopyWords | Kernel/lib.c:20-29 | The word path leaves what the byte-by-byte copy leaves |
| MemCopy.CopyBytes | Kernel/lib.c:30-37 | The byte path does |
| MemCopy.Memcpy | Kernel/lib.c:17-40 | memcpy is the byte-by-byte copy on all inputs |
| MemCopy.MoveOneLineUp | Kernel/drivers/videoDriver.c:218-220 | The scroll is an exact move of the screen, although its ranges overlap |
| MemCopy.ScrollMovesRows | Kernel/drivers/videoDriver.c:218-220 | Every pixel row then shows what was the given number of rows below it |
| Bytes.NumberOfFourBytes | Kernel/moduleLoader.c:36-40 | Reading a stored 32-bit number gives the number back |
| Bytes.LittleEnd | Kernel/moduleLoader.c:36-40 | The first byte is the lowest digit of the number, the last the highest |
| ModulePacker.PackedSnoc | Toolchain/ModulePacker/main.c:67-77 | One more turn of the packing loop appends a size and a module |
| ModulePacker.Source.Read | Toolchain/ModulePacker/main.c:109 | A read returns the next bytes, and sets end-of-file only when it comes up short |
| ModulePacker.Target.Write | Toolchain/ModulePacker/main.c:110 | A write appends |
| ModulePacker.WriteFile | Toolchain/ModulePacker/main.c:104-114 | The chunk loop copies a file of any length exactly, also an exact number of chunks or an empty one |
| ModulePacker.WriteSize | Toolchain/ModulePacker/main.c:96-101 | Appends the size cut to 32 bits |
| ModulePacker.BuildImage | Toolchain/ModulePacker/main.c:51-80 | The image is the kernel, the number of modules, and every module behind its size |
| ModuleLoader.CopyKeeps | Kernel/moduleLoader.c:29 | What lies clear of a target is not changed by loading to it |
| ModuleLoader.LoadFirst | Kernel/moduleLoader.c:18-34 | Loading one packed module puts it at its target, changes nothing else and leaves the rest of the payload behind the cursor |
| ModuleLoader.LoadAllLoads | Kernel/moduleLoader.c:14-15 | Loading from packed modules puts each at its target and changes nothing else |
| ModuleLoader.PackThenLoad | Kernel/moduleLoader.c:9-16 | Round trip: from a packed image in memory, for modules below 2^32 bytes and targets clear of the payload and each other, each module's exact bytes are at its target and nothing else has changed |
| ModuleLoader.ReadUint32 | Kernel/moduleLoader.c:36-40 | The number at the cursor, and the cursor behind it |
| ModuleLoader.LoadModule | Kernel/moduleLoader.c:18-34 | Takes the load step |
| ModuleLoader.LoadModules | Kernel/moduleLoader.c:9-16 | The loop takes the load step for as many targets as the payload counts |

## Left out

- BuddyHeap.MallocContract: does not model the overflow of the C `int` in the rounding loop, for requests above 2^30 that are no power of two and not above the region size.
- BuddyArena.Arena.Malloc: excludes those requests, and arenas without a cell for every node of the tree after the call, where the C code writes outside the arena.
- BitmapHeap.Heap.FreeBlock: does not model the address equal to `end`, for which the C code reads the byte after the map; `BitmapHeap.Heap.GetFirstPageIndex` neither.
- BitmapHeap.Heap.AllocateBlock: page counts and addresses are unbounded numbers; the 64-bit wrap of `i - pages_needed + 1` cannot occur in a map of at most `MAX_MEM` bytes.
- CircularList.Queue.RemoveNode: does not model a node that is no member of the queue, which no caller passes.
- SchedulerObjects.Table.ScanRing: in `Table` the four rings are sequences read from the current node. `SchedulerRings` proves each walk on linked nodes, one ring or two at a time; a table of four linked rings with its two queues at once is not modelled.
- SchedulerObjects.Table.SwitchContext: does not model the saved stack pointer; the rings are sequences as above.
- SchedulerObjects.Table.AddNewProcess: does not model failed allocation and the foreground pid.
- SchedulerObjects.Table.CreateAndInsertProcess: does not model failed allocation and the refusal of null arguments.
- SchedulerObjects.Table.ChangeProcessPriority: excludes priorities of 4 and above, for which the C code indexes past the four queues.
- SchedulerObjects.Table.AddProcessToCreationQueue: does not model failed allocation and its answer -1.
- SchedulerObjects.Table.AddProcessToRemovalQueue: the same.
- SchedulerObjects.Table.ForceKill: does not model the foreground pid, the children's new parent (see `SchedulerRings.ReassignChildrenToShell`) and the post on the process's own semaphore, whose wake-ups are `Revive` steps.
- SchedulerObjects.Table.KillProcessesInRemovalQueue: its `free_process` looks the process up after it has left its ring, finds nothing and frees nothing, so it has no effect here.
- SchedulerRuns.ApplyKeepsInv: excludes block, kill and priority calls on idle, and a second kill, after which the C code follows a null pointer.
- SchedulerRuns.RunsAreSafe: the same; pids and ticks are unbounded numbers, so the `int` range of pids is not modelled.
- LockSystem.LockExcludes: interrupts between the exchange and the yield of one process are not modelled; the kernel's system calls run up to the yield.
- LockWakeUps.NoLostWakeUp: excludes block_process, os_revive_process and force_kill on waiters, where it is false (`LockFailures.WakeUpIsLost`, `LockFailures.WakeUpIsLostByKill`; os_revive_process does to a sleeper what block_process does there), and an idle process that sleeps at the lock.
- Semaphore.Lock.AddToQueue: does not model failed allocation, on which the C code queues nobody.
- Semaphore.Lock.Whiff: excludes a call by the idle process, which uses no lock.
- Semaphore.Lock.EnterRegionTurn: covers one turn of the loop, because the process continues only when the scheduler selects it again.
- Bmfs.CreateContract: is about sizes that are not zero, as the command line has it; `Bmfs.CreateKeepsIff` covers zero. Names are values, so the 32-byte field is not modelled.
- Bmfs.SortedFiles: of two deleted entries the comparison puts each behind the other, so the C standard promises nothing about qsort then; the model has them last in any order.
- Philosophers.Table.TakeForks: the wait on the fork semaphore after the section is reported, not performed; a fork semaphore opened with 0 is free, so that wait may return at once and put_forks may follow in any mood.
- Pipe.Pipe.WriteByte: does not model the end-of-file branch of the loop.
- Pipe.Pipe.Write: covers calls that need not wait; waiting calls are interleavings of single bytes in `Pipe.RunsAreFifo`.
- Pipe.Pipe.Read: the same.
- ModuleLoader.LoadModules: the console output between modules is left out.
- Context switches are the change of the current process: registers, stacks, IDT and PIC are hardware state.
- Screen, font, sound, keyboard, pong, shell and command parsing: device output and user interface. The rectangle drawn after a scroll belongs here.
- `kill_process`, ZOMBIE and the wait for children: unreachable from the system calls.
- `processes_qty`: it is only ever incremented.
- Semaphore names, `allowed_processes`, `my_sem_close` and `clear_sem`: bookkeeping around the protocol; one lock at a time is addressed directly.
- `remove_philosopher`: it makes the neighbours of the removed seat adjacent, so exclusion does not survive it.
- BMFS reading and writing of files and the file size they keep in a record, image initialisation and size parsing.
- Pipe end-of-file handling on the write side (`first_eof` is one global for all pipes) and the allocation of pipe slots and names.
- Opening and closing files in the packer, and its command line.
- Pure64, time zones, number printing and string helpers.
