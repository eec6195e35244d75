# The memory management and the MIPS locks of AIM, modelled in Dafny

AIM is a small teaching kernel written in C. This project models the part of it
with the most state: the ticket lock of the MIPS port with the recursive lock and
the semaphore built on it, the physical page allocator, the size-class allocator
behind `kmalloc`, the two-level page table, the user address spaces on top of all
of these, and the word-at-a-time `memmove` and bitmap routines. Everything is
proved for all inputs, all interleavings or all sequences of calls; there is no
bound on the number of CPUs, calls, spaces, pages or bytes other than the ones the
code itself has.

`dafny verify dfyconfig.toml` checks the whole project.

## How it is laid out

Code that works by changing things becomes a class with methods, or methods over an
array. Where several calls matter together there is also a function on plain values
for what one call does; the method is proved to compute exactly that function, and
the laws are lemmas about the function.

| file | models |
|---|---|
| `Common.dfy` | page size, 32-bit wrap-around, the rounding macro, and the outcome of a call: a code, or a failed assertion |
| `TicketLock.dfy` | `spin_lock` and `spin_unlock` as a step system: LL, SC, spin read, head read and head store are separate steps of any number of CPUs |
| `RecursiveLock.dfy`, `Semaphore.dfy` | the recursive lock and the semaphore as step systems whose steps include those of the ticket lock; every access to `holder`, `depth` and `val` is a step of its own |
| `FreeList.dfy`, `PageAllocator.dfy` | the page allocator's sorted, coalescing free list, first fit, and the aligned allocator |
| `SlabStatus.dfy`, `Slab.dfy` | the status bit array and the size-class allocator |
| `FramePool.dfy` | what address spaces see of the allocators: free frames, live objects, frame contents |
| `PageTable.dfy` | the page table, as it is stored and as a flat map from pages to entries |
| `Space.dfy`, `Areas.dfy`, `AddressSpace.dfy`, `AreaOrder.dfy` | one address space: its invariant, its area list as a value, the routines that change it, the order of the list |
| `UserBytes.dfy`, `UserCopy.dfy`, `Clone.dfy` | what a user program sees, copying to and from it, cloning a space |
| `World.dfy`, `Runs.dfy`, `Kernel.dfy` | all address spaces together, sequences of calls on them as values, and the routines that perform them |
| `Memmove.dfy`, `Words.dfy`, `Bitmap.dfy` | `memmove`, find-first-set and population count, bitmap search and weight |

## Main results

* **Mutual exclusion.** `TicketLock.MutualExclusionIff`: in every interleaving at most
  one CPU is inside, over any number of ticket wrap-arounds, if and only if there are
  at most 2^16 CPUs. A successful whole-word SC never overwrites a concurrent store of
  the head half, service is FIFO, and a waiter enters after exactly
  (ticket - head) mod 2^16 unlocks. Nobody gets stuck: every run can go on so that any CPU
  enters, a waiter after exactly that many unlocks (`TicketLock.WaiterCanEnter`,
  `TicketLock.CanAlwaysEnter`).
* **Recursive lock and semaphore.** Exclusive, balanced and conserving in every
  interleaving, although both look at shared fields before they take the lock. What a CPU
  holds is counted from the calls it has made: outside the routines it owns the lock if
  and only if it has called lock more often than unlock, and an unlock panics if and only
  if its caller has not. The value of the semaphore is the initial value minus the calls
  of dec plus the calls of inc, calls still pending left out. Every run can go on so that
  a CPU that wants the recursive lock gets it (`RecursiveLock.CanAlwaysLock`), and so that
  everybody leaves the semaphore's lock, after which a polling call can return by itself
  if and only if `val` allows it (`Semaphore.ReturnsAloneIff`).
* **Page allocator.** The list is the one and only sorted, maximally coalesced form of
  the free set; nothing is lost or handed out twice over any sequence of calls; freeing
  what was just allocated restores the list block for block. The aligned allocator rounds
  with a bitwise or, which rounds to a multiple for every address if and only if the
  alignment is a power of two (`Common.AlignsIffPowerOfTwo`).
* **Slab allocator.** Emptied descriptors keep a stale page address and `free` takes the
  first descriptor that contains the address. That descriptor is always the owner,
  because an empty descriptor never precedes a live one with the same page. A page has to
  be supplied only when no descriptor of the class has room.
* **Address spaces.** In every state that any sequence of calls reaches, each page table
  maps exactly the pages of its areas, each to a frame that nobody else has and writable if
  and only if the area is, and all frames and kernel objects are accounted for. A call that fails changes nothing, and a
  successful create followed by a destroy restores the list, the page table with its leaf
  tables, and the free frames; both with the exceptions listed below. A mapping succeeds
  if and only if nothing is in its way and there are frames for the missing leaf tables,
  and unless `kmalloc` fails the same is proved of `create_uvm` and `mm_clone`, pages
  included. What may go wrong is known exactly before the call, in terms of the area
  list, the page table and the number of free frames; sequences of calls that stay below
  the top of the address space, with at least as many frames as live objects, neither
  panic nor read through an absent leaf table (`Runs.SafeRunsFinish`).
* **Copying.** `memmove` for every length, alignment and overlap; `copy_to_uvm` followed
  by `copy_from_uvm` returns the buffer for every unaligned range over any number of
  pages, and on a sorted list a copy succeeds if and only if the whole range is mapped; a clone shows the same bytes from frames of its own.

## Where the code falls short of what one would expect

Each of these is proved with the exact condition under which the code is right.

* Mutual exclusion fails with more than 2^16 CPUs (`TicketLock.MutualExclusionIff`).
* Freeing a range of size 0 leaves an empty block in the list, unless the address is an
  edge of a free block (`PageAllocator.FreeCanonicalIff`).
* The rollback of `map_pages` looks for all-zero leaf tables without testing whether there
  is a leaf table. When the very first page fails, it scans an empty range: from the slot
  of the page to the slot of the page before it, in 32-bit arithmetic. It reads through an
  absent leaf if and only if the page does not start a leaf and its leaf is absent, or the
  page is page 0 and any slot of the directory is empty (`PageTable.RollbackFaultsIff`,
  with the concrete case of address 0x100000 in an empty table in
  `PageTable.FirstPageFaults`). The model records this in the field `faulted` of the table
  and goes on as if an absent leaf had nothing to free. `map_pages` sets it exactly when
  `PageTable.MapFaults` says. Unless `kmalloc` fails or the call panics, `create_uvm` of a
  range above page 0 sets it if and only if a place is found, there is exactly one free frame, the first
  page's leaf is absent and that page does not start it (`Areas.CreateFaultsAbove`, and
  `Areas.CreateFaultsIff` for page 0 as well; concrete cases in `Areas.FaultsInLeaf`), and
  `mm_clone` if and only if some area of the source is such a page once those before it
  have been cloned (`Clone.CloneFaultsIff`). A sequence of calls ends there
  (`Kernel.System.Run`); `Runs.RunFaultFree` says when it does not happen.
* `unmap_pages` compares a whole entry, permission bits included, with a bare address, so
  it never unmaps more than one page (`PageTable.NextNeverMatches`), and it panics when
  the second page has no leaf table.
* `unmap_pages` compares with a 32-bit end address, which is 0 for the last page of the
  address space, so that page can be created but not removed: an assertion fails. Hence
  `destroy_uvm` panics if and only if the range is there and reaches 2^32, and `mm_destroy`
  if and only if the space has that page (`AddressSpace.Mm.DestroyUvm`,
  `AddressSpace.Mm.Destroy`). Unless `kmalloc` fails, `create_uvm` panics if and only if
  the range goes past 2^32, a place is found for it, the pages up to 2^32 can be had and
  all of them cannot (`Areas.CreatePanicsIff`), and `mm_clone` if and only if the last page
  is an area of the source but not the final one, the areas up to it can be had and all of
  them cannot (`Clone.ClonePanicsIff`). In an empty space with three free frames this
  happens for two pages at 0xFFFFF000, and with four it does not (`Areas.PanicsOverTop`,
  `Clone.ClonePanicsOverTop`). If `kmalloc` does fail, a panic still needs all of these
  conditions but the last.
  Sequences of calls that create nothing that reaches 2^32 never panic (`Runs.RunTopFree`).
* `alloc` of the size-class allocator tests for a null page, but a failure of the page
  allocator arrives as an address that is neither null nor a page. It is handed out as an
  object, and the list stays in order if and only if no page was needed
  (`Slab.FailureUnnoticed`).
* `create_uvm` compares with an end address that may have wrapped. The list stays sorted
  exactly when the new range ends below 2^32, or exactly there in an empty space
  (`AreaOrder.CreateSortedIff`, with the concrete case in `AreaOrder.UnsortedOverTop`).
  Agreement with the page table holds regardless.
* The loop that copies to and from user memory takes a wrong piece in the last page of
  the address space, and has no rounds at all for a range that goes past its end. It walks
  the range correctly exactly when the range is empty or ends at or below 0xFFFFF000
  (`UserCopy.WalksRightIff`, `UserCopy.WalkOverruns`). A covered range that goes past 2^32
  is reported as copied although nothing was (`UserCopy.CopyTo`). A range that ends inside
  the last page has no end for the loop: the stop after that page is user address 0, which
  is below the end, and the loop goes on through the whole address space, page by page,
  until it comes to a page without a leaf table and returns EACCES; if every leaf table is
  there it never ends (`UserCopy.WalkEndsIff`, `UserCopy.EndsIffLeafMissing`).

## Model

| member | source | states |
|---|---|---|
| `TicketLock.JoinsLast` | include/arch/mips/arch-sync.h:59-69 | a successful SC leaves head alone, advances tail by one modulo 2^16, and gives its CPU the ticket after everybody queued; it is inside at once if and only if nobody was |
| `TicketLock.StoreSucceedsKeeps` | include/arch/mips/arch-sync.h:59-69 | the queue of ticket holders grows by that CPU at the end and the queue invariant holds again |
| `TicketLock.SpinReadKeeps` | include/arch/mips/arch-sync.h:70-72 | a spin read keeps the invariant and enters exactly if its CPU is first in the queue |
| `TicketLock.StoreHeadKeeps` | include/arch/mips/arch-sync.h:85-91 | the halfword store of an unlock removes the first CPU from the queue, advances head modulo 2^16 and leaves tail alone |
| `TicketLock.StepKeepsQueue` | include/arch/mips/arch-sync.h:49-91 | every step of every CPU keeps the queue invariant, for up to 2^16 CPUs |
| `TicketLock.InvMutex` | include/arch/mips/arch-sync.h:49-91 | the invariant implies that at most one CPU is between lock and unlock |
| `TicketLock.RunKeepsInv` | include/arch/mips/arch-sync.h:41-91 | the invariant holds in every state of every interleaving from the initial lock |
| `TicketLock.FillRun` | include/arch/mips/arch-sync.h:59-69 | there is a run in which the CPUs 0 .. k-1 have each taken a ticket and nobody has unlocked |
| `TicketLock.MutualExclusionIff` | include/arch/mips/arch-sync.h:49-91 | mutual exclusion in every state of every interleaving, if and only if there are at most 2^16 CPUs |
| `TicketLock.StoreConditionalKeepsHead` | include/arch/mips/arch-sync.h:59-65 | in every interleaving a successful whole-word SC changes only tail, so no halfword store of head is overwritten |
| `TicketLock.HoldersAreQueue` | include/arch/mips/arch-sync.h:49-91 | the queue lists exactly the CPUs with a ticket, each once |
| `TicketLock.FirstIsServed` | include/arch/mips/arch-sync.h:70-72 | the first in the queue is the one ticket holder whose ticket is head; its next access exists and takes it on, into the lock or out of it, and no other spin read enters |
| `TicketLock.NeverStuck` | include/arch/mips/arch-sync.h:49-91 | in every reachable state (tail - head) mod 2^16 is the number of ticket holders modulo 2^16, every CPU has a next access, and if there are ticket holders, exactly one is being served and its next access takes it on |
| `TicketLock.DistanceStep` | include/arch/mips/arch-sync.h:49-91 | a step lowers a waiter's (ticket - head) by one if it is an unlock and otherwise leaves it alone |
| `TicketLock.DistanceRun` | include/arch/mips/arch-sync.h:49-91 | over any stretch of waiting, the distance falls by exactly the number of unlocks |
| `TicketLock.EntersAfterDistance` | include/arch/mips/arch-sync.h:51-91 | a waiting CPU's spin read enters exactly when the unlocks since any earlier moment of its wait equal (ticket - head) mod 2^16 at that moment |
| `TicketLock.NextAccess` | include/arch/mips/arch-sync.h:49-91 | every CPU has the next access that the code prescribes, whatever the others do |
| `TicketLock.Closer` | include/arch/mips/arch-sync.h:51-73 | while nobody is before it, each access of a CPU in the lock routine takes it closer to being inside |
| `TicketLock.CanBeServed` | include/arch/mips/arch-sync.h:49-91 | the first in the queue can go in and out with one unlock, and the others move up by one |
| `TicketLock.CanEnter` | include/arch/mips/arch-sync.h:49-91 | the CPU at position i of the queue can enter, after i unlocks |
| `TicketLock.CanQueue` | include/arch/mips/arch-sync.h:51-69 | a CPU without a ticket can get the next one, whatever the others do |
| `TicketLock.WaiterCanEnter` | include/arch/mips/arch-sync.h:49-91 | every run in which a CPU waits can go on so that it enters, after exactly (ticket - head) mod 2^16 unlocks |
| `TicketLock.CanAlwaysEnter` | include/arch/mips/arch-sync.h:49-91 | every run can go on so that any CPU that is not inside enters |
| `TicketLock.CanAlwaysBeFree` | include/arch/mips/arch-sync.h:49-91 | every run can go on until nobody has a ticket, with one unlock for each that had one |
| `RecursiveLock.InnerStepKeeps` | include/aim/sync.h:70-88 | steps inside the inner lock keep owner, depth and count of acquisitions in agreement |
| `RecursiveLock.OwnStepKeeps` | include/aim/sync.h:70-88 | steps on holder and depth, the unlocked read of holder included, keep them in agreement |
| `RecursiveLock.RunKeepsInv` | include/aim/sync.h:70-88 | the agreement holds in every state of every interleaving of up to 2^16 CPUs |
| `RecursiveLock.HeldIsCalls` | include/aim/sync.h:70-88 | counted from the events alone, the calls of lock minus the calls of unlock of a CPU are the acquisitions it holds, plus or minus the call it is in |
| `RecursiveLock.ExclusiveAndBalanced` | include/aim/sync.h:70-88 | at most one owner; outside the routines a CPU owns the lock if and only if it has called lock more often than unlock, holder then names it and depth is the difference; inside them the same with the call under way left out until it has done its part; only a CPU with nothing to undo can have panicked |
| `RecursiveLock.ReleasedAtOutermost` | include/aim/sync.h:79-88 | the lock is given up only by the end of the unlock call that matches the outermost lock, and gained only in a lock call with none outstanding before it, both counted in calls |
| `RecursiveLock.AssertionFailsIff` | include/aim/sync.h:81-82 | the assertions of an unlock fail if and only if its CPU has now called unlock more often than lock |
| `RecursiveLock.UnlockPanicsIff` | include/aim/sync.h:79-88 | a call of unlock panics at its first step if and only if its caller had not called lock more often than unlock before |
| `RecursiveLock.NeverStuck` | include/aim/sync.h:70-88 | in every reachable state every CPU that has not panicked has a step, and outside the routines it can call either |
| `RecursiveLock.Finishes` | include/aim/sync.h:70-88 | a call that has not to wait for the inner lock comes to its end by its own steps, with one acquisition more, one less, or a panic, as it should |
| `RecursiveLock.GivesUp` | include/aim/sync.h:70-88 | and its CPU can then unlock until it holds nothing |
| `RecursiveLock.CanAlwaysBeFree` | include/aim/sync.h:70-88 | every run can go on, without another call of lock, until every CPU is outside with as many unlocks as locks, or has panicked |
| `RecursiveLock.CanAlwaysLock` | include/aim/sync.h:70-88 | every run can go on so that a CPU that is outside the routines owns the lock with exactly one call outstanding |
| `Semaphore.StepKeepsInv` | include/arch/mips/arch-sync.h:114-146 | every step keeps 0 <= val <= limit and limit - val equal to decrements minus increments, although val is polled without the lock |
| `Semaphore.RunKeepsInv` | include/arch/mips/arch-sync.h:106-146 | the same in every state of every interleaving from a non-negative initial value |
| `Semaphore.StepCounts` | include/arch/mips/arch-sync.h:115-146 | a step makes a call pending, turns a pending call into one update in its own direction, or does neither |
| `Semaphore.CallsCounted` | include/arch/mips/arch-sync.h:115-146 | in every run each call of a routine has made exactly one update, or none and is still pending |
| `Semaphore.Conserved` | include/arch/mips/arch-sync.h:106-146 | val stays between 0 and its limit, and limit - val is the calls of dec minus the calls of inc made so far, leaving out those that have not updated val yet; with every CPU outside it is exactly the difference of the calls |
| `Semaphore.NeverStuck` | include/arch/mips/arch-sync.h:115-146 | in every reachable state every CPU has a step, and outside the routines it can call either |
| `Semaphore.Finishes` | include/arch/mips/arch-sync.h:115-146 | a CPU in the lock, with nobody before it, leaves it by its own steps: done with val moved by one if the second test allows it, else back to polling with val as it was |
| `Semaphore.CanAlwaysSettle` | include/arch/mips/arch-sync.h:115-146 | every run can go on, without another call, to a state in which nobody is in the lock |
| `Semaphore.ReturnsAloneIff` | include/arch/mips/arch-sync.h:115-146 | in every such reachable state a call that polls can return by its own steps if and only if val is above 0, or below the limit for inc, and val is then one less, or one more |
| `FreeList.CanonicalUnique` | kern/mm/pmm/palloc.c:23-25 | two sorted, non-empty, maximally coalesced lists with the same free bytes are the same list |
| `FreeList.First` | kern/mm/pmm/palloc.c:43-45 | the first block that is large enough, or at or above an address, none before it being so |
| `FreeList.CutExact` | kern/mm/pmm/palloc.c:49-60 | cutting the front off a block keeps the canonical form and takes exactly that range out of the free set and its size out of the total |
| `FreeList.FitsBetween` | kern/mm/pmm/palloc.c:94-101 | a non-empty range that is not free lies between the two blocks it is inserted between |
| `FreeList.FreedExact` | kern/mm/pmm/palloc.c:94-120 | inserting and merging keeps the canonical form and adds exactly the range and its size |
| `FreeList.FreeUndoesCut` | kern/mm/pmm/palloc.c:49-120 | freeing what was just cut off restores the very same list of blocks |
| `PageAllocator.AllocFails` | kern/mm/pmm/palloc.c:38-47 | a failed allocation changes nothing; an allocation succeeds if and only if the size is a whole number of pages and some single block is large enough |
| `PageAllocator.AllocSucceeds` | kern/mm/pmm/palloc.c:27-70 | a successful allocation is page aligned, starts the first block that fits, takes exactly its range out of the free set, and keeps the invariant |
| `PageAllocator.FreeAdds` | kern/mm/pmm/palloc.c:72-130 | freeing a page range that is not free adds exactly that range and keeps the invariant |
| `PageAllocator.FreeIgnored` | kern/mm/pmm/palloc.c:82-85 | a size that is no whole number of pages changes neither the list nor the total |
| `PageAllocator.FreeUndoesAlloc` | kern/mm/pmm/palloc.c:27-130 | freeing what was just allocated restores list and total, block for block |
| `PageAllocator.FreeCanonicalIff` | kern/mm/pmm/palloc.c:82-120 | after freeing a range that is not free the list is canonical if and only if the range is not empty or its address is an edge of a free block |
| `PageAllocator.ApplyConserves` | kern/mm/pmm/palloc.c:27-130 | one call keeps the invariant and moves bytes only between the free set and the callers |
| `PageAllocator.RunConserves` | kern/mm/pmm/palloc.c:27-130 | over every sequence of allocations and valid frees the list is canonical and page aligned, the total is the sum of the blocks, and no byte is lost, or both free and owned |
| `PageAllocator.RunsAgree` | kern/mm/pmm/palloc.c:27-130 | two histories that leave the same bytes free leave the same list and total |
| `PageAllocator.PageAllocTakesFrame` | include/aim/pmm.h:60-68 | a one-page request takes exactly one free frame and fails if and only if there is none |
| `PageAllocator.PageFreeAddsFrame` | include/aim/pmm.h:70-77 | returning a frame adds exactly that frame |
| `Common.OrMask` | include/util.h:79 | with a power of two, or-ing in the mask sets the bits below it and keeps the rest |
| `Common.AlignAboveRounds` | include/util.h:79 | rounding up with a power of two gives the least multiple at or above the address |
| `Common.AlignsIffPowerOfTwo` | include/util.h:79 | the macro rounds every address to a multiple of the alignment if and only if the alignment is a power of two |
| `PageAllocator.AlignAbovePages` | kern/mm/pmm/pmm.c:76-82 | rounding a page address up to a power of two that is a page multiple moves it by at most alignment - PAGE_SIZE and keeps it page aligned |
| `PageAllocator.JoinsMerge` | kern/mm/pmm/palloc.c:103-120 | joining with the block before and then with the block after gives the merged list, in all four cases |
| `PageAllocator.LinkedIsMerge` | kern/mm/pmm/palloc.c:98-120 | inserting and then joining, as the code does, gives the merged list |
| `PageAllocator.TrimSets` | kern/mm/pmm/pmm.c:84-94 | giving back both ends of a buffer leaves exactly the middle allocated |
| `PageAllocator.Allocator.constructor` | kern/mm/pmm/palloc.c:137-143 | the allocator starts empty, with the invariant |
| `PageAllocator.Allocator.Alloc` | kern/mm/pmm/palloc.c:27-70 | the loop and the update of the found block compute the allocation function |
| `PageAllocator.Allocator.JoinNext` | kern/mm/pmm/palloc.c:103-120 | joins two neighbours exactly if they touch |
| `PageAllocator.Allocator.Link` | kern/mm/pmm/palloc.c:98-120 | insertion and both joins in place compute the merged list |
| `PageAllocator.Allocator.Free` | kern/mm/pmm/palloc.c:72-130 | the loop, the insertion and the new total compute the release function; sizes that are no page multiple are ignored |
| `PageAllocator.Allocator.AllocPages` | kern/mm/pmm/pmm.c:56-69 | succeeds if and only if the request fits, and then takes exactly a page-aligned first-fit range |
| `PageAllocator.Allocator.FreePages` | kern/mm/pmm/pmm.c:98-106 | adds exactly the range |
| `PageAllocator.Allocator.Trim` | kern/mm/pmm/pmm.c:85-94 | returns the padding, if there is any, and nothing else |
| `PageAllocator.Allocator.KeepMiddle` | kern/mm/pmm/pmm.c:84-94 | of an allocated buffer only the wanted range stays allocated, both trims being free and coalesced again |
| `PageAllocator.Allocator.AllocAligned` | kern/mm/pmm/pmm.c:71-96 | for a power-of-two page-multiple alignment: succeeds if and only if the enlarged request fits, returns an aligned range inside the over-allocated block, and removes exactly that range from the free set |
| `SlabStatus.FlipBytesRefines` | kern/mm/vmm/simple.c:83-84 | the setbit macro on the 32-byte array flips that bit and no other |
| `SlabStatus.SlotFound` | kern/mm/vmm/simple.c:86-101 | with fewer objects than slots, the search at the class stride finds a clear bit at a stride position with room for the object |
| `Slab.ClassOf` | kern/mm/vmm/simple.c:119-123 | the least size class that holds the request |
| `Slab.RefusedIff` | kern/mm/vmm/simple.c:117-141 | a request gets nothing if and only if its size is 0 or above a page, or no descriptor of its class has room and the page allocator supplied a null page; then nothing changes |
| `Slab.FirstIsOwner` | kern/mm/vmm/simple.c:171-173 | the first descriptor whose page contains a live object is the one that holds it, stale page addresses notwithstanding |
| `Slab.ReuseCore` | kern/mm/vmm/simple.c:133-155 | reusing the first empty descriptor keeps the order: no empty descriptor precedes a live one with the same page |
| `Slab.PrependCore` | kern/mm/vmm/simple.c:143-155 | so does a new descriptor in front |
| `Slab.TargetFacts` | kern/mm/vmm/simple.c:129-155 | finding or making a descriptor with room keeps the invariant and every live object |
| `Slab.PlaceFacts` | kern/mm/vmm/simple.c:157-159 | taking a slot sets exactly one bit, which was clear, and num stays the number of set bits |
| `Slab.AllocAdds` | kern/mm/vmm/simple.c:113-164 | an allocation adds exactly one object, of the least class that holds the request |
| `Slab.AllocKeepsInv` | kern/mm/vmm/simple.c:113-164 | an allocation keeps the invariant and takes a page exactly if no descriptor of the class has room; impossible sizes change nothing |
| `Slab.AllocAligned` | kern/mm/vmm/simple.c:157-159 | the object is aligned to its class |
| `Slab.FailureUnnoticed` | kern/mm/vmm/simple.c:138-155 | an address that is no page, which is how a failure of the page allocator arrives, is handed out as an object if a page was needed, and the invariant survives if and only if none was |
| `Slab.RemoveFacts` | kern/mm/vmm/simple.c:176-185 | clearing a slot keeps the descriptor well formed and empties it exactly with its last object |
| `Slab.FreeRemoves` | kern/mm/vmm/simple.c:165-186 | freeing a live object removes exactly that object |
| `Slab.FreeKeepsInv` | kern/mm/vmm/simple.c:165-186 | it keeps the invariant, and the pages in use lose exactly the page given back, if any |
| `Slab.FreedPageIff` | kern/mm/vmm/simple.c:181-185 | a page is given back if and only if the object was the only one in it |
| `Slab.ObjectsDisjoint` | kern/mm/vmm/simple.c:86-186 | any two live objects are the same object or do not overlap |
| `Slab.ApplyKeeps` | kern/mm/vmm/simple.c:113-186 | one call keeps the invariant and moves pages only between the page allocator and the descriptors |
| `Slab.RunKeeps` | kern/mm/vmm/simple.c:113-186 | so does every sequence of allocations and frees of live objects in which the page allocator supplies a page whenever one is needed |
| `Slab.RunObjects` | kern/mm/vmm/simple.c:113-195 | after every such sequence live objects never overlap, each is of a size class and aligned to it, and the first descriptor around each is its owner |
| `Slab.PageComesBack` | kern/mm/vmm/simple.c:113-186 | freeing what was just allocated gives a page back exactly if one was taken, and that page |
| `Slab.FreeUndoesAlloc` | kern/mm/vmm/simple.c:113-186 | it restores the set of live objects |
| `Slab.FreeUndoesAllocPages` | kern/mm/vmm/simple.c:113-186 | it restores the free pages |
| `Slab.SlabAllocator.Find` | kern/mm/vmm/simple.c:129-136 | the list walk finds the first match |
| `Slab.SlabAllocator.GetSpace` | kern/mm/vmm/simple.c:86-101 | the loop finds and flips the first clear bit at the stride |
| `Slab.SlabAllocator.RoundUp` | kern/mm/vmm/simple.c:119-123 | the loop over the class table finds the least class |
| `Slab.SlabAllocator.Alloc` | kern/mm/vmm/simple.c:113-164 | the routine computes the allocation function, whatever the page allocator supplied; a refused request leaves the list alone |
| `Slab.SlabAllocator.FreeSpace` | kern/mm/vmm/simple.c:103-111 | afterwards the bit is clear, whatever it was, and every other bit is as before |
| `Slab.SlabAllocator.Free` | kern/mm/vmm/simple.c:165-186 | the routine computes the release function for every address; null is ignored, and it panics exactly if no page of the list contains the address |
| `Slab.SlabAllocator.Size` | kern/mm/vmm/simple.c:188-195 | the class of every live object, and 0 outside every page of the list |
| `FramePool.Pool.PgAlloc` | include/aim/pmm.h:60-68 | one free frame, or none if and only if there is none |
| `FramePool.Pool.PgFree` | include/aim/pmm.h:70-77 | the frame is free again |
| `PageTable.MakePte` | kern/arch/mips/pgtable.c:105-120 | an entry is never zero; address and permission bits can be read back |
| `PageTable.EntryBits` | kern/arch/mips/pgtable.c:105-120 | bit by bit: an entry is valid, global and cacheable, dirty if and only if the flags allow writing, has no other low bit, and keeps the address |
| `PageTable.LeafIffMapped` | kern/arch/mips/pgtable.c:68-84 | when no leaf table is all zero, a leaf is present if and only if some page under it is mapped |
| `PageTable.TableDetermined` | kern/arch/mips/pgtable.c:35-84 | the flat map and the frames of the leaves determine the table |
| `PageTable.PruneUndoesPrepare` | kern/arch/mips/pgtable.c:172-174 | dropping the all-zero leaves of the range takes a prepared table back to what it was |
| `PageTable.RollbackFaultsIff` | kern/arch/mips/pgtable.c:68-84 | the scan that undoes a first pass reads through an absent leaf if and only if the pass failed at its first page and that page does not start a leaf and has none, or is page 0 of a table with an empty slot |
| `PageTable.FirstPageFaults` | kern/arch/mips/pgtable.c:72-79 | out of frames, mapping a page at 0x100000 in an empty table does so, and at 0x400000 does not |
| `PageTable.TooManyMissing` | kern/arch/mips/pgtable.c:146-149 | a first pass that stops for want of a frame needs more leaf tables than there were frames |
| `PageTable.ProgressStep` | kern/arch/mips/pgtable.c:146-159 | each page of the first pass takes a frame exactly if its leaf was missing |
| `PageTable.MapDone` | kern/arch/mips/pgtable.c:141-170 | both passes together add exactly the range, to pages that were not mapped, and leave no leaf all zero |
| `PageTable.UnmapDone` | kern/arch/mips/pgtable.c:189-211 | clearing an entry and dropping its leaf if it is all zero removes exactly that page |
| `PageTable.NextNeverMatches` | kern/arch/mips/pgtable.c:197-207 | the comparison made for a second page never succeeds |
| `PageTable.Table.IsZero` | kern/arch/mips/pgtable.c:75-78 | the inner loop tells whether the leaf has no entry |
| `PageTable.Table.FreeIntermediate` | kern/arch/mips/pgtable.c:68-84 | exactly the all-zero leaves of the slots scanned go, with 32-bit arithmetic for the last slot, and their frames become free; the flag is set exactly if a slot scanned has no leaf |
| `PageTable.Table.GetPageDesc` | kern/arch/mips/pgtable.c:35-61 | finds or makes the leaf; when each error is returned, and that it then changes nothing |
| `PageTable.Table.Prepare` | kern/arch/mips/pgtable.c:146-159 | the first pass: all-zero leaves added, frames taken for exactly those missing, no page of the range mapped so far, and why it stopped |
| `PageTable.Table.FirstPass` | kern/arch/mips/pgtable.c:141-175 | the first pass with its rollback: everything as before if it fails, and the cause of each error |
| `PageTable.Table.Fill` | kern/arch/mips/pgtable.c:161-168 | the second pass adds exactly the range |
| `PageTable.Table.MapPages` | kern/arch/mips/pgtable.c:122-175 | succeeds if and only if all arguments are page multiples, no page of the range is mapped and there are frames for the missing leaves; adds exactly the range, or leaves table, leaf tables and free frames as they were; the cause of every error; when the rollback reads through an absent leaf |
| `PageTable.Table.Rollback` | kern/arch/mips/pgtable.c:172-174 | a failed first pass is undone, free frames included, and whether the scan read through an absent leaf |
| `PageTable.Table.ClearEntries` | kern/arch/mips/pgtable.c:189-207 | the loop clears the first entry and no other, and panics exactly when a leaf is missing |
| `PageTable.Table.UnmapPages` | kern/arch/mips/pgtable.c:177-212 | for every address and size: removes exactly the prefix of the length it returns, which is one page, or none if the 32-bit end is not above the start; returns the first frame, frees the leaf with its last entry, and panics exactly when a leaf it looks for is missing |
| `Space.FlatDetermined` | kern/mm/uvm.c:225-302 | the areas determine which pages are mapped where |
| `Space.AreaEntry` | kern/mm/uvm.c:268-274 | in a consistent space the entry of every area names its frame and is writable if and only if the area is |
| `Space.ShrinkUndoesGrow` | kern/mm/uvm.c:165-190 | taking out what was put in restores the list, the page table with its leaves, and the free frames |
| `Space.AddPageOk` | kern/mm/uvm.c:251-282 | a frame taken, mapped and entered in the list keeps the space consistent and conserves frames |
| `Space.RemovePageOk` | kern/mm/uvm.c:172-189 | so does an area unmapped and its frame freed |
| `Space.GrownFree` | kern/mm/uvm.c:225-302 | a space that grew took its new frames from the free ones |
| `Space.OtherSpace` | kern/mm/uvm.c:91-447 | what happens in one space keeps every other space consistent and separate from it |
| `Areas.FirstAbove` | kern/mm/uvm.c:121-124 | the first area at or above the end address, all before it being below |
| `Areas.RunFound` | kern/mm/uvm.c:134-163 | consecutive pages in the list are found, at their place |
| `Areas.CreatedFound` | kern/mm/uvm.c:134-163 | destroying a range that was just created finds it, where it was put |
| `Areas.DestroyUndoesCreate` | kern/mm/uvm.c:225-329 | a create and then a destroy of the same range give back the same list, page table, leaf tables and free frames |
| `Areas.EmptyOwned` | kern/mm/uvm.c:91-109 | a space without areas owns its directory and nothing else |
| `Areas.RunTop` | kern/mm/uvm.c:134-163 | consecutive pages contain the last page of the address space if and only if they reach 2^32 |
| `Areas.CanAddFewer` | kern/mm/uvm.c:250-291 | what can be had together with more pages can be had without them |
| `Areas.SlotAfterGrow` | kern/mm/uvm.c:250-282 | after areas were added the table has exactly the leaves it had and those the new pages need |
| `Areas.StillThere` | kern/mm/uvm.c:268-271 | a page that is not among the new ones has an area exactly if it had one before |
| `Areas.NextCost` | kern/mm/uvm.c:250-282 | what the next page costs in frames, whether it collides and whether it reads through an absent leaf, all in terms of the space before the first page was added |
| `Areas.StoppedIff` | kern/mm/uvm.c:250-291 | unless kmalloc failed, the loop stopped after the largest number of pages that can be had |
| `Areas.FaultsWhereStopped` | kern/mm/uvm.c:268-291 | if any page of the list would read through an absent leaf, the loop stopped at that page |
| `Areas.LaterPagesSafe` | kern/mm/uvm.c:250-282 | after the first page of a range, no page but page 0 reads through an absent leaf |
| `Areas.CreatePanicsIff` | kern/mm/uvm.c:250-297 | the loop stops past the last page, unless kmalloc failed, if and only if a place is found, the pages up to 2^32 can be had, there are more of them and all of them cannot be had |
| `Areas.CreateFaultsIff` | kern/mm/uvm.c:250-291 | unless kmalloc failed, a creation that does not stop past the last page has read through an absent leaf if and only if its first page does |
| `Areas.CreateFaultsAbove` | kern/mm/uvm.c:250-291 | above page 0 that is so exactly if a place is found, there is exactly one free frame, and the first page has no leaf and does not start one |
| `Areas.PanicsOverTop` | kern/mm/uvm.c:225-302 | two pages at 0xFFFFF000 of an empty space: a panic with three free frames, none with four |
| `Areas.FaultsInLeaf` | kern/mm/uvm.c:225-302 | with one free frame, a page at 0x100000 of an empty space faults and one at 0x400000 does not |
| `Areas.FewOwned` | kern/mm/uvm.c:225-302 | a space owns at most two frames for each area, and its directory |
| `AddressSpace.Mm.New` | kern/mm/uvm.c:37-54 | an empty, consistent space that took one frame and one object, or null and nothing taken; unless kmalloc fails, null if and only if there is no free frame |
| `AddressSpace.Mm.FindBefore` | kern/mm/uvm.c:111-132 | finds the place for a range, or none if the area before it reaches into it, with 32-bit arithmetic |
| `AddressSpace.Mm.FindContinuous` | kern/mm/uvm.c:134-163 | finds the area at an address if and only if areas at all the following pages follow it in the list |
| `AddressSpace.Mm.TakePage` | kern/mm/uvm.c:252-266 | two objects and a frame, or nothing |
| `AddressSpace.Mm.ReturnPage` | kern/mm/uvm.c:284-289 | gives the three back |
| `AddressSpace.Mm.TakeAndMap` | kern/mm/uvm.c:252-290 | the four stages for one page, undone at any of them; it reads through an absent leaf exactly if no kmalloc failed, there is a frame for the page, its scan comes to an absent leaf, and the page is mapped or its leaf is absent with no second frame |
| `AddressSpace.Mm.AddPage` | kern/mm/uvm.c:251-290 | one page at any of the four stages: all of it or nothing, the cause of each error, and exactly when it reads through an absent leaf |
| `AddressSpace.Mm.UnmapPage` | kern/mm/uvm.c:184-185 | one mapping goes, or the assertion fails, exactly for the last page of the address space |
| `AddressSpace.Mm.RemovePage` | kern/mm/uvm.c:172-189 | one page: its area, mapping, frame and objects go, and nothing else; a panic exactly for the last page of the address space |
| `AddressSpace.Mm.UnmapAndFree` | kern/mm/uvm.c:165-190 | removes exactly n areas from a position, conserving frames; a panic exactly if one of them is the last page |
| `AddressSpace.Mm.AddPages` | kern/mm/uvm.c:250-291 | the loop adds consecutive pages with the given flags; after how many it stopped, why that page could not be had although those before it could, and whether it read through an absent leaf |
| `AddressSpace.Mm.Rollback` | kern/mm/uvm.c:296-297 | the rollback restores list, page table, free frames and heap; a panic exactly if the last page is among the areas |
| `AddressSpace.Mm.CreateUvm` | kern/mm/uvm.c:225-302 | adds exactly the pages of the range at the place found, or changes nothing; when EINVAL and EFAULT are returned; EEXIST only with a page in the way; unless kmalloc fails, success if and only if there is a place, nothing in the way and frames for pages and leaves, and a panic if and only if in addition the pages up to 2^32 can be had, there are more, and all cannot; a read through an absent leaf if and only if kmalloc did not fail and the first page is one that does that |
| `AddressSpace.Mm.AddAllPages` | kern/mm/uvm.c:250-297 | a failure at any page and any stage takes back all pages added before it, and panics exactly if the last page of the address space is one of them; where and why the loop stopped |
| `AddressSpace.Mm.DestroyUvm` | kern/mm/uvm.c:304-329 | removes exactly the areas of the range if all of them are there and it ends below 2^32; EFAULT if and only if they are not all there, and a panic if and only if they are and the range reaches 2^32 |
| `AddressSpace.Mm.DestroyCreated` | kern/mm/uvm.c:225-329 | destroying the range of a successful create restores the list, every translation, the leaf tables and the free frames, and panics instead exactly if the range reaches 2^32 |
| `AddressSpace.Mm.CreateThenDestroy` | kern/mm/uvm.c:225-329 | create followed by destroy of the same range leaves everything as it was, whether or not the create succeeds, unless one of them panics |
| `AddressSpace.Mm.Destroy` | kern/mm/uvm.c:91-109 | the free frames grow by exactly the frames the space owned, leaf tables and directory included, and all its objects are freed; a panic exactly if it has the last page of the address space |
| `AreaOrder.CreateSortedIff` | kern/mm/uvm.c:111-132 | after a successful create on a sorted, disjoint list, the list is sorted and disjoint if and only if the range ends below 2^32, or at 2^32 in an empty space |
| `AreaOrder.UnsortedOverTop` | kern/mm/uvm.c:111-132 | two pages created at 0xFFFFF000 in an empty space end up at 0xFFFFF000 and 0, in that order |
| `AreaOrder.PlaceInOrder` | kern/mm/uvm.c:121-131 | below the top, areas before the place found end by the address and areas after it start at the end |
| `AreaOrder.RefusedIff` | kern/mm/uvm.c:111-132 | on a sorted list a range that ends below 2^32 is refused if and only if some area overlaps it |
| `AreaOrder.NothingInTheWay` | kern/mm/uvm.c:111-132 | a range that overlaps no area has none of its pages in the list |
| `AreaOrder.CreateBelowTop` | kern/mm/uvm.c:225-302 | creating such a range keeps the list sorted, never fails with EEXIST, with EFAULT exactly if an area overlaps it, and unless kmalloc fails with ENOMEM exactly if there are too few frames |
| `UserBytes.SpaceOneToOne` | include/aim/uvm.h:108-118 | no two pages of a space share a frame |
| `UserBytes.ChunkWritten` | kern/mm/uvm.c:490-504 | bytes written to one frame are seen at their user addresses and nowhere else |
| `UserBytes.WroteSlice` | kern/mm/uvm.c:490-504 | pieces of a buffer written one after the other are seen as one range |
| `UserCopy.WalksRightIff` | kern/mm/uvm.c:462-492 | the 32-bit loop goes on, with the right piece, at every stop of the range if and only if the range is empty or ends at or below 0xFFFFF000 |
| `UserCopy.NoRounds` | kern/mm/uvm.c:462-490 | for a non-empty range that goes past 2^32 the loop has no rounds |
| `UserCopy.WalkOverruns` | kern/mm/uvm.c:490-492 | for eight bytes at 0xFFFFFFF0 the loop takes a piece of sixteen |
| `UserCopy.StartsOver` | kern/mm/uvm.c:490-492 | the stop after the last page is user address 0 |
| `UserCopy.VisitsAll` | kern/mm/uvm.c:490 | the loop, if nothing ends it, comes to every page of the address space |
| `UserCopy.WalkEndsIff` | kern/mm/uvm.c:490 | some stop of the loop is at or above its end if and only if it has no rounds or the end is not inside the last page |
| `UserCopy.EndsIffLeafMissing` | kern/mm/uvm.c:490-496 | when the end is inside the last page, the loop comes to a page without a leaf table, which ends it with EACCES, if and only if some leaf table is absent |
| `UserCopy.RunMapped` | kern/mm/uvm.c:470-474 | every address in a run of areas is mapped |
| `UserCopy.TranslateMapped` | kern/arch/mips/pgtable.c:247-257 | a mapped address translates to its frame at the same offset |
| `UserCopy.NextPiece` | kern/mm/uvm.c:490-492 | the piece stays in one page and in the range, and the next stop follows it |
| `UserCopy.WritePiece` | kern/mm/uvm.c:491-502 | one round writes one piece, seen exactly there |
| `UserCopy.WritePieces` | kern/mm/uvm.c:489-507 | the loop writes the whole buffer, seen exactly in the range |
| `UserCopy.AsksFor` | kern/mm/uvm.c:462-470 | in 32-bit arithmetic the code asks for as many pages as the range touches, modulo 2^20, for every range |
| `UserCopy.PagesAsked` | kern/mm/uvm.c:462-470 | the pages asked for are exactly those in which some byte of the range lies |
| `UserCopy.SortedRun` | kern/mm/uvm.c:134-163 | on a sorted list, areas for consecutive pages follow each other |
| `UserCopy.CoveredIff` | kern/mm/uvm.c:462-474 | on a sorted list the pages of a range are found if and only if every byte of it is mapped |
| `UserCopy.FindPages` | kern/mm/uvm.c:462-474 | whether areas cover all pages of the range, for every range |
| `UserCopy.CopyTo` | kern/mm/uvm.c:456-513 | on a sorted list it succeeds if and only if every byte of the range is mapped, and an empty range if and only if the page of its start is; EFAULT exactly if the pages are not areas that follow each other, and then nothing changes; otherwise the user sees the buffer in the range, every other user byte as before, and no frame outside the space changes; EACCES never happens; a range that goes past 2^32 is reported as copied and changes nothing |
| `UserCopy.ReadPiece` | kern/mm/uvm.c:491-500 | one round reads what the user sees |
| `UserCopy.ReadPieces` | kern/mm/uvm.c:489-507 | the loop reads the whole range |
| `UserCopy.CopyFrom` | kern/mm/uvm.c:456-518 | succeeds under the same conditions; then exactly the bytes the user sees, and none for a range that goes past 2^32 |
| `UserCopy.CopyToThenFrom` | kern/mm/uvm.c:510-518 | copying a buffer to user memory and back returns the buffer, for any start and length, if and only if the range does not go past 2^32 |
| `Clone.ClonePanicsIff` | kern/mm/uvm.c:383-441 | unless kmalloc failed, the loop stops after the last page of the address space was cloned if and only if that page is in the source with areas after it, the areas up to it can be had and all of them cannot |
| `Clone.CloneFaultsIff` | kern/mm/uvm.c:383-435 | unless kmalloc failed, a clone reads through an absent leaf if and only if some area does so once those before it have been cloned |
| `Clone.CloneWithoutFault` | kern/mm/uvm.c:383-435 | a clone for which everything can be had does not |
| `Clone.ClonePanicsOverTop` | kern/mm/uvm.c:383-441 | the last page and page 0, cloned in this order into an empty space: a panic with three free frames, none with four |
| `Clone.CloneNeeds` | kern/mm/uvm.c:383-435 | into an empty space a clone can be had if and only if there is a free frame for each area and for each leaf table of the source |
| `Clone.CloneShows` | kern/mm/uvm.c:368-447 | a clone into an empty space maps the same pages and shows the same byte at every address |
| `Clone.CloneStateStep` | kern/mm/uvm.c:386-425 | one more area cloned, without disturbing any frame copied before or any frame that was not free |
| `Clone.ClonePage` | kern/mm/uvm.c:386-433 | one area: a page of its own with the same start, size, flags and bytes, or nothing; the cause of each error and exactly when it reads through an absent leaf |
| `Clone.ClonePages` | kern/mm/uvm.c:383-435 | the loop clones the areas in order; after how many it stopped, why the next could not be had although those before it could, and whether it read through an absent leaf |
| `Clone.CloneAll` | kern/mm/uvm.c:383-441 | the loop with its rollback: all areas or none, or a panic, exactly if it stopped after the last page of the address space was cloned; where and why it stopped |
| `Clone.MmClone` | kern/mm/uvm.c:368-447 | same starts, sizes, flags and order, equal bytes, frames disjoint from the source, source untouched; a failure restores destination, free frames and heap; EEXIST only with a page in the way; unless kmalloc fails, success if and only if nothing is in the way and there are frames for pages and leaves, which into an empty space is one for each area and each leaf table of the source; exactly when it panics and when it reads through an absent leaf |
| `World.Replace` | kern/mm/uvm.c:225-447 | a change in one space that conserves frames keeps all spaces consistent, separate and accounted for |
| `World.Add` | kern/mm/uvm.c:37-54 | so does a new space |
| `World.Drop` | kern/mm/uvm.c:91-109 | and a space torn down |
| `World.FramesLeft` | kern/mm/uvm.c:37-447 | the frames in use are at most as many as the live objects |
| `World.FrameToItself` | include/aim/uvm.h:108-118 | every page of every space has a frame that is not free and that no other page of any space has; its page table names that frame, and is writable there if and only if the area is |
| `Runs.StepSorted` | kern/mm/uvm.c:111-447 | every call that stays below the top keeps every area list sorted and disjoint |
| `Runs.NeverPanics` | kern/mm/uvm.c:57-447 | as long as no space has the last page, a call that stays below it does not panic |
| `Runs.StepTopFree` | kern/mm/uvm.c:225-447 | such a call does not make the last page |
| `Runs.RunTopFree` | kern/mm/uvm.c:37-447 | in every state of every sequence of such calls no space has the last page and no further such call panics |
| `Runs.NeverFaults` | kern/mm/uvm.c:225-447 | with sorted lists, a call that stays below the top reads through no absent leaf if there are as many frames as there would be objects after it |
| `Runs.RunFaultFree` | kern/mm/uvm.c:37-447 | this holds in every state of every sequence of calls that stay below the top |
| `Runs.SafeRunsFinish` | kern/mm/uvm.c:37-447 | a sequence of such calls, with enough frames each time, is performed to its end |
| `Runs.RunSorted` | kern/mm/uvm.c:111-447 | in every state of every such sequence of calls every list is sorted and disjoint |
| `Kernel.System.Step` | kern/mm/uvm.c:37-447 | every call on any of the spaces returns 0 and does what it promises, or returns an error and changes no space, and keeps the invariant over all of them, unless it panics or reads through an absent leaf; unless kmalloc fails, it succeeds, panics and faults each if and only if the state before the call says so |
| `Kernel.System.Run` | kern/mm/uvm.c:37-447 | for every sequence of calls, each call does what its result says, and unless kmalloc failed in it, returned 0 if and only if it could; every state on the way has all spaces consistent, frames pairwise distinct, not free and all accounted for, and two live objects per area plus one per space; it goes to the end unless a call panics or reads through an absent leaf, for the reasons listed |
| `Memmove.LeadUp` | lib/libc/memmove.c:61-71 | after the leading bytes of a forward copy either nothing is left or both addresses are word aligned |
| `Memmove.LeadDown` | lib/libc/memmove.c:89-95 | likewise for a backward copy |
| `Memmove.ExtendUp` | lib/libc/memmove.c:72-80 | going up with the source above, no byte is loaded after it was overwritten |
| `Memmove.ExtendDown` | lib/libc/memmove.c:96-101 | going down with the source below, likewise |
| `Memmove.CopyWord` | lib/libc/memmove.c:78 | one aligned word load and store, also when they overlap |
| `Memmove.BytesForward` | lib/libc/memmove.c:72 | the byte loop extends the region moved |
| `Memmove.WordsForward` | lib/libc/memmove.c:77-78 | the word loop does, with aligned accesses only |
| `Memmove.BytesBackward` | lib/libc/memmove.c:96 | the byte loop downwards |
| `Memmove.WordsBackward` | lib/libc/memmove.c:98-99 | the word loop downwards |
| `Memmove.CopyForward` | lib/libc/memmove.c:57-80 | moves exactly the range when the destination is below the source |
| `Memmove.CopyBackward` | lib/libc/memmove.c:81-102 | moves exactly the range when it is above |
| `Memmove.Memmove` | lib/libc/memmove.c:44-105 | for every length, alignment and overlap the destination receives the original source bytes and nothing else changes |
| `Words.Ffs` | include/bitops.h:93-124 | 0 for the zero word, otherwise the 1-based position of the lowest set bit |
| `Words.ByteCounts` | include/bitops.h:201-203 | after three stages each byte holds the number of set bits of that byte of the word |
| `Words.AddUp` | include/bitops.h:204-205 | the last two stages add the four bytes up |
| `Words.Hweight` | include/bitops.h:198-209 | the parallel sums give the number of set bits |
| `Bitmap.KeepLow` | kern/lib/libbitmap/bitmap_find_next_bit.c:56 | the mask keeps exactly the bits below the size |
| `Bitmap.DropLow` | kern/lib/libbitmap/bitmap_find_next_bit.c:37 | the mask drops exactly the bits below the offset |
| `Bitmap.ScanWords` | kern/lib/libbitmap/bitmap_find_next_bit.c:45-60 | the word scan finds the first set bit below the size, or tells that there is none |
| `Bitmap.LastWord` | kern/lib/libbitmap/bitmap_find_next_bit.c:55-60 | so does the masked last word |
| `Bitmap.FindFirst` | kern/lib/libbitmap/bitmap_find_first_bit.c:22-43 | the 1-based position of the first set bit below the size, or 0 if there is none |
| `Bitmap.FindNext` | kern/lib/libbitmap/bitmap_find_next_bit.c:22-61 | the first set bit at or after a 1-based offset, 0 if there is none or the offset is 0 |
| `Bitmap.OnesMasked` | kern/lib/libbitmap/bitmap_weight.c:42-43 | the last-word mask counts exactly the bits below the size |
| `Bitmap.CountBits` | kern/lib/libbitmap/bitmap_weight.c:35-46 | the number of set bits below the size |
| `Bitmap.VisitAll` | kern/lib/libbitmap/bitmap_find_next_bit.c:22-61 | stepping with find-first and find-next visits every set bit below the size exactly once, in increasing order, as many as the weight |

## Left out

- PageTable.Table.MapPages: requires that the range does not wrap around 2^32; callers in uvm.c map one page at a time, and a wrapping range would leave the rollback an empty range of directory slots.
- PageTable.Table.UnmapPages: what the table looks like after a panic is not stated.
- PageTable.Table.FreeIntermediate: an absent leaf is taken to have nothing to free; what the code does with the words it reads through the missing pointer is not modelled, only when it reads them.
- AddressSpace.Mm.FindBefore: the search reads start and size of the list head, which lie outside the structure; the head is taken to end at address 0.
- AddressSpace.Mm.FindContinuous: likewise the head is taken to match no address.
- AddressSpace.Mm.CreateUvm: that kmalloc fails is a cause of ENOMEM that the model leaves open; what it counts is how often that happened. A kmalloc that succeeds may itself take a page from the page allocator (kern/mm/vmm/simple.c:140), and the model does not count that page: the numbers of free frames here, and every "if and only if" about them, are for frames that kmalloc does not take.
- AreaOrder.CreateBelowTop: likewise.
- Clone.MmClone: likewise.
- Runs.SafeRunsFinish: likewise, the frames are those that kmalloc does not take; and what a call does after it has read through an absent leaf is not modelled.
- UserCopy.CopyTo: a range that ends inside the last page of the address space is excluded, because there the loop reads past the end of the caller's buffer; where it goes is stated, what it copies is not.
- UserCopy.CopyFrom: likewise, because there the loop writes past the end of the caller's buffer.
- UserCopy.CopyToThenFrom: likewise.
- Slab.RunKeeps: assumes that the page allocator supplies a page when one is needed; what becomes of one failure there is stated, what happens afterwards is not.
- Slab.RunObjects: likewise.
- FramePool.Pool.PgAlloc: stands for the page allocator, of which PageAllocator proves the same contract; `kmalloc` is an allocation that may fail at any time. The mutual recursion of the two allocators is not modelled.
- Physical frames lie below 4 GiB, where an entry of the page table can name them; `premap_addr`, `pa2kva` and `kva2pa` are the identity.
- Null pointers and `kernel_mm`, which the address-space routines refuse or ignore at once.
- Reference counts above one: `share_uvm` and everything else that makes two areas share a frame.
- The area list's back pointers and the share lists; lists are sequences.
- Filling: `pmemset`, `GFP_ZERO`, the junk byte of `free_pages`, `fill_uvm`.
- The fast path of the copy routines for the current process, and agreement of the TLB with the page table.
- `set_uvm_perm` and `set_pages_perm`; the loop of the former never advances to the next area.
- Liveness under a scheduler: for the locks it is proved that no CPU is without a step and that every run can go on to where a CPU gets in, not that a given schedule takes it there.
- Memory order weaker than sequential consistency; the critical accesses are surrounded by `sync`.
- Overflow of `depth`, `val` and `num`, which are unbounded integers here.
- `spin_is_locked`, `ksize`, interrupt state saving around the locks.
- `page_allocator_move`, `get_plain_object` and the bootstrap allocator; descriptors are fresh objects.
- The other bitmap operations, find-last-set, and the instruction-based find-first-set.
- The i386 back end, the scheduler, processes, traps, kernel mappings, the boot loader, devices and the console.
