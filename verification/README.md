# Two fixed-arena allocators, modelled in Dafny

This project models the two user-space allocators of the repository. Each one
manages a single arena obtained once from the system allocator and hands the
benchmark driver four entry points: `my_allocator_init`, `my_malloc`,
`my_free` and `my_allocator_destroy`. The model covers the first three;
destroy is left out.

- **t1.c, fixed-slot pool (`SlotPool`, slot_pool.dfy).**
  - The arena is cut into `capacity / 1048` slots. Each slot is a 24-byte header followed by a 1024-byte body.
  - Free slots are threaded into a singly-linked free list. `first_free_block` points at its head.
  - `my_malloc` hands out the head slot. It then walks the links to re-anchor the head at the next unallocated slot.
  - `my_free` marks the slot free. A forward stride scan links the slot to the nearest free slot above it. A backward stride scan makes the nearest free slot below it point back at it, or makes the slot the new head.
- **t2.c, variable-size splitting allocator (`SplitHeap`, `SplitAllocator`, split_heap.dfy and split_allocator.dfy).**
  - The arena starts as one free block.
  - Blocks form a doubly-linked list of 40-byte headers.
  - `my_malloc` searches first-fit and splits the chosen block into an allocated part and a free remainder.
  - `my_free` marks the block free and coalesces it, first leftward, then rightward, through `merge_with_left_block`.
- **The layout invariant of t2.c (`SplitInvariant`, split_invariant.dfy).** The header list tiles the arena:
  - every `prev` link is the list predecessor;
  - every block ends where the next header starts;
  - every allocated header is listed.

  `my_free` keeps this invariant. `my_malloc` as written does not. The module also gives the repaired versions of both operations.
- **Two concrete runs of t2.c (`SplitFinding`, split_finding.dfy).** They show the two defects listed under Findings.

Modelling choices:

- Pointers are byte offsets from the start of the arena. NULL is `None`, or `Null` for slot links.
- Sizes are unbounded naturals.
- The t2.c headers are kept in a map from offset to header. A header that a merge unlinks stays in the map, because its bytes stay in the arena and a stale `prev` link can still reach them.
- The t1.c slot table is a sequence of headers. A link is the index of the slot it points at.
- Every operation is a pure function from the allocator state to the new state and result.

Four quirks of the code, which the model follows:

- **t2.c:110 (initial block size).** my_allocator_init gives the first block the whole capacity as its size, not the capacity less one header. So the list accounts for one header more than the arena holds. `SplitInvariant.TightFootprint` states this.
- **t2.c:48-54 (split links).** The split does not update the old successor's `prev` (Findings).
- **t2.c:93-99 (right loop).** The rightward loop does not stop at an allocated neighbour (Findings).
- **t1.c:117 (last slot link).** The last slot of the pool links one slot past the end instead of to NULL. The test for the last index can never be true inside the loop.

## Model

| member | source | states |
|---|---|---|
| SlotPool.Init | t1.c:106-126 | no pool when the capacity holds no full slot; otherwise floor(capacity/1048) slots, all free, each linked to the next, the last one past the end, with the head at slot 0 |
| SlotPool.NextUnallocated | t1.c:43-52 | the walk ends at an unallocated slot at or after its start |
| SlotPool.NextUnallocatedIsFirstOnPath | t1.c:43-52 | the slot the walk stops at is the first unallocated slot on the link path from its start |
| SlotPool.ExhaustedPoolHasNoReachableFree | t1.c:43-51 | when every slot is allocated, no free slot is reachable along the links, so the walk has nowhere to stop |
| SlotPool.NoFreeAboveUnreachable | t1.c:43-51 | when every slot above a slot is allocated, no free slot is reachable from it along the forward links |
| SlotPool.LastFreeSlotNotServed | t1.c:38-51 | when the head is the only free slot, the walk that follows handing it out finds no free slot in the pool; a one-slot pool from init is in this state from the start |
| SlotPool.Malloc | t1.c:31-59 | a request over 1024 bytes returns NULL and changes nothing; otherwise the head slot's body is returned, that slot becomes allocated with a cleared link, the new head is a later unallocated slot, and no other slot changes |
| SlotPool.MallocReanchorsAtFirstFreeOnPath | t1.c:38-52 | the new head is the first unallocated slot after the returned one along the old links |
| SlotPool.ScanAhead | t1.c:69-83 | the forward stride scan finds the nearest unallocated slot above the freed one, or the past-the-end index when all slots above it are allocated |
| SlotPool.ScanBehind | t1.c:85-99 | the backward stride scan finds the nearest unallocated slot below, or reports that every slot below is allocated |
| SlotPool.ReleaseSlot | t1.c:66-83 | the freed slot becomes unallocated and links to the nearest unallocated slot above it; every other slot is untouched |
| SlotPool.Free | t1.c:61-104 | the pool stays valid; the freed slot is unallocated and linked to the nearest free slot above it; no other slot's allocated flag changes |
| SlotPool.FreeRepairsPredecessor | t1.c:85-99 | with no free slot below, the freed slot becomes the head and nothing else changes; otherwise the nearest free slot below links to it, the head stays, and no third slot changes |
| SlotPool.BodySlotRoundTrip | t1.c:58-67 | the body address handed out for a slot leads back to that same slot when stepped back by one header |
| SlotPool.SlotBodyRoundTrip | t1.c:66-67 | every body address is the body of the slot recovered from it |
| SlotPool.MallocThenFree | t1.c:38-67 | freeing the pointer just returned releases exactly the slot that was taken |
| SlotPool.FreshPoolRoundTrip | t1.c:31-126 | on a fresh pool of at least two slots, my_malloc returns the body of slot 0, my_free of it restores the pool exactly as init left it, and my_malloc again returns the same address |
| SplitHeap.Chain | t2.c:31-41 | the headers reached from a header along `next` links form a chain that ends at a header with no `next` |
| SplitHeap.ChainUnique | t2.c:31-41 | any chain through sound links is the one the traversal computes |
| SplitHeap.ChainIncreasing | t2.c:47-54 | along sound links, list offsets strictly increase |
| SplitAllocator.Init | t2.c:105-116 | one free header at offset 0 with no links, body right after it, and block size equal to the whole capacity; the list is that header alone and accounts for capacity plus one header |
| SplitAllocator.FindFit | t2.c:31-41 | the search returns a header at or after its start that is free and holds the request plus a header |
| SplitAllocator.FindFitIsFirstFit | t2.c:31-41 | the search returns the first fitting header of the list, and fails only when no header fits |
| SplitAllocator.Split | t2.c:47-57 | the chosen header becomes allocated with exactly the requested size and links to a new free remainder header; the remainder takes over the old `next` and the rest of the size; no other header changes |
| SplitAllocator.SplitOrdered | t2.c:47-57 | a split keeps every header link sound when the split block does not run past its successor |
| SplitAllocator.Malloc | t2.c:26-66 | NULL leaves the state unchanged; otherwise the returned pointer is one header past a free header that fits, whose remainder header lies within max_address_of_pool, and that header is the one split |
| SplitAllocator.MallocIsFirstFit | t2.c:31-45 | a pointer comes back exactly for the first fitting header; NULL means no header fits, or the first fitting one would put the remainder header past max_address_of_pool |
| SplitAllocator.SplitList | t2.c:47-57 | splitting the k-th listed header inserts the remainder right after it, keeps every block within its successor, and keeps the footprint |
| SplitAllocator.MallocSplitsList | t2.c:47-54 | on success the new list is the old one with the remainder header inserted right after the allocated header |
| SplitAllocator.MallocKeepsFootprint | t2.c:47-57 | my_malloc keeps the total bytes the list accounts for and keeps every listed block within its successor |
| SplitAllocator.MergeWithLeft | t2.c:68-75 | the `prev` header takes the merged header's `next` and absorbs its block and header; the following header points back at that `prev`; nothing else changes |
| SplitAllocator.MergeKeepsLinks | t2.c:68-75 | a merge keeps every header link sound |
| SplitAllocator.MergeUnlinks | t2.c:68-75 | merging a header into its list predecessor removes exactly that header from the list |
| SplitAllocator.MergeFootprint | t2.c:69-70 | such a merge keeps the footprint of the list |
| SplitAllocator.MergeSpans | t2.c:68-75 | such a merge keeps every listed block within its successor |
| SplitAllocator.CoalesceLeft | t2.c:85-91 | the left loop keeps links sound and allocated flags, stops at a header whose `prev` is missing or allocated, ends at a free header when it starts at one, and never resizes an allocated header |
| SplitAllocator.CoalesceRight | t2.c:93-99 | the right loop keeps links sound and allocated flags, and stops at a header whose `next` is missing or allocated |
| SplitAllocator.Release | t2.c:82-83 | only the freed header's allocated flag changes |
| SplitAllocator.Free | t2.c:77-103 | no header appears or disappears, links stay sound, the freed header is free, and no other header's flag changes |
| SplitAllocator.MallocFreeRecoversHeader | t2.c:82-83 | the header my_free recovers from a returned pointer is the allocated header whose body starts there, and my_free frees it |
| SplitInvariant.InitInv | t2.c:105-116 | init establishes the layout invariant with no live block |
| SplitInvariant.FreshArenaRoundTrip | t2.c:26-116 | on a fresh arena with room for the request, my_malloc returns the body after the header at 0, my_free of it leaves the list as the single header at 0 exactly as init made it, and my_malloc again returns the same address |
| SplitInvariant.ListedBlocksDisjoint | t2.c:47-57 | under the layout, listed blocks never overlap and none ends more than one header past max_address_of_pool |
| SplitInvariant.TightSpans | t2.c:43-57 | under the layout, no listed block runs past its successor, which is what my_malloc's split needs |
| SplitInvariant.TightFootprint | t2.c:110-115 | under the layout, the list accounts for exactly the capacity plus one header |
| SplitInvariant.ReleaseTight | t2.c:82-83 | marking the header free keeps the layout and drops it from the live set |
| SplitInvariant.MergeTight | t2.c:68-75 | a merge through an exact `prev` link keeps the layout, removes the merged header from the list and from the live set |
| SplitInvariant.CoalesceLeftTight | t2.c:85-91 | the left loop keeps the layout and the live set, and ends on a listed header |
| SplitInvariant.CoalesceRightTight | t2.c:93-99 | the right loop as written keeps the layout and the live set |
| SplitInvariant.FreeKeepsInv | t2.c:77-103 | my_free keeps the layout invariant and removes exactly the freed block from the live set |
| SplitInvariant.CoalesceRightStaying | t2.c:93-99 | repaired right loop: links stay sound, flags are kept, only the cursor header can change size, and it stops where the `next` header is missing, allocated or not linked back |
| SplitInvariant.CoalesceRightStayingTight | t2.c:93-99 | under the layout the repaired right loop keeps the layout and the live set |
| SplitInvariant.CoalesceRightStayingStops | t2.c:93-99 | under the layout the repaired right loop leaves no free block right after the coalesced one |
| SplitInvariant.FreeCoalesced | t2.c:77-103 | repaired my_free: as my_free, and in addition no other allocated header changes size |
| SplitInvariant.FreeCoalescedKeepsInv | t2.c:77-103 | the repaired my_free keeps the layout invariant and removes exactly the freed block from the live set |
| SplitInvariant.Relink | t2.c:47-54 | repaired split: as the split, and in addition the old successor's `prev` points at the remainder; links stay sound |
| SplitInvariant.MallocRelinked | t2.c:26-66 | the repaired my_malloc returns the same result as my_malloc and writes the repaired split |
| SplitInvariant.RelinkTight | t2.c:47-57 | the repaired split keeps the layout with the remainder inserted right after the split header |
| SplitInvariant.MallocRelinkedKeepsInv | t2.c:26-66 | the repaired my_malloc keeps the layout invariant |
| SplitInvariant.MallocRelinkedAllocates | t2.c:54-57 | the repaired my_malloc adds exactly the chosen header to the live set, and that header was not live before |
| SplitInvariant.MallocRelinkedBody | t2.c:55-56 | the block handed out starts at the returned pointer and holds exactly the requested size |
| SplitInvariant.MallocFailsOnlyWhenFull | t2.c:34-45 | under the layout the bound test never fails: my_malloc returns NULL exactly when no listed header is free and large enough |
| SplitFinding.FirstMallocLeavesStalePrev | t2.c:47-54 | from a state satisfying the layout, my_malloc(10) returns 40 and breaks the layout: the old successor still points back at the split header |
| SplitFinding.FirstMallocRelinked | t2.c:47-54 | the repaired split on the same state keeps the layout and points the successor at the remainder |
| SplitFinding.StalePrevRun | t2.c:26-99 | from the starting layout, my_malloc(10), my_malloc(5), my_free(40), my_free(180) return 40 and 90 and end in the state where 140 has been merged into 0 |
| SplitFinding.SecondFree | t2.c:85-91 | my_free(180) follows the stale link and merges the block at 140 into the block at 0 |
| SplitFinding.StalePrevSwallowsLiveBlock | t2.c:85-91 | afterwards the live block at 50 is unlisted and covered by the free block at 0, and my_malloc(20) returns 40, whose bytes run into its header |
| SplitFinding.ThirdFree | t2.c:82-99 | after the stale-link run, my_free(90) merges the block at 50 into 0 through its `prev`, then the block at 95 |
| SplitFinding.ThirdFreeBreaksSpans | t2.c:82-99 | the resulting list is 0, 140 and block 0 runs past the header at 140 |
| SplitFinding.GrowingFree | t2.c:93-99 | on a layout state with blocks alternately allocated and free, my_free(40) merges the free block at 300 into the live block at 200 |
| SplitFinding.RightLoopGrowsLiveBlock | t2.c:93-99 | the live block at 200 grows from 60 to 800 bytes, and my_malloc(200), which succeeded before, now returns NULL |
| SplitFinding.RightLoopRepaired | t2.c:93-99 | the repaired my_free on the same state leaves the block at 200 at 60 bytes, and my_malloc(200) still succeeds |

## Left out

- Locking. The mutex and the `_Thread_local` variant are concurrency. Every operation is modelled as one atomic step. The NULL returns of t2.c my_malloc (lines 35-37 and 43-44) leave the mutex locked, and that is not modelled either.
- The system allocator. my_allocator_init obtains `sizeof(char *) * size` bytes and never checks the result. The model starts from the arena and does not model the eightfold over-allocation or allocation failure.
- my_allocator_destroy. It is a single call to the system allocator's `free`. t2.c:119 frees the arena start. t1.c:129 frees `first_free_block`, the current free head, which is the arena start only while the head is slot 0. my_malloc (t1.c:45) and my_free (t1.c:89) move the head, so after them the call passes an interior pointer and is undefined.
- The benchmark driver. It only calls the four entry points.
- Machine integers. Sizes and offsets are unbounded. The `size_t` wrap of `size + sizeof(block_header)` for huge requests is not modelled. Neither is the `int32_t` truncation of the slot count in t1.c:107.
- Overlapping header bytes. In t2.c a header written over the bytes of another header would overwrite it. The map keeps such headers as separate records. This also happens under the layout invariant: init(1000), my_malloc(100), my_malloc(100), my_free(40), my_free(180), my_malloc(120) leave the record at 140, unlinked by a merge, overlapping the new remainder record at 160. Under the invariant, the overwritten record is unlisted and no exact link reaches it. So the difference can show only through a stale `prev` link or a free of a pointer that is not live.
- SlotPool.ScanAhead. The forward scan tests for NULL, which a stride address never is. It stops at the past-the-end index of the pool, whereas the source keeps reading. my_allocator_init obtains eight times the capacity (t1.c:111), so the scan first reads past the pool into the uninitialised rest of that buffer. It stops at the first stride there whose bytes read as unallocated, and leaves the buffer only if none does. Past the pool the model links to the past-the-end index, the same link init gives the last slot.
- SlotPool.Malloc: requires a free slot reachable along the links from the head, not counting the head itself. The source does hand out the last free slot (t1.c:38-39, 58). Its re-anchoring walk then follows the links past that slot and reads beyond the pool (t1.c:51), which the model does not follow. So an N-slot pool serves at most N - 1 requests in the model, and a one-slot pool from init serves none (`SlotPool.LastFreeSlotNotServed`). `SlotPool.ExhaustedPoolHasNoReachableFree` applies to the table after the head is marked allocated, which `SlotPool.Malloc` relates to the original table through `SlotPool.FreeReachableFrame`.
- SlotPool.Free: requires `ptr` to be a slot body of the pool. The source does pointer arithmetic on any pointer, and freeing anything else is undefined.
- SplitAllocator.Malloc: requires every listed block to end at or before its successor. The source has no precondition. But in states where blocks overlap, the split can write a header whose links are no longer ordered, and the model keeps links ordered. The layout invariant implies the requirement (`SplitInvariant.TightSpans`). The as-written my_free can break it through a legitimate call. After the stale-link run, freeing the block at 50, which my_malloc(5) handed out, leaves the list 0, 140 with block 0 ending past 140 (`SplitFinding.ThirdFreeBreaksSpans`). From there on, the as-written my_malloc is outside the model.
- SplitAllocator.Free: requires a header one header-size before `ptr`. Freeing anything else is undefined in the source. The contract states link soundness and the flags. That the layout is kept is stated separately, under the invariant, by `SplitInvariant.FreeKeepsInv`.

## Findings

| source | as written | input that shows it | evidently intended | confidence | as-written member | corrected member |
|---|---|---|---|---|---|---|
| t2.c:47-54 | the split links the remainder to the old successor, but never points that successor's `prev` back at the remainder | from a layout state with a free block at 0 (100 bytes) and a live block at 140 in a 1000-byte arena: my_malloc(10), my_malloc(5), my_free(40), my_free(180); the live block at 50 ends up inside a free block, and my_malloc(20) returns 40 over its header | the old successor's `prev` points at the remainder, so the list stays doubly linked and my_free merges only list neighbours | not executed | SplitFinding.StalePrevSwallowsLiveBlock | SplitInvariant.MallocRelinked |
| t2.c:93-99 | after merging the free right neighbour, the loop moves to the new right neighbour even when it is allocated, and goes on merging free blocks into it | from a layout state with blocks at 0 (live), 100 (free), 200 (live, 60 bytes) and 300 (free, 700 bytes): my_free(40) grows the live block at 200 to 800 bytes, and my_malloc(200) then returns NULL | the loop stays on the freed header and stops at the first allocated neighbour, so no live block changes size | not executed | SplitFinding.RightLoopGrowsLiveBlock | SplitInvariant.FreeCoalesced |

`SplitInvariant.MallocRelinkedKeepsInv` proves that the repaired split keeps the layout invariant. `SplitInvariant.FreeCoalescedKeepsInv` does the same for the repaired my_free. The contract of `SplitInvariant.FreeCoalesced` states that no other live block changes size.
