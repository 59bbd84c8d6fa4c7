# A model of malloc.c, a boundary-tag heap allocator

`malloc.c` is a single-threaded allocator. It works over one flat region of memory,
obtained from the system with `sbrk`. Every block carries two tags:

- a header: the usable size, with the free flag in its low bit, followed by the
  `next` and `prev` links of a doubly linked free list;
- a footer: a copy of the size word after the data.

Five globals describe the heap: `heap`, `heap_end`, `first`, `last` and `free_list`.

- `Malloc` walks the free list for a first fit and may split it. On a miss it carves
  a fresh block after the last one, growing the break until the block fits.
- `Free` coalesces the freed block with a free neighbour on either side, using the
  footer in front of it and the header behind it.

The model follows the code as written. Where the code does not do what its comments,
constants and driver expect, the lemmas show what it does instead:

- a block found on the free list is never taken off it: `MallocHitStaysListed`,
  `ReuseSplit`;
- Malloc never writes a footer's size word, it only clears the flag: `InUse`,
  `CarvedAfterLast`, `SplitLeaves`; so Free, which finds the block in front through
  that footer, can land inside another block's data: `PrevOfSecondBlock`;
- the split test counts a 24-byte header, so the remainder claims 16 bytes past the
  block it came from: `SplitTestMeaning`, `ReuseSplit`;
- a hit without a split shrinks the block to the request: `ReuseNoSplit`;
- `round()` truncates to 32 bits: `RoundTruncates`, `RequestTruncates`,
  `MallocShortBlock`.

Together these break the reuse loop of the driver (malloc.c:260-268). From a fresh
heap:

1. Malloc(16) carves a block.
2. Free puts it on the free list.
3. Malloc(16) finds it and hands out the same pointer, but leaves it on the list.
4. Free pushes it onto the list it already heads, so the block becomes its own
   successor.
5. Malloc(24) then walks that cycle for ever.

`Driver.ReuseLoopHangs` proves this.

## Structure

- `words.dfy` (`Words`): the constants, the size word and its flag, `round()`, and
  uint64_t wrap-around.
- `region.dfy` (`Region`): the state, word loads and stores, the address helpers,
  `Sbrk`, `init` and the growth loop.
  - Addresses are the byte addresses the C code computes.
  - A load or store outside the heap, or at a misaligned address, is `Fault`. C leaves
    such an access undefined.
  - A walk that never ends is `Hang`.
- `freelist.dfy` (`FreeList`, `FreeListLemmas`):
  - `add_to_free_list` and `remove_from_free_list`, each split into its C steps;
  - a ghost sequence of nodes and the well-formedness predicate `ListWF`;
  - what each operation does to a well-formed list.
- `alloc.dfy` (`Alloc`): Malloc and Free as functions from the state before a call
  to the state (and pointer) after it, step for step.
- `malloc_lemmas.dfy`, `reuse_lemmas.dfy`, `free_lemmas.dfy`: what Malloc and Free
  do, path by path.
- `driver.dfy` (`Driver`): the scenario of the driver's second loop.
- `heap.dfy` (`HeapObject`): the allocator as C runs it.
  - One object, `Heap`, holds the words and the globals as fields.
  - Its methods update the fields statement by statement, including the first-fit
    walk and the growth loop as `while` loops.
  - Each method is proved to leave exactly the state, and return exactly the value,
    that the function of the same name in `Alloc`, `FreeList` or `Region` computes.
    So every lemma about those functions holds of the object too.
  - `Heap.Malloc` also states the in-use property of the block it returns.

## Model

| member | source | states |
|---|---|---|
| Words.SizeOfWord | malloc.c:37-41 | get_size: the size word with the low bit cleared; it is even and at most one below the word |
| Words.SetFreeWord | malloc.c:25-29 | set_free: the flag is set, the size stays the same, and a word already free is unchanged (idempotent) |
| Words.SetUsedWord | malloc.c:31-35 | set_used: the flag is clear, the size stays the same, and a word already clear is unchanged (idempotent) |
| Words.IsFreeWord | malloc.c:20-23 | is_free: the low bit of the size word; Words.SetFreeWord and Words.SetUsedWord state that they set and clear exactly this bit |
| Words.AlignedSizeWord | malloc.c:161-163 | a multiple of 8 stored as a size word carries no flag, so set_used leaves it as it is |
| Words.Wrap64 | malloc.c:152-156 | uint64_t arithmetic: the result is in [0, 2^64), congruent to the exact value, and equal to it when that is in range |
| Words.Round | malloc.c:79-82 | round(): a multiple of 8 below 2^32, at least the size and less than the size + 8, whenever the size + 7 is below 2^32 |
| Words.AlignedTruncation | malloc.c:81 | clearing the low 3 bits and truncating to 32 bits leaves a multiple of 8, at least x - 7, and leaves values below 2^32 untruncated |
| Words.RoundTruncates | malloc.c:80-81 | for 2^32 <= size: round(size) < size and equals round(size - 2^32); it is 0 for 2^32 and when size + 7 wraps |
| Region.Load | malloc.c:21-23 | a read succeeds exactly on addressable words and yields the stored word |
| Region.Store | malloc.c:161 | a word write succeeds exactly on addressable words, changes that word and no other, and leaves the globals alone |
| Region.SetFreeAt | malloc.c:25-29 | the word gets SetFreeWord of itself; every other word and every global is unchanged |
| Region.SetUsedAt | malloc.c:31-35 | the word gets SetUsedWord of itself; every other word and every global is unchanged |
| Region.IsFreeAt | malloc.c:20-23 | is_free on the word at an address, a fault where it cannot be read (what Free makes of it: FreeLemmas.NeighbourFreeMeans) |
| Region.SizeAt | malloc.c:37-41 | get_size on the word at an address, a fault where it cannot be read (the sizes a walk reads: ReuseLemmas.FirstFit, ReuseLemmas.MallocFirstFit) |
| Region.FooterFromHeader | malloc.c:50-53 | the footer sits 8 bytes past the header plus the header's size (stated with its inverse in Region.FooterHeaderRoundTrip) |
| Region.HeaderFromFooter | malloc.c:55-58 | the header sits 8 bytes before the footer less the footer's own size word (Region.FooterHeaderRoundTrip; read from a never-written footer: Driver.PrevOfSecondBlock) |
| Region.HeadAddr | malloc.c:60-63 | the header 8 bytes before a data pointer (its inverse: Region.DataAddr) |
| Region.NextAvailable | malloc.c:70-77 | the heap base while there is no block, else the address past the last block's footer (MallocLemmas.MallocFresh, MallocLemmas.CarvePlace) |
| Region.Grow | malloc.c:168-173 | the Sbrk loop until the need fits below heap_end (Region.GrowSpec states what it leaves) |
| Region.DataAddr | malloc.c:60-68 | head_addr(data_addr(h)) == h |
| Region.FooterHeaderRoundTrip | malloc.c:50-58 | get_header_from_footer(get_footer_from_header(h)) == h when the footer's size equals the header's |
| Region.Fresh | malloc.c:43-48 | the state before the first call satisfies the invariant Valid |
| Region.Sbrk | malloc.c:84-93 | Sbrk fails exactly when the break cannot rise by 1024; on success heap_end rises by exactly 1024, on failure nothing changes |
| Region.Init | malloc.c:122-134 | init on an uninitialised heap succeeds exactly when 1024 bytes are available, giving heap_end - heap == 1024; it changes no word or list global |
| Region.GrowSpec | malloc.c:168-173 | the growth loop moves only heap_end, by a multiple of 1024, never past what is needed; it succeeds iff the block fits; after a failure the break can rise no further |
| FreeList.MarkFree | malloc.c:103-104 | header and footer gain the flag; nothing else changes |
| FreeList.MarkUsed | malloc.c:118-119 | header and footer lose the flag; nothing else changes |
| FreeList.PushFront | malloc.c:96-102 | the block becomes the head of the list; the heap bounds, first and last stay (the links it writes: FreeListLemmas.PushFrontLinks) |
| FreeList.AddToFreeList | malloc.c:95-105 | the block becomes the head of the list; the heap bounds, first and last stay (its words: FreeListLemmas.AddToFreeListPushes) |
| FreeList.UnlinkFromNext | malloc.c:109-111 | no global changes, not even the list head |
| FreeList.UnlinkFromPrev | malloc.c:112-114 | no global changes, not even the list head |
| FreeList.AdvanceHead | malloc.c:115-117 | no word of memory changes, only the list head may |
| FreeList.RemoveFromFreeList | malloc.c:107-120 | the heap bounds, first and last stay (what it does to the list: FreeListLemmas.RemoveFromFreeListUnlinks) |
| FreeListLemmas.AddToFreeListPushes | malloc.c:95-105 | on a well-formed list L and a block apart from L, the list becomes [b] + L and b is flagged free; no other word changes except b's links and the old head's prev |
| FreeListLemmas.RemoveFromFreeListUnlinks | malloc.c:107-120 | on node k of a well-formed list: the list becomes L without node k, the head advances iff k is the head, the neighbours bypass it, its header and its footer lose the free flag, and no other word changes |
| FreeListLemmas.AddHeadAgain | malloc.c:95-105 | adding the block that already heads the list makes it its own next and prev, so no sequence is a well-formed list any more |
| FreeListLemmas.MarkFreeAgain | malloc.c:158-159 | set_free on a header and footer that are already free changes no word |
| FreeListLemmas.MarkFreeAfterAdd | malloc.c:157-159 | the set_free calls just after add_to_free_list change no word |
| FreeListLemmas.PushFrontLinks | malloc.c:96-102 | the linking half alone turns a well-formed L into [b] + L |
| FreeListLemmas.ListWFFrame | malloc.c:95-120 | a well-formed list survives any change that leaves its link words and its head alone |
| Alloc.Request | malloc.c:143-146 | the size Malloc looks for is a multiple of 8 below 2^32 |
| Alloc.Scan | malloc.c:147-167 | a non-NULL result of the walk names a block whose size is at least the request |
| Alloc.RemainderAt | malloc.c:155 | the remainder's header past the request and a footer (its place against the found block: ReuseLemmas.SplitIfRoomSplits, ReuseLemmas.ReuseSplit) |
| Alloc.RemainderSize | malloc.c:156 | the remainder's size in uint64_t arithmetic; it is size - request on a split (ReuseLemmas.SplitIfRoomSplits, ReuseLemmas.SplitTestMeaning) |
| Alloc.SplitIfRoom | malloc.c:152-159 | the split keeps the heap bounds; the test and the split it makes: ReuseLemmas.SplitTestMeaning, ReuseLemmas.SplitIfRoomSplits, ReuseLemmas.SplitPushes |
| Alloc.Reuse | malloc.c:150-164 | a hit keeps the state valid; what it hands out and leaves: MallocLemmas.ReuseBlock, ReuseLemmas.ReuseSplit, ReuseLemmas.ReuseNoSplit |
| Alloc.Resize | malloc.c:161-163 | it succeeds iff header and footer can be read; the header gets the size with the flag clear, the footer that size places only loses its flag, and no other word or global changes |
| Alloc.Carve | malloc.c:168-181 | a carve keeps the state valid; where it places the block, the words it writes and its refusal: MallocLemmas.CarvePlace, MallocLemmas.CarveWords, MallocLemmas.CarveRefused |
| Alloc.Split | malloc.c:155-159 | the split keeps the heap bounds (its words: ReuseLemmas.SplitPushes) |
| Alloc.Coalesce | malloc.c:208-212 | the common tail of a merge keeps the heap bounds (its words: FreeLemmas.CoalesceWords) |
| Alloc.Retag | malloc.c:208-211 | the retag keeps the heap bounds (its words: FreeLemmas.RetagWords) |
| Alloc.MergeAll | malloc.c:199-212 | the merge keeps the heap bounds; what it does: FreeLemmas.MergeAllMerges |
| Alloc.MergeWithPrev | malloc.c:213-224 | the merge keeps the heap bounds; what it does: FreeLemmas.MergeWithPrevMerges |
| Alloc.MergeWithNext | malloc.c:225-236 | the merge keeps the heap bounds; what it does: FreeLemmas.MergeWithNextMerges |
| Alloc.Release | malloc.c:237-241 | the release keeps the heap bounds; what it does: FreeLemmas.ReleasePushes, FreeLemmas.FreeAlone |
| Alloc.PrevBlock | malloc.c:192-195 | NULL for the first block, else the header found through the footer in front (FreeLemmas.NeighbourRoundTrip; on a never-written footer: Driver.PrevOfSecondBlock) |
| Alloc.NextBlock | malloc.c:196-198 | NULL for the last block, else the address past the block's footer (FreeLemmas.NeighbourRoundTrip) |
| Alloc.NeighbourFree | malloc.c:199-200 | false for NULL, else is_free of the neighbour (FreeLemmas.NeighbourFreeMeans) |
| Alloc.UsableSize3 | malloc.c:206-207 | the three-way merged size is prev + self + next + 32 when nothing wraps; it is then even and at least 16 |
| Alloc.UsableSize2 | malloc.c:218-219 | the two-way merged size is the sum + 16 when nothing wraps; it is then even and at least 16 |
| Alloc.Malloc | malloc.c:136-182 | Malloc leaves a valid state: the heap stays 1024 + 1024k bytes, within the capacity |
| Alloc.Free | malloc.c:184-242 | Free leaves a valid state |
| Alloc.Dispatch | malloc.c:199-241 | none of the four branches changes the heap bounds |
| MallocLemmas.MallocBlock | malloc.c:143-182 | on both paths, the block before a non-NULL pointer is in use at round(max(size, 16)): its header holds that size with the flag clear, and the footer that size places lies in the heap with its flag clear |
| MallocLemmas.ReuseBlock | malloc.c:150-164 | a free-list hit returns data_addr(m), and m is in use at the request |
| MallocLemmas.CarvePlace | malloc.c:168-181 | a fresh block is placed at next_available_block() and returned as header + 8; the footer lies below the break; heap_end moved only by the increments needed; last becomes the block; first is set only if it was NULL |
| MallocLemmas.CarveWords | malloc.c:174-176 | a carve writes the request into the header and clears the flag on the footer that size places, which keeps its old size word; no other word changes |
| MallocLemmas.CarveInUse | malloc.c:174-181 | a carved block is in use at the request |
| MallocLemmas.CarveRefused | malloc.c:169-172 | when Sbrk refuses, Carve returns NULL; only the break has moved, by whole increments, and it can rise no further |
| MallocLemmas.MallocNull | malloc.c:136-172 | Malloc returns NULL only when init fails (state unchanged) or when Sbrk refuses (since init only heap_end moved, by multiples of 1024, and the break can rise no further) |
| MallocLemmas.InitFailureSticks | malloc.c:136-142 | once init fails, every later Malloc returns NULL and changes nothing |
| MallocLemmas.MallocFresh | malloc.c:168-181 | with an empty free list, the new header sits at heap when last == NULL, otherwise at last + 16 + get_size(last); it becomes last; first is set only once; only its header and footer are written |
| MallocLemmas.SuccessiveBlocksAdjoin | malloc.c:248-259 | the driver's first check: with an empty free list, two successive Mallocs give adjoining blocks, and the first block's size word, read after the second Malloc, still holds its request |
| MallocLemmas.RequestTruncates | malloc.c:143-146 | for sizes of 2^32 or more, the size Malloc looks for is smaller than what was asked for |
| MallocLemmas.MallocShortBlock | malloc.c:146 | for a size of 2^32 or more, a non-NULL Malloc hands out a block smaller than the size asked for |
| ReuseLemmas.FirstFit | malloc.c:148-167 | a reference first fit on the node sizes: every size before the index is too small, and the size at the index fits |
| ReuseLemmas.MallocFirstFit | malloc.c:147-167 | on a well-formed free list the walk returns exactly the first fit (or NULL) and never hangs |
| ReuseLemmas.MallocHitIsReuse | malloc.c:148-165 | Malloc is the hit on the first listed block that fits |
| ReuseLemmas.SplitTestMeaning | malloc.c:152-156 | the split test passes iff the block exceeds the request by 16 or more, and the remainder then gets size - request; a remainder of MINIMUM_BLOCK_SIZE needs 32 spare bytes and has size - request - 16 usable |
| ReuseLemmas.SplitIfRoomSplits | malloc.c:152-156 | with 16 spare bytes or more the block is split; the remainder gets size - request, and its footer lands 16 bytes past the found block's |
| ReuseLemmas.ReuseNoSplit | malloc.c:150-164 | a hit with less than 16 spare bytes puts the request, not the block's size, in the header and clears the flag of the footer the request places; only those two words change, and every node stays listed, the handed-out block included |
| ReuseLemmas.MallocHitStaysListed | malloc.c:149-165 | on a hit with less than 16 spare bytes, Malloc hands out a block that is still on the free list, linked as before |
| ReuseLemmas.SplitPushes | malloc.c:155-159 | the remainder heads the list with its size and the free flag; the footer that size places only gains the flag |
| ReuseLemmas.ReuseSplit | malloc.c:150-164 | after a split both the remainder and the found block are listed; the remainder's footer lies 16 bytes past the found block's end and only gains the flag |
| ReuseLemmas.ListFitsFuel | malloc.c:149-167 | a well-formed list has fewer nodes than the words below the break |
| FreeLemmas.FreeNull | malloc.c:184-187 | Free(NULL) changes nothing |
| FreeLemmas.NeighbourRoundTrip | malloc.c:192-198 | the block after m starts past m's footer, and when that footer holds m's size the lookup backwards from it finds m |
| FreeLemmas.NeighbourFreeMeans | malloc.c:199-200 | the free test is false for NULL, faults exactly on a neighbour that cannot be read, and is otherwise the neighbour's free flag |
| FreeLemmas.FreeDispatches | malloc.c:188-241 | Free takes the branch that the neighbours' flags select |
| FreeLemmas.FreeAlone | malloc.c:237-241 | with neither neighbour free, Free flags the block's header and footer free and puts the block at the head of the list |
| FreeLemmas.ReleasePushes | malloc.c:237-241 | release turns a well-formed L into [m] + L; the sizes in header and footer are kept; no other word changes except the links |
| FreeLemmas.CoalesceWords | malloc.c:208-212 | the merged header and footer both carry the merged size with the flag, and the block heads the list |
| FreeLemmas.CoalescePushes | malloc.c:208-212 | the merge tail over a well-formed list puts the block at its head |
| FreeLemmas.MergeAllMerges | malloc.c:199-212 | both neighbours free: size prev + self + next + 32 in prev's header and the new footer, both flagged free; prev heads the list without next; last moves to prev iff next was last; no word changes but the two nodes unlinked, their neighbours' links, prev's links, the new footer and the old head's prev link |
| FreeLemmas.MergeWithPrevMerges | malloc.c:213-224 | only prev free: size prev + self + 16 in prev's header and the new footer, flagged free; prev heads the list; last moves to prev iff the block was last; no word changes but prev's header and old footer, its neighbours' links, prev's links, the new footer and the old head's prev link |
| FreeLemmas.MergeWithNextMerges | malloc.c:225-236 | only next free: size self + next + 16 in the block's header and the new footer, flagged free; the block heads the list without next; last moves to it iff next was last; no word changes but next's header and footer, its neighbours' links, the block's header and links, the new footer and the old head's prev link |
| Driver.ScanCycles | malloc.c:149-167 | a walk that meets a too-small block which is its own successor never ends |
| Driver.FirstMalloc | malloc.c:261 | Malloc(16) on a fresh heap carves the block at heap and returns heap + 8 |
| Driver.FirstFree | malloc.c:262 | freeing it makes it the whole free list, flagged free |
| Driver.SecondMalloc | malloc.c:263 | Malloc(16) returns the same pointer, and the block stays on the list |
| Driver.SecondFree | malloc.c:264 | freeing it again makes it its own next and prev |
| Driver.PrevOfSecondBlock | malloc.c:174-194 | on a fresh heap, after Malloc(16) twice, the first footer still reads 0, so Free's lookup of the block in front of the second block answers b + 16, inside the first block's data, not b |
| Driver.SecondBlockPrev | malloc.c:168-194 | Malloc(16) on the heap holding one 16-byte block carves the next block at b + 32, and its predecessor is computed as b + 16 |
| Driver.FreeOnlyBlock | malloc.c:189-198 | the only block in the heap has no neighbours, so Free releases it |
| Driver.ThirdMalloc | malloc.c:261 | the next Malloc, of 24 bytes, never returns |
| Driver.ReuseLoopHangs | malloc.c:260-268 | the whole sequence: ptr1 == ptr2 for 16 bytes, and the loop's next Malloc hangs |
| HeapObject.Heap.constructor | malloc.c:43-48 | the object starts as the fresh state |
| HeapObject.Heap.Get | malloc.c:21-23 | returns the word Load reads |
| HeapObject.Heap.Put | malloc.c:161 | the object becomes what Store computes |
| HeapObject.Heap.GetSize | malloc.c:37-41 | returns get_size of the word |
| HeapObject.Heap.IsFree | malloc.c:20-23 | returns is_free of the word |
| HeapObject.Heap.SetFree | malloc.c:25-29 | in place, as SetFreeAt |
| HeapObject.Heap.SetUsed | malloc.c:31-35 | in place, as SetUsedAt |
| HeapObject.Heap.FooterOf | malloc.c:50-53 | returns get_footer_from_header |
| HeapObject.Heap.HeaderOf | malloc.c:55-58 | returns get_header_from_footer |
| HeapObject.Heap.NextAvailableBlock | malloc.c:70-77 | returns next_available_block |
| HeapObject.Heap.Sbrk | malloc.c:84-93 | in place, as Region.Sbrk, with its answer |
| HeapObject.Heap.Init | malloc.c:122-134 | in place, as Region.Init |
| HeapObject.Heap.GrowTo | malloc.c:169-173 | the Sbrk loop leaves the object as Grow does and answers whether the block fits |
| HeapObject.Heap.MarkFree | malloc.c:103-104 | in place, as FreeList.MarkFree |
| HeapObject.Heap.MarkUsed | malloc.c:118-119 | in place, as FreeList.MarkUsed |
| HeapObject.Heap.PushFront | malloc.c:96-102 | in place, as FreeList.PushFront |
| HeapObject.Heap.AddToFreeList | malloc.c:95-105 | in place, as FreeList.AddToFreeList |
| HeapObject.Heap.UnlinkFromNext | malloc.c:109-111 | in place, as FreeList.UnlinkFromNext |
| HeapObject.Heap.UnlinkFromPrev | malloc.c:112-114 | in place, as FreeList.UnlinkFromPrev |
| HeapObject.Heap.AdvanceHead | malloc.c:115-117 | in place, as FreeList.AdvanceHead |
| HeapObject.Heap.RemoveFromFreeList | malloc.c:107-120 | in place, as FreeList.RemoveFromFreeList |
| HeapObject.Heap.FindFit | malloc.c:147-167 | the while loop returns what Alloc.Scan returns from the head of the list |
| HeapObject.Heap.Split | malloc.c:155-159 | in place, as Alloc.Split |
| HeapObject.Heap.SplitIfRoom | malloc.c:152-159 | in place, as Alloc.SplitIfRoom |
| HeapObject.Heap.Resize | malloc.c:161-163 | in place, as Alloc.Resize |
| HeapObject.Heap.Reuse | malloc.c:150-164 | in place, as Alloc.Reuse, with its pointer |
| HeapObject.Heap.Carve | malloc.c:168-181 | in place, as Alloc.Carve, with its pointer |
| HeapObject.Heap.Malloc | malloc.c:136-182 | in place, as Alloc.Malloc, with its pointer; a non-NULL block is in use at round(max(size, 16)) |
| HeapObject.Heap.Retag | malloc.c:208-211 | in place, as Alloc.Retag |
| HeapObject.Heap.Coalesce | malloc.c:208-212 | in place, as Alloc.Coalesce |
| HeapObject.Heap.MergeAll | malloc.c:199-212 | in place, as Alloc.MergeAll |
| HeapObject.Heap.MergeWithPrev | malloc.c:213-224 | in place, as Alloc.MergeWithPrev |
| HeapObject.Heap.MergeWithNext | malloc.c:225-236 | in place, as Alloc.MergeWithNext |
| HeapObject.Heap.Release | malloc.c:237-241 | in place, as Alloc.Release |
| HeapObject.Heap.PrevBlock | malloc.c:192-195 | returns the physical predecessor, or NULL for first |
| HeapObject.Heap.NextBlock | malloc.c:196-198 | returns the physical successor, or NULL for last |
| HeapObject.Heap.NeighbourFree | malloc.c:199-200 | whether a neighbour exists and is free |
| HeapObject.Heap.Dispatch | malloc.c:199-241 | in place, as Alloc.Dispatch |
| HeapObject.Heap.Free | malloc.c:184-242 | in place, as Alloc.Free |

## Left out

- Memory is a map from byte address to 64-bit word, held in a `map` field of `Heap`,
  not an `array`. Heap-relative array indices need division by 8, which made the
  proofs too costly. Pointers are byte addresses into that one map, so two pointers
  to the same word alias, as in C (`AddHeadAgain`, `Apart`, `LinksAvoid`). What the
  map cannot express is an access that overlaps a word only in part, or one at a
  misaligned address: those are `Fault`.
- Words never written read 0, as fresh pages do. The source does read such words:
  Malloc never writes a footer's size word (malloc.c:159, 163, 176), and Free finds
  the block in front through that footer (malloc.c:193-194) and tests its free flag.
  On a fresh heap the footer of the first block reads 0, so Free of the second block
  looks 16 bytes past the first header (`PrevOfSecondBlock`). C guarantees no value
  there; the model fixes it at 0.
- Undefined behaviour (an access outside the heap or at a misaligned address) is the
  outcome `Fault`, not modelled behaviour.
- A walk that never ends is `Hang`. It is detected with a fuel of one more than the
  words in the heap.
- The methods of `Heap` require that the function they follow returns `Done`. A call
  that faults or hangs in C is not one they take.
- `sbrk` is an oracle: a fixed capacity above `base` that the break may not pass.
  - Where `sbrk(0)` lands is the parameter `base`, at least 24 so that NULL's link
    words are never heap words.
  - 64-bit address wrap-around is excluded by `base + capacity < 2^64`.
- Once init fails the code retries on every Malloc, although its comment says it
  is called once (malloc.c:122, 137-139). The model follows the code; against a
  fixed capacity, the retry fails the same way (`InitFailureSticks`).
- A growth failure returns NULL but keeps the increments granted before it
  (malloc.c:169-172), so a Malloc that fails is not free of effects: heap_end
  stays raised and nothing gives the memory back. The model follows the code
  (`CarveRefused`, `GrowSpec`).
- The driver's `printf` output and `main` itself are not modelled. Its two checks
  are lemmas:
  - `SuccessiveBlocksAdjoin` for the first loop;
  - `ReuseLoopHangs` for the second, shown for one pass from a fresh heap rather
    than after the first loop.
- `malloc.h` is not part of this model. It declares only the two prototypes.
- Double frees and foreign pointers are not detected by the code. The lemmas about
  Free take their neighbours as given, and they hold only under their hypotheses:
  - the list is well formed;
  - the block freed is apart from every node;
  - neither footer involved is a link word;
  - the merged footer lies in the heap.
- FreeLemmas.MergeAllMerges, FreeLemmas.MergeWithPrevMerges, FreeLemmas.MergeWithNextMerges:
  these hold only for blocks whose sizes are non-negative and whose merged footer is
  addressable. They do not describe a merge whose size wraps in uint64_t.
- ReuseLemmas.ReuseSplit, ReuseLemmas.ReuseNoSplit: these hold under hypotheses:
  - the list is well formed;
  - the remainder is apart from every node;
  - the words written are no link words.
  They say nothing of a hit on a corrupted list, such as the cycle `ReuseLoopHangs`
  builds.
- Alloc.Malloc, Alloc.Free, Alloc.Reuse, Alloc.Carve, Alloc.SplitIfRoom, Alloc.MergeAll,
  Alloc.MergeWithPrev, Alloc.MergeWithNext, Alloc.Release: their own contracts state
  only that validity or the heap bounds are kept. The lemmas their rows name state
  what they compute.
  What they compute is stated by the lemmas in `MallocLemmas`, `ReuseLemmas` and
  `FreeLemmas`.
- Concurrency: the code has none.
