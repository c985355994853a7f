# Explicit free-list allocator (malloc lab), modelled in Dafny

This project models `mm.c` of the malloc lab solution in
`malloclab-minhduchuynhdang-master`. That allocator keeps every block behind
a 32-byte header (`size`, `next`, `prev`; the size rounded up to the 16-byte
alignment). Bit 0 of `size` is set while the block is allocated. The free
blocks form a circular doubly-linked list anchored at a permanent sentinel
header at the bottom of the heap.

- `malloc` takes the first list member that is large enough and never splits it.
- Otherwise it grows the heap with `mm_sbrk`.
- `free` clears the flag and pushes the block right after the sentinel (LIFO), without coalescing.
- `realloc` frees first, then mallocs, then copies.
- `calloc` is malloc of `nmemb * size` followed by zeroing.

Modules, in dependency order:

- `Wrappers`: `Option`.
- `Sizes`: `align`, `hdr_size`, the flag bit as arithmetic on the `size` field, and `aligned`.
- `Heap`: the state and the heap invariant `Valid`.
  - Every address is an offset from `mm_heap_lo()`. The sentinel header sits at offset 0, and the break is `mm_heap_hi() + 1` as an offset.
  - The state is a header map keyed by block address, the break, the payload bytes, and the free list as the sequence of addresses met from the sentinel along `next`.
  - `Valid` is what an `mm_checkheap` would check: list and links agree, blocks tile the heap, and flags agree with list membership.
- `FreeList`: the first-fit search, both as a reference function and as the C pointer loop, plus malloc's unlink and free's push.
  - `Allocator.Malloc` searches the free list in its sequence order (`FirstFit`), not by following `next` links.
  - On a well-formed list the two agree. `FreeList.FindFreeMem` proves the link-following loop returns `FindFree`, and `Properties.MallocUsesFindFree` proves malloc hands out that block.
- `Bytes`: `memcpy` and `memset` on the byte map.
- `Allocator`: `mm_init`, `malloc`, `free`, `realloc` and `calloc`.
  - They are functions of the heap and of `sbrkOk`, which says whether `mm_sbrk` succeeds. They are total, except that `Free` and `Realloc` require a live pointer (see `Allocator.Free` under "Left out").
- `Preservation`: every operation keeps `Valid`.
- `Properties`: facts that relate several calls.
  - Which block malloc picks, and LIFO reuse after free.
  - free followed by malloc undoes the free.
  - What realloc copies.
  - Payload alignment and disjointness.
  - The first steps of a worked allocation scenario.
  - The calloc overflow.

## Model

| member | source | states |
|---|---|---|
| Sizes.Align | malloclab-minhduchuynhdang-master/mm.c:60-63 | align(x) is a multiple of 16 and lies in [x, x+16) |
| Sizes.AlignIsLeastMultiple | malloclab-minhduchuynhdang-master/mm.c:60-63 | align(x) is at most every multiple of 16 that is at least x, so it is the least one |
| Sizes.AlignIdempotent | malloclab-minhduchuynhdang-master/mm.c:60-63 | aligning an aligned value changes nothing |
| Sizes.HdrSizeIsAlignedHeader | malloclab-minhduchuynhdang-master/mm.c:55 | hdr_size, the aligned size of the 24-byte header struct, is 32, itself a multiple of 16 |
| Sizes.AlignedIff | malloclab-minhduchuynhdang-master/mm.c:236-240 | aligned(p), i.e. align(p) == p, holds exactly when p is a multiple of 16 |
| Sizes.RawSize | malloclab-minhduchuynhdang-master/mm.c:161 | the true size is the size field with bit 0 masked off, as `size & ~1` computes it: even, and at most one below the field |
| Sizes.IsAllocated | malloclab-minhduchuynhdang-master/mm.c:130 | bit 0 of the size field, set while the block is allocated |
| Sizes.SetAllocated | malloclab-minhduchuynhdang-master/mm.c:141 | `size \| 1`: bit 0 set and the true size unchanged |
| Sizes.ClearAllocated | malloclab-minhduchuynhdang-master/mm.c:161 | `size & ~1`: bit 0 clear and the true size unchanged |
| Sizes.FlagRoundTrip | malloclab-minhduchuynhdang-master/mm.c:161 | `size & ~1` undoes `size \| 1` on a free header, and `size \| 1` undoes `size & ~1` on an allocated one |
| Sizes.AlignedSizeIsRaw | malloclab-minhduchuynhdang-master/mm.c:141 | an aligned request has bit 0 clear, so `req \| 1` keeps req as the block's true size |
| Heap.LinkedIsReciprocal | malloclab-minhduchuynhdang-master/mm.c:131-132 | in a well-formed list, every member's next has it as prev, and its prev has it as next |
| Heap.InHeap | malloclab-minhduchuynhdang-master/mm.c:227-230 | in_heap(p): mm_heap_lo() <= p <= mm_heap_hi(), as offsets 0 <= p <= brk - 1 |
| Heap.LivePayloadInHeap | malloclab-minhduchuynhdang-master/mm.c:227-240 | on a valid heap every live payload offset from mm_heap_lo() is a multiple of 16, lies inside the heap, and its whole payload lies below the break |
| FreeList.FitFrom | malloclab-minhduchuynhdang-master/mm.c:105 | the first list position from i whose size field is at least req; None exactly when no position from i qualifies |
| FreeList.FirstFit | malloclab-minhduchuynhdang-master/mm.c:105-111 | the first position after the sentinel with a large enough size field, all earlier ones too small; None exactly when none qualifies |
| FreeList.FindFree | malloclab-minhduchuynhdang-master/mm.c:101-112 | find_free_mem's answer: a block listed after the head with size at least req, preceded only by smaller ones, and never the sentinel on a well-formed list; NULL exactly when every member is smaller |
| FreeList.FindFreeMem | malloclab-minhduchuynhdang-master/mm.c:101-112 | the pointer loop that follows `next` from the sentinel returns exactly the first-fit block, or NULL |
| FreeList.RemoveAtUndoesPush | malloclab-minhduchuynhdang-master/mm.c:164-170 | taking out the block that free pushed right after the sentinel gives back the old list |
| FreeList.RemoveAtMembers | malloclab-minhduchuynhdang-master/mm.c:131-132 | after unlinking position j, a block is listed iff it was listed and is not the unlinked one |
| FreeList.Unlink | malloclab-minhduchuynhdang-master/mm.c:131-132 | the unlink bridges b's neighbours to each other, changes no size, and changes no other link |
| FreeList.UnlinkLinksAt | malloclab-minhduchuynhdang-master/mm.c:131-132 | after the unlink, each member of the shorter list has its successor as next, and that successor has it as prev |
| FreeList.UnlinkLinked | malloclab-minhduchuynhdang-master/mm.c:131-132 | unlinking the member at any position of a well-formed list leaves the well-formed list without it |
| FreeList.Push | malloclab-minhduchuynhdang-master/mm.c:164-170 | the push makes b the sentinel's successor and the old successor b's successor, changes no size, and changes no other link |
| FreeList.PushLinked | malloclab-minhduchuynhdang-master/mm.c:164-170 | pushing a block not on the list gives a well-formed list with the block right after the sentinel |
| FreeList.UnlinkUndoesPush | malloclab-minhduchuynhdang-master/mm.c:164-170 | malloc's unlink undoes free's push: every other header, links included, is back as before the push |
| Bytes.Copy | malloclab-minhduchuynhdang-master/mm.c:202 | memcpy: each destination byte reads the matching source byte, and every other byte is unchanged |
| Bytes.Fill | malloclab-minhduchuynhdang-master/mm.c:218 | memset: every byte in the range reads v, and every other byte is unchanged |
| Bytes.CopyOntoItself | malloclab-minhduchuynhdang-master/mm.c:202 | copying a range onto itself leaves memory exactly as it was |
| Allocator.Init | malloclab-minhduchuynhdang-master/mm.c:79-88 | mm_init always reports success; when mm_sbrk works it leaves a valid heap holding only the self-linked sentinel of size 32, with the break at 32 |
| Allocator.ReqSize | malloclab-minhduchuynhdang-master/mm.c:124 | the block size asked for is the least multiple of 16 with room for the payload and the header: at least size + 32 and below size + 48 |
| Allocator.Mark | malloclab-minhduchuynhdang-master/mm.c:130 | `ptr->size \|= 1` on one header: bit 0 set, true size and links kept, every other header unchanged |
| Allocator.Take | malloclab-minhduchuynhdang-master/mm.c:129-133 | the hit path marks the block allocated without changing its true size, removes exactly its list position, and changes no other size, the break or the bytes |
| Allocator.Extend | malloclab-minhduchuynhdang-master/mm.c:135-143 | the miss path adds one allocated block of exactly req bytes at the old break, raises the break by req, and changes nothing else |
| Allocator.Malloc | malloclab-minhduchuynhdang-master/mm.c:117-148 | a non-NULL result is a live payload whose block holds the aligned request, taken from the list (a block that already had a size field of at least the request) or placed at the old break; NULL exactly for size 0 or for a first-fit miss with a failing mm_sbrk, and then the heap is unchanged |
| Allocator.MallocKeepsBlocks | malloclab-minhduchuynhdang-master/mm.c:128-143 | malloc neither splits nor coalesces: every block below the old break keeps its true size, and all but the handed-out block keep their whole size field |
| Allocator.Free | malloclab-minhduchuynhdang-master/mm.c:153-172 | free clears the block's flag, pushes it right after the sentinel, and changes no other size, the break or the bytes |
| Allocator.CopySize | malloclab-minhduchuynhdang-master/mm.c:197-201 | realloc copies at most the request: the old header's size field less 32, clamped to the request |
| Allocator.MallocCopy | malloclab-minhduchuynhdang-master/mm.c:189-205 | after the free, realloc returns malloc's pointer and heap; on success the bytes are the old payload copied into the new one |
| Allocator.Realloc | malloclab-minhduchuynhdang-master/mm.c:177-206 | realloc(NULL, n) is malloc(n), realloc(p, 0) frees p and returns NULL, and otherwise it is free, malloc, copy; a failed malloc leaves p freed |
| Allocator.CallocBytes | malloclab-minhduchuynhdang-master/mm.c:215 | `size *= nmemb` on size_t: the product reduced modulo 2^64 (below 2^64 and differing from the product by a multiple of 2^64), so the true product when that fits |
| Allocator.MallocZeroed | malloclab-minhduchuynhdang-master/mm.c:216-219 | calloc's body returns malloc's pointer and heap; on success exactly the n payload bytes read zero, and on NULL the heap is unchanged |
| Allocator.Calloc | malloclab-minhduchuynhdang-master/mm.c:212-221 | calloc returns malloc's pointer and heap for the wrapped product; on success exactly that many payload bytes read zero and every other byte is unchanged, and on NULL the heap is unchanged |
| Allocator.CheckedCalloc | malloclab-minhduchuynhdang-master/mm.c:212-221 | the overflow-checked calloc agrees with calloc whenever the product fits in size_t |
| Preservation.TakeLinked | malloclab-minhduchuynhdang-master/mm.c:131-132 | unlinking the first-fit block keeps the free list well formed, one member shorter |
| Preservation.TakeFlags | malloclab-minhduchuynhdang-master/mm.c:130-132 | after marking and unlinking, still exactly the listed blocks have bit 0 clear |
| Preservation.TakeValid | malloclab-minhduchuynhdang-master/mm.c:129-133 | malloc's hit path keeps the heap valid |
| Preservation.ExtendTiled | malloclab-minhduchuynhdang-master/mm.c:136-141 | a block of an aligned size at the old break keeps the blocks tiling the heap up to the new break |
| Preservation.ExtendValid | malloclab-minhduchuynhdang-master/mm.c:135-143 | malloc's miss path keeps the heap valid |
| Preservation.FreeValid | malloclab-minhduchuynhdang-master/mm.c:153-172 | free of a live pointer keeps the heap valid |
| Preservation.MallocValid | malloclab-minhduchuynhdang-master/mm.c:117-148 | malloc keeps the heap valid |
| Preservation.OutcomeFits | malloclab-minhduchuynhdang-master/mm.c:124-147 | a result that reuses a block already large enough, or appends the aligned request at the old break, has its payload below the new break |
| Preservation.MallocFits | malloclab-minhduchuynhdang-master/mm.c:124-147 | a payload malloc hands out, size bytes long, ends at or below the new break |
| Preservation.CopyValid | malloclab-minhduchuynhdang-master/mm.c:202 | memcpy into bytes below the break keeps the heap valid |
| Preservation.FillValid | malloclab-minhduchuynhdang-master/mm.c:218 | memset of bytes below the break keeps the heap valid |
| Preservation.MallocCopyValid | malloclab-minhduchuynhdang-master/mm.c:189-205 | realloc's malloc-and-copy tail keeps the heap valid |
| Preservation.ReallocValid | malloclab-minhduchuynhdang-master/mm.c:177-206 | realloc of NULL or of a live pointer keeps the heap valid |
| Preservation.MallocZeroedValid | malloclab-minhduchuynhdang-master/mm.c:216-219 | malloc followed by memset keeps the heap valid |
| Preservation.CallocValid | malloclab-minhduchuynhdang-master/mm.c:212-221 | calloc keeps the heap valid |
| Properties.MallocTakesFound | malloclab-minhduchuynhdang-master/mm.c:126-133 | on a first-fit hit malloc hands out the payload of the block found, and the break stays put |
| Properties.MallocUsesFindFree | malloclab-minhduchuynhdang-master/mm.c:126-133 | when find_free_mem returns a block, malloc hands out that block's payload and the break stays put |
| Properties.MallocGrowsWhenNoneFound | malloclab-minhduchuynhdang-master/mm.c:134-143 | when find_free_mem gives NULL, malloc returns the old break plus 32 and grows the heap by the aligned request, or returns NULL and changes nothing when mm_sbrk fails |
| Properties.MallocPayloadAligned | malloclab-minhduchuynhdang-master/mm.c:117-148 | on a valid heap malloc's result is 16-aligned, in the heap, live, has room for size bytes, and ends below the break |
| Properties.LivePayloadsDisjoint | malloclab-minhduchuynhdang-master/mm.c:117-148 | on a valid heap the payload of a live block ends before the header of any live block above it |
| Properties.FreedIsFirstFit | malloclab-minhduchuynhdang-master/mm.c:164-170 | after free(p), p's block is the first fit for every request it can hold |
| Properties.FreedIsFoundFirst | malloclab-minhduchuynhdang-master/mm.c:101-112 | after free(p) on a valid heap, find_free_mem stops at p's block for every request it can hold |
| Properties.TakeUndoesFreeList | malloclab-minhduchuynhdang-master/mm.c:129-170 | taking the block free(p) just pushed gives back the free list, the break and the bytes |
| Properties.TakeUndoesFreeHeaders | malloclab-minhduchuynhdang-master/mm.c:129-170 | taking the block free(p) just pushed gives back p's size field and every other header, links included |
| Properties.FreeThenMallocReuses | malloclab-minhduchuynhdang-master/mm.c:117-172 | free(p), then malloc of a size that fits p's block, returns p (LIFO reuse) |
| Properties.FreeThenMallocRestores | malloclab-minhduchuynhdang-master/mm.c:117-172 | free(p), then a malloc that fits, returns p and restores the list, the break, the bytes and every header but p's stale links |
| Properties.MallocFreeMalloc | malloclab-minhduchuynhdang-master/mm.c:117-172 | on a valid heap, malloc(S), free of the result, then malloc(S) returns the same address |
| Properties.CopySizeIsOldPayload | malloclab-minhduchuynhdang-master/mm.c:190-201 | although realloc reads the old header after malloc may have set its flag again, it copies min(old payload, request) bytes |
| Properties.CopySizeAfterFree | malloclab-minhduchuynhdang-master/mm.c:190-201 | the same count for a live block below the break whose true size covers a header |
| Properties.ReallocCopiesPrefix | malloclab-minhduchuynhdang-master/mm.c:177-206 | a successful realloc places the first min(old payload, size) bytes of the old payload at the result, and leaves every other byte as it was |
| Properties.ReallocInPlace | malloclab-minhduchuynhdang-master/mm.c:177-206 | when the request fits the old block, realloc returns the same pointer with bytes, list and break unchanged |
| Properties.MallocOnEmptyList | malloclab-minhduchuynhdang-master/mm.c:134-147 | with only the sentinel listed, malloc returns the old break plus 32 and adds one live block of exactly the aligned request |
| Properties.GrowTwice | malloclab-minhduchuynhdang-master/mm.c:117-148 | from a heap with no free block, malloc(100) and then malloc(200) return break+32 and break+176, in address order and not overlapping |
| Properties.ScenarioFromInit | malloclab-minhduchuynhdang-master/mm.c:79-148 | right after mm_init, malloc(100) returns 64 and then malloc(200) returns 208 |
| Properties.CallocProductWraps | malloclab-minhduchuynhdang-master/mm.c:215-218 | calloc(2^63+1, 2), on a heap with no free block, returns a pointer whose 48-byte block holds 16 payload bytes, far short of the 2^64+2 bytes requested |
| Properties.CheckedCallocServes | malloclab-minhduchuynhdang-master/mm.c:212-221 | the overflow-checked calloc returns NULL and keeps the heap on overflow; any pointer it returns has room for all nmemb*size bytes, and they read zero |

## Left out

- `mm_sbrk` and the rest of `memlib` are not part of this model. Whether `mm_sbrk` succeeds is the boolean parameter `sbrkOk`, and the new break is the old one plus the request.
- The `DEBUG` and `DRIVER` macros only rename functions or print. So do `dbg_printf` and `dbg_assert`.
- The commented-out `isfree` helper is dead code.
- `mm_checkheap` is a stub in the source that returns true. The predicate `Heap.Valid` states the invariant such a checker would check, and module `Preservation` proves it is kept.
- Allocator.Malloc: `size + hdr_size` is computed on size_t in the source and can wrap for sizes near 2^64. The model uses unbounded integers there, so such requests get a huge block instead of a wrapped small one.
- The byte layout of headers inside the heap is not modelled. Headers are a map from block address to a record, kept apart from the payload bytes, so a payload write cannot clobber a header.
- Allocator.Extend: the fresh block's `next` and `prev` are set to the sentinel. The source leaves them uninitialised, and nothing reads them while the block is allocated.
- Heap.LivePayloadInHeap: alignment is stated for offsets from `mm_heap_lo()`. The source's `aligned()` tests the absolute address, so the two agree only when `mm_heap_lo()` is itself 16-aligned. That depends on `memlib`, which is not part of this model. The same holds for `Properties.MallocPayloadAligned`.
- Allocator.Free: the model frees only live pointers (`IsLivePtr`), and the same holds for the old pointer of `Allocator.Realloc`. Double free, pointers malloc never returned, and `free(NULL)` are left out. NULL cannot even be expressed, since the pointer is a natural-number offset. On NULL the source does not do the standard no-op: it computes `NULL - hdr_size` and writes through it.
- Allocator.Init: when `mm_sbrk` fails, the source writes through the failure marker, and the model has no state for that. The result is then true with no heap.
- The operations are total, except that `Free` and `Realloc` require a live pointer (see the `Allocator.Free` line above). On a heap that breaks `Valid`, a header read at an address without a header yields a zero header instead of arbitrary memory.
- Allocator.CopySize: the source subtracts on size_t, so a size field below 32 would wrap. The model clamps that case to the request. On valid heaps it cannot arise (`Properties.CopySizeIsOldPayload`).
- Allocator.MallocCopy: when malloc reuses the freed block, memcpy is called with overlapping source and destination. The model treats the copy as reading every source byte before writing, which for identical ranges is the identity (`Bytes.CopyOntoItself`).
- Properties.GrowTwice: the worked scenario is proved step by step, not as one chain. That is, malloc(100) and malloc(200) from mm_init, free then malloc reuse (`Properties.FreeThenMallocRestores`), and growth on a miss (`Properties.MallocOnEmptyList`). The later steps of the scenario (free(A), malloc(50), malloc(9999)) follow from those lemmas but are not stated for the concrete addresses.

## Findings

| source | as written | input that shows it | evidently intended | confidence | as-written member | corrected member |
|---|---|---|---|---|---|---|
| malloclab-minhduchuynhdang-master/mm.c:215-218 | `size *= nmemb` wraps modulo 2^64, and malloc and memset then use the wrapped product | nmemb = 2^63 + 1, size = 2: the product wraps to 2, so calloc returns a 48-byte block, whose payload holds 16 bytes, for a request of 2^64 + 2 bytes | return NULL when nmemb * size does not fit in size_t, as the C standard requires of calloc | not executed | Properties.CallocProductWraps | Properties.CheckedCallocServes |
