# First-fit heap allocator in Dafny

This project models a first-fit heap allocator written in C (`memory_management.c`) and proves properties of the model.

Every block of heap memory begins with a `block_data` header. The header holds the block's usable size, a free flag and `next`/`prev` links. The headers form a doubly linked list that starts at the global `data_head` and runs in address order. The allocator offers two operations:
- `_malloc(size)` returns NULL for size 0. Otherwise `find_block` hands out the first free block large enough for the request. It splits the block when the surplus can hold another header and at least one byte, and hands the block out whole when it cannot. If no block fits, `allocate_memory` extends the heap with `sbrk` and appends a new allocated block at the tail.
- `_free(ptr)` does nothing for NULL. Otherwise it finds the header just before `ptr` and marks the block free. It then merges the block into every free predecessor in turn, and every free successor into the result.

The model has four modules:
- `Blocks` describes the block list as a value: a sequence of `Block(addr, size, free)` in address order. The list links are implicit in the sequence order. Functions state what each step of the source does to the list. Lemmas prove two heap invariants: the blocks tile the heap exactly (`Tiled`), and no two neighbouring blocks are both free (`NoAdjacentFree`). Further lemmas prove the span (bytes used, counting one header per block) and the acquire/release round trip.
- `Heap` holds the class `Allocator`. Its fields are the block list and the heap break; the header size and heap start are constants. Its methods follow the C functions step by step: `FindBlock` is a scan loop, and `Free` runs the backward and the forward merge loops. Each method is proved against the functions of `Blocks`. The constructor, `FindBlock`, `AllocateMemory`, `Malloc`, `Free` and `ReleaseAt` keep the class invariant `Valid`. The two loop methods `MergeBackward` and `MergeForward` work on a list whose released block is already marked, so they are proved only against `Merging`, `RunStart` and `RunEnd`; `ReleaseAt` restores `Valid` around them.
- `Links` spells out the `next`/`prev` fields as a map from header address to header. It states what the split in `find_block` does to them as written. It also proves that the sequence model equals the split with the missing link added (see Findings).
- `Scenarios` states the outcome of short request sequences on an `Allocator`.

The header size `sizeof(block_data)` is the positive constant `H`. A handle returned to a caller is its header address plus `H`. Whether `sbrk` succeeds is an input. On success, `sbrk` returns the current break.

## Model

| member | source | states |
|---|---|---|
| `Blocks.FirstFit` | memory_management.c:116-144 | the result is the index of the first block in list order that is free and has at least `size` bytes; it is None exactly when no block is both |
| `Blocks.Take` | memory_management.c:118-137 | the list grows by one block exactly when `size + H` is less than the chosen block's size; the chosen block keeps its address, becomes allocated, and holds between `size` and `size + H` bytes |
| `Blocks.TakeSplit` | memory_management.c:120-133 | unfolding helper for `Take`, split branch: blocks before and after are untouched, the chosen block is allocated with exactly `size` bytes, and a free block with `old - size - H` bytes sits right after it at `addr + H + size` |
| `Blocks.TakeWhole` | memory_management.c:135-137 | unfolding helper for `Take`, use-as-is branch: only the chosen block's free flag changes, so no block of zero or negative size appears |
| `Blocks.Fits` | memory_management.c:118-135 | the test `find_block` applies to each block: free and at least `size` bytes; `FirstFit` states that its result is the first block passing it |
| `Blocks.TakeSpan` | memory_management.c:120-137 | handing out a block leaves the total span unchanged |
| `Blocks.TakeTiled` | memory_management.c:120-137 | handing out a block keeps the heap tiled between the same start and break |
| `Blocks.TakeNoAdjacentFree` | memory_management.c:120-137 | handing out a free block never creates two free neighbours |
| `Blocks.GrowTiled` | memory_management.c:80-105 | appending an allocated block of `size` bytes at the old break keeps the heap tiled, with the break moved by `size + H` |
| `Blocks.GrowNoAdjacentFree` | memory_management.c:85-105 | the appended block is allocated, so no two free neighbours appear |
| `Blocks.TiledSpan` | memory_management.c:80 | the break lies exactly one span past the heap start |
| `Blocks.HandleUnique` | memory_management.c:48 | a handle names at most one header, so recovering the header from the pointer is well defined |
| `Blocks.MarkFree` | memory_management.c:48-49 | the released block becomes free with its address and size kept; every other block is unchanged |
| `Blocks.RunStart` | memory_management.c:52-62 | where the backward merge stops: every block from there up to the released one is free, and the block before it is allocated or absent |
| `Blocks.RunEnd` | memory_management.c:65-74 | where the forward merge stops: every block after the released one up to there is free, and the block after it is allocated or absent |
| `Blocks.MergingParts` | memory_management.c:52-74 | unfolding helper for `Merging`: merging a run keeps the blocks before and after it, and replaces the run with one free block at its first address whose size is the run's span minus one header |
| `Blocks.Merging` | memory_management.c:52-74 | the run from `lo` to `hi` becomes one free block and the list shrinks by `hi - lo`; `MergingParts`, `MergingTiled` and `MergingSpan` state what the result holds |
| `Blocks.Release` | memory_management.c:48-74 | the list after `_free`: mark, then merge the maximal free run; its contract only bounds the length (at least one block, never more than before), and `ReleaseMerges` states what it computes |
| `Blocks.MarkFreeIsMerging` | memory_management.c:49 | right after the mark, the released block is a merged run of one block |
| `Blocks.MergingNeighbours` | memory_management.c:52-74 | unfolding helper for `Merging`: the blocks next to a merged run are the blocks that were next to the run |
| `Blocks.AbsorbIntoPrev` | memory_management.c:53-61 | one pass of the backward loop, with the predecessor absorbing the current block's header and bytes, extends the merged run by one block to the left |
| `Blocks.AbsorbNext` | memory_management.c:66-72 | one pass of the forward loop, with the current block absorbing its successor's header and bytes, extends the merged run by one block to the right |
| `Blocks.ReleaseMerges` | memory_management.c:48-74 | release absorbs exactly the maximal free run around the block; the merged block is free, its size plus `H` is the run's span, neither neighbour is free, and blocks outside the run are unchanged |
| `Blocks.MergingTiled` | memory_management.c:52-74 | merging a run keeps the heap tiled |
| `Blocks.ReleaseTiled` | memory_management.c:48-74 | release keeps the heap tiled between the same start and break |
| `Blocks.ReleaseNoAdjacentFree` | memory_management.c:48-74 | release leaves no two free neighbours |
| `Blocks.ReleaseKeepsValid` | memory_management.c:43-76 | release preserves both heap invariants |
| `Blocks.MergingSpan` | memory_management.c:52-74 | merging a run leaves the total span unchanged |
| `Blocks.ReleaseSpan` | memory_management.c:48-74 | release leaves the total span unchanged |
| `Blocks.TakeThenRelease` | memory_management.c:43-76 | releasing a block just handed out from a heap with no two free neighbours restores the list exactly |
| `Blocks.SplitThenRelease` | memory_management.c:120-133 | after a split, release re-merges the remainder and restores the original block |
| `Blocks.WholeThenRelease` | memory_management.c:135-137 | after a use-as-is hand-out, release restores the original list |
| `Blocks.ReleaseOnly` | memory_management.c:48-74 | releasing the only block just marks it free |
| `Blocks.ReleaseFirstOfTwo` | memory_management.c:48-74 | releasing a block whose only neighbour is allocated just marks it free |
| `Blocks.ReleaseSecondOfTwo` | memory_management.c:52-62 | releasing a block whose predecessor is free merges both into one free block of both sizes plus one header |
| `Heap.Allocator.constructor` | memory_management.c:22 | the allocator starts with an empty list (`data_head` is NULL) and the break at the heap start |
| `Heap.Allocator.FindBlock` | memory_management.c:110-145 | returns None and changes nothing when no block fits; otherwise returns the first fit's address plus `H`, the list becomes the `Take` of that block, and both invariants hold |
| `Heap.Allocator.AllocateMemory` | memory_management.c:78-108 | if `sbrk` fails, returns None with nothing changed; otherwise appends an allocated block of exactly `size` bytes at the old break, moves the break by `size + H`, and returns the old break plus `H` |
| `Heap.Allocator.Malloc` | memory_management.c:24-41 | size 0 returns None with nothing changed; otherwise first fit, else heap growth; any handle returned names an allocated block of at least `size` bytes |
| `Heap.Allocator.Free` | memory_management.c:43-76 | None changes nothing; a handle of an allocated block leaves the list as `Release` of that block, with the break unchanged and both invariants kept |
| `Heap.Allocator.ReleaseAt` | memory_management.c:48-74 | marking and both merge loops produce `Release` of the block and keep both invariants |
| `Heap.Allocator.MergeBackward` | memory_management.c:52-62 | the backward loop stops at `RunStart` with the run from there to the released block merged |
| `Heap.Allocator.MergeForward` | memory_management.c:65-74 | the forward loop extends the merged block through `RunEnd` |
| `Links.SplitAsWritten` | memory_management.c:120-133 | the split as written adds one header at `c + H + size` and leaves every other header, including the old successor, unchanged |
| `Links.SplitAsWrittenStalePrev` | memory_management.c:126-132 | after the split as written, the old successor's `prev` still names the split block while that block's `next` names the new header; the links are no longer inverse, and the backward merge from the successor does not fire although the header before it in list order is free |
| `Links.MergesBackward` | memory_management.c:52 | the backward merge loop's condition on the links: the header has a prev, that prev is a stored header, and it is free |
| `Links.AbsorbAsWritten` | memory_management.c:53-61 | one pass of the backward loop on the links: the predecessor grows by the block's size plus one header, takes over its `next`, and keeps its free flag; the successor's `prev` names the predecessor; every other header is unchanged |
| `Links.SplitAsWrittenLiveOverlap` | memory_management.c:52-61 | after the split as written, handing out the remainder whole, freeing the split block and then freeing the old successor, the backward loop fires through the stale `prev`; after that pass the split block is free, no longer links to the allocated remainder, and its usable bytes cover the remainder's header |
| `Links.SplitRelinked` | memory_management.c:120-133 | the split with the successor's `prev` moved to the new header |
| `Links.SplitRelinkedLinked` | memory_management.c:120-133 | the relinked split keeps `next` and `prev` inverse, and the backward merge from the old successor fires |
| `Links.LinksOfLinked` | memory_management.c:12-17 | the links that address order gives the headers are mutual inverses |
| `Links.TakeIsRelinked` | memory_management.c:120-133 | on a tiled heap, the links of the split sequence equal the relinked split of the original links |
| `Links.TakeIsNotAsWritten` | memory_management.c:123-132 | when the split block has a successor, the links of the split sequence differ from the split as written |
| `Scenarios.CoalesceTwo` | memory_management.c:43-76 | `_malloc(10)`, `_malloc(20)`, then freeing the first leaves two blocks with the first one free; freeing the second then leaves one free block of `30 + H` bytes |
| `Scenarios.ReuseAfterFree` | memory_management.c:24-41 | on an empty heap, `_malloc(n)` grows the heap by `n + H` and returns the start plus `H`; after that handle is freed, `_malloc(n)` returns the same handle even when `sbrk` would fail |

## Left out

- The `sbrk` system call is not modelled. Its outcome is a boolean input to `AllocateMemory` and `Malloc`, and on success it returns the current break. Other callers of `sbrk`, which could move the break between calls, are not modelled.
- Pointer arithmetic and the contents of user memory are not modelled. Addresses are integers, and a block is its header record.
- Alignment is not modelled: the source leaves it as a TODO (line 25).
- Sizes are unbounded naturals. The model does not cover negative `int` sizes, 32-bit overflow of `size + DATA_SIZE`, or the signed/unsigned comparison at line 120. On non-negative sizes without overflow, these agree with the model.
- Heap.Allocator.Free: requires that the handle names a currently allocated block, because the source does not check for a double free or a foreign pointer.
- Heap.Allocator.Free: finds the header by choosing the block whose address plus `H` equals the handle (`HandleUnique` shows that block is unique). This stands in for the pointer subtraction at line 48.
- Heap.Allocator.AllocateMemory: the walk to the tail at lines 96-104 is not modelled as a loop. Its effect, appending after the last block (or setting the head when the list is empty), is a sequence append. Its linear cost is not modelled.
- The `next`/`prev` pointers are implicit in `Blocks` and `Heap`: the next block is the next element of the sequence. Only module `Links` writes the pointers out: for the split step, which is the only place where the source can leave them inconsistent, and for one pass of the backward merge loop on the links the split leaves.
- Concurrency is not modelled; the source is single-threaded global state without locking.

## Findings

| source | as written | input that shows it | evidently intended | confidence | as-written member | corrected member |
|---|---|---|---|---|---|---|
| memory_management.c:126-132 | the split sets the new header's `next` to the old successor and `current->next` to the new header, but never sets the old successor's `prev` to the new header | `p1 = _malloc(1000)`, `p2 = _malloc(10)`, `_free(p1)`, `_malloc(10)` (splits the first block), `_free(p2)`: `p2`'s `prev` is still the allocated first block, so the loop at line 52 stops at once, and the free remainder and the freed second block remain as two neighbouring free blocks. Worse: if after the split a further `_malloc` hands out the remainder whole, and the 10-byte split block is freed before `p2`, the loop at line 52 follows the stale `prev` to the free first block, which absorbs the second and unlinks the allocated remainder; the first block now overlaps the remainder's header and leading bytes, so a later `_malloc` can return memory that overlaps a live block | when the old successor exists, also set its `prev` to the new header | not executed | `Links.SplitAsWrittenStalePrev` | `Links.TakeIsRelinked` |

`Links.SplitAsWritten` models the split as written. `Links.SplitAsWrittenStalePrev` shows that, for every well-linked list whose split block has a successor, the split as written breaks the inverse links and blocks the backward merge. `Links.SplitAsWrittenLiveOverlap` shows the other outcome: once the split block is free and the remainder allocated, the backward merge from the old successor fires through the stale link (`Links.AbsorbAsWritten` is one pass of that loop) and leaves a free block whose bytes overlap the allocated remainder's header. `Links.TakeIsNotAsWritten` shows that the split as written disagrees with `Blocks.Take`. `Links.SplitRelinked` is the corrected split. `Links.SplitRelinkedLinked` proves that it keeps the links inverse and lets the merge fire. `Links.TakeIsRelinked` proves that `Blocks.Take`, which `Heap` and the rest of the model use, produces exactly the corrected links. The sequence model therefore follows the evidently intended behaviour.
