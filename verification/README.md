# A verified model of a simulated heap allocator

This project models the allocator of `main.cpp`: a simulated `malloc`/`free`
that keeps a singly linked list of `Block { size, free, next }` headers in a
256-byte metadata arena (`memory`, rooted at `freeList`) and takes the bytes
of every allocation from a "physical" backing store (`large_memory`) in which
some bytes are bad (`'X'`) and claimed bytes are marked `'1'`.

- `myMalloc(n)` walks the list for the first free block holding
  `n + sizeof(Block)` bytes. It then scans the backing store, counting usable
  bytes in `good_count`. Once the count has reached `n` and one more usable
  byte `i` is seen, it marks `[i - n, i)` claimed. It then carves a used block
  out of the end of the head's payload, links it right after the head, and
  returns the address just past the new header.
- `myFree(ptr)` steps back one header. NULL and an already-free block are left
  alone. Otherwise it marks the block free, walks the list to its predecessor,
  and coalesces it with a free predecessor and/or a free successor.
- `markBadBlocks` marks picked bytes of the store bad.

Raw pointers into the arena become byte offsets. A header lives in a
`map<nat, Block>` under its offset, `next` is `Option<nat>`, and the list
itself is kept as a ghost sequence of offsets (`order`). `sizeof(Block)` is
an abstract positive constant `H` (at most 256). NULL is `None`.

Modules:

- `Wrappers` holds `Option`.
- `BlockList` (`blocklist.dfy`) is the arena:
  - its invariant `Valid`: the list starts at the free head at offset 0, blocks lie back to back up to byte 256, no two neighbours are both free, and records that left the list are free;
  - the specification functions `Init`, `FirstFit`, `Carve`, `Release` and `FreeSpec`;
  - the lemmas about them.
- `BackingStore` (`backing_store.dfy`) is the byte store:
  - the scan specification `Run` / `Claimable` / `FirstClaim`;
  - the claim `Claim`;
  - `MarkBadBlocks`.
- `Allocator` (`allocator.dfy`) holds:
  - `MallocSpec`, which combines both halves;
  - the class `Heap`, which holds the state (`blocks`, `order`, `store`) and whose methods are the source's loops and in-place updates, each proved against the specification functions.

A successful `myMalloc` is the carve of the head (`Allocator.MallocSucceeds`).
Freeing its handle merges the carved block straight back into the head
(`BlockList.CarveReleaseRoundTrip`). Together these give the round trip:
malloc followed by free restores the list and every listed block.

The model follows the code in these respects:

- `myFree` does not turn the claimed `'1'` bytes back into usable ones, so a
  freed range is never reused by a later scan.
- Every failure is a plain NULL; there are no distinct error kinds.
- The backing store is obtained with `malloc` and is not zero-filled, so its
  initial contents are arbitrary here.
- The scan claims a run only after seeing one more usable byte past it, so a
  run that ends at the last byte of the store is never used.

## Model

| member | source | states |
|---|---|---|
| BlockList.Init | main.cpp:33-37 | `initializeMemory` leaves one free block at offset 0 whose header and payload fill the 256-byte arena; the arena is valid and its footprint is `MEMORY_SIZE` |
| BlockList.Conservation | main.cpp:33-37 | in every valid arena the listed blocks' payloads plus one header each add up to exactly `MEMORY_SIZE` |
| BlockList.Increasing | main.cpp:60-69 | listed offsets strictly increase and every block ends inside the arena, so walking `next` from the head visits each block once and stops |
| BlockList.FirstFit | main.cpp:57-69 | the first-fit walk finds the first list position whose block is free and holds `n + sizeof(Block)`; no earlier block qualifies, and it finds nothing exactly when no block qualifies |
| Allocator.Heap.FindFit | main.cpp:57-69 | the `while` walk over `next` links returns the block at the first-fit position, or NULL exactly when there is none |
| BackingStore.Run | main.cpp:73-84 | `good_count` on reaching byte `i` is the length of the usable run just before `i`, capped at `n`: those bytes are all usable and, below the cap, the byte before the run is not |
| BackingStore.ClaimableByRun | main.cpp:77-87 | the scan claims at `i` exactly when `good_count` equals `n` and byte `i` is usable, i.e. the `n` bytes before `i` and byte `i` are all neither `'X'` nor `'1'` |
| BackingStore.FirstClaim | main.cpp:74-88 | the chosen index is claimable and no smaller index is; none is found only when no index is claimable |
| Allocator.Heap.Scan | main.cpp:73-88 | the scan loop over `large_memory` with its `good_count` returns exactly the smallest claimable index, or none |
| BackingStore.FinalRunNeverClaimed | main.cpp:82-88 | when the only usable bytes are the last `n` of the store, a request for `n` bytes finds nothing |
| BackingStore.ClaimSafe | main.cpp:90-92 | the claimed range `[i - n, i)` held only usable bytes and is all `'1'` afterwards; every other byte is unchanged, so no `'X'` is overwritten |
| Allocator.Heap.ClaimRun | main.cpp:90-92 | the claim loop leaves the store equal to `Claim` of the old store: `'1'` on the range, every other byte as before |
| BlockList.CarveKeeps | main.cpp:94-98 | the carved header lies inside the head's old payload, ends where it ended, and precedes every later block, whose records are untouched |
| BlockList.CarveValid | main.cpp:94-103 | carving a block out of the head and linking it after the head keeps the arena valid and its footprint unchanged |
| Allocator.Heap.CarveHead | main.cpp:94-106 | the in-place carve leaves the arena equal to `Carve` of the old one and returns the new header's offset plus `sizeof(Block)` |
| Allocator.MallocSucceeds | main.cpp:94-106 | a successful `myMalloc` required a head with room for `n` and a header; its arena is the carve of the head and its handle the carved header plus one header |
| Allocator.MallocFails | main.cpp:49-112 | `myMalloc` returns NULL exactly for `n == 0`, when no listed block is free with room for `n` and a header, or when no index is claimable; a NULL result leaves the arena and the store unchanged |
| Allocator.MallocClaims | main.cpp:74-92 | on success the store is the old store with `[i - n, i)` claimed, for the smallest claimable `i` |
| Allocator.MallocCarves | main.cpp:94-106 | on success the head shrinks by exactly `n + sizeof(Block)`; a used block of size `n` sits at `sizeof(Block)` plus the new head size, linked right after the head with the old successor after it; the rest of the list and its records are unchanged; the handle is that offset plus `sizeof(Block)`; the arena stays valid |
| Allocator.MallocValid | main.cpp:94-98 | whatever the outcome, `myMalloc` leaves a valid arena whose footprint is still `MEMORY_SIZE` |
| Allocator.Heap.Malloc | main.cpp:49-112 | the method's arena, store and result are exactly `MallocSpec` of the old state, and the heap stays valid |
| BlockList.UsedIsListed | main.cpp:139-142 | a block in use is on the list and is not the head, so the predecessor walk finds it |
| Allocator.Heap.FindPredecessor | main.cpp:139-142 | the walk returns the block at the list position just before the freed block |
| BlockList.Absorb | main.cpp:144-175 | a free record that grows over the following blocks up to the next listed block, with the absorbed blocks dropped from the list, leaves a valid arena when its new neighbours are in use |
| BlockList.ReleaseIntoBoth | main.cpp:147-162 | a free predecessor absorbing the block and a free successor keeps the arena valid |
| BlockList.ReleaseIntoPred | main.cpp:147-150 | a free predecessor absorbing the block keeps the arena valid |
| BlockList.ReleaseNext | main.cpp:165-173 | the block absorbing a free successor keeps the arena valid |
| BlockList.ReleaseAlone | main.cpp:128-131 | marking the block free when neither neighbour is free keeps the arena valid |
| BlockList.ReleaseValid | main.cpp:137-175 | every coalescing outcome keeps the arena valid, conserves its bytes and keeps every record |
| BlockList.ReleaseOutcomes | main.cpp:145-175 | a free predecessor grows by the block's size plus a header, and also by a free successor's size plus a header; otherwise the freed block grows by a free successor's size plus a header; the merged-away blocks leave the list, and every other record is unchanged |
| BlockList.ReleaseCovers | main.cpp:128-175 | the freed bytes end up inside one free listed block: the predecessor's when it was free, the block's own otherwise |
| BlockList.ReleaseMarksFree | main.cpp:128-131 | after coalescing the released record reads as free |
| Allocator.Heap.Coalesce | main.cpp:144-175 | the in-place merges leave the arena equal to `Release` at the freed block's list position |
| BlockList.FreeIsRelease | main.cpp:125-142 | freeing a block in use is the release of the header one `sizeof(Block)` before the handle, at its list position |
| BlockList.FreeValid | main.cpp:115-177 | every outcome of `myFree` keeps the arena valid, keeps every record and conserves the arena's bytes |
| BlockList.FreeMarksFree | main.cpp:128-131 | after `myFree` the handle's header reads as free |
| BlockList.FreeChanges | main.cpp:118-135 | `myFree` changes the arena exactly when handed a block in use; NULL and free blocks are no-ops |
| BlockList.FreeIdempotent | main.cpp:128-135 | a second `myFree` of the same handle changes nothing |
| Allocator.Heap.Free | main.cpp:115-177 | the method's arena is exactly `FreeSpec` of the old one, the heap stays valid, and `large_memory` is unchanged |
| BlockList.CarvedSecond | main.cpp:100-103 | the carved block is at list position 1, is in use, and its handle is one `myFree` accepts |
| BlockList.CarveThenRelease | main.cpp:147-150 | releasing the carved block merges it back into the head: the head's size and link and the list are as before the carve |
| BlockList.CarveReleaseRoundTrip | main.cpp:94-150 | `myFree` on the handle of the block just carved restores the list and every listed record; only the merged-away header remains, marked free |
| Allocator.Heap.constructor | main.cpp:33-37 | a new heap holds the arena of `initializeMemory`, with the given header size and backing store |
| BackingStore.MarkBadBlocks | main.cpp:40-46 | every byte hit by a pick modulo the store's length becomes `'X'`, and every other byte is unchanged |

## Left out

- `markBadBlocks` seeds and draws from `rand()`; the model takes the drawn values as the sequence `picks`.
- `main` (argument parsing, the system `malloc` of `large_memory`, printing) and the test driver `testMemoryAllocation` / `runTests` are not modelled.
- The literal byte layout is not modelled. This covers struct padding, the concrete value of `sizeof(Block)`, and headers overlaid on `char` storage by pointer casts. Headers are records keyed by offset.
- A header merged away by coalescing keeps its record (free) in the model. In the source its bytes also persist. The source could later overwrite part of them with a new header at a nearby offset; the model keeps the old record whole, which is what makes a repeated free of a merged-away handle a no-op.
- Allocator.Heap.Malloc: requires `CarveSafe`. The source carves from the head whichever block passed the first-fit test. If a later block fits, the head does not, and the scan also finds a run, the unsigned subtraction of the head's size wraps and the carve corrupts the arena. The model excludes only this case instead of modelling the wrap. When the scan finds nothing, the call returns NULL before the carve and is modelled (likewise in `Allocator.MallocFails` and `Allocator.MallocValid`).
- Allocator.Heap.Malloc: does not model the `size_t` wrap-around of `n + sizeof(Block)` for requests near `SIZE_MAX`. Sizes are unbounded naturals.
- Allocator.Heap.Free: requires the handle to be NULL or to sit one header past a record in the arena. Freeing any other pointer is undefined in the source (e.g. the final `myFree(large_memory)` in `main`). Such pointers are not modelled.
- The store's length is fixed to `LARGE_MEMORY_SIZE` in the heap. The scan, claim and bad-block specifications themselves hold for stores of any length.
