# A verified model of a single-free-list memory allocator

This project models the core of a small user-space allocator (`umalloc.c`, `memory.h`,
`verify_memory.c`) in Dafny and proves properties of the model.

The allocator manages a contiguous heap that it obtains from a growth primitive (`csbrk`).
Every block starts with a two-word header. The first word, `block_size_alloc`, holds the
payload size with the allocated flag in bit 0. The second word is a `next` link.

Free blocks form one singly linked list in ascending address order, rooted at a zero-size
sentinel `free_head` that `uinit` creates:

- `umalloc` rounds the request up to 16 bytes and walks the list first-fit. It then splits a
  larger free block, unlinks a block of exactly header-plus-request size, or extends the heap.
- `ufree` walks to the freed block's predecessor. It merges the block backward into that
  predecessor, or else splices it in after it. It then merges the result forward with its
  successor when the two touch.
- `verify_memory` checks the free list and folds five failure flags into a bitmask.

How the model is laid out:

- **`Memory`** (`memory.dfy`): addresses, `ALIGNMENT`, `ALIGN`, and the packed header word.
- **`Blocks`** (`blocks.dfy`): the header helpers on the raw word (`Block`), and the decoded
  view (`Header`) that the rest of the model uses, with `Decode` and `Encode` between them.
  It also holds the word that `split` writes, as written and as intended.
- **`Heaps`** (`heaps.dfy`): the heap state `Heap(mem, free, brk)` and the invariant `Valid`.
  - `mem` maps each header address to its decoded header.
  - `free` is the free list in list order, with `free[0]` the sentinel.
  - `brk` is the heap end.
  - `Valid` is the conjunction of the properties the checker tests, plus the layout facts
    they rely on.
- **`Allocator` / `AllocatorProofs`** (`allocator.dfy`): `uinit`, `extend`, `split`, the
  first-fit walk and `umalloc`, as pure heap transformers. The proofs cover invariant
  preservation, each of the three paths, and which bytes `umalloc` takes.
- **`AllocatorAsWritten`** (`allocator_as_written.dfy`): `split` exactly as the C code computes it,
  with a concrete heap on which its 28-bit mask loses bytes.
- **`Release` / `ReleaseProofs`** (`release.dfy`): `ufree` with its walk, backward merge,
  splice and forward merge. The proofs cover invariant preservation, the free bytes that
  `ufree` returns, and that no other allocated block is touched.
- **`ReleaseAsWritten`** (`release_as_written.dfy`): `ufree` exactly as the C code computes
  it, with a concrete heap exhibiting each divergence.
- **`RoundTrip`** (`round_trip.dfy`): `umalloc` followed by `ufree` of its pointer, on a valid
  heap. When `umalloc` reuses a free block, the heap is restored exactly. When it extends the
  heap instead, the bytes below the old heap end that were free are free again, and the block
  the heap grew by is free.
- **`Checker` / `CheckerProofs`** (`checker.dfy`): `verify_memory` with its list walk
  advancing. On a linked, bounded heap whose end is below 2^63, it returns 0 exactly when the
  sentinel has size 0 and every tested block is free and ends before its successor starts.
  Starting from a valid heap, it returns 0 after `umalloc`, or after `ufree` of any block
  other than the sentinel, provided the resulting heap end stays below 2^63.
- **`CheckerAsWritten`** (`checker_as_written.dfy`): `verify_memory` exactly as written.

Modelling choices:

- The main model follows the byte arithmetic the code evidently intends. Where the C code
  computes something else, both versions are modelled (see "## Findings").
- `csbrk` is modelled as an oracle that hands out the bytes starting at `brk`.
- Addresses are unbounded naturals, and address 0 is NULL.
- The `size_t` conversions in the checker are written out modulo 2^64 (`Checker.AsSize`).

## Model

| member | source | states |
|---|---|---|
| Memory.Align | memory.h:4-5 | ALIGN(n) is a multiple of 16, at least n and less than n + 16 |
| Memory.AlignLeast | memory.h:5 | ALIGN(n) is the least multiple of 16 that is at least n |
| Memory.AlignFixed | memory.h:5 | ALIGN(n) == n exactly when n is already a multiple of 16 |
| Memory.AlignIdempotent | memory.h:5 | ALIGN(ALIGN(n)) == ALIGN(n) |
| Memory.Pack | memory.h:7-13 | packing an aligned size and a flag gives a word whose unused bits 1-3 are zero, whose high bits read back as the size and whose bit 0 reads back as the flag |
| Memory.HeaderKeepsAlignment | memory.h:12-15 | a header is two words, 16 bytes, so the payload of a 16-aligned header is 16-aligned |
| Blocks.IsAllocated | umalloc.c:20-23 | the packed word is its size, plus twice its unused bits 1-3, plus 1 exactly when is_allocated reports the block allocated |
| Blocks.Decode | memory.h:7-15 | the decoded size is always 16-aligned and the link is carried over unchanged |
| Blocks.Encode | memory.h:7-15 | encoding a header with an aligned size gives a word in the documented layout, with unused bits 1-3 clear |
| Blocks.GetSize | umalloc.c:47-50 | the size read from a word is 16-aligned and lies within 15 below the word's value |
| Blocks.Allocate | umalloc.c:29-33 | after allocate the block reads as allocated with a NULL link, its size and unused bits unchanged |
| Blocks.Deallocate | umalloc.c:39-42 | after deallocate the block reads as free; its size, unused bits and link are unchanged |
| Blocks.FlagBitOnly | umalloc.c:41 | clearing bit 0 of a word leaves its size bits and unused bits alone |
| Blocks.PutBlock | umalloc.c:68-75 | put_block returns 0 exactly when the address is non-null and the size is aligned; then the header reads back as that size and flag, with a NULL link and no unused bits set; otherwise it returns -1 and memory is unchanged; no other header changes |
| Blocks.GetPayload | umalloc.c:80-83 | the payload starts exactly one header past the block and keeps 16-byte alignment |
| Blocks.GetBlock | umalloc.c:88-91 | get_block is the inverse of get_payload |
| Blocks.PayloadRoundTrip | umalloc.c:80-91 | get_block(get_payload(b)) == b |
| Blocks.DecodeEncode | memory.h:7-15 | encoding a decoded header into the packed layout and decoding it again loses nothing |
| Blocks.EncodeDecode | memory.h:7-15 | a word in the documented layout is exactly the encoding of what it decodes to |
| Blocks.AllocateDecoded | umalloc.c:29-33 | in the decoded view, allocate sets the flag, clears the link and keeps the size |
| Blocks.DeallocateDecoded | umalloc.c:39-42 | in the decoded view, deallocate changes only the flag |
| Blocks.PutBlockDecoded | umalloc.c:68-75 | in the decoded view, a successful put_block writes exactly (size, alloc, NULL) |
| Blocks.MaskedWord | umalloc.c:122 | storing through the 0x0FFFFFFF mask keeps a value below 2^28 and leaves smaller values as they are |
| Blocks.SplitRemainder | umalloc.c:119-124 | the remainder header that split intends decodes to size total - request - 16, free, link kept, in the documented layout |
| Blocks.SplitRemainderAsWrittenSetsBit3 | umalloc.c:121-122 | the word split actually writes decodes to the intended size modulo 2^28 (exactly the intended size below 2^28) with a clear flag, and at every size it sets unused bit 3 |
| Blocks.SplitRemainderExample | umalloc.c:121-122 | splitting a 64-byte block for 16 bytes writes 40 where the intended word is 32 |
| Blocks.SplitRemainderWordAsWritten | umalloc.c:121-122 | the word split writes is below 2^28; for aligned sizes it is the intended remainder modulo 2^28 plus 8, so its size bits read back as that remainder and its flag is clear |
| Blocks.MaskedRemainder | umalloc.c:122 | for aligned sizes, masking the one-word-short remainder keeps the intended remainder modulo 2^28 in the size bits, sets bit 3 and leaves bit 0 clear |
| Blocks.MaskedMergeTruncates | umalloc.c:190 | a merged size stored through the mask reads back as the true size modulo 2^28: exact exactly below 2^28, and 2^28 short from 2^28 up to 2^29 |
| Blocks.MaskedMergeExample | umalloc.c:190 | a merge whose true size is exactly 2^28 reads back as size 0 |
| Heaps.LinkedNext | umalloc.c:152-153 | on a linked heap, the link of every list node is its list successor, or NULL for the last node |
| Heaps.GetNextFollowsList | umalloc.c:55-60 | on packed words that decode to a linked heap, get_next steps from each free-list node to the next node, and from the last node to NULL |
| Heaps.WalkFollowsList | umalloc.c:55-60 | following get_next n times from list node j reaches node j + n, and exactly one step past the last node reaches NULL |
| Heaps.AscendingIndex | umalloc.c:180-181 | in an address-ordered list, list order and address order agree, and no address repeats |
| Heaps.SuccessorAfterEnd | verify_memory.c:20 | in a valid heap every free-list node ends at or before its successor starts |
| Heaps.OneBlockPerByte | verify_memory.c:20 | in a heap without overlap each byte belongs to at most one block |
| Allocator.UInit | umalloc.c:140-143 | uinit makes a free, zero-size sentinel with a NULL link at the old heap end, makes it the whole free list, and grows the heap by one header |
| AllocatorProofs.UInitValid | umalloc.c:140-143 | the heap right after uinit satisfies every checker invariant |
| Allocator.FindFit | umalloc.c:150-155 | the walk stops at a node whose successor is NULL or at least `need` bytes, having passed only successors smaller than `need` |
| AllocatorProofs.FindFitFirst | umalloc.c:150-155 | from the sentinel, the walk stops right before the first free block that fits, or at the last node when none fits |
| AllocatorProofs.FindFitStopsBefore | umalloc.c:150-155 | whenever position j is the first fit, the walk stops at position j - 1 |
| Allocator.Extend | umalloc.c:109-114 | extend places an allocated block of ALIGN(size) bytes with a NULL link at the old heap end, grows the heap by header plus ALIGN(size), and leaves the free list and every other header unchanged |
| AllocatorProofs.ExtendValid | umalloc.c:109-114 | extend keeps every invariant |
| AllocatorProofs.ExtendFreeBytes | umalloc.c:109-114 | extend does not change which bytes are free |
| Allocator.Split | umalloc.c:119-127 | with room for a header beyond the request, the free remainder stays at the block's address, shortened and with its link kept, and the allocated block of the requested size sits right after it and ends where the old block ended; otherwise the whole block is re-headed as allocated |
| AllocatorProofs.SplitCarves | umalloc.c:121-124 | on the path umalloc takes, split carves a new block strictly inside the old one |
| AllocatorProofs.SplitFresh | umalloc.c:123 | the carved block's address is not an existing header |
| AllocatorProofs.SplitValid | umalloc.c:159-160 | the split path keeps every invariant |
| AllocatorProofs.SplitFreeBytes | umalloc.c:159-160 | the split path removes exactly the carved block's bytes from the free bytes |
| Allocator.Unlink | umalloc.c:161-166 | the chosen successor leaves the free list; its predecessor links past it; it is marked allocated with a NULL link and its size kept; no other header changes |
| AllocatorProofs.UnlinkValid | umalloc.c:161-166 | the unlink path keeps every invariant |
| AllocatorProofs.UnlinkFreeBytes | umalloc.c:161-166 | the unlink path removes exactly the unlinked block's bytes from the free bytes |
| Allocator.Place | umalloc.c:150-166 | the block umalloc chooses is allocated, detached, and between the request and request + 16 bytes long |
| Allocator.UMalloc | umalloc.c:148-168 | umalloc returns the payload of an allocated, detached block of at least ALIGN(size) and at most ALIGN(size) + 16 bytes |
| AllocatorProofs.UMallocExtendPath | umalloc.c:157-158 | when no free block fits, umalloc returns a fresh block of exactly ALIGN(size) at the old heap end and leaves the free list unchanged |
| AllocatorProofs.UMallocUnlinkPath | umalloc.c:161-166 | when the first fit is exactly header plus request, umalloc returns it; the block is removed from the list, its predecessor links to its successor, and nothing else changes |
| AllocatorProofs.UMallocSplitPath | umalloc.c:159-160 | when the first fit is larger, umalloc returns the tail of that block; the head stays free and listed with the shortened size |
| AllocatorProofs.UMallocValid | umalloc.c:148-168 | umalloc keeps every invariant on all three paths |
| AllocatorProofs.UMallocPayloadAligned | umalloc.c:148-168 | the payload umalloc returns from a valid heap is 16-byte aligned |
| AllocatorProofs.UMallocFreeBytes | umalloc.c:148-168 | after umalloc the free bytes are the old ones minus the returned block |
| AllocatorProofs.PlaceFreeBytes | umalloc.c:150-166 | placing a request removes exactly the placed block's bytes from the free bytes |
| AllocatorProofs.UMallocTakesFreeBytes | umalloc.c:148-168 | every byte of the returned block was free, or lies at or beyond the old heap end |
| AllocatorProofs.PlaceTakesFreeBytes | umalloc.c:150-166 | the placed block consists of bytes that were free or fresh |
| AllocatorProofs.UMallocKeepsAllocated | umalloc.c:148-168 | umalloc leaves every allocated block exactly as it was |
| AllocatorProofs.PlaceKeepsAllocated | umalloc.c:150-166 | placement takes a block that was not allocated and touches no allocated block |
| AllocatorProofs.UMallocTakesUnallocated | umalloc.c:148-168 | the block umalloc returns was not allocated before the call |
| AllocatorProofs.FreeByteBelowBrk | umalloc.c:111 | free bytes lie below the heap end |
| AllocatorAsWritten.RemainderAsWritten | umalloc.c:121-122 | the remainder size that split as written leaves is the intended size modulo 2^28, with a clear flag |
| AllocatorAsWritten.SplitAsWritten | umalloc.c:119-127 | split as written keeps the list and heap end and carves an allocated ALIGN(size) block; it splits exactly when a header's worth of room remains; the remainder keeps its link, its size is stored modulo 2^28, and the carved block starts where that read-back size ends; no other header changes |
| AllocatorAsWritten.SplitAsWrittenAgrees | umalloc.c:121-123 | split as written equals the intended split exactly when the block is smaller than request + 16 + 2^28 bytes |
| AllocatorAsWritten.SplitAsWrittenOrphans | umalloc.c:122-123 | once the remainder reaches 2^28 bytes, every byte between the carved block's end and the old block's end, which lay in the old block, lies in no block |
| AllocatorAsWritten.LargeFreeHeapValid | umalloc.c:148-160 | the example heap with one free block of 2^28 + 32 bytes at 32 is valid |
| AllocatorAsWritten.LargeFreeSplitPath | umalloc.c:150-160 | umalloc(16) on that heap stops its walk at the sentinel and splits the block at 32 |
| AllocatorAsWritten.TruncatedSplitAsWritten | umalloc.c:122-123 | as written, that split stores remainder size 0 and carves the block at 48, so bytes 80 up to 2^28 + 80 lie in no block |
| AllocatorAsWritten.LargeFreeCorrectedPayload | umalloc.c:119-127 | the intended split carves the block at the old block's last 32 bytes, so umalloc(16) returns 2^28 + 64 |
| AllocatorAsWritten.TruncatedSplitCorrected | umalloc.c:119-127 | with the intended split, umalloc(16) returns 2^28 + 64 and the heap stays valid |
| Release.FindPred | umalloc.c:178-182 | the walk stops at the last list node below the block, whose successor is NULL or at or above the block |
| Release.MarkFree | umalloc.c:177 | deallocate clears the block's flag and changes nothing else |
| Release.MarkFreeLinked | umalloc.c:177 | clearing a flag keeps the list links |
| Release.FindPredMarkFree | umalloc.c:177-182 | deallocating first does not change where the walk stops |
| Release.MergeBack | umalloc.c:189-190 | backward coalescing grows the predecessor by the freed block's header and payload, keeps its link, and removes the freed header |
| Release.MergeBackLinked | umalloc.c:189-190 | dropping an unlisted header keeps the list links |
| Release.Splice | umalloc.c:192-200 | the freed block is inserted into the list right after its predecessor, linked to the old successor when there is one |
| Release.SpliceLinked | umalloc.c:192-200 | splicing an unlisted block keeps the list linked |
| Release.Absorb | umalloc.c:203-206 | forward coalescing grows the block by its successor's header and payload, takes over the successor's link, and drops the successor from list and heap |
| Release.AbsorbLinked | umalloc.c:203-206 | absorbing the successor keeps the list linked |
| Release.MergeForward | umalloc.c:203-207 | the forward step keeps the heap end and adds no header; it drops at most the block's list successor, never shrinks the block, and changes no other header |
| Release.Coalesce | umalloc.c:187-208 | the coalescing step keeps the heap end and adds no header; afterwards the freed block is on the free list unless it was merged into its predecessor |
| Release.UFree | umalloc.c:175-209 | ufree keeps the heap end and adds no header; afterwards the freed block is on the free list unless it was merged into its predecessor; ReleaseProofs.UFreeValid, UFreeFreeBytes and UFreeKeepsAllocated state what it preserves and frees |
| Release.Unlisted | umalloc.c:187 | in a valid heap, a block the walk does not find after its predecessor is allocated, unlisted and detached, strictly between its list neighbours |
| ReleaseProofs.ReleasingHolds | umalloc.c:178-187 | a block the walk does not find is strictly between its list neighbours and on no list |
| ReleaseProofs.UFreeAllocated | umalloc.c:175-209 | freeing an allocated block always proceeds to the coalescing step from the predecessor the walk finds |
| ReleaseProofs.MergeForwardValid | umalloc.c:203-207 | the forward step restores the one invariant the previous step may have broken |
| ReleaseProofs.MergeBackStep | umalloc.c:189-190 | after backward coalescing only the merged block may touch its successor |
| ReleaseProofs.SpliceStep | umalloc.c:192-200 | after splicing only the spliced block may touch its successor |
| ReleaseProofs.CoalesceValid | umalloc.c:187-208 | the coalescing step keeps every invariant |
| ReleaseProofs.UFreeValid | umalloc.c:175-209 | ufree keeps every invariant: the list stays address-ordered, and no two free blocks touch afterwards |
| ReleaseProofs.FindPredStopsBefore | umalloc.c:180-181 | the walk toward a listed block stops at its list predecessor |
| ReleaseProofs.ListedUnchanged | umalloc.c:177 | clearing the flag of a block that is already free changes nothing |
| ReleaseProofs.UFreeListedUnchanged | umalloc.c:187 | freeing a block that is already on the free list leaves the heap exactly as it was |
| ReleaseProofs.MergeForwardFreeBytes | umalloc.c:203-207 | the forward step does not change which bytes are free |
| ReleaseProofs.AbsorbFreeBytes | umalloc.c:203-206 | absorbing a touching successor does not change which bytes are free |
| ReleaseProofs.MergeBackFreeBytes | umalloc.c:189-190 | backward coalescing adds exactly the freed block's bytes to the free bytes |
| ReleaseProofs.SpliceFreeBytes | umalloc.c:192-200 | splicing adds exactly the freed block's bytes to the free bytes |
| ReleaseProofs.CoalesceFreeBytes | umalloc.c:187-208 | the coalescing step adds exactly the freed block's bytes to the free bytes |
| ReleaseProofs.UFreeFreeBytes | umalloc.c:175-209 | after freeing an allocated block, the free bytes are the old ones plus exactly that block's header and payload |
| ReleaseProofs.UFreeKeepsAllocated | umalloc.c:175-209 | ufree leaves every other allocated block exactly as it was |
| ReleaseProofs.CoalesceKeeps | umalloc.c:187-208 | the coalescing step touches only the freed block and free blocks |
| ReleaseProofs.MergeForwardKeeps | umalloc.c:203-207 | the forward step touches only free blocks |
| ReleaseProofs.KeepsAllocatedThen | umalloc.c:175-209 | leaving allocated blocks untouched composes across steps |
| ReleaseAsWritten.ScaledEnd | umalloc.c:189 | the end address the adjacency test computes is the true end for a zero-size block and lies beyond it for every other block |
| ReleaseAsWritten.MaskedSize | umalloc.c:190 | the size a masked merge stores is below 2^28 and is exact only below 2^28 |
| ReleaseAsWritten.MergeBackAsWritten | umalloc.c:189-190 | backward merging as written keeps the list and heap end, removes the freed header, and stores a size below 2^28 |
| ReleaseAsWritten.AbsorbAsWritten | umalloc.c:203-206 | forward merging as written drops the successor from list and heap, keeps the heap end, and stores a size below 2^28 |
| ReleaseAsWritten.MergeForwardAsWritten | umalloc.c:203-207 | the forward step as written keeps the heap end, adds no header and drops at most the block's list successor |
| ReleaseAsWritten.CoalesceAsWritten | umalloc.c:187-208 | the coalescing step as written keeps the heap end and adds no header; the freed block is on the list unless merged into its predecessor |
| ReleaseAsWritten.UFreeAsWritten | umalloc.c:175-209 | ufree as written keeps the heap end and adds no header; the freed block is on the list unless merged into its predecessor |
| ReleaseAsWritten.CoalesceAsWrittenSplices | umalloc.c:187-207 | when the freed block is adjacent to neither list neighbour under either the scaled or the byte-end test, the coalescing step as written and the corrected one both only splice it in |
| ReleaseAsWritten.UFreeAsWrittenAgrees | umalloc.c:175-209 | ufree as written equals the corrected ufree on every allocated block that touches neither list neighbour under either test |
| ReleaseAsWritten.FirstBlockHeapReached | umalloc.c:140-168 | uinit at 16 and then umalloc(16) give a valid heap whose one block sits right after the sentinel's header |
| ReleaseAsWritten.SentinelMergeAsWritten | umalloc.c:187-190 | freeing that block as written grows the sentinel to size 32, breaking the sentinel invariant |
| ReleaseAsWritten.SentinelSpliceCorrected | umalloc.c:187-200 | the corrected ufree splices that block in after the sentinel, and the heap stays valid |
| ReleaseAsWritten.TouchingHeapValid | umalloc.c:175-209 | the example heap with a free block touching an allocated one is valid |
| ReleaseAsWritten.ScaledAdjacencyAsWritten | umalloc.c:189 | as written, freeing a block that touches a free predecessor leaves two touching free blocks on the list |
| ReleaseAsWritten.ScaledAdjacencyCorrected | umalloc.c:189-190 | the corrected ufree merges the two into one free block |
| ReleaseAsWritten.AlignedAfterMaskedMerge | umalloc.c:190 | a masked merge keeps sizes 16-aligned |
| ReleaseAsWritten.LargeNeighbourHeapValid | umalloc.c:203-204 | the example heap with a 2^28 - 16 byte free block is valid |
| ReleaseAsWritten.MaskedMergeAsWritten | umalloc.c:203-204 | as written, merging into that neighbour stores size 0, so its bytes drop out of the free space |
| ReleaseAsWritten.MaskedMergeCorrected | umalloc.c:203-204 | the corrected ufree stores the full merged size 2^28 |
| RoundTrip.FindPredBetween | umalloc.c:180-181 | the walk toward an address strictly between two list neighbours stops at the lower one |
| RoundTrip.FindPredUnlinked | umalloc.c:161-166 | after an unlink, the walk toward the unlinked block stops at its old predecessor |
| RoundTrip.SplitMergeBack | umalloc.c:119-127 | merging the carved block back into its remainder gives exactly the block before the split |
| RoundTrip.MergeForwardValidNoop | umalloc.c:203 | on a coalesced heap the forward test never fires |
| RoundTrip.FreesIntoWalk | umalloc.c:175-187 | an allocated block of a valid heap frees into the coalescing step at the position its walk finds |
| RoundTrip.SplitFreed | umalloc.c:159-160 | after a split, freeing the carved block walks to its remainder |
| RoundTrip.SplitCoalesces | umalloc.c:189-190 | the coalescing step merges the carved block back into its remainder |
| RoundTrip.SplitThenFree | umalloc.c:159-160 | umalloc by splitting and then ufree of the result give back the original heap |
| RoundTrip.UnlinkFreed | umalloc.c:161-166 | after an unlink, freeing the block walks back to its old predecessor |
| RoundTrip.InsertRemoved | umalloc.c:192-200 | removing a list element and inserting it at the same position gives the list back |
| RoundTrip.SpliceUndoesUnlink | umalloc.c:192-200 | splicing an unlinked block back after its old predecessor restores the list and the links |
| RoundTrip.UnlinkSpliceBack | umalloc.c:161-166 | splicing the unlinked block back gives the heap before the unlink |
| RoundTrip.UnlinkNoBackMerge | umalloc.c:189 | an unlinked block never touched its old predecessor, so ufree does not merge them |
| RoundTrip.UnlinkCoalesces | umalloc.c:187-208 | the coalescing step from the unlinked block's old predecessor rebuilds the heap |
| RoundTrip.UnlinkThenFree | umalloc.c:161-166 | umalloc by unlinking and then ufree of the result give back the original heap |
| RoundTrip.PlaceThenFree | umalloc.c:150-166 | when some free block fits, placing a request and freeing it restores the heap |
| RoundTrip.UFreeUndoesUMalloc | umalloc.c:148-209 | whenever umalloc reuses a free block, ufree of the pointer it returns restores the heap exactly |
| RoundTrip.UMallocFreeable | umalloc.c:148-168 | every pointer umalloc returns names an allocated block other than the sentinel, so ufree accepts it |
| RoundTrip.UMallocTakes | umalloc.c:148-168 | umalloc takes exactly its block's bytes, each one free before or fresh |
| RoundTrip.ComposeFreeBytes | umalloc.c:148-209 | what umalloc took, ufree gives back: below the old heap end the free bytes are restored |
| RoundTrip.MallocThenFreeFreeBytes | umalloc.c:148-209 | after umalloc then ufree, the bytes below the old heap end that were free are free again, and above it exactly the block the heap grew by is free |
| RoundTrip.ExactFitHeapValid | umalloc.c:152 | the example heap is valid |
| RoundTrip.ExactFitSkipped | umalloc.c:152-158 | a free block of exactly the requested size is passed over, and a 16-byte request extends the heap |
| Checker.AsSize | verify_memory.c:20-22 | converting a pointer difference to size_t is exact for differences in [0, 2^64) and adds 2^64 to negative ones |
| Checker.ErrorCode | verify_memory.c:27-42 | the error code is below 32 and is 0 exactly when no flag is set |
| Checker.FailsAllocated | verify_memory.c:16 | fail_1's test on a block is the allocated bit of its packed header |
| Checker.FailsOrder | verify_memory.c:18 | fail_2's signed test fails exactly when the successor's address is not above the block's |
| Checker.FailsOverlap | verify_memory.c:20 | with addresses below 2^64, fail_3's unsigned test fails exactly when the successor starts at or after the block and before its end; a successor below the block wraps and passes |
| Checker.FailsTouch | verify_memory.c:22 | with addresses below 2^64, fail_4's test fails exactly when the successor starts at the block's end |
| Checker.Scan | verify_memory.c:14-25 | the loop never sets fail_5, which is computed only after it |
| CheckerProofs.ErrorCodeRoundTrip | verify_memory.c:27-42 | bits 1, 2, 4, 8 and 16 of the error code each report exactly one flag |
| Checker.ScanReports | verify_memory.c:14-23 | after the walk has passed a prefix of the list, each flag is set exactly when some tested block in that prefix failed its test |
| Checker.ScanComplete | verify_memory.c:14-25 | once the walk has passed every tested block, the flags are those the whole list calls for |
| Checker.VerifyMemory | verify_memory.c:10-43 | the checker only reads the heap, and returns the sum of the bits of exactly those tests that some block fails |
| CheckerProofs.BlockPasses | verify_memory.c:16-22 | a tested block passes all four tests exactly when it is free and ends strictly before its successor starts |
| CheckerProofs.PassesIffClean | verify_memory.c:14-25 | no flag is set exactly when the sentinel has size 0 and every tested block is free and separated from its successor |
| CheckerProofs.ValidClean | verify_memory.c:14-25 | a valid heap is clean in that sense |
| CheckerProofs.ValidPasses | verify_memory.c:24-42 | the checker returns 0 on every valid heap |
| CheckerProofs.CleanOrdered | verify_memory.c:18-22 | the local tests imply global order: a tested block ends before every later list node starts |
| CheckerProofs.CleanAscending | verify_memory.c:18 | the list after the sentinel of a clean heap is in ascending address order |
| CheckerProofs.UMallocPassesChecker | verify_memory.c:10-43 | after umalloc on a valid heap whose new end is below 2^63, the checker reports nothing |
| CheckerProofs.UFreePassesChecker | verify_memory.c:10-43 | after ufree on a valid heap whose end is below 2^63, the checker reports nothing |
| CheckerAsWritten.LoopAsWritten | verify_memory.c:14-23 | the loop as written never moves `test` |
| CheckerAsWritten.LoopSpins | verify_memory.c:14-23 | the loop exits only when its condition is false on entry; otherwise no number of iterations ends it |
| CheckerAsWritten.FirstTested | verify_memory.c:12 | the walk starts at the sentinel's successor, which is NULL or a real header |
| CheckerAsWritten.VerifyMemoryAsWritten | verify_memory.c:10-43 | any code it returns is below 32 |
| CheckerAsWritten.AsWrittenOutcomes | verify_memory.c:12-42 | with the sentinel alone it dereferences NULL; with one free block it returns 16 or 0 according to the sentinel's size; with more it never returns |
| CheckerAsWritten.AsWrittenSpins | verify_memory.c:14-23 | with two or more free blocks after the sentinel, the checker never returns |
| CheckerAsWritten.AsWrittenNullDereference | verify_memory.c:26 | right after uinit the heap is valid and the checker dereferences NULL |
| CheckerAsWritten.AsWrittenReportsSentinel | verify_memory.c:24-25 | on a valid heap with one free block the checker returns 16 where the corrected checker returns 0 |
| CheckerAsWritten.AsWrittenNeverPasses | verify_memory.c:10-43 | on no valid heap does the checker as written return 0 |

## Left out

- `csbrk` failure (umalloc.c:111): the growth primitive always succeeds and hands out the bytes at the heap end. Its failure path is unhandled in the code.
- `find` and `coalesce` (umalloc.c:101-103, umalloc.c:132-134): both are stubs that return NULL. No operation calls them.
- The `author` string and the `stdio` includes: neither affects the heap.
- `check_heap.c` is not part of this model. It is an earlier checker that `verify_memory.c` replaces.
- Release.UFree: requires a valid heap, so `free_head` is not NULL. The branch at umalloc.c:183-184 runs with a NULL `free_head` and then dereferences NULL at line 187.
- Release.UFree: requires that the freed address is the payload of a current block other than the sentinel. Any other pointer is undefined behaviour in C. Freeing a block that is still on the list is modelled and changes nothing (`ReleaseProofs.UFreeListedUnchanged`).
- AllocatorProofs.UInitValid: requires the first address `csbrk` hands out to be a non-null multiple of 16. The code never checks this, and the 16-byte alignment of every payload (`AllocatorProofs.UMallocPayloadAligned`) rests on it.
- Blocks.GetBlock: requires a payload of at least 16. Smaller non-null pointers would wrap below address 0.
- Blocks.PutBlock: does not model the `alloc >> 1 != 0` test (umalloc.c:69). It is always false for a C `bool`.
- Memory.Align: does not model wrap-around of `size + 15` near `SIZE_MAX`. Addresses and sizes are unbounded naturals.
- Raw pointer casts are not modelled: headers are read and written through the address map.
- The heap stores decoded headers. The packed word, with its unused bits, appears only in module `Blocks`, which shows that each helper agrees with the decoded view.
- Allocator.Split: stores the remainder's size whole. The 28-bit mask at umalloc.c:122 is modelled by `AllocatorAsWritten.SplitAsWritten` (see "## Findings").
- Assertions are assumed enabled. `extend` (umalloc.c:112) and `split` (umalloc.c:125) call `put_block` only inside `assert(...)`, so a build with `NDEBUG` writes no header there.
- Heaps.Coalesced: exempts the sentinel and the first free block from the no-touching rule. Merging a block into the sentinel would give the sentinel a nonzero size (see "## Findings").
- CheckerProofs.UMallocPassesChecker: requires the heap end after umalloc below 2^63, so every pointer difference fits in `ptrdiff_t` and every size fits in `size_t`.
- CheckerProofs.UFreePassesChecker: requires the heap end below 2^63, for the same reason.
- CheckerProofs.ValidPasses: requires the heap end below 2^63, so every pointer difference fits in `ptrdiff_t` and every size fits in `size_t`.
- Checker.VerifyMemory: like the code, it tests only free-list nodes that have a successor. The sentinel and the last node are never checked for the allocated flag, order, overlap or touching.
- Allocator.UMalloc: umalloc before uinit is modelled (the extend path with an empty list), but no invariant is claimed for the resulting heap, since the sentinel would not be the lowest block.
- The design description calls for over-allocation by a growth factor of 16, and for a grown chunk to be released and re-split. The code does neither, and the model follows the code: extend asks for exactly one header plus ALIGN(size).
- The design description expects `alloc(64); free(p); alloc(64)` to reuse the freed block. The code's walk needs a block of at least header plus request, so an exact-size free block is skipped (`RoundTrip.ExactFitSkipped`), and the model follows the code.
- Concurrency: the allocator is single-threaded, and so is the model.

## Findings

| source | as written | input that shows it | evidently intended | confidence | as-written member | corrected member |
|---|---|---|---|---|---|---|
| umalloc.c:121-122 | split stores `size - (request + 8)`: it subtracts a pointer's size, not the 16-byte header | a 64-byte free block split for a 16-byte request gets word 40, i.e. size 32 with unused bit 3 set | store `size - request - 16`, leaving bits 1-3 zero | not executed; below 2^28 get_size masks the bit, so only the documented layout is violated; from 2^28 on, see the next row | Blocks.SplitRemainderAsWrittenSetsBit3 | Blocks.SplitRemainder |
| umalloc.c:122-123 | the remainder's size is stored through `& 0x0FFFFFFF`, and line 123 places the carved block using the size read back | a free block of 2^28 + 32 bytes at 32 split for umalloc(16): the remainder reads back as size 0, the block is carved at 48, and bytes 80 up to 2^28 + 80 lie in no block | store the full remainder and carve the block at the old block's end | not executed | AllocatorAsWritten.TruncatedSplitAsWritten | AllocatorAsWritten.TruncatedSplitCorrected |
| umalloc.c:190, umalloc.c:204 | merged sizes are stored through `& 0x0FFFFFFF` | freeing an empty block at 64 whose neighbour at 80 holds 2^28 - 16 bytes stores size 0 | store the full merged size | not executed | ReleaseAsWritten.MaskedMergeAsWritten | ReleaseAsWritten.MaskedMergeCorrected |
| umalloc.c:189, umalloc.c:203 | the adjacency tests add `get_size` to a `memory_block_t *`, scaling it by 16 | freeing the block at 80 right after a free 32-byte block at 32: the test looks at 560, not 80, so two touching free blocks stay apart | compare the byte end `payload + size` | not executed | ReleaseAsWritten.ScaledAdjacencyAsWritten | ReleaseAsWritten.ScaledAdjacencyCorrected |
| umalloc.c:187-190 | the backward merge is also taken when the predecessor is the sentinel | uinit at 16, umalloc(16), then ufree of the payload 48 gives the sentinel size 32 | splice the block in after the sentinel, whose size stays 0 | not executed | ReleaseAsWritten.SentinelMergeAsWritten | ReleaseAsWritten.SentinelSpliceCorrected |
| verify_memory.c:14-23 | the loop never advances `test`; the one advance is after the loop, at line 26 | any heap with two free blocks after the sentinel: the loop never ends | advance `test = test->next` inside the loop | not executed | CheckerAsWritten.AsWrittenSpins | Checker.VerifyMemory |
| verify_memory.c:26 | `test = test->next` dereferences `test` after the loop, when it may be NULL | right after uinit, `test` starts as NULL | no dereference after the loop | not executed | CheckerAsWritten.AsWrittenNullDereference | Checker.VerifyMemory |
| verify_memory.c:25 | fail_5 is set when the sentinel's size is 0 | any valid heap with one free block: the checker returns 16 | set fail_5 when the sentinel's size is not 0 | not executed | CheckerAsWritten.AsWrittenReportsSentinel | CheckerProofs.ValidPasses |
