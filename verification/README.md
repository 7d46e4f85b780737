# cmem in Dafny

cmem is a tiered memory allocator in C.  This project models its hardest parts and proves what they
are for.  `dafny verify dfyconfig.toml` checks everything.

Addresses are naturals and 0 is NULL.  Block headers are maps from addresses to header words; the
classes update these maps, the link words, the bitmaps and the counters in place, as the C code does.
`sizeof(tlsf_block_t)` is 32 and `sizeof(mp_block_header_t)` is 152.

**Per-thread TLSF arena** (`Tiling`, `SortedList`, `ArenaMerge`, `ArenaValidator`, `ArenaHeap`).  A
region tiled by blocks with an address-sorted, eagerly coalescing free list and a mailbox of deferred
frees.  `tlsf_arena_validate` is the specification.  Growth in place drops PREV_FREE; every operation,
growth included, goes on keeping tiling, links, list and byte counter afterwards, and the validator passes
exactly when no flag is missing.

**Retirement of that arena** (`ArenaRetirement`, `ArenaRetirementTheorems`).  A step system with one
label per atomic access.  Cleanup happens at most once, and once everything is quiet and empty it has
happened.  That it finds nothing live is false of the code: between the subtraction of a freer that
reaches zero and its load of `retired` the owner may allocate again and retire, and the freer then releases
the region under a live block.  The project gives such a run and proves that this window is the only way.

**Shared TLSF tier** (`TlsfIndex`, `BucketLists`, `TlsfBlocks`, `TlsfPool`, `TlsfTier`).  The two-level
index with its carry, the bucket lists and bitmaps, splitting, coalescing, growth, the chain of arenas.
An arena is `strict` until a cached block is put back anywhere but behind a used block at its end: PREV_FREE
is then exact for every block but the sentinel, whose flag is not set when the arena is made, and no two
free blocks touch.

**Per-thread block cache** (`TlsfCache`).  Cached blocks still tile the arenas with the live and the free
ones.  Putting one back neither coalesces nor tells the neighbour; afterwards PREV_FREE may be missing
but never lies.  Caching a block does not lower `tlsf_allocated_bytes`, although a cache hit raises it:
the counter stops being the usable bytes of the live blocks with the first block that is cached.

**LZ4 codec and compressed store** (`Lz4`, `Lz4Runs`, `Lz4Codec`, `StoreModel`, `CompressedStore`).  The codec
as a pair of functions that undo each other, the parse as greedy, the loops proved against them, and the handle table, byte area,
budget and eviction as a refinement of a list of stored blocks.

**Batch admission** (`BatchModel`, `BatchAlloc`).  The one-shot decision of `mp_alloc_batch` against a
loop of `mp_alloc` calls.

**Remote-free queues** (`RemoteQueue`, `RemoteQueueTheorems`).  Pushers and harvesters of the slab tier
at single-access granularity.  The per-class flag never misses a queue; the global flag can.

**Slab tier** (`Chains`, `SlabSlots`, `SlabTier`).  One size class: pages on the partial, full and empty
lists, and every slot in exactly one place: on its page, in a thread cache, in a per-CPU list, in the
remote queue or in user hands.  `slab_allocated_bytes` is shared: `others` is the part of the other classes.

**Live-block book-keeping** (`ActiveList`).  The COUNTED flag, `active_allocations` and the list of active
headers.  FAST_PATH pools keep no list, but their aligned paths still relink through the two link words,
which nobody has set.

`Sums`, `SortedList`, `LinkedStacks`, `Chains` and `Folding` hold what several parts share.

Where comments and code disagree the code is followed: `mp_free` says that the statistics of a cached
block are already updated (`src/cmem_alloc.c:1395`), which they are not, and `mp_alloc_batch` promises
per-element parity, which its OS loop does not keep.

## Model

| member | source | states |
|---|---|---|
| `ArenaRetirement.InvStep` | src/cmem_slab.c:199-372 | Every atomic step of owner, freers and cleaner keeps byte accounting, mailbox and walker chains, block ownership, phases, and the presence of somebody who will still claim an empty retired arena |
| `ArenaRetirementTheorems.InvRun` | src/cmem_slab.c:199-372 | Every run from a state satisfying the invariant ends in one |
| `ArenaRetirementTheorems.ClaimsCount` | src/cmem_slab.c:221-254 | The number of won claims in any run is 1 exactly when `cleanup_claimed` is set, else 0 |
| `ArenaRetirementTheorems.CleanupAtMostOnce` | src/cmem_slab.c:221-254 | In every run the region is released at most once, only after the owner detached and the claim was won |
| `ArenaRetirementTheorems.DestroyedOnce` | src/cmem_slab.c:256-282 | After every run: with the forced release at the destruction of the pool the region is released exactly once, if and only if no cleanup is under way at that moment |
| `ArenaRetirementTheorems.BytesConserved` | src/cmem_slab.c:284-372 | In every run the free list and the outstanding blocks add up to the region, and `live_bytes` is what is held plus what is published but not yet subtracted |
| `ArenaRetirementTheorems.EmptyRetiredArenaReleased` | src/cmem_slab.c:237-254 | Every quiescent reachable state with `retired` set and `live_bytes` zero has been claimed and released |
| `ArenaRetirementTheorems.CleanupSafe` | src/cmem_slab.c:325-364 | In runs where the owner never adds a span while a freer sits between its zero-reaching subtraction and its load of `retired`, cleanup finds no live block and every block on the free list or in the mailbox |
| `ArenaRetirementTheorems.CleanupUnsafeIff` | src/cmem_slab.c:354-363 | From a state reached without passing through the window, whose owner is about to add a span: a continuation without further additions that releases the region under a live block exists if and only if some freer is in the window |
| `ArenaRetirementTheorems.HazardIsReal` | src/cmem_slab.c:354-363 | From every unclaimed state with the owner idle, a freer in the window and a block in use, the run that ends with the region released once and that block still in use |
| `ArenaRetirementTheorems.UnsafeRunExists` | src/cmem_slab.c:354-363 | For every region and every span in it, a run from the initial state that releases the region once while a block of that span is in use |
| `ArenaRetirementTheorems.FreeWhole` | src/cmem_slab.c:354-372 | Run alone, a free by another thread puts the block at the head of the mailbox, takes its bytes off `live_bytes` and claims the cleanup exactly when that reaches zero and the arena is retired |
| `ArenaRetirementTheorems.DirectWhole` | src/cmem_slab.c:325-353 | Run alone, a free by the owner puts the bytes on the free list and takes them off `live_bytes` |
| `ArenaRetirementTheorems.AllocWhole` | src/cmem_slab.c:284-323 | Run alone, an allocation first merges exactly the mailed blocks, then has its block in use and counted |
| `ArenaRetirementTheorems.RetireWhole` | src/cmem_slab.c:237-254 | Run alone, retirement claims the cleanup exactly when `live_bytes` is zero |
| `Tiling.SetFreeTiled` | src/cmem_slab.c:151-156 | Marking a block free or used and telling its successor keeps the region tiled, with `prev_physical` and PREV_FREE right |
| `Tiling.JoinTiled` | src/cmem_slab.c:121-138 | Absorbing the next block keeps the region tiled |
| `Tiling.CutTiled` | src/cmem_slab.c:304-309 | Splitting a block keeps the region tiled |
| `Tiling.CutJoin` | src/cmem_slab.c:121-138 | Joining undoes cutting |
| `Tiling.NoGaps` | src/cmem_slab.c:389-420 | Every byte of a tiled region belongs to a block |
| `Tiling.NoOverlap` | src/cmem_slab.c:389-420 | No byte belongs to two blocks |
| `Tiling.PrevFreeExact` | src/cmem_slab.c:404-411 | PREV_FREE is set exactly when the physical predecessor is free |
| `SortedList.UnlinkSorted` | src/cmem_slab.c:96-108 | Unlinking a member leaves the address-sorted doubly linked list of the others |
| `SortedList.LinkSorted` | src/cmem_slab.c:111-157 | Splicing an address between its neighbours leaves the sorted list of all |
| `ArenaMerge.InsertEffect` | src/cmem_slab.c:111-157 | The header edits of an insertion leave a tiled, coalesced region with the block free, merged with whichever neighbours were free, and all other used blocks as they were |
| `ArenaMerge.InsertedIsFreed` | src/cmem_slab.c:111-157 | Those edits equal marking the block free and joining it with its free neighbours |
| `ArenaValidator.Validate` | src/cmem_slab.c:374-445 | The two loops of the validator accept exactly the heaps the recursive walks accept |
| `ArenaValidator.ValidatesMeans` | src/cmem_slab.c:374-445 | For any headers and links, in order or not: the validator accepts exactly when the blocks it walks over tile the region with exact flags and the entries it finds on the list are sorted, free, inside the region and do not touch their list successor |
| `ArenaValidator.InvariantValidates` | src/cmem_slab.c:374-445 | A tiled, coalesced region with its sorted free list passes the validator |
| `ArenaValidator.OffListUnnoticed` | src/cmem_slab.c:422-444 | A free block that drops off the list is never noticed |
| `ArenaValidator.ValidatesIffExact` | src/cmem_slab.c:404-411 | Of the heaps in order but for missing PREV_FREE flags, the validator accepts exactly those with no flag missing |
| `ArenaValidator.FlagLossShows` | src/cmem_slab.c:404-411 | Dropping the PREV_FREE flag of a block of a valid arena makes the validator fail exactly when the flag was set |
| `ArenaHeap.Arena.constructor` | src/cmem_slab.c:159-197 | A new arena is one free block and valid |
| `ArenaHeap.Arena.Alloc` | src/cmem_slab.c:284-323 | First fit: the lowest free block that is large enough, split when the rest can stand alone; NULL only when none is; live bytes follow and the arena stays valid |
| `ArenaHeap.Arena.FreeBlock` | src/cmem_slab.c:325-372 | The block leaves the live set, for the free list or the mailbox, and the last-freer test is true exactly when nothing is live |
| `ArenaHeap.Arena.Reap` | src/cmem_slab.c:199-210 | Every mailed block moves to the free list, the live set is unchanged |
| `ArenaHeap.Arena.InsertFree` | src/cmem_slab.c:111-157 | Inserting a stamped block restores the sorted, coalesced, tiled heap |
| `ArenaHeap.Arena.CheckHeap` | src/cmem_slab.c:374-445 | The debug assertion holds exactly when no PREV_FREE flag is missing, on every arena the operations can produce |
| `ArenaHeap.Arena.TryExtend` | src/cmem_alloc.c:1469-1502 | In numbers: the span is unchanged if it suffices or the next block is not free or too small; otherwise it is what was asked for if 64 bytes or more are left over, else both blocks whole; no other used block changes |
| `ArenaHeap.Arena.Grow` | src/cmem_alloc.c:1459-1511 | Growth succeeds exactly when the span suffices or the next block is free and both together do; then the span is what was asked for if 64 bytes or more are left over, else both blocks whole, and `live_bytes` follows; tiling, links and sorted list hold and all operations go on; the validator passes exactly when no flag is missing, and on an arena without missing flags one is lost exactly when the block grew and had the flag |
| `ArenaHeap.GrowthLosesFlag` | src/cmem_alloc.c:1469-1502 | In every arena with room: two blocks are allocated, the first is freed, the second grows, and the validator fails |
| `ArenaHeap.EmptyArenaIsOneBlock` | src/cmem_slab.c:111-157 | With nothing live and the mailbox empty, the free list is one block spanning the region |
| `ArenaHeap.LiveBlocksDisjoint` | src/cmem_slab.c:284-323 | Live blocks do not overlap |
| `Lz4.ReadWriteLen` | src/cmem_compress.c:41-57 | Reading back a length extension gives the length and the rest of the input, for every length |
| `Lz4.SequenceBytes` | src/cmem_compress.c:100-150 | The bytes of a sequence: token with both lengths cut at 15, literals, offset low byte first, match length less 4 |
| `Lz4.ExtBytes` | src/cmem_compress.c:41-57 | A length below 15 has no extension; a longer one has (n - 15) / 255 bytes of 255 and the remainder |
| `Lz4.TurnSequence` | src/cmem_compress.c:173-235 | One decoder turn over an encoded sequence reproduces its literals and its match |
| `Lz4.TurnInverse` | src/cmem_compress.c:173-235 | Whatever the decoder goes on after was one sequence in that format, with its match inside the output and the room there is |
| `Lz4.StopInverse` | src/cmem_compress.c:173-235 | Whatever the decoder stops after was a token and its literals |
| `Lz4.CopyMatchUnique` | src/cmem_compress.c:225-232 | The byte-by-byte copy is the only continuation that repeats with the given offset, overlapping or not |
| `Lz4.BestIsLongest` | src/cmem_compress.c:72-98 | The match chosen is at least as long as every other match in the window |
| `Lz4.BestMatchOptimal` | src/cmem_compress.c:72-98 | The match chosen is real, within 65535 bytes back and 4096 bytes long, and no such match is longer, nor as long and nearer |
| `Lz4.BestAgrees` | src/cmem_compress.c:72-98 | The match chosen really repeats earlier input |
| `Lz4.EncodeGreedy` | src/cmem_compress.c:59-171 | The parse is greedy: up to the next match of four bytes or more everything is a literal, there the longest match is taken, of those the nearest, and the parse goes on behind it |
| `Lz4.EncodeBound` | src/cmem_compress.c:59-171 | An encoding is at most two bytes, and one for every 255, longer than its input |
| `Lz4.RoundTrip` | src/cmem_compress.c:59-235 | Decoding an encoding with the original size gives back the original bytes, for every input |
| `Lz4Runs.RunEncoded` | src/cmem_compress.c:59-171 | The exact size of the encoding of n equal bytes |
| `Lz4Runs.RunGains` | src/cmem_compress.c:59-171 | A run is encoded in at most 6 + n / 215 bytes, up to 4097 bytes in 6 + n / 255, and from 64 bytes on in fewer bytes than it has |
| `Lz4Runs.HundredZeros` | src/cmem_compress.c:59-171 | A hundred zero bytes become 1F 00 01 00 50 |
| `Lz4Codec.FindMatch` | src/cmem_compress.c:72-98 | The search loop finds the longest match within 65535 bytes back and 4096 bytes of probe, and of those the nearest |
| `Lz4Codec.PutLen` | src/cmem_compress.c:41-57 | The length writer writes the extension or reports that it does not fit |
| `Lz4Codec.Compress` | src/cmem_compress.c:59-171 | -1 exactly for empty input or too little room; otherwise the buffer holds the encoding; a run of 64 bytes and more is written in at most 6 + n / 215 bytes |
| `Lz4Codec.Decompress` | src/cmem_compress.c:173-235 | The decoder loop computes the specified decoding, failures included |
| `Lz4Codec.RoundTripLoops` | src/cmem_compress.c:59-235 | The two loops undo each other on every input the compressor accepts |
| `StoreModel.EvictMinimal` | src/cmem_compress.c:326-335 | Eviction removes the oldest blocks, one fewer would not have made room, and a block larger than the budget empties the store |
| `StoreModel.HandleForever` | src/cmem_compress.c:275-442 | Over every run a handle reads back exactly its bytes while stored, and once gone it never reads again |
| `StoreModel.IssuedOnce` | src/cmem_compress.c:380-392 | A handle once issued is never issued again |
| `CompressedStore.RetireRepresents` | src/cmem_compress.c:275-293 | Retiring an entry represents the store without that block |
| `CompressedStore.InsertRepresents` | src/cmem_compress.c:377-392 | Filling a clear stretch and a free entry represents the store with the new block last |
| `CompressedStore.AcceptsIffStored` | src/cmem_compress.c:395-442 | The handle test of read and free passes exactly for the handles of stored blocks |
| `CompressedStore.Store.EvictOldest` | src/cmem_compress.c:275-293 | The block with the least sequence number goes and its bytes leave the total |
| `CompressedStore.Store.MakeRoom` | src/cmem_compress.c:326-335 | The eviction loop ends with the minimal eviction, and fails exactly when the block exceeds the budget |
| `CompressedStore.Store.Carve` | src/cmem_compress.c:350-375 | First-fit carving returns the lowest aligned offset clear of every stored block |
| `CompressedStore.Store.Compress` | src/cmem_compress.c:295-393 | 0 with the store unchanged exactly for the calls refused outright (size, memory, budget, no gain); otherwise the data is stored under a new handle beside the newest blocks that fit, on the slot grid and within budget, or it is not stored, the same evictions were made, and the encoding exceeds the budget, the table is full or no gap is wide enough; the area appears when first granted, as large as the budget, and never changes size, and stored blocks never move; on an empty store every run of 64 bytes and more that the budget and the area have room for is stored |
| `CompressedStore.Store.Decompress` | src/cmem_compress.c:395-422 | Returns exactly the stored bytes, and nothing for every other handle |
| `CompressedStore.Store.Free` | src/cmem_compress.c:424-442 | Removes exactly the block of the handle, or reports that there is none |
| `CompressedStore.Store.SetBudget` | src/cmem_compress.c:444-454 | The budget changes, the stored blocks stay, and the area appears exactly when it is needed and granted |
| `TlsfIndex.EligibleIff` | src/cmem_tlsf.c:106-122 | The search masks admit a bucket exactly when its blocks are at least the rounded request, the carry to sl = 48 included |
| `TlsfIndex.RoundedUpBounds` | src/cmem_tlsf.c:106-122 | Rounding never goes down and adds less than a sixteenth |
| `TlsfIndex.RoundedUpExact` | src/cmem_tlsf.c:106-122 | A request of 16 to 32 segments of 2^n bytes is rounded up to the next whole number of segments |
| `TlsfIndex.BucketMonotone` | src/cmem_tlsf.c:83-92 | Larger sizes are in later buckets |
| `TlsfIndex.BucketNarrow` | src/cmem_tlsf.c:83-92 | Sizes sharing a bucket differ by less than a sixteenth |
| `TlsfIndex.BucketExists` | src/cmem_tlsf.c:83-92 | A size has a bucket if and only if it is below 2^30; the first index of larger ones is past the bitmaps |
| `TlsfIndex.FindsLeast` | src/cmem_tlsf.c:298-320 | The bitmap search finds a bucket no later than any eligible non-empty one |
| `TlsfIndex.FindsEligible` | src/cmem_tlsf.c:298-320 | Whatever the bitmap search returns heads an eligible bucket |
| `TlsfIndex.ExpansionFits` | src/cmem_tlsf.c:403-427 | The block of a fresh arena reaches the rounded request that caused it |
| `LinkedStacks.PushThreaded` | src/cmem_tlsf.c:210-221 | Pushing a node keeps every list of the family, back links included |
| `LinkedStacks.UnhookThreaded` | src/cmem_tlsf.c:255-263 | Unlinking a node anywhere keeps every list of the family |
| `BucketLists.MarkCleared` | src/cmem_tlsf.c:265-270 | Clearing the bits of an emptied list keeps the bitmaps exact on both levels |
| `LinkedStacks.OnList` | src/cmem_tlsf.c:210-271 | Every listed node is met on the walk from the head of its list |
| `LinkedStacks.OnListOnce` | src/cmem_tlsf.c:210-271 | It is met once, and on no other list |
| `BucketLists.FindCorrect` | src/cmem_tlsf.c:298-320 | The search succeeds exactly when some listed block reaches the rounded request, and returns one from the first such bucket |
| `TlsfBlocks.MergeNextEffect` | src/cmem_tlsf.c:506-516 | Absorbing a free successor keeps the arena sound and the used blocks and buckets as they should be |
| `TlsfBlocks.MergePrevEffect` | src/cmem_tlsf.c:518-532 | Being absorbed by a free predecessor does too |
| `TlsfBlocks.SplitEffect` | src/cmem_tlsf.c:379-388 | Splitting and releasing the tail does too |
| `TlsfBlocks.PutBackStrictIff` | src/cmem_alloc.c:283-291 | Putting a cached block back keeps PREV_FREE exact and free blocks apart exactly when it is the last block and the one before it is in use |
| `TlsfBlocks.EmptyIsOneBlock` | src/cmem_tlsf.c:489-540 | With nothing in use and no cached block ever put back, the arena is one free block |
| `TlsfPool.Pool.constructor` | src/cmem_tlsf.c:154-198 | A new arena is valid and holds one free block |
| `TlsfPool.Pool.InsertFreeBlock` | src/cmem_tlsf.c:210-225 | Lists the block in the bucket of its size and nothing else |
| `TlsfPool.Pool.RemoveFreeBlock` | src/cmem_tlsf.c:249-271 | Unlists exactly that block |
| `TlsfPool.Pool.Find` | src/cmem_tlsf.c:298-320 | Non-NULL exactly when a free block reaches the rounded request; then it fits and no fitting block is in an earlier bucket |
| `TlsfPool.Pool.Carve` | src/cmem_tlsf.c:374-393 | The block becomes used with the total wanted, or whole when the rest cannot stand alone; the arena stays valid |
| `TlsfPool.Pool.FreeBlock` | src/cmem_tlsf.c:489-540 | Exactly that block leaves the used set; tiling, lists and bitmaps stay exact, and on strict arenas PREV_FREE stays exact and no two free blocks touch |
| `TlsfPool.Pool.Swallow` | src/cmem_tlsf.c:596-618 | The block gets the total wanted or everything, no other used block changes, the arena stays valid |
| `TlsfPool.Pool.PutBack` | src/cmem_alloc.c:1454-1456 | A cached block becomes free and listed without coalescing; the tiling and the lists hold, and PREV_FREE never lies |
| `TlsfTier.Tier.Search` | src/cmem_tlsf.c:366-401 | The first arena of the chain with a fitting block, NULL exactly when there is none |
| `TlsfTier.Tier.ServeFromNew` | src/cmem_tlsf.c:403-447 | A new arena starts at the memory given, is twice the total or 4 MB large, whichever is more, and serves the request that caused it as its only block |
| `TlsfTier.Tier.Alloc` | src/cmem_tlsf.c:336-476 | NULL exactly when nothing fits and no arena can be added; otherwise a block nobody had gets a header and its usable bytes, those asked for rounded up to eight, are counted; the initial arena has 4 MB, one more is added exactly when nothing fits, of twice the total or 4 MB; the block is cut from a free block of one arena, keeping the total or, with less than 64 bytes left over, everything; no other arena changes |
| `TlsfTier.Tier.Free` | src/cmem_tlsf.c:489-540 | The block leaves the live set and its usable bytes leave the counter |
| `TlsfTier.Tier.Expand` | src/cmem_tlsf.c:556-636 | Success exactly when the block behind is free and both together reach the total; the span is the total, or both blocks whole with less than 64 bytes left over; header and counter follow |
| `TlsfTier.Tier.Park` | src/cmem_alloc.c:1381-1398 | A cached block stays out of the free lists; the byte counter is not told, so it is exact afterwards only if it was and the block has no usable bytes |
| `TlsfTier.Tier.Unpark` | src/cmem_alloc.c:292-320 | A cached block of the exact span is live again with a new header |
| `TlsfTier.Tier.PutBack` | src/cmem_alloc.c:283-291 | A cached block goes back to its own arena, whose headers change by its FREE bit alone and which stays strict exactly when it was and the block is its last and follows a used one; no other arena changes |
| `TlsfTier.Tier.BlocksDisjoint` | src/cmem_tlsf.c:336-476 | No two live or cached blocks overlap, in one arena or in several |
| `TlsfCache.WalkExact` | src/cmem_alloc.c:1387-1394 | The list of a size class visits its first count entries, last one first, and ends |
| `TlsfCache.EntriesNotAliased` | src/cmem_alloc.c:1387-1394 | Entries on the lists are distinct and hold distinct blocks |
| `TlsfCache.BlockCache.Free` | src/cmem_alloc.c:1371-1398 | A block of 64 to 16383 bytes is cached exactly when the class of its size, the power of two below it, holds fewer than eight; other blocks are freed in the tier; other threads keep what they cached; the byte counter is exact afterwards if and only if it was and the block was not cached with usable bytes |
| `TlsfCache.BlockCache.TryCached` | src/cmem_alloc.c:275-321 | The top block is reused exactly when its span is the total wanted, and put back otherwise, which changes its arena alone and makes the request fit exactly when it did or the block covers it |
| `TlsfCache.BlockCache.Alloc` | src/cmem_alloc.c:266-367 | NULL exactly when the cached block tried, if any, is neither of the size wanted nor large enough as a free block, no arena has a fitting block and none can be added; then nothing live or counted changed.  Otherwise the block served is new to the live set and counted.  Other threads keep what they cached, and an exact byte counter stays exact |
| `TlsfCache.BlockCache.Flush` | src/cmem_alloc.c:1445-1458 | Every block of this thread goes back and no other: in each arena exactly the FREE bits of its cached blocks are set, and an arena without any is unchanged |
| `TlsfCache.PutBackLosesFlag` | src/cmem_alloc.c:1445-1458 | Two equal blocks in a new arena, the first freed through the cache, the cache flushed: PREV_FREE is missing or two free blocks touch |
| `TlsfCache.CounterDrifts` | src/cmem_alloc.c:1381-1398 | One allocation of 1000 bytes and one free through the cache leave nothing live and a counter of 1000 |
| `TlsfCache.OtherCachesKept` | src/cmem_alloc.c:266-321 | An operation that leaves what other threads parked alone keeps their caches intact and disjoint |
| `BatchModel.LoopPrefix` | src/cmem_alloc.c:89-196 | The per-element loop runs through every element that is neither refused nor over the limit |
| `BatchModel.AfterTotals` | src/cmem_alloc.c:493-518 | What a run of grants adds to the bytes, the counts and the quota, and when the breaker trips |
| `BatchModel.TargetExact` | src/cmem_alloc.c:703-737 | Up to the target of the batch no element exceeds the limit, and the next one does |
| `BatchModel.LoopFinish` | src/cmem_alloc.c:905-932 | The loop ends where the batch ends, emergency element included |
| `BatchModel.LoopNoRoom` | src/cmem_alloc.c:710-719 | When not even one element fits, the loop gets the emergency element or nothing |
| `BatchModel.LoopNumbers` | src/cmem_alloc.c:89-196 | The per-element loop in the same numbers |
| `BatchModel.CapExact` | src/cmem_alloc.c:825-840 | i elements cross the quota exactly when i reaches the ceil-division cap |
| `BatchModel.ChunkEnds` | src/cmem_alloc.c:825-855 | A chunk within the cap can cross the quota only with its last element |
| `BatchAlloc.Pool.StampChunk` | src/cmem_alloc.c:841-858 | Every slot popped in a chunk is stamped |
| `BatchAlloc.Pool.AllocBatch` | src/cmem_alloc.c:661-1008 | Count, `active_bytes`, `active_allocations`, quota totals, tripped and emergency flags equal those of the per-element loop exactly when the request is not for the OS tier or the breaker does not trip before the last element; and in numbers: as many elements as fit the limit at size bytes each (size + 216 and the canary when aligned), one more from the emergency buffer if it is large enough, none beyond the one that reaches the quota except in the OS tier; no popped slot is dropped |
| `BatchAlloc.OvershootExample` | src/cmem_alloc.c:886-900 | Two 5 MB elements against a quota of one byte: the loop produces one, the batch two |
| `RemoteQueue.InvStep` | src/cmem_slab.c:583-709 | Every atomic step of pushers and harvesters keeps the chains, the slot places, the push and harvest counts, and the flag property |
| `RemoteQueue.InvRun` | src/cmem_slab.c:583-772 | So does every run |
| `RemoteQueueTheorems.SlotsConserved` | src/cmem_slab.c:583-772 | In every run each slot was pushed as often as harvested, plus one while it is on a queue or in a harvest, and then it is on exactly that list |
| `RemoteQueueTheorems.FlagNeverMissed` | src/cmem_slab.c:594-626 | In every run a non-empty class queue has its flag set, a pusher about to set it, or a harvester about to take it |
| `RemoteQueueTheorems.NoWildRead` | src/cmem_slab.c:627-632 | In every run whatever a thread is about to touch exists |
| `RemoteQueueTheorems.HarvestDrains` | src/cmem_slab.c:696-772 | With all threads idle, a harvest of a non-empty class brings every queued slot home |
| `RemoteQueueTheorems.PushWhole` | src/cmem_slab.c:583-626 | Run alone, a push makes the slot the head, links it to the head of before and raises both flags |
| `RemoteQueueTheorems.SweepWhole` | src/cmem_slab.c:699-772 | Run alone, a sweep does nothing if the global flag is down; otherwise it lowers it and brings home exactly the queues of the twelve classes whose flags are up |
| `RemoteQueueTheorems.UncoveredOnlyInWindow` | src/cmem_slab.c:599-617 | Only a sweep that skips a class between a pusher's two flag stores can leave its queue without the global flag |
| `RemoteQueueTheorems.UncoveredIff` | src/cmem_slab.c:594-617 | A step leaves a non-empty queue without the global flag exactly when it is that skip, the flag is down and nobody else is about to raise it or to visit the class |
| `RemoteQueueTheorems.GlobalFlagSafe` | src/cmem_slab.c:599-617 | Runs without that step keep the global flag right |
| `RemoteQueueTheorems.GlobalFlagMissed` | src/cmem_slab.c:594-617 | From every initial state a run exists that ends with all threads idle, a slot queued and the global flag down |
| `SlabSlots.PopStocked` | src/cmem_slab.c:923-925 | Popping a list of slots moves exactly its top slot into user hands and keeps every list, count and place |
| `SlabSlots.PushStocked` | src/cmem_slab.c:1026-1029 | Pushing a slot in hand moves exactly that slot and keeps every list, count and place |
| `SlabSlots.PageStocked` | src/cmem_slab.c:842-854 | Carving a fresh page adds its slots, all on its free list, and moves nothing else |
| `SlabTier.SlabClass.CreatePage` | src/cmem_slab.c:787-858 | A new page has all its slots, one every stride bytes behind the header, on its free list, is the first partial page, and less than one stride of its 65536 bytes is left over |
| `SlabTier.SlabClass.NextPage` | src/cmem_slab.c:888-921 | A partial page, else an empty one, else a new one; none exactly when no page has a free slot and there is no new page |
| `SlabTier.SlabClass.TakeSlot` | src/cmem_slab.c:923-939 | One slot leaves a page, which moves to the full list exactly when it was the last |
| `SlabTier.SlabClass.FreeToPage` | src/cmem_slab.c:1017-1124 | The slot goes back to the page its address lies in, and the page to the partial or empty list as its count says |
| `SlabTier.SlabClass.AllocSlot` | src/cmem_slab.c:871-953 | A flagged remote queue goes home first; then NULL exactly when no slot is on a page and no page can be made, otherwise exactly one slot leaves its page and the byte counter follows |
| `SlabTier.SlabClass.FreeSlot` | src/cmem_slab.c:1058-1129 | The slot is back on its page and the byte counter, shared with the other classes, goes down by the slot size without ever being reset |
| `SlabTier.OneCounter` | src/cmem_internal.h:390 | The classes' views of the shared byte counter fit together exactly when it is the sum over all classes of the bytes off their pages |
| `SlabTier.Spread` | src/cmem_internal.h:390 | After any operation of one class that leaves its view of the others alone, copying the counter to the other classes makes all views fit together again |
| `SlabTier.FreeShared` | src/cmem_slab.c:1058-1076 | Freeing a slot of one class lowers the counter of all by the slot size and keeps it the sum over all classes |
| `SlabTier.SlabClass.Drain` | src/cmem_slab.c:1146-1208 | Slots move only from pages to the cache of this thread, as many as its count grows by; fewer than asked only when there are none |
| `SlabTier.SlabClass.AllocBatch` | src/cmem_slab.c:1314-1385 | Distinct slots, none of them off its page before, exactly these in addition |
| `SlabTier.SlabClass.Refill` | src/cmem_slab.c:1539-1634 | Slots move only from pages to this per-CPU list, and only when it is half empty |
| `SlabTier.SlabClass.ReturnAll` | src/cmem_slab.c:696-772 | Every slot of the remote queue (or of a flushed thread cache) is on its own page and nothing else moved |
| `SlabTier.SlabClass.Release` | src/cmem_alloc.c:1260-1342 | A freed slot goes to the thread cache if that has fewer than 256, else to the per-CPU list if there is one with fewer than 16, else on thread-safe pools to the remote queue, else to the page at its address less its remainder by 65536; the bounds are kept |
| `SlabTier.SlabClass.Acquire` | src/cmem_alloc.c:200-230 | NULL exactly when the thread cache and the per-CPU list are empty, no slot is on a page after the harvest and no page can be made; a slot handed out was in nobody's hands, and users keep what they had |
| `SlabTier.SlabClass.PageBalance` | src/cmem_slab.c:787-858 | The free count of a page and the slots it has elsewhere add up to its slots; none is lost; the page is on the full list exactly when it has no free slot and on the empty list exactly when none is elsewhere |
| `ActiveList.Book.Add` | src/cmem_lifecycle.c:478-486 | The header joins the list, the others stay |
| `ActiveList.Book.Remove` | src/cmem_lifecycle.c:493-508 | Exactly that header leaves the list |
| `ActiveList.Book.Alloc` | src/cmem_alloc.c:407-458 | The block is counted, listed on pools that keep a list, and the counter is the number of counted live blocks |
| `ActiveList.Book.AllocFast` | include/cmem.h:1146-1184 | Only a cache hit on a FAST_PATH pool gives an uncounted block |
| `ActiveList.Book.Free` | src/cmem_alloc.c:1255-1354 | The counter goes down exactly for counted blocks, and the unconditional list removal of thread-safe pools only ever meets listed headers |
| `ActiveList.Book.FreeFast` | include/cmem.h:1189-1213 | Skipping the statistics is right for the blocks it skips them for |
| `ActiveList.Book.Relocate` | src/cmem_alloc.c:1651-1677 | Moving the header inside the block keeps the counter on every pool, and its place on the list where there is one; on FAST_PATH pools, whose link words nobody sets, foreign words are overwritten exactly when one of the two words is not zero |
| `ActiveList.ForeignWrite` | src/cmem_alloc.c:1659-1677 | A live header whose words are overwritten that way |
| `ActiveList.Book.AllocBatch` | src/cmem_alloc.c:935-982 | The closing loop of a batch counts and lists every element |
| `ActiveList.Book.ListIsBook` | src/cmem_lifecycle.c:478-508 | On pools that keep a list, every live header is met exactly once on it, and is counted |
| `ActiveList.Book.OnlyLive` | src/cmem_lifecycle.c:478-508 | Nothing else is met on it |
| `ActiveList.MovedThreaded` | src/cmem_alloc.c:1659-1677 | Replacing a node in place keeps a family of lists |

## Left out

- Weak memory: the step systems interleave single accesses to shared words (sequential consistency).
- ArenaRetirement: a compare-exchange fails only when the word differs; the claim in the code is a weak compare-exchange without a retry, so a spurious failure there could leave an empty arena unclaimed.
- ArenaRetirementTheorems.DestroyedOnce: the destruction of the pool is one step at the end of a run; what other threads do with the arena after it has been freed is not modelled.
- Integer width: sizes, counters, generations and sequence numbers do not wrap; generations and sequence numbers have a precondition (`NoWrap`), TLSF sizes stay below 2^30 because larger ones have no bucket.
- TlsfTier.Tier.Alloc: totals of 2^30 bytes and more, and on pools that can add arenas those whose expansion reaches 2^30, are excluded: they have no bucket (`TlsfIndex.BucketExists`), and the code indexes past its bitmaps.
- TlsfIndex: bitmap words are sequences of 32 bits, and masking and counting trailing zeros is a scan from a bit position.
- Payload bytes, canaries, zeroing, source locations and backtraces are not part of the model; blocks are addresses with spans.
- Locks: each operation of the shared TLSF tier, the compressed store and the batch runs alone; class locks are not modelled in the remote queues, which only allows more interleavings.
- sys_mem_alloc is a parameter: it gives a fresh region or fails.
- BatchAlloc.Pool.AllocBatch: the backing store never fails; peak bytes, histograms and OOM events are not modelled.
- TlsfCache.BlockCache.Flush: the branch of tls_cache_flush_pool for blocks inside the per-thread arena is not modelled; only shared blocks are ever cached.
- RemoteQueue: the alignment test that abandons a harvest cannot fire for real slots and is not modelled.
- SlabTier: one size class with every operation atomic; page lists, thread caches and the queue share one map of list heads, the remote queue has a count the code does not keep, and the harvest pops one slot at a time where the code detaches the whole list first (RemoteQueue models that).
- SlabTier.SlabClass.Acquire: page creation answers the same within one call, so the third phase of slab_alloc_with_tls_refill, which would use a page without linking it, is not reached.
- `active_bytes` and `peak_bytes` across in-place growth and aligned allocation.
- mp_reset, frame arenas, idle-page reclamation, ring buffer, event log, typed pools, shared memory, NUMA, diagnostics, tools and C++ wrappers.
