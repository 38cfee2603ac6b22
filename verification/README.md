# Slab allocator, buffer pools and OpenFlow codec: a verified model

This project models three parts of an OpenFlow 1.3 controller written in C and
proves what they promise.

**The slab allocator** (`src/cc_ncx_slab.c`). A pool is a table of page
descriptors in front of page-aligned pages. Runs of free pages are kept on a
circular list; pages cut into chunks of one power-of-two size are kept on one
circular list per size class while they have a free chunk. The word `slab` of a
descriptor is a run length, a marked run length, a shift, a 64-bit chunk map or
a shift with a 32-bit chunk map, and the low bits of `prev` say which. Pages
with more than 64 chunks keep their bitmap in their own first chunks.

The model has three levels:

* `SlabPool.Pool` is the code: an array of descriptors (`slab`, `next`, `prev`
  and the tag of `prev` apart), an array of page words, and methods that write
  them in the order the C code does.
* `PageTable.Table` is what the arrays mean: the kind of every page and the
  members of every list, in order. `Allocator.Alloc` and `Allocator.Dealloc`
  are the two operations on it; `PageTable.Inv` is the invariant. A class
  invariant (`Pool.Valid`) ties the arrays to the table, and every method is
  proved to compute the table function.
* `SlabHeap.HeapRun` is what a caller relies on, with no pages in it: a map from
  address to block size.

Pages are numbered; a list sentinel is a descriptor index after the table; the
null pointer is -1. Words are naturals below 2^64 with bitwise operations
defined bit by bit (`Words`), so a lost high bit would be visible. The page
size 2^P and `min_shift` are parameters with `6 <= P <= 16`, `min_shift < P` and
`P <= 2 * min_shift + 7`, which is what the code's arithmetic needs (the usual
P = 12 and `min_shift` = 3 satisfy it).

**The typed buffer pool** (`lib/cc_mem_pool.c`). `BufferStack` is a stack of
buffers as a value; `MemPool` is the doubly linked list of nodes with a moving
tail, proved to be that stack. Each locked section is one step.

**The message codec** (`src/cc_action.c`, `src/cc_create_msg.c`,
`src/cc_parse_msg.c`). `Wire` has byte-order loads and stores, `Actions` and
`PacketOut` the action packer and the packet-out loop, `Messages` the wire form
and the reader of the messages whose layout is visible, and `Codec` the packers
and unpackers on byte buffers. `Standard` is an independent reading of the
standard, tables of byte positions and literal numbers, with which the wire form
and every answer of the parser are proved to agree, and `Samples` writes out one
action, message and packet of each kind. Layouts follow the OpenFlow Switch Specification
1.3.0, sections A.1 (header), A.2.5 (actions), A.3 and A.4 (messages).

## Where the code and its own intent differ

The model follows the code. Each of these is a lemma.

* A pool so small that the aligned start passes its end keeps pages it does not
  have: the unsigned difference is huge and the correction does not fire
  (`Geometry.CorrectionExact`, `Geometry.TinyPoolKeepsAPhantomPage`).
* Free runs are never joined, so one split is for ever
  (`Boundaries.OneSplitIsForever`). When nothing is live any more, a fresh pool
  serves the request for all its pages again exactly when every allocation took
  all pages (`Boundaries.ServedAgainIff`).
* `free` admits pointers up to and including `end`; the page number it computes
  may be one past the descriptor table, where the first page begins
  (`Allocator.LookupInTable` says for which pointers,
  `Geometry.FullTableMissesTheEnd` and `Geometry.OnePagePool` give pools). Runs of calls leave such
  pointers and the bitmap chunks of SMALL pages out, and nothing else
  (`Allocator.MayFree`); every block handed out may be freed
  (`Allocator.LiveMayBeFreed`).
* A buffer given back twice in a row is handed to two callers exactly when
  another buffer was out (`BufferStack.DoubleReturnIff`,
  `MemPool.MemList.FreeTwice`); a return keeps the pool sound exactly when the
  buffer was outstanding or the return is ignored (`BufferStack.GiveKeepsIff`).
* An 8-byte SET_FIELD value goes through a 16-bit conversion
  (`Actions.EightByteFieldsOnlyZero`).
* In a packet-out the value of a SET_FIELD is written over the fixed fields of
  the message (`PacketOut.HeaderSurvivesIff`, `PacketOut.AddressReplacesBufferId`),
  and where the value belongs the packet keeps what was in memory
  (`PacketOut.SamePacketIff`, `PacketOut.MessageDecidesPacketIff`).
* The asynchronous-configuration masks are not converted to network order; a
  peer reads a mask correctly exactly when its bytes are symmetric
  (`Messages.AsyncMasksInHostOrder`, `Messages.MaskOfReasonZeroMisread`).
* The packer knows the METER_FEATURES request, the parser does not; a message
  of 65536 bytes or more has a truncated length field; port 0 and reserved ports
  are packed but not accepted (`Messages.RoundTrip` says exactly when a message
  comes back).
* A short features reply is only logged, and a queue-config request is compared
  with the size of another structure. The subtraction from the remaining length
  wraps exactly for these two (`Messages.RestWrapsIff`,
  `Messages.ShortMessagesAccepted`), and when they are shorter still the result
  depends on memory behind the message, for these and for no other message
  (`Messages.MessageDecidesIff`, `Messages.HeadersReadPastEnd`).

## Model

| member | source | states |
|---|---|---|
| SlabPool.Pool.constructor | src/cc_ncx_slab.c:62-124 | after init the arrays represent one free run of all usable pages and empty class lists, laid out as `LaidOut` says |
| SlabPool.Pool.AllocLocked | src/cc_ncx_slab.c:143-381 | keeps the invariant; the address returned (0 for failure) and the new table are exactly those of `Alloc` |
| SlabPool.Pool.AllocWhole | src/cc_ncx_slab.c:150-165 | the shift-and-remainder page count is the size rounded up; result and table are those of `Alloc` |
| SlabPool.Pool.AllocClass | src/cc_ncx_slab.c:178-374 | a page of the class list if there is one, a fresh page only when the list is empty, 0 when there is none |
| SlabPool.Pool.AllocPages | src/cc_ncx_slab.c:600-645 | first fit: the run taken is the first on the list that is long enough; its head part becomes a marked block and the rest takes its place on the list |
| SlabPool.Pool.TakeRun | src/cc_ncx_slab.c:608-636 | the exact descriptors after splitting or unlinking a run and marking the block |
| SlabPool.Pool.FreePages | src/cc_ncx_slab.c:648-672 | the run leaves the list it is on, if any, and is first on the free list |
| SlabPool.Pool.AllocFromList | src/cc_ncx_slab.c:181-311 | the first page of the list always has a free chunk; its lowest one is handed out and the page leaves the list iff it is then full |
| SlabPool.Pool.MarkSmall | src/cc_ncx_slab.c:192-229 | the lowest clear bit of the bitmap is set, and looking only at later words decides whether the page is full |
| SlabPool.Pool.TakeSmall | src/cc_ncx_slab.c:185-233 | SMALL branch: bitmap, descriptor, list and address after taking the lowest free chunk |
| SlabPool.Pool.TakeExact | src/cc_ncx_slab.c:237-267 | EXACT branch: the same for a 64-bit map in the descriptor |
| SlabPool.Pool.TakeBig | src/cc_ncx_slab.c:271-309 | BIG branch: the same for a map in the upper half of the word, with the shift kept |
| SlabPool.Pool.FreshBitmap | src/cc_ncx_slab.c:320-333 | exactly the reserved chunks and the first one after them are marked |
| SlabPool.Pool.InitSlab | src/cc_ncx_slab.c:313-372 | a page just taken becomes the only page of its class and its first non-reserved chunk is handed out |
| SlabPool.Pool.FreeLocked | src/cc_ncx_slab.c:396-596 | keeps the invariant; the new table is exactly that of `Dealloc`, for every pointer, live or not, whose descriptor is in the table and that is not a bitmap chunk |
| SlabPool.Pool.FreeChunk | src/cc_ncx_slab.c:412-545 | clears the chunk, puts a page that was full back on its list, and returns the page iff its last non-reserved chunk went |
| SlabPool.Pool.ClearSmall | src/cc_ncx_slab.c:412-469 | misaligned pointers and clear bits change nothing; otherwise exactly that bit is cleared and the emptiness verdict is right |
| SlabPool.Pool.SmallEmpty | src/cc_ncx_slab.c:445-461 | the masked first word and the scan of the others see whether only reserved chunks remain |
| SlabPool.Pool.ClearExact | src/cc_ncx_slab.c:471-505 | the same for an EXACT page |
| SlabPool.Pool.ClearBig | src/cc_ncx_slab.c:507-544 | the same for a BIG page |
| SlabPool.Pool.SlabAlloc | src/cc_ncx_slab.c:128-139 | 0 exactly when out of memory, with nothing changed; otherwise one new block inside the pool and clear of every live block, whose size is the only one `FairSize` allows |
| SlabPool.Pool.SlabFree | src/cc_ncx_slab.c:385-392 | removes exactly the block at p; a pointer to no block changes nothing, save that a free-run head moves to the front of the free list |
| SlabPool.Pool.SlabUsage | src/cc_ncx_slab.c:712-772 | the three bit-counting loops give the bytes of the chunks in use |
| SlabPool.Pool.Walk | src/cc_ncx_slab.c:700-801 | the walk ends, stands on exactly the pages that start a run, once each and in order, and each counter is the pages, or the live and reserved bytes, of its kind |
| Usage.HeadsAre | src/cc_ncx_slab.c:705-801 | the list of pages visited is increasing and holds every run head and nothing else |
| SlabPool.Pool.Report | src/cc_ncx_slab.c:693-804 | the counters kind by kind and the pool size; used bytes never exceed the pool; the percentage, exact iff the product fits a word |
| Usage.CountersFit | src/cc_ncx_slab.c:705-801 | at every point of the walk every counter is bounded by the pool, so no 64-bit counter wraps |
| Usage.PercentExactIff | src/cc_ncx_slab.c:804-804 | the 64-bit percentage is the real one iff `used_size * 100` fits a word |
| Usage.PercentExactOverRunsIff | src/cc_ncx_slab.c:804-804 | over every run of a fresh pool the product fits iff the pool's pages hold at most (2^64 - 1) / 100 bytes, more than any 57-bit address space |
| Usage.HugePoolWraps | src/cc_ncx_slab.c:804-804 | pools beyond that bound: 2^58 bytes of pages |
| Usage.FreshPoolServesAll | src/cc_ncx_slab.c:600-645 | a fresh pool serves the request for all its pages, after which every byte of them is counted used |
| PageTable.InitialTableOk | src/cc_ncx_slab.c:94-123 | the table of a fresh pool satisfies the invariant |
| PageTable.ReservedBounds | src/cc_ncx_slab.c:320-331 | the reservation of a SMALL page covers its bitmap, leaves two chunks, and is at most 16, so `(2 << n) - 1` cannot overflow |
| PageTable.ReservedIs | src/cc_ncx_slab.c:320-341 | no chunk is reserved among 64 or fewer, and beyond that the least number, at least one, that covers the bitmap |
| PageTable.FirstFit | src/cc_ncx_slab.c:604-606 | the run chosen is long enough and every run before it is too short |
| PageTable.CarveKeeps | src/cc_ncx_slab.c:604-638 | splitting or taking a run keeps the partition into runs and every list exact |
| PageTable.ReleaseKeeps | src/cc_ncx_slab.c:648-672 | giving back a run keeps the partition and every list exact |
| Chunks.TakeChunkKeeps | src/cc_ncx_slab.c:181-311 | taking a chunk keeps "on the class list iff it has a free chunk" |
| Chunks.NewSlabKeeps | src/cc_ncx_slab.c:313-372 | opening a slab page keeps the invariant |
| Chunks.ClearChunkKeeps | src/cc_ncx_slab.c:431-443 | clearing a chunk keeps lists exact and leaves at most that page empty |
| Chunks.ReleaseChunkKeeps | src/cc_ncx_slab.c:431-465 | clearing a chunk and returning an emptied page keeps the invariant |
| Allocator.AddressDecodes | src/cc_ncx_slab.c:410-426 | page and offset computed by `free` are those the address was made of |
| Allocator.LookupInTable | src/cc_ncx_slab.c:405-411 | for admitted pointers, exactly when the looked-up descriptor lies in the table |
| Allocator.LiveMayBeFreed | src/cc_ncx_slab.c:396-426 | every block handed out satisfies what `free` needs |
| Geometry.FullTableMissesTheEnd | src/cc_ncx_slab.c:102-123 | the initialised one-page pools whose table ends on a page boundary: the descriptor looked up for `end` is the start of the page |
| Geometry.OnePagePool | src/cc_ncx_slab.c:102-123 | one of them, with 4096-byte pages |
| Allocator.RoundUpPositive | src/cc_ncx_slab.c:154-155 | a large request gets at least its size and less than a page more |
| Allocator.ClassFrom | src/cc_ncx_slab.c:167-176 | the class chosen is the least that holds the size |
| Allocator.AllocKeeps | src/cc_ncx_slab.c:143-381 | every allocation keeps the invariant |
| Allocator.DeallocKeeps | src/cc_ncx_slab.c:396-596 | every free keeps the invariant |
| SlabHeap.AllocRefines | src/cc_ncx_slab.c:143-381 | an allocation adds exactly one new address with the size that fits the request, or changes nothing |
| SlabHeap.RoundedIsFair | src/cc_ncx_slab.c:150-176 | below half a page a request takes a power of two up to half a page, less than twice the size unless the least chunk; from half a page on whole pages, less than a page more |
| SlabHeap.FairSizeUnique | src/cc_ncx_slab.c:150-176 | these bounds leave one size only |
| SlabHeap.FirstAddress | src/cc_ncx_slab.c:341-342 | where the first block of a fresh pool lies, for every size |
| SlabHeap.FreedPagesComeBack | src/cc_ncx_slab.c:600-672 | asking again for what was just freed gives the same pages |
| SlabHeap.FreedChunkComesBack | src/cc_ncx_slab.c:433-443 | a chunk freed from a full page is the next one of its class |
| SlabHeap.DeallocRefines | src/cc_ncx_slab.c:396-596 | a free removes exactly the named block; otherwise the table is unchanged or one free run moved to the front |
| SlabHeap.BlocksApart | src/cc_ncx_slab.c:142-381 | live blocks lie in the pool and never overlap |
| SlabHeap.BlocksMissBitmaps | src/cc_ncx_slab.c:320-341 | no live block overlaps the bitmap inside a SMALL page |
| SlabPool.BitmapsDecide | src/cc_ncx_slab.c:186-192 | of the page contents only the bitmap words of SMALL pages matter to the allocator |
| SlabPool.StoresMissBitmaps | src/cc_ncx_slab.c:320-341 | no store inside a live block changes a bitmap word, even where blocks are smaller than words |
| SlabPool.Pool.CallerStoresKeep | src/cc_ncx_slab.c:142-381 | whatever a caller stores in its own block, the pool's invariant and table stay |
| SlabHeap.StepRefines | src/cc_ncx_slab.c:142-596 | one call does what the address map allows |
| SlabHeap.RunRefines | src/cc_ncx_slab.c:142-596 | over every sequence of calls whose pointers may be freed the allocator behaves like the address map and keeps the invariant |
| SlabHeap.NothingLeaks | src/cc_ncx_slab.c:445-465 | with no live block every page is free, every run head is on the free list once, every class list is empty |
| Usage.NoLeakOverRuns | src/cc_ncx_slab.c:445-465 | every run of a fresh pool that ends with no live block ends with all pages counted free |
| Usage.RunFitsIff | src/cc_ncx_slab.c:600-645 | a page request succeeds iff it does not exceed the longest free run |
| Usage.ChunkFitsIff | src/cc_ncx_slab.c:181-374 | a chunk request fails iff its class list is empty and no page is free |
| Usage.AllocFailsIff | src/cc_ncx_slab.c:143-381 | the two conditions together, for every size |
| Usage.AllPagesFree | src/cc_ncx_slab.c:787-797 | with no live block `free_page` equals the number of pages |
| Usage.FatesPartition | src/cc_ncx_slab.c:705-801 | every page is counted under exactly one heading |
| Usage.UsedIsLive | src/cc_ncx_slab.c:712-785 | bytes counted as used are the live blocks plus the reserved bitmap chunks |
| Usage.TallyCounts | src/cc_ncx_slab.c:705-801 | counting at a run head and skipping the run gives the page-by-page counts |
| Usage.ReportMeaning | src/cc_ncx_slab.c:693-819 | the page counts add up to the pool, used bytes are live plus reserved, and `max_free_pages` decides every page request |
| Usage.FateIs | src/cc_ncx_slab.c:710-797 | a slab page is small, exact or big iff it has more than, exactly or fewer than 64 chunks |
| Usage.ReservedBytesCover | src/cc_ncx_slab.c:320-327 | what a page reserves covers one bit per chunk, and is nothing up to 64 chunks |
| Usage.FullPageBytes | src/cc_ncx_slab.c:721-768 | a slab page counts with all its bytes iff it is full |
| Usage.ReportByClass | src/cc_ncx_slab.c:710-797 | each page counter is the number of pages of its kind, each byte counter the live bytes in them plus what they reserve |
| Usage.PagesInPool | src/cc_ncx_slab.c:703-703 | the page count `stat` computes is that of init |
| Boundaries.RunKeepsBoundaries | src/cc_ncx_slab.c:604-672 | over every run, a page that starts a run goes on starting one |
| Boundaries.RunsNest | src/cc_ncx_slab.c:604-672 | later runs lie inside earlier ones |
| Boundaries.NeverCoalesces | src/cc_ncx_slab.c:648-672 | no later page request succeeds unless an earlier run was that long |
| Boundaries.CutsBind | src/cc_ncx_slab.c:648-672 | no later block reaches across an existing boundary |
| Boundaries.OneSplitIsForever | src/cc_ncx_slab.c:648-672 | after one page was taken and returned, the whole-pool request fails in every later state although nothing is live |
| Boundaries.WholePoolIff | src/cc_ncx_slab.c:600-672 | with nothing live the whole-pool request is served iff no page but the first starts a run |
| Boundaries.RunUncut | src/cc_ncx_slab.c:600-672 | a run leaves the pool in one piece iff every allocation that succeeded took all pages |
| Boundaries.ServedAgainIff | src/cc_ncx_slab.c:600-672 | after any run of a fresh pool that ends with nothing live, the whole-pool request is served iff every successful allocation took all pages or there is one page |
| Rings.UnlinkLinked | src/cc_ncx_slab.c:215-221 | the two stores of an unlink remove exactly that page from its ring, well linked both ways |
| Rings.PushLinked | src/cc_ncx_slab.c:433-443 | the four stores of a push put the page first on that ring |
| Rings.SwapLinked | src/cc_ncx_slab.c:608-615 | the remainder of a run takes its head's place in the ring |
| Effects.CarvedMatches | src/cc_ncx_slab.c:606-638 | the descriptors written by the page allocator represent the carved table |
| Effects.ReleasedMatches | src/cc_ncx_slab.c:648-672 | the descriptors written by the page release represent the released table |
| Effects.InitialMatches | src/cc_ncx_slab.c:94-123 | the descriptors written by init represent the initial table |
| ChunkEffects.TakeChunkMatches | src/cc_ncx_slab.c:215-225 | after marking a chunk (and unlinking a full page) the arrays represent the new table |
| ChunkEffects.NewSlabMatches | src/cc_ncx_slab.c:335-371 | after opening a slab page the arrays represent the new table |
| ChunkEffects.ClearChunkMatches | src/cc_ncx_slab.c:433-443 | after clearing a chunk (and relinking a full page) the arrays represent the new table |
| Bitmaps.SmallFirstWord | src/cc_ncx_slab.c:451-453 | the masked first word is zero iff none of its non-reserved chunks is in use |
| Bitmaps.SmallFresh | src/cc_ncx_slab.c:327-333 | `(2 << n) - 1` and zero words are the map of n + 1 chunks in use |
| Bitmaps.BigFull | src/cc_ncx_slab.c:271-277 | the map half equals the mask iff every chunk is in use |
| Bitmaps.BigEmpty | src/cc_ncx_slab.c:534-536 | the map half is zero iff no chunk is in use |
| Bitmaps.ExactBusy | src/cc_ncx_slab.c:238-247 | the word is BUSY iff full and zero iff empty |
| Scans.LowestClearBit | src/cc_ncx_slab.c:196-199 | the loop ends with the lowest clear bit and its mask |
| Scans.LowestClearBigBit | src/cc_ncx_slab.c:279-285 | the same for the upper half, stopping at the end of the map |
| Scans.NextNotBusy | src/cc_ncx_slab.c:207-213 | first word that is not BUSY |
| Scans.SizeClass | src/cc_ncx_slab.c:167-176 | `2^(shift-1) < size <= 2^shift`, the slot exists, and it is the least class |
| Scans.RoundUpSplit | src/cc_ncx_slab.c:154-155 | shift plus one for a remainder is rounding up |
| Scans.DecodeChunk | src/cc_ncx_slab.c:415-422 | mask and shift on the pointer give the chunk number and the alignment verdict |
| Scans.BitmapPage | src/cc_ncx_slab.c:426-426 | masking the pointer gives the start of its page |
| Scans.AddressFits | src/cc_ncx_slab.c:299-301 | no shift in the address computation loses a bit |
| Scans.SmallUsage | src/cc_ncx_slab.c:721-729 | counts the chunks in use of a SMALL page |
| Scans.ExactUsage | src/cc_ncx_slab.c:737-748 | counts the chunks in use of an EXACT page, the BUSY shortcut included |
| Scans.BigUsage | src/cc_ncx_slab.c:756-768 | counts the chunks in use of a BIG page |
| Geometry.AlignMask | src/cc_ncx_slab.c:115-117 | the mask expression is the first page boundary at or after the address |
| Geometry.CorrectionShrinks | src/cc_ncx_slab.c:115-123 | the correction m is never negative |
| Geometry.CorrectionExact | src/cc_ncx_slab.c:102-123 | the corrected count is the number of whole pages iff the aligned start has not passed the end, or no page was estimated |
| Geometry.TinyPoolKeepsAPhantomPage | src/cc_ncx_slab.c:115-123 | a pool for which it has |
| Geometry.Layout | src/cc_ncx_slab.c:86-123 | the table ends at or before `start`, which is aligned, and the pages are those between `start` and `end` |
| BufferStack.TakeKeeps | lib/cc_mem_pool.c:36-46 | a request returns a buffer that was not outstanding, or none when only the sentinel is left |
| BufferStack.GiveKeepsIff | lib/cc_mem_pool.c:61-66 | a return keeps the pool sound iff the buffer was outstanding or the return was ignored |
| BufferStack.Conservation | lib/cc_mem_pool.c:26-74 | available plus outstanding is the configured length |
| BufferStack.LastInFirstOut | lib/cc_mem_pool.c:36-66 | a request right after a return gives the same buffer |
| BufferStack.RunKeeps | lib/cc_mem_pool.c:26-74 | the invariant and conservation over every run |
| BufferStack.TakesUntilEmpty | lib/cc_mem_pool.c:36-46 | exactly the available number of consecutive requests succeed, with different buffers |
| BufferStack.DoubleReturnIff | lib/cc_mem_pool.c:61-66 | after a double return the second request gets the same buffer iff another one was out |
| BufferStack.DoubleFreeHandsOutTwice | lib/cc_mem_pool.c:61-66 | a pool and a double return after which two callers hold one buffer |
| MemPool.MemList.FreeTwice | lib/cc_mem_pool.c:26-74 | the same on the linked list: two returns, two requests |
| MemPool.MemList.New | lib/cc_mem_pool.c:26-48 | the tail steps back and its buffer is the one `Take` gives; null for an uninitialised list |
| MemPool.MemList.Free | lib/cc_mem_pool.c:61-66 | for any buffer: the tail steps forward and holds it, or the return is ignored; a sound list stays sound iff the buffer was outstanding or ignored |
| MemPool.MemList.Init | lib/cc_mem_pool.c:78-141 | `length + 1` fresh, filled, typed nodes, linked both ways, tail at the end; refuses bad arguments and keeps an initialised list |
| MemPool.MemList.Insert | lib/cc_mem_pool.c:121-136 | the new node goes right after the head, well linked both ways |
| MemPool.MemList.Clean | lib/cc_mem_pool.c:183-203 | whatever was freed, every original buffer is freed exactly once; on a sound list the reported number in use is the number outstanding |
| MemPool.Pools.constructor | lib/cc_mem_pool.c:10-23 | 256 lists, none initialised |
| MemPool.Pools.NewMemNode | lib/cc_mem_pool.c:26-48 | one list takes a step, every other list is untouched |
| MemPool.Pools.FreeMemNode | lib/cc_mem_pool.c:51-74 | for any buffer: its type byte picks the list, which for an outstanding buffer is the one it came from; when the lists stay sound |
| MemPool.Pools.InitMemList | lib/cc_mem_pool.c:78-141 | one list initialised, the others untouched |
| MemPool.Pools.CleanMemList | lib/cc_mem_pool.c:171-206 | one report per initialised list; afterwards none is initialised |
| Wire.HostOrderOnWire | src/cc_create_msg.c:361-374 | a 32-bit value stored unconverted reads back in network order iff the value is its own byte reversal |
| Actions.ActionsTotalLen | src/cc_action.c:95-102 | the sum of the action lengths |
| Actions.PackAction | src/cc_action.c:105-240 | the packer writes the struct of its type, and return value, `len` field and computed length agree; nothing else changes, in particular not the place behind a SET_FIELD struct |
| Actions.FieldBytesRead | src/cc_action.c:207-234 | what a receiver reads of each value: 2 bytes as the host's value, 4 bytes likewise unless an address, which goes out as given, and 1, 6 and 16 bytes as given |
| Actions.OxmParts | src/cc_action.c:205-221 | the length and field number of a header made of class, field, mask bit and length |
| Samples.PlainActions | src/cc_action.c:122-195 | the eight bytes of the six actions without a parameter |
| Samples.TtlActions | src/cc_action.c:128-192 | the bytes of the two TTL actions |
| Samples.EthertypeActions | src/cc_action.c:141-166 | the bytes of the four Ethernet-type actions |
| Samples.NumberActions | src/cc_action.c:111-183 | the bytes of output, set-queue and group |
| Samples.SetEthertype | src/cc_action.c:197-238 | the bytes of a SET_FIELD of the Ethernet type 0x0800 |
| Actions.EightByteFieldsOnlyZero | src/cc_action.c:229-233 | an 8-byte value is packed in network order iff it is zero |
| Actions.TotalLenMultipleOf8 | src/cc_action.c:49-102 | every action list is a whole number of 64-bit words long |
| PacketOut.PackActions | src/cc_create_msg.c:232-236 | each action starts where the last ended, the cursor ends after exactly the computed length, and the places where SET_FIELD values belong keep their old bytes |
| PacketOut.PackPacketOut | src/cc_create_msg.c:215-243 | header, actions and payload, which ends at the end of the buffer; the fixed fields overlaid with SET_FIELD values; where those values belong, the bytes malloc left |
| Samples.PacketOutMessage | src/cc_create_msg.c:215-243 | the bytes of a packet-out with one action and a payload |
| PacketOut.SamePacketIff | src/cc_create_msg.c:221-240 | one message packed in two memories gives the same bytes iff the memories agree where SET_FIELD values belong |
| PacketOut.MessageDecidesPacketIff | src/cc_create_msg.c:221-240 | the packet depends on the message alone iff every SET_FIELD has length 0 |
| PacketOut.HeaderSurvivesIff | src/cc_create_msg.c:232-236 | the fixed fields survive iff every SET_FIELD has length 0, an uncopied length of 10 to 15, or length 9 over a zero length byte |
| PacketOut.AddressReplacesBufferId | src/cc_create_msg.c:232-236 | an IPv4 SET_FIELD replaces the buffer id |
| Messages.RoundTrip | src/cc_parse_msg.c:1521-1685 | reading the wire form gives back the message, its xid and no leftover iff the message is acceptable |
| Messages.ReadIsPackable | src/cc_parse_msg.c:1521-1685 | whatever is read with nothing left over is acceptable, of the right size, with its fields at their offsets, and the buffer is its wire form iff its padding is zero |
| Messages.RestWrapsIff | src/cc_parse_msg.c:118-141 | the leftover is the length less the size of what was read; it wraps iff the message is a short features reply or queue-config request |
| Messages.ShortMessagesAccepted | src/cc_parse_msg.c:1442-1465 | one short message of each kind, and the wrapped leftover |
| Messages.MessageDecidesIff | src/cc_parse_msg.c:1521-1685 | the result depends on the message alone iff no field is read past its end |
| Messages.HeadersReadPastEnd | src/cc_parse_msg.c:1442-1465 | one message of each kind that memory behind it turns into two different results |
| Messages.WireDetermines | src/cc_create_msg.c:979-1127 | no two acceptable messages share a wire form |
| Messages.RequestAccepted | src/cc_parse_msg.c:716-937 | which multipart requests are accepted, what is read from them, what is left over, and which error the others get |
| Messages.RequestRoundTrip | src/cc_parse_msg.c:864-946 | the multipart requests: which of them come back |
| Messages.ReplyRoundTrip | src/cc_parse_msg.c:1013-1034 | aggregate and group-features replies come back |
| Messages.AsyncMasksInHostOrder | src/cc_create_msg.c:361-374 | a peer that follows network order reads any of the six masks correctly iff the mask is its own byte reversal |
| Messages.MaskOfReasonZeroMisread | src/cc_create_msg.c:361-374 | the mask 1 is read as 2^24 |
| Codec.Pack | src/cc_create_msg.c:979-1127 | the buffer is the wire form of the message, field by field and number by number as the tables of the standard have it |
| Codec.PackError | src/cc_create_msg.c:54-65 | error body |
| Codec.PackEcho | src/cc_create_msg.c:68-79 | echo body |
| Codec.PackRole | src/cc_create_msg.c:82-94 | role body |
| Codec.PackFeatures | src/cc_create_msg.c:97-113 | features-reply body |
| Codec.PackConfig | src/cc_create_msg.c:116-141 | configuration body |
| Codec.PackAsync | src/cc_create_msg.c:361-374 | the six masks, unconverted |
| Codec.PackPortMod | src/cc_create_msg.c:305-322 | port-mod body |
| Codec.PackTableMod | src/cc_create_msg.c:325-337 | table-mod body |
| Codec.PackQueueConfigRequest | src/cc_create_msg.c:934-945 | queue-config-request body |
| Codec.PackMultipartRequest | src/cc_create_msg.c:403-580 | multipart header and the body of its type |
| Codec.PackAggregate | src/cc_create_msg.c:619-634 | aggregate-reply body |
| Codec.PackGroupFeatures | src/cc_create_msg.c:729-746 | group-features-reply body with both arrays |
| Codec.Unpack | src/cc_parse_msg.c:1521-1685 | the answer to every covered message and whatever memory follows it, as literal error pairs or the message that stands in the tables at those bytes; when it packs back into the same bytes; when the leftover wraps |
| Standard.OnWireIff | src/cc_create_msg.c:979-1127 | a buffer is the wire form of a message iff header, type number, size, every field and the padding are those of the tables |
| Standard.AnswerIs | src/cc_parse_msg.c:1521-1650 | for every covered buffer: refused with which literal pair, or accepted with the message the tables show |
| Samples.EmptyMessages | src/cc_parse_msg.c:1510-1517 | the six messages of a header alone |
| Samples.ErrorMessage | src/cc_parse_msg.c:54-76 | an error message in bytes |
| Samples.EchoMessages | src/cc_parse_msg.c:80-94 | echo request and reply in bytes |
| Samples.RoleMessages | src/cc_parse_msg.c:97-115 | role request and reply in bytes |
| Samples.FeaturesMessage | src/cc_parse_msg.c:118-139 | a features reply in bytes |
| Samples.ConfigMessages | src/cc_parse_msg.c:143-184 | config reply and set-config in bytes |
| Samples.AsyncMessages | src/cc_parse_msg.c:188-211 | async reply and set-async in bytes |
| Samples.PortModMessage | src/cc_parse_msg.c:626-657 | a port-mod in bytes |
| Samples.TableModMessage | src/cc_parse_msg.c:660-678 | a table-mod in bytes |
| Samples.QueueConfigMessage | src/cc_parse_msg.c:1442-1465 | a queue-config request in bytes |
| Samples.EmptyRequests | src/cc_parse_msg.c:746-752 | the five multipart requests without a body in bytes |
| Samples.MeterFeaturesRequest | src/cc_parse_msg.c:925-937 | the meter-features request in bytes, and its refusal |
| Samples.PortRequestMessage | src/cc_parse_msg.c:716-743 | a port-statistics request in bytes |
| Samples.QueueRequestMessage | src/cc_parse_msg.c:790-817 | a queue-statistics request in bytes |
| Samples.GroupRequestMessage | src/cc_parse_msg.c:820-839 | a group-statistics request in bytes |
| Samples.MeterRequestMessages | src/cc_parse_msg.c:842-861 | meter and meter-config requests in bytes |
| Samples.AggregateReply | src/cc_parse_msg.c:1013-1034 | an aggregate reply in bytes |
| Samples.GroupFeaturesReply | src/cc_parse_msg.c:1204-1226 | a group-features reply in bytes |
| Codec.UnpackRequestBody | src/cc_parse_msg.c:716-937 | a request is accepted iff it has no body, or its body is there and the port it names is real; the fields accepted are those at their offsets, the rest is what follows them, and a refusal is a length error iff the type is known |
| Codec.PackThenUnpack | src/cc_parse_msg.c:1521-1685 | packing and unpacking gives the message back iff it is acceptable |

## Left out

- Locks and spinlocks: every locked section is one atomic step.
- `malloc` failure paths, logging, debug output and the junk fill.
- `getpagesize`: the page size is a parameter. Page sizes and `min_shift` outside the stated bounds: the code's shifts overflow there.
- SlabPool.Pool.constructor: proved for pools with room for at least one whole page, because with fewer the first descriptor init writes may lie outside the table; `Geometry.CorrectionExact` says which page count the others get.
- Geometry.Layout: the same restriction.
- The initial `ncx_slab_junk` and the contents of pages other than SMALL bitmaps; `ncx_slab_dummy_init`, whose globals are the same parameters.
- `free.prev` and the `prev` fields of the class sentinels, which go stale and are never read.
- The do/while over further pages of a class list: the model has the body for the first page, which is proved to have a free chunk, so the step to the next page is never taken.
- SlabPool.Pool.FreeLocked: requires that the pointer is not one of the chunks a SMALL page keeps for its own bitmap, which the code does not check, and that its page has a descriptor (see `Allocator.LookupInTable`). Misaligned pointers into such chunks are covered.
- SlabPool.Pool.FreeChunk: the same first restriction.
- Allocator.DeallocKeeps: the same two restrictions (`Allocator.MayFree`).
- SlabHeap.DeallocRefines: the same two restrictions (`Allocator.MayFree`).
- SlabPool.Pool.SlabFree: the same two restrictions.
- MemPool.Pools.FreeMemNode: requires that the list the type byte names is initialised, because the code follows its tail; pointers that are not preceded by a type byte are not modelled.
- MemPool.MemList.Clean: nodes are left to the collector; the pointers passed to `free` for buffers are recorded in order.
- The bytes of a pool buffer other than its type byte.
- Actions.PackAction: SET_FIELD values longer than 16 bytes (no field of OpenFlow 1.3 has one) and experimenter actions, which rest on callbacks. Unknown action types have no packer case.
- PacketOut.PackActions: the same restriction on SET_FIELD values.
- PacketOut.PackPacketOut: the same restriction on SET_FIELD values.
- The macros OXM_LENGTH, OXM_FIELD, ROUND_UP and OFL_UTILS_SUM_ARR_FUN2 are not part of this repository; they are taken as their names and section A.2.3.2 of the specification say.
- Codec.Unpack: messages that rest on code outside the repository (matches, instructions, buckets, bands, ports, table features, action parsing): packet-in, flow-removed, port-status, packet-out, flow-mod, group-mod, meter-mod, queue-config reply, flow, aggregate and table-features requests, and the list-shaped, description and meter-features replies. Experimenter messages rest on callbacks. Memory behind a message is taken to be readable as far as the two unchecked parsers reach (`Messages.Mapped`).
- Codec.Pack: the description and meter-features replies, which the packer writes but no modelled reader accepts.
- A little-endian host is assumed wherever a value is copied unconverted.
- `lib/cc_link.c`: a plain singly linked list.
- Command line, start-up, logging files and the unfinished `src/cc_routine.c` and `lib/cc_of_process.c`.
