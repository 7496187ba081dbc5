# Verified models of the allocator, index, logging and class-loading cores

This project models, in Dafny 4.11, the stateful cores of a small Java virtual machine and of the
libraries it builds with, and proves what they keep over whole runs:

- **The free-extent manager of jemalloc** (`SizeClasses`, `Extents`, `Recycling`, `ChunkIndex`, `Arena`,
  `ArenaTrees`): `chunk_record` and `chunk_recycle` over two ordered trees that share mutable nodes. The
  specification is a pair of functions on the address-ordered list of extents. `ChunkIndex` refines it with
  mutable nodes that keep their place in the address tree while their fields are edited. `Arena` runs both
  indexes through arbitrary interleavings of critical sections, hook calls and writes, over a memory whose
  bytes are committed or not and zero or not; `ArenaTrees` runs the trees through the same events.
- **The base allocator** (`BaseAllocator`): memory that is never freed, three running statistics.
- **The cuckoo hash** (`Ckh`): eviction with arbitrary choices, rebuild, grow, shrink, against a finite map.
- **Summary-tree bitmaps** (`Bitmap`) and the **lock-free node initialisation** of the radix tree (`RtreeInit`).
- **glog**: the buffered line reader (`LineReader`), the wildcard matcher (`Wildcards`), and the list of
  log sites that must agree with a scan of the module list (`Vlog`).
- **Class loading**: Modified UTF-8 (`Mutf8`), the constant pool from bytes to runtime constants
  (`ClassFile`, `RuntimePool`), 32-bit slots (`Slots`), field layout and static initialisation (`ClassLayout`).

`Wrappers` and `Integers` hold the option type and the fixed-width integers that several modules use.

Hooks, node allocation, hash functions, eviction choices, short reads, and which requests for memory and
which reads fail are arbitrary: parameters or nondeterministic choices, so every theorem holds for all of
them. A failure is reported only for a cause that the contract names: an allocation, an insertion or a read
that could have succeeded does. Where the program aborts
(LOG(FATAL)) or reads or writes astray, the model returns a distinct outcome instead of forbidding the input.

## Where the code falls short of what it promises

Each is stated as it is in the code, with the exact condition under which the promise holds.

- `SafeFNMatch_` misses strings that its pattern matches: on star-free text it is exact if and only if the
  pattern does not end in two stars, and such trailing stars are taken to ask for one more character; on all
  text it is exact if and only if the pattern has no star.
- `SetVLOGLevel` gives the level to every module of exactly its pattern, but adds one only if no module
  matches the pattern's own text. So the level need not reach what the pattern matches. A name looked up
  afresh gets it if and only if a module was added, or the first module that matches the name is of this
  pattern or has this level (or none matches and the default is this level). A log site that is bound to a
  module already gets it if and only if that module is of this pattern or has this level; a site on the
  default level, if and only if a module was added or the default is this level.
- So the two can disagree. Putting a module in front ends the agreement of a site with a fresh scan exactly
  when the site is bound to another module and the new one matches it; nothing looks the site up again.
- `chunk_recycle` commits a decommitted range whatever `*commit` asked for, and sets `*commit` only for a range
  that was committed before. So after a success `*commit` is false if and only if the caller passed false and
  the range has just been committed.
- `chunk_dalloc_wrapper` marks a range zeroed that was reported as decommitted. The mark is true of the memory
  as it is if and only if the range was reported as committed or was zero; a chunk whose header is still
  committed (libs/jemalloc/src/arena.c:565-573) breaks it, harmlessly, since the commit hook zeroes the range
  before its next use.
- Every range of the indexes starts out with one committed status, which is its flag. An event keeps that if
  and only if it does not report a range as decommitted with a byte of it committed. A caller that passes back
  the `*commit` of `chunk_recycle` reports so exactly when that is false.
- `rtree_node_init` leaves every other thread spinning for ever when the winner's allocation fails; a
  spinning thread can still return if and only if that has not happened.
- `ParseConstantPool` accepts a pool whose last index holds a long or double; the runtime constructor
  then writes past its vector. It builds the pool if and only if that is not so and every followed index is good.
- `AllocAndInitStaticVars` sizes its array by a 16-bit count. Each static final field is initialised in its
  own slots if and only if those lie within the cut count; a class with 65538 static slots is silently damaged.
- `DecodeMutf8` also accepts overlong forms and plain zero bytes; re-encoding gives the input back if and
  only if it has none.
- The instance slot counter tiles the fields if and only if there are fewer than 2^32 slots.

## Model

| member | source | states |
|---|---|---|
| SizeClasses.QuantizeIsFloor | libs/jemalloc/src/extent.c:6-15 | quantising rounds down to the largest class that is not larger |
| SizeClasses.RoundingAdjoint | libs/jemalloc/src/extent.c:6-15 | an extent that quantises to at least the class of a request holds the request |
| Extents.LowerBoundSplits | libs/jemalloc/src/chunk.c:519-521 | searching at a range's end splits the tree into extents before and behind it |
| Extents.RecordConserves | libs/jemalloc/src/chunk.c:504-594 | recording adds exactly the range to the free addresses, or nothing when it leaks, and keeps the list well formed |
| Extents.RecordResult | libs/jemalloc/src/chunk.c:504-594 | recording puts the range in its place, joined with exactly those neighbours that touch it, have its status and whose merge is allowed, zeroed only if all parts are; it leaks exactly if there is no node and no merge with the successor |
| Extents.RefusedStandsAlone | libs/jemalloc/src/chunk.c:519-590 | a merge that the hook refuses is not made |
| Extents.RecordCoalesces | libs/jemalloc/src/chunk.c:519-590 | if the merge hook does not refuse, no two neighbouring extents could still be merged |
| Extents.RecordTruthful | libs/jemalloc/src/chunk.c:513-585 | through both merges, an extent marked committed is committed in every byte and one marked zeroed is zero |
| Extents.MergeNeedsOneStatus | libs/jemalloc/src/chunk.c:523-527 | two neighbours with exact flags have a true common description if and only if their committed flags agree, which is what the merges test |
| Recycling.GuardIsExact | libs/jemalloc/src/chunk.c:220-223 | the wrap-around guard passes if and only if the padded size fits a word and has a class |
| Recycling.SearchedSize | libs/jemalloc/src/chunk.c:220-223 | the guard passes if and only if some class holds the size padded for the alignment, and the search is for the least such class in whole chunks |
| Recycling.BestFitIsBest | libs/jemalloc/src/chunk.c:189-199 | the chosen extent has the least sufficient quantised size, and the lowest address among those |
| Recycling.ChooseFinds | libs/jemalloc/src/chunk.c:226-239 | the extent found is the one that starts at the address asked for and is large enough, or else the best fit |
| Recycling.CandidateExists | libs/jemalloc/src/chunk.c:226-239 | without an address asked for there is one if and only if some extent is sufficient |
| Recycling.LeadIsSmall | libs/jemalloc/src/chunk.c:240-241 | aligning a chunk address skips at most the alignment less one chunk |
| Recycling.BestFitIsBigEnough | libs/jemalloc/src/chunk.c:220-243 | quantised best fit never picks an extent smaller than size + alignment - chunksize |
| Recycling.ChosenFits | libs/jemalloc/src/chunk.c:220-245 | lead and request fit in the chosen extent, so the trail does not underflow; the result is aligned |
| Recycling.TakeConserves | libs/jemalloc/src/chunk.c:201-307 | the first critical section takes out exactly the returned range, or exactly a range that may be recorded again, or nothing |
| Recycling.TakeSucceeds | libs/jemalloc/src/chunk.c:235-307 | with such an extent the call succeeds if and only if no needed lead split, trail split, node or commit is refused, and returns its first aligned address; a refused lead changes nothing |
| Recycling.TakeFindsNothing | libs/jemalloc/src/chunk.c:220-239 | without one, or without a class, it returns NULL, changes nothing and puts nothing back |
| Recycling.RecycleSucceeds | libs/jemalloc/src/chunk.c:201-326 | `chunk_recycle` returns an address if and only if a class holds the padded size, an extent serves the request and no needed hook refuses; which address |
| Recycling.SplitKeepsFlags | libs/jemalloc/src/chunk.c:252-306 | what is split off or put back lies in the chosen extent and has its flags |
| Recycling.RecycleConserves | libs/jemalloc/src/chunk.c:201-326 | without interruption, success takes exactly the returned range out of the free addresses; every failing exit restores them, except for a leak by a failed node allocation |
| Recycling.TakeCoalesces | libs/jemalloc/src/chunk.c:252-300 | splitting leaves no two mergeable neighbours, whatever the hooks answer |
| Recycling.RecycleCoalesces | libs/jemalloc/src/chunk.c:252-306 | nor does re-recording, if the merge hook agrees |
| Recycling.TakeTruthful | libs/jemalloc/src/chunk.c:246-325 | the flags stay true through every split; a success hands out memory that is committed, or committed by the hook, and that is zero if so reported |
| Recycling.RecycleTruthful | libs/jemalloc/src/chunk.c:246-325 | the flags stay true through every failing exit too |
| Recycling.CommitReport | libs/jemalloc/src/chunk.c:246-306 | `*commit` becomes true exactly for a committed extent; after a success it is false if and only if the caller passed false and the hook has just committed the range |
| Recycling.ZeroReport | libs/jemalloc/src/chunk.c:246-323 | `*zero` becomes true exactly for a zeroed extent; a success clears the range exactly if zeros were asked for and the extent was not zeroed |
| Recycling.RecycleExample | libs/jemalloc/src/chunk.c:220-244 | a concrete request whose chosen extent has a lead, which shows that the assumptions of the other rows can be met |
| ChunkIndex.SzadNsearch | libs/jemalloc/src/chunk.c:189-199 | the first node in size order of sufficient quantised size |
| ChunkIndex.InsertOrdered | libs/jemalloc/src/extent.c:17-41 | inserting at the searched place keeps the size order strict |
| ChunkIndex.PlaceOfMember | libs/jemalloc/src/extent.c:17-41 | searching by key arrives at the member that has it |
| ChunkIndex.FirstInSizeOrderIsBest | libs/jemalloc/src/chunk.c:189-199 | the first sufficient node of the size tree is the best fit of the address-ordered list |
| ChunkIndex.ChunkTrees.Rekey | libs/jemalloc/src/chunk.c:528-541 | an in-place edit with a new address between the neighbours keeps both trees ordered and over the same nodes |
| ChunkIndex.ChunkTrees.RecordForward | libs/jemalloc/src/chunk.c:519-562 | the forward step on nodes is the forward step of the specification |
| ChunkIndex.ChunkTrees.RecordBackward | libs/jemalloc/src/chunk.c:564-590 | the backward step on nodes is the backward step of the specification |
| ChunkIndex.ChunkTrees.RecordChunk | libs/jemalloc/src/chunk.c:504-594 | keeps both trees over the same nodes in order, and refines the specification of recording |
| ChunkIndex.ChunkTrees.FirstBestFit | libs/jemalloc/src/chunk.c:189-199 | finds in the size tree the node the specification chooses |
| ChunkIndex.ChunkTrees.CarveNode | libs/jemalloc/src/chunk.c:252-300 | lead and trail go back into the trees, or the trail is reported as refused |
| ChunkIndex.ChunkTrees.TakeChunk | libs/jemalloc/src/chunk.c:201-307 | the first critical section on the trees is that of the specification: trees, result, flags and the range to put back |
| ChunkIndex.ChunkTrees.RecycleChunk | libs/jemalloc/src/chunk.c:201-326 | keeps both trees, and refines the specification of recycling: trees, result and flags |
| Arena.StartOk | libs/jemalloc/src/chunk.c:386-661 | the empty arena meets the invariant |
| Arena.SettleOk | libs/jemalloc/src/chunk.c:504-594 | recording a pending range, whenever it comes, moves it to the free addresses or loses it, and nothing else |
| Arena.TakeOk | libs/jemalloc/src/chunk.c:201-307 | the first section of recycling removes from an index only what it gives out, which is committed or was committed by the hook |
| Arena.StepSafe | libs/jemalloc/src/chunk.c:386-661 | every critical section keeps both lists well formed and all flags true, and cached, retained, pending, owned and leaked addresses apart; only the hooks add or remove addresses |
| Arena.StepMoves | libs/jemalloc/src/chunk.c:386-661 | every event moves exactly the addresses it should: given back, they leave their owner; settled, they become free; asked for, they are owned exactly if an extent serves the request and no needed hook refuses |
| Arena.RunSafe | libs/jemalloc/src/chunk.c:386-661 | the same over every interleaving of critical sections, hook calls and writes, with the addresses equal to everything mapped less everything unmapped |
| Arena.AllocationIsFresh | libs/jemalloc/src/chunk.c:386-472 | after any run an allocation is aligned, disjoint from all owned, free, pending and leaked memory, committed, and all zero if reported so |
| Arena.RunOneStatus | libs/jemalloc/src/chunk.c:246-325 | if callers report exactly, after any run every free or pending range has one committed status, which is its flag, and is zero if marked zeroed |
| Arena.StatusKept | libs/jemalloc/src/chunk.c:596-657 | from a state in which every range has, an event keeps that if and only if it does not report a range with a committed byte as decommitted |
| Arena.OneStatusIsExact | libs/jemalloc/src/chunk.c:246-325 | that every range has one status is all that exact reports add to the invariant |
| Arena.TrustingCaller | libs/jemalloc/src/arena.c:554-573 | a caller that gives back a recycled range with the `*commit` it was told misreports it if and only if that is false |
| Arena.ZeroedFlagIsTrue | libs/jemalloc/src/chunk.c:649-657 | the zeroed flag of a deallocated range is true if and only if the range was reported committed or was zero |
| Arena.PartlyDecommitted | libs/jemalloc/src/arena.c:565-573 | a run in which it is not: a chunk given back as decommitted with its header committed, the decommit unchecked |
| Arena.StepCoalesces | libs/jemalloc/src/chunk.c:386-661 | no critical section creates mergeable neighbours while the merge hook agrees |
| Arena.RunCoalesces | libs/jemalloc/src/chunk.c:519-590 | no interleaving leaves two adjacent free extents with the same committed flag while the merge hook agrees |
| ArenaTrees.Trees.Step | libs/jemalloc/src/chunk.c:386-661 | every event does to the two pairs of trees what it does to the state |
| ArenaTrees.Trees.RunAll | libs/jemalloc/src/chunk.c:386-661 | so any run of the trees ends where the run of the states ends |
| BaseAllocator.StatsOrdered | libs/jemalloc/src/base.c:132-144 | allocated <= resident <= mapped |
| BaseAllocator.CeilShift | libs/jemalloc/src/base.c:119-124 | page rounding commutes with a page-aligned base, which makes the resident charges telescope |
| BaseAllocator.CarvedOk | libs/jemalloc/src/base.c:110-116 | a carved block is cacheline-aligned, in the used prefix of its chunk and disjoint from all earlier ones |
| BaseAllocator.CarveFacts | libs/jemalloc/src/base.c:110-125 | the statistics charged for a block are those of the new ledger |
| BaseAllocator.NewChunkFacts | libs/jemalloc/src/base.c:42-73 | the statistics charged for a new chunk and its node header are those of the new ledger |
| BaseAllocator.FitIsBigEnough | libs/jemalloc/src/base.c:92-100 | a node found by the size class of a request holds the request |
| BaseAllocator.Base.StatsGet | libs/jemalloc/src/base.c:132-144 | reports the statistics, in the order it asserts |
| BaseAllocator.Base.NodeTryAlloc | libs/jemalloc/src/base.c:16-29 | pops the first spare node, which describes no space; NULL if and only if there is none |
| BaseAllocator.Base.NodeDalloc | libs/jemalloc/src/base.c:31-40 | the node becomes the first spare node |
| BaseAllocator.Base.ChunkAlloc | libs/jemalloc/src/base.c:42-73 | maps a chunk with room for the request and, if no node is spare, for its own header, exactly if the operating system has one; failure changes neither ledger, tree, statistics nor spare nodes |
| BaseAllocator.Base.Alloc | libs/jemalloc/src/base.c:80-130 | finds what `FindingServes` describes; keeps: available nodes are exactly the unused suffixes of chunks, allocated plus available is mapped, all blocks aligned and disjoint; appends exactly the returned block |
| BaseAllocator.FindingServes | libs/jemalloc/src/base.c:42-116 | with sufficient space in the tree, a request gets the start of the best and maps no chunk; without, the start of one new chunk behind its header, and NULL if and only if the operating system refuses that chunk; a used-up node is spare again |
| BaseAllocator.FirstIsBest | libs/jemalloc/src/base.c:97-100 | in size order the first sufficient node is the best, and there is one if and only if some node is sufficient |
| Ckh.ScanContinues | libs/jemalloc/src/ckh.c:224-245 | a scan that has not met all items has not reached the end of the old table |
| Ckh.ScanComplete | libs/jemalloc/src/ckh.c:224-245 | a scan that has counted as many items as the table holds has met them all |
| Ckh.Ckh.BucketSearch | libs/jemalloc/src/ckh.c:52-65 | finds the key in the bucket if it is there |
| Ckh.Ckh.ISearch | libs/jemalloc/src/ckh.c:70-89 | two buckets suffice: a miss means that no cell of the table has the key |
| Ckh.Ckh.Search | libs/jemalloc/src/ckh.c:515-532 | finds the one item with the key if and only if there is one |
| Ckh.Ckh.Iter | libs/jemalloc/src/ckh.c:439-457 | the next non-empty cell from a position |
| Ckh.Ckh.Iterate | libs/jemalloc/src/ckh.c:439-457 | repeated iteration yields each item exactly once |
| Ckh.Ckh.TryBucketInsert | libs/jemalloc/src/ckh.c:91-116 | from any starting cell, stores the item in the bucket unless every cell is taken |
| Ckh.Ckh.Evict | libs/jemalloc/src/ckh.c:135-163 | swaps the item in hand with a stored one; items in table and hand are unchanged, and the cell was not empty |
| Ckh.Ckh.EvictRelocInsert | libs/jemalloc/src/ckh.c:124-193 | the evictions form a path, each from the bucket the last one leads to, with table plus item in hand kept; a cycle is reported exactly when the path leads back to the first bucket, with the last item in hand |
| Ckh.Ckh.TryInsert | libs/jemalloc/src/ckh.c:195-218 | inserts, or hands back one item out of table plus argument; the latter only if both buckets of the argument were full |
| Ckh.Ckh.Rebuild | libs/jemalloc/src/ckh.c:224-245 | copies every item of the old table, never reading past it, or reports failure with the count restored; failure only if some of the items leave no room for another in such a table |
| Ckh.Ckh.Grow | libs/jemalloc/src/ckh.c:247-300 | a larger table with the same items, passing over only sizes in which the items can be in each other's way; or the old table untouched, only if a request was refused or that is so of every larger size |
| Ckh.Ckh.Shrink | libs/jemalloc/src/ckh.c:302-348 | half the buckets with the same items; or the old size, only if memory was refused or the items may be too crowded |
| Ckh.Ckh.Insert | libs/jemalloc/src/ckh.c:459-481 | success adds exactly the new pair, and comes at once if one of its buckets has an empty cell; failure loses exactly one item of old contents plus new pair, only if memory was refused or the items can be in each other's way at every size left |
| Ckh.Ckh.Remove | libs/jemalloc/src/ckh.c:483-513 | removes exactly the item with the key, or nothing if there is none; then halves the table exactly if under a quarter full and above its smallest size, unless `ckh_shrink` fails |
| Ckh.Replay | libs/jemalloc/src/ckh.c:439-532 | any sequence of insertions, removals, searches and iterations is a run of a finite map; it goes on with one entry less when memory runs out, which is reported only if it did or every size is too crowded; only running out of draws ends it early |
| Ckh.FewNeverCrowded | libs/jemalloc/src/ckh.c:195-218 | no more items than a bucket has cells are never in each other's way, whatever they hash to |
| Ckh.SmallMapGrows | libs/jemalloc/src/ckh.c:459-481 | so with memory never refused a map of fewer entries takes every new one |
| Bitmap.ShiftsAndMasks | libs/jemalloc/include/jemalloc/internal/bitmap.h:154-163 | the group and offset of a bit are quotient and remainder by the group width |
| Bitmap.GroupsRoundUp | libs/jemalloc/src/bitmap.c:8-35 | the number of groups is the quotient rounded up |
| Bitmap.InfoInit | libs/jemalloc/src/bitmap.c:8-35 | the offsets are the running sums of the ceiling-division chain, which stops at the first level with one group |
| Bitmap.Init | libs/jemalloc/src/bitmap.c:44-70 | the whole tree is right: exactly the first nbits bits are set, padding is zero, and each summary bit tells whether its group is non-zero |
| Bitmap.FlipStep | libs/jemalloc/include/jemalloc/internal/bitmap.h:166-198 | inverting a bit leaves the tree right, or wrong at exactly one bit one level up |
| Bitmap.StepUp | libs/jemalloc/include/jemalloc/internal/bitmap.h:182-196 | one propagation step in the array achieves that |
| Bitmap.Set | libs/jemalloc/include/jemalloc/internal/bitmap.h:166-198 | takes exactly the given bit and keeps the tree right |
| Bitmap.Unset | libs/jemalloc/include/jemalloc/internal/bitmap.h:233-269 | frees exactly the given bit and keeps the tree right |
| Bitmap.Full | libs/jemalloc/include/jemalloc/internal/bitmap.h:135-151 | the root is zero if and only if no bit is free |
| Bitmap.IsTaken | libs/jemalloc/include/jemalloc/internal/bitmap.h:154-163 | reads the logical bit |
| Bitmap.FirstFree | libs/jemalloc/include/jemalloc/internal/bitmap.h:202-218 | descending from the root finds the lowest free bit |
| Bitmap.SetFirstUnset | libs/jemalloc/include/jemalloc/internal/bitmap.h:202-230 | takes the lowest free bit and no other |
| RtreeInit.StepInv | libs/jemalloc/src/rtree.c:93-118 | every step of every thread keeps the invariant and moves the slot only from NULL to the marker, or from the marker to a node |
| RtreeInit.RunInv | libs/jemalloc/src/rtree.c:93-118 | the same over every interleaving |
| RtreeInit.OnceOnly | libs/jemalloc/src/rtree.c:93-118 | at most one allocation; no thread returns the marker; every non-NULL result is the node in the slot |
| RtreeInit.ResultsAgree | libs/jemalloc/src/rtree.c:93-118 | results returned at different times are the same node |
| RtreeInit.SpinnerCanReturn | libs/jemalloc/src/rtree.c:97-116 | a spinning thread can still return if and only if the winner has not failed to allocate |
| RtreeInit.StuckExample | libs/jemalloc/src/rtree.c:97-116 | a run of two threads in which it has, and the other spins |
| LineReader.LinesTile | libs/glog/src/symbolize.cc:410-448 | the lines with their newlines, and the remainder, are the text: no byte lost or repeated |
| LineReader.WholeText | libs/glog/src/symbolize.cc:410-448 | everything is read if and only if a newline is near every character |
| LineReader.DataNewline | libs/glog/src/symbolize.cc:464-474 | searching the buffered part is searching everything within reach of the buffer |
| LineReader.Reader.ReadFromOffset | libs/glog/src/symbolize.cc:146-166 | reads up to the count or the end of the file through any short reads, and leaves the buffer's front alone; -1 if and only if a read failed |
| LineReader.Reader.ReadLine | libs/glog/src/symbolize.cc:410-448 | returns the next line; fails if a read failed, and otherwise if and only if its newline is not in the first buffer-length unread bytes |
| LineReader.Reader.ReadAll | libs/glog/src/symbolize.cc:410-448 | reading until failure yields exactly the lines of the text, in order, unless a read failed |
| Wildcards.SafeFNMatch | libs/glog/src/vlog_is_on.cc:73-98 | terminates and computes the recursive matcher the following rows are about |
| Wildcards.Sound | libs/glog/src/vlog_is_on.cc:73-98 | what it accepts, the pattern matches |
| Wildcards.Complete | libs/glog/src/vlog_is_on.cc:73-98 | on star-free text it accepts everything the pattern matches unless the pattern ends in two stars |
| Wildcards.MissesShort | libs/glog/src/vlog_is_on.cc:77-97 | a pattern ending in two stars rejects all text no longer than its other characters |
| Wildcards.ExactOnPlainText | libs/glog/src/vlog_is_on.cc:73-98 | exact on star-free text if and only if the pattern does not end in two stars |
| Wildcards.MeaningOnPlainText | libs/glog/src/vlog_is_on.cc:73-98 | what each pattern accepts of star-free text: with two or more trailing stars, what the pattern with `?*` in their place matches |
| Wildcards.MissedIsMissed | libs/glog/src/vlog_is_on.cc:73-98 | for every pattern with a star, a text it matches and the code rejects |
| Wildcards.ExactOnAllText | libs/glog/src/vlog_is_on.cc:73-98 | exact on all text if and only if the pattern has no star |
| Vlog.SetTakesEffectOn | libs/glog/src/vlog_is_on.cc:166-215 | for every name the pattern matches and that is looked up afresh, the new level applies if and only if a module was added, or the first module matching the name has this pattern or this level, or none matches and the default is this level |
| Vlog.SetTakesEffect | libs/glog/src/vlog_is_on.cc:166-215 | for the name that is the pattern text, if and only if no earlier different pattern with another level matches it |
| Vlog.OvertakenExample | libs/glog/src/vlog_is_on.cc:172-193 | a module of exactly the pattern is given the level, and a name the pattern matches keeps another |
| Vlog.SwallowedExample | libs/glog/src/vlog_is_on.cc:172-193 | a concrete call that changes no level |
| Vlog.SetLeavesOthers | libs/glog/src/vlog_is_on.cc:166-215 | names the pattern does not match keep their level |
| Vlog.Registry.DefaultAgrees | libs/glog/src/vlog_is_on.cc:219-291 | an initialised site is on the default level if and only if a scan of the module list finds no match |
| Vlog.Registry.AgreesExactly | libs/glog/src/vlog_is_on.cc:255-273 | a site's pointer is what a scan would find if and only if no module in front of its own matches it |
| Vlog.PrependSpoils | libs/glog/src/vlog_is_on.cc:188-211 | a module put in front spoils a right pointer if and only if that points to a module and the new one matches too |
| Vlog.StaleExample | libs/glog/src/vlog_is_on.cc:188-211 | a run that leaves a site's pointer and the scan in disagreement |
| Vlog.BaseNameOfPath | libs/glog/src/vlog_is_on.cc:233-250 | the name of a file is its base without directory, extension and one trailing `-inl` |
| Vlog.Registry.ReadFlag | libs/glog/src/vlog_is_on.cc:130-163 | puts the flag's modules before those added by calls |
| Vlog.Registry.InitSite | libs/glog/src/vlog_is_on.cc:219-291 | answers by the scan, points the site to what the scan found, and lists it exactly when that is the default |
| Vlog.Registry.SetLevel | libs/glog/src/vlog_is_on.cc:166-215 | keeps the list invariant; redirects and unlists exactly the matching listed sites and keeps the rest in order; says for every site exactly when the new level controls it, and when its agreement with the scan ends |
| Mutf8.DecodeMutf8 | src/runtime/constant_pool.cpp:161-223 | the fast loop followed by the general loop is the general loop alone, on every input |
| Mutf8.GroupsDecode | src/runtime/constant_pool.cpp:175-219 | every sequence of one-, two- and three-byte groups is accepted, with the value of each group's payload bits |
| Mutf8.DecodedGroups | src/runtime/constant_pool.cpp:175-219 | and nothing else is |
| Mutf8.RoundTrip | src/runtime/constant_pool.cpp:161-223 | decoding undoes the encoding of section 4.4.7 of the Java Virtual Machine Specification for every UTF-16 sequence |
| Mutf8.RoundTripBack | src/runtime/constant_pool.cpp:161-223 | encoding undoes decoding if and only if no group is overlong and no zero byte is plain |
| Mutf8.OverlongExample | src/runtime/constant_pool.cpp:187-199 | an overlong input that is accepted and does not come back |
| Mutf8.PlainZeroExample | src/runtime/constant_pool.cpp:165-170 | a plain zero byte that is accepted and comes back as two bytes |
| ClassFile.ParseUnsignedInt | src/classfile/class_parser.h:81-89 | the loop of shifts reads a big-endian number |
| ClassFile.ParseBytes | src/classfile/class_parser.h:90-100 | copies exactly the bytes and advances past them |
| ClassFile.BigEndianOfBytes | src/classfile/class_parser.h:81-89 | reading a written number gives it back |
| ClassFile.NarrowBody | src/classfile/constant_pool.h:44-257 | an entry of the other kinds than long and double is read if and only if its own encoding stands there |
| ClassFile.EntryRoundTrip | src/classfile/class_parser.cpp:44-52 | an encoded entry is read back with all its fields, whatever follows |
| ClassFile.EntryReadBack | src/classfile/class_parser.cpp:44-52 | the bytes consumed are an encoding of the entry returned |
| ClassFile.TagDecides | src/classfile/class_parser.cpp:20-52 | an entry is of the kind that section 4.4 of the Java Virtual Machine Specification gives its tag; it is read if and only if an encoded entry stands there, and the tag is reported unknown if and only if the section has no such tag |
| ClassFile.ParseConstantInfo | src/classfile/class_parser.cpp:20-52 | the tag dispatch refines that parser |
| ClassFile.ParseConstantPool | src/classfile/class_parser.cpp:211-228 | the loop, with its 16-bit index, builds the pool of the specification or fails as it does |
| ClassFile.PoolRoundTrip | src/classfile/class_parser.cpp:211-228 | every encoded pool is read back at its class-file indexes, null only at 0 and behind a long or double, consuming exactly its bytes |
| ClassFile.PoolReadBack | src/classfile/class_parser.cpp:211-228 | a parsed pool that fills its count was encoded in exactly the bytes consumed |
| ClassFile.FillsUnlessEndsWide | src/classfile/class_parser.cpp:216-225 | a parsed pool fills its count if and only if its last index holds no long or double |
| RuntimePool.Build | src/runtime/constant_pool.cpp:23-101 | the constructor's loop refines the walk |
| RuntimePool.MakeExactlyWhenLinked | src/classfile/constant_pool.h:267-290 | the lookups for an entry succeed if and only if the indexes it follows name entries of the right kinds |
| RuntimePool.MakeIsConstantOf | src/runtime/constant_pool.cpp:30-99 | the constant made of an entry holds the values that the entries it follows hold, name and descriptor in their places |
| RuntimePool.OneConstantOf | src/runtime/constant_pool.cpp:30-99 | and no other constant does |
| RuntimePool.WalkExact | src/runtime/constant_pool.cpp:23-101 | the walk never meets null, goes past the end only at a wide last index, and otherwise builds if and only if all followed indexes are good; at each index stands the value, text, owner, name and descriptor that the entries it follows hold |
| RuntimePool.ParsedPoolIsWalked | src/runtime/constant_pool.cpp:23-101 | the same of any bytes that parse |
| RuntimePool.EncodedPoolIsBuilt | src/runtime/constant_pool.cpp:23-101 | any properly encoded and linked pool is read and built, each constant holding what its entries do |
| RuntimePool.WideAtTheEnd | src/runtime/constant_pool.cpp:39-46 | concrete bytes that parse and make the walk write past its constants |
| Slots.JoinSplit | src/runtime/slots.h:47-63 | splitting a long over two slots and joining it gives it back |
| Slots.SplitJoin | src/runtime/slots.h:47-63 | joining two slots and splitting gives them back |
| Slots.PutLongGet | src/runtime/slots.h:47-63 | what is put is read, and only its two slots change |
| Slots.Slots.SetInt | src/runtime/slots.h:18-24 | writes one slot, or nothing out of bounds |
| Slots.WordReadBack | src/runtime/slots.h:25-30 | reading a slot gives the one value whose writing would change nothing, exactly within bounds |
| Slots.Slots.SetFloat | src/runtime/slots.h:31-38 | writes the bits to one slot |
| Slots.Slots.GetFloat | src/runtime/slots.h:39-46 | reads the bits that were written |
| Slots.Slots.SetLong | src/runtime/slots.h:47-55 | writes two slots, or nothing when the bound check refuses |
| Slots.LongReadBack | src/runtime/slots.h:56-63 | reading two slots gives the one long whose writing would change nothing, exactly when both are within bounds |
| Slots.Slots.SetDouble | src/runtime/slots.h:64-71 | writes the bits as a long |
| Slots.Slots.GetDouble | src/runtime/slots.h:72-80 | reads the bits that were written |
| ClassLayout.Tiles | src/runtime/class_loader.cpp:133-164 | slots below a count belong to exactly one field, and fields own no others |
| ClassLayout.InstanceFieldsTile | src/runtime/class_loader.cpp:133-149 | the instance fields of a class and all its superclasses are disjoint and tile the slots below the count if and only if the 32-bit counter does not wrap |
| ClassLayout.SubclassKeeps | src/runtime/class_loader.cpp:133-149 | a subclass leaves its superclasses' fields where they are |
| ClassLayout.SubclassAppends | src/runtime/class_loader.cpp:133-149 | a subclass's own fields follow |
| ClassLayout.WidthOfType | src/runtime/oo/field.h:42-44 | longs, doubles and references take two slots, the other types of section 4.3.2 of the Java Virtual Machine Specification one |
| ClassLayout.InitExact | src/runtime/class_loader.cpp:166-174 | under the guard the static area is exactly the fields' values side by side, zero elsewhere |
| ClassLayout.StaticFinalsReadBack | src/runtime/class_loader.cpp:166-243 | under the guard initialisation completes, and each static final field reads, by its kind, the int, bits, long, or string address of the constant it names, or 0 for a null entry |
| ClassLayout.TypedExactly | src/runtime/class_loader.cpp:178-242 | initialisation has a value for every static final field if and only if each names a constant of its own kind, or a null entry where that stands for 0 |
| ClassLayout.CompletesTyped | src/runtime/class_loader.cpp:166-243 | it completes only then |
| ClassLayout.OtherStaticsReadZero | src/runtime/class_loader.cpp:166-243 | under the guard every other static field, and the skipped one, reads 0 |
| ClassLayout.WritesOwnExactly | src/runtime/slots.h:18-80 | a write stays in the field's own slots if and only if they hold it and lie in the array |
| ClassLayout.GuardIsExact | src/runtime/class_loader.cpp:166-243 | the guard holds if and only if no initialisation fails or touches another field's slots |
| ClassLayout.SmallClassFits | src/runtime/class_loader.cpp:166-174 | every class with at most 65535 static slots and proper descriptors meets the guard |
| ClassLayout.CrowdedExists | src/runtime/class_loader.cpp:166-168 | a class of 32769 static longs, and a pool with room for its names |
| ClassLayout.SilentOverwrite | src/runtime/class_loader.cpp:166-243 | in such a class 65538 slots are cut to two, and the last static final field overwrites the first without an error |
| ClassLayout.JavaClass.CalcInstanceFieldSlotIds | src/runtime/class_loader.cpp:133-149 | numbers the instance fields behind those of the whole superclass chain |
| ClassLayout.JavaClass.CalcStaticFieldSlotIds | src/runtime/class_loader.cpp:151-164 | numbers the static fields from 0 and leaves the others |
| ClassLayout.JavaClass.AllocAndInitStaticVars | src/runtime/class_loader.cpp:166-174 | leaves the slots the specification computes, or fails as it does |
| ClassLayout.InitStaticFinalVar | src/runtime/class_loader.cpp:176-243 | writes the field's value at its slot id cut to 16 bits |
| ClassLayout.JavaClass.Prepare | src/runtime/class_loader.cpp:127-131 | all three, and the instance layout survives the static one; under the guard every static final field reads its constant at its slot id |

## Left out

- Node storage of chunk.c: `chunk_dalloc_node` and reuse through the arena's node list; a new node is a new object, or fails.
- The dirty ring, statistics (`stats.retained`), registration in the radix tree, and the arena's locks themselves: each critical section is one event.
- What the hooks promise is taken from their documentation: committing provides zeroed memory, and a purge that reports success leaves zeroed memory.
- Red-black balancing: a tree is the sequence of its nodes in tree order, searched and edited by key.
- The size-class table: any strictly increasing table is a parameter, and so are chunk, page and cacheline sizes; a size of zero has the smallest class.
- Integer width outside the guard of `chunk_recycle`: addresses and sizes are unbounded elsewhere.
- BaseAllocator.Base.Alloc: asks for a size that has a size class; for a larger one the program searches with a size class of index -1, which is undefined.
- Ckh.Ckh.EvictRelocInsert: termination of the eviction loop, which rests on pseudo-randomness; a budget of followed evictions ends a call as unfinished, and nothing is claimed of the table then.
- Sizing in `ckh_new`, `ckh_delete`, the profiling counters, and the string and pointer hashes: the hash is any function that agrees with the key comparison.
- The flat variant of bitmap.c; words are sequences of at least two bits rather than machine integers.
- `rtree_new`, `rtree_delete` and reads through initialised nodes.
- LineReader.Reader.ReadLine: nothing is claimed of the reader after its first failure.
- The text of the `--vmodule` flag (its parsed list is a parameter), and per-site default levels other than the global one.
- Values of 8-byte constants: the parser's shift on a promoted int is undefined for them, so that `ClassFile` and `RuntimePool` keep only their byte count and two-index layout; `ClassLayout` takes the values as given.
- Attributes, members and interfaces of a class file, and reference resolution.
- References in static fields: `NewJString` gives an arbitrary address, and the descriptor it is compared with is the program's own spelling.
- The bytecode interpreter, frames and objects; `DataObject` field access.
- demangle.cc, chunk_dss.c, chunk_mmap.c, ZipLib, class paths, logging and signal handling: system calls, streams or easy wrappers.
