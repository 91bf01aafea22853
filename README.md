# GPUswap memory managers, channels and the mm_check replay

GPUswap extends the pscnv driver for NVIDIA GPUs so that buffer objects can
be swapped out of video memory. This project models, in Dafny, the parts of
the driver and its tooling that decide where things live:

- **`mm_check.rb`**, the debugging script that replays the memory manager's
  `MM:` kernel messages, records the page ranges each domain allocates, and
  reports ranges that intersect an existing allocation or that are freed
  without having been allocated (modules `MmRange`, `MmLog`, `MmCheck`).
- **`pscnv/pscnv_mm.c`**, the range allocator behind VRAM and virtual
  address spaces. Its red-black tree of nodes is modelled as the in-order
  sequence of nodes, and the `prev`/`next` chain of a fragmented allocation
  as two maps from node id to node id (modules `PscnvMmTree`, `PscnvMmChain`
  and the class `PscnvMm.Mm`).
- **`nouveau/nouveau_mem.c`**, the old nouveau block heap: a doubly linked
  list of blocks, each free or owned by a file. It is modelled as the
  sequence of blocks in list order (module `NouveauMem`, class `Heap`).
- **`drm/drm_sun_idr.c`**, the Solaris port of Linux's idr id allocator,
  built from sorted free-id ranges (module `SunIdr`, class `Idr`).
- **`pscnv/pscnv_ramht.c`**, the hash table of object handles of a channel,
  kept in an array of 32-bit words (module `Ramht`, class `Table`).
- **`pscnv/nv50_chan.c`**, the NV50 channel's instance memory: the bo size
  choice and the bump allocator for objects inside it (module `Nv50Chan`,
  class `Channel`).
- **`pscnv/pscnv_mem.c`**, buffer-object sizes, their split into chunks,
  32-bit reads and writes through the chunks, and the PRAMIN window (module
  `PscnvMem`, classes `Bo` and `Pramin`).
- **`pscnv/pscnv_chan.c`**, the channel state machine (pause and continue)
  and the channel-id table (module `PscnvChan`, classes `Chan` and
  `ChanTable`).

Shared pieces: `Util` (fixed-width wrap-around, alignment, powers of two),
`Bits` (`^`, `|`, `&` and `>>` on naturals) and `Text` (`printf`'s `%llx`,
`%04x` and `%llu`, Ruby's `to_i(16)`).

Fixed-width C arithmetic is modelled explicitly: `u32`/`u64` are subset
types and `Add32`, `Add64`, `Sub64` wrap. Where the source's wrap-around is
a bug, the model carries both the as-written definition and the corrected
one (see "## Findings"). The allocation failures of `split_block`,
`nouveau_mem_init_heap`, `idr_get_new_above` and `idr_remove` become
boolean parameters; those of `pscnv_mm.c` and `pscnv_mem.c` are left out
(see "## Left out"). Locks become a
`locked` field where the source gets the locking wrong, and are otherwise
left out.

Where a description of the system and its code differ, the model follows
the code:

- `Range#intersect?` is modelled as written, with its two branches. For
  non-empty ranges it agrees with the symmetric half-open rule
  (`MmRange.Intersect`). For an empty range it does not
  (`MmRange.IntersectEmptyRange`).
- `Array#delete` in `remove_range` removes every equal range, not just one
  (`MmCheck.WithoutCounts`).
- `dump_mm` sorts each domain's array in place (`MmCheck.Tracker.DumpMm`).

Two lines of `mm_check.rb` do not do what they evidently mean to (see
"## Findings"): `add_range` keeps walking an array that `dump_mm` re-sorts
under it, and the abort message of `remove_range` interpolates `$1`, which
is nil there. The code as written is modelled by `MmCheck.ReportsAsWritten`
and `MmCheck.AbortMessageAsWritten`. The replay of the log
(`MmCheck.AddSpec`, `MmCheck.RemoveSpec`, `MmCheck.Replay` and the class
`MmCheck.Tracker`) is the corrected script: `add_range` reports over the
list as it was when the call began, and the abort message names the
domain.

## Model

| member | source | states |
|---|---|---|
| MmRange.Intersect | mm_check.rb:14-20 | for well-formed half-open ranges, `intersect?` holds exactly when the two ranges share a page |
| MmRange.IntersectEmptyRange | mm_check.rb:14-20 | an empty range placed inside another is reported as intersecting it, although it shares no page |
| MmRange.ToS | mm_check.rb:22-24 | both ends are printed as lower-case hex that parses back to the end, separated by `-`; both fields are four digits when the ends are below 0x10000 |
| MmRange.SortedTail | mm_check.rb:26-28 | the tail of a list sorted by `<=>` (begin only) is sorted |
| MmRange.SortedCons | mm_check.rb:26-28 | a range whose begin is at most the head's extends a sorted list |
| MmRange.Insert | mm_check.rb:45 | inserting into a list sorted by begin keeps it sorted and adds one element |
| MmRange.InsertPermutes | mm_check.rb:45 | insertion adds exactly the new range to the multiset |
| MmRange.SortByBegin | mm_check.rb:45 | `sort!` yields a list sorted by begin that is a permutation of the input |
| MmRange.SortSorted | mm_check.rb:45 | sorting an already sorted list changes nothing |
| MmLog.Run | mm_check.rb:89-92 | a `\w+` or `\h+` group takes the longest run of its class |
| MmLog.MatchPrefix | mm_check.rb:89-92 | a successful anchored match captures, for each group, a string of that group's class |
| MmLog.Find | mm_check.rb:89-92 | a match of `=~` fills the pattern's groups with text of their classes; no match means no start position matches |
| MmLog.FirstMatch | mm_check.rb:89-92 | the leftmost position where the pattern matches: it matches there and at no position before |
| MmLog.FindLeftmost | mm_check.rb:89-92 | `=~` gives the match at that leftmost position, and nothing when there is none |
| MmLog.FindSkip | mm_check.rb:89-92 | positions where the pattern does not match are passed over |
| MmLog.FindSuffix | mm_check.rb:89-92 | searching a line from where a suffix begins is searching the suffix |
| MmLog.FindShift | mm_check.rb:89-92 | searching a line from the end of a prefix is searching the rest of the line |
| MmLog.MarkerSkip | mm_check.rb:89-92 | before a message that starts with `MM: [`, a prefix in which no `MM: [` starts does not change the match |
| MmLog.DmesgPrefix | pscnv/nouveau_drv.h:945-947 | the prefix dmesg and `NV_PRINTK` put before a message (timestamp, `[drm] pscnv <pci name>: `) holds no `MM: [` |
| MmLog.ClassesOfPatterns | mm_check.rb:89-92 | the model's alloc pattern yields a word and three hex fields (the script captures only domain, start and end; the size field is captured here as a device and ignored), the free pattern a word and two |
| MmLog.ParseLine | mm_check.rb:88-93 | a line is ignored exactly when neither pattern occurs in it; the free branch is taken only when the alloc pattern does not occur |
| MmLog.AllocFields | mm_check.rb:89 | the model's alloc captures are a domain word and three hex strings: size (not captured by the script), start and end |
| MmLog.FreeFields | mm_check.rb:91 | the free captures are a domain word and two hex strings |
| MmLog.MatchRendered | mm_check.rb:89-92 | a line built from the pattern's literals and well-separated captures matches, with exactly those captures |
| MmLog.AllocLineMatches | pscnv/pscnv_mm.c:415 | the driver's "Allocated size" message matches the alloc pattern with the domain and the three printed hex numbers |
| MmLog.ParseAllocLine | pscnv/pscnv_mm.c:415 | after any log prefix in which no `MM: [` starts, the script reads the driver's alloc message back as an allocation of pages start/4096 to end/4096 in that domain |
| MmLog.FreeLineMatches | pscnv/pscnv_mm.c:175 | the driver's "Freeing node" message matches the free pattern with the domain and both ends |
| MmLog.FreeLineNoAlloc | pscnv/pscnv_mm.c:175 | the alloc pattern occurs nowhere in a free message, so the free branch is taken |
| MmLog.ParseFreeLine | pscnv/pscnv_mm.c:175 | after any log prefix in which no `MM: [` starts, the script reads the driver's free message back as a free of pages start/4096 to end/4096 in that domain |
| MmCheck.JoinRanges | mm_check.rb:47 | `join(",  ")` of no ranges is empty, of one range is that range's `to_s` |
| MmCheck.SectionLinesAt | mm_check.rb:46-48 | each domain prints its header, its joined ranges and a blank line, in table order |
| MmCheck.MessageLines | mm_check.rb:43-50 | a conflict prints two lines ending with a blank one, a missing range one line, a dump the sections between two dashed lines |
| MmCheck.IndexOf | mm_check.rb:54-55 | the domain lookup finds the first entry with that name, and fails only when no entry has it |
| MmCheck.IndexOfSame | mm_check.rb:45 | tables with the same domains in the same order look up every name alike |
| MmCheck.SortAll | mm_check.rb:44-45 | `dump_mm` replaces each domain's list by its sorted copy and keeps the domains |
| MmCheck.SortAllKeeps | mm_check.rb:44-45 | after a dump each list is sorted and holds the same ranges as before |
| MmCheck.SortAllTwice | mm_check.rb:44-45 | dumping twice leaves the table as dumping once |
| MmCheck.DumpShows | mm_check.rb:42-51 | a dump shows every domain, each list sorted and a permutation of the live ranges; distinct domains stay distinct |
| MmCheck.HitsMembers | mm_check.rb:60-61 | a live range is reported exactly when it intersects the new range |
| MmCheck.Reports | mm_check.rb:62-64 | each hit produces its conflict message followed by a dump |
| MmCheck.Touch | mm_check.rb:55 | an unknown domain is created empty at the end of the table; a known one leaves the table unchanged |
| MmCheck.AddSpec | mm_check.rb:53-69 | adding never aborts and adds a domain only when it was unknown, keeping the order of the others |
| MmCheck.Without | mm_check.rb:78 | `Array#delete` shortens the list exactly when the range was in it |
| MmCheck.WithoutAbsent | mm_check.rb:78 | deleting a range that is not there changes nothing |
| MmCheck.WithoutCounts | mm_check.rb:78 | `Array#delete` removes every copy of the range and keeps every other range with its multiplicity |
| MmCheck.RemoveSpec | mm_check.rb:71-83 | removing aborts exactly when the domain is unknown, and never adds or reorders domains |
| MmCheck.AbortMessage | mm_check.rb:73 | the abort message (corrected) quotes the domain name |
| MmCheck.ConflictsOfReports | mm_check.rb:62-64 | the conflicts named in the reports are exactly the hits, in order |
| MmCheck.AddReports | mm_check.rb:53-69 | adding reports exactly the live ranges that intersect the new one, so every overlapping live range is reported |
| MmCheck.AddQuiet | mm_check.rb:53-69 | with no intersection nothing is printed and the range is appended to its domain |
| MmCheck.AddContents | mm_check.rb:68 | the domain's ranges grow by exactly the new range; every other domain keeps its ranges |
| MmCheck.AddKeepsDomains | mm_check.rb:55-68 | adding keeps the domains of the table after creating the new one |
| MmCheck.AddOther | mm_check.rb:68 | adding to one domain leaves every other domain's ranges unchanged |
| MmCheck.TouchOther | mm_check.rb:55 | creating a domain does not move any other domain |
| MmCheck.RemoveContents | mm_check.rb:76-82 | removing drops every copy of the range and keeps every other range; it is silent exactly when the range was live, otherwise it prints "not in domain" and a dump |
| MmCheck.RemoveUnknown | mm_check.rb:73 | removing from an unknown domain aborts with the table unchanged and nothing printed |
| MmCheck.StepDistinct | mm_check.rb:85-95 | one log line never makes two entries with the same domain |
| MmCheck.ReplayStops | mm_check.rb:73 | after an abort the remaining lines are not processed |
| MmCheck.ReplayDistinct | mm_check.rb:85-95 | replaying any log keeps the domains distinct |
| MmCheck.ReplayTwo | mm_check.rb:86-94 | two lines replay as the first line's effect followed by the second's, their output concatenated |
| MmCheck.AddFirst | mm_check.rb:53-69 | the first allocation creates its domain holding that range, silently |
| MmCheck.RemoveOnly | mm_check.rb:71-83 | freeing the only range of a domain empties it, silently |
| MmCheck.AddAgain | mm_check.rb:53-69 | allocating a range twice reports it once and keeps both copies |
| MmCheck.ReplayQuietThen | mm_check.rb:86-94 | a silent line followed by another replays as the second line on the new table |
| MmCheck.AllocThenFree | mm_check.rb:85-95 | an alloc message followed by the matching free leaves the domain empty and reports nothing |
| MmCheck.DoubleAlloc | mm_check.rb:85-95 | the same alloc message twice reports exactly one conflict, the range itself |
| MmCheck.PagesOfNode | mm_check.rb:90 | a node of at least one page gives a non-empty page range after `>> 12` |
| MmCheck.ReportsAsWritten | mm_check.rb:60-66 | the loop as written sorts the list it is iterating over when it reports, and reports at most one range per remaining position |
| MmCheck.ReportsAsWrittenCounterexample | mm_check.rb:60-66 | with live ranges [3,4), [5,6), [1,2) and new range [1,4), the loop as written reports [3,4) twice and never [1,2), which overlaps |
| MmCheck.ReportedTwice | mm_check.rb:60-66 | a first hit that the sort moves to position 1 is reported twice |
| MmCheck.ReportsAsWrittenHit | mm_check.rb:60-66 | a hit is reported and the rest of the loop runs over the sorted list |
| MmCheck.AbortMessageAsWritten | mm_check.rb:73 | as written the message interpolates `$1`, which is nil there, so it is the same 20 characters for every domain |
| MmCheck.AbortMessageNamesDomain | mm_check.rb:73 | the message as written cannot tell domains apart; the corrected one can |
| MmCheck.Tracker.constructor | mm_check.rb:40 | `$mm` starts empty |
| MmCheck.Tracker.DumpMm | mm_check.rb:42-51 | `dump_mm` sorts every list in place and prints the sorted table |
| MmCheck.Tracker.AddRange | mm_check.rb:53-69 | the new table and the printed messages are those of `AddSpec`, the corrected `add_range` that reports over the list as it was when the call began |
| MmCheck.Tracker.Delete | mm_check.rb:78 | the delete removes every copy of the range from that domain and says whether there was one |
| MmCheck.Tracker.RemoveRange | mm_check.rb:71-83 | the new table, the messages and the abort are those of `RemoveSpec`, with the corrected abort message |
| MmCheck.Tracker.ScanForErrors | mm_check.rb:85-95 | processing the lines in a loop gives the table, messages and abort of `Replay`, the corrected script |
| PscnvMmTree.RoundDown | pscnv/pscnv_mm.c:13-23 | a multiple of y at most x and within y of it |
| PscnvMmTree.RoundUp | pscnv/pscnv_mm.c:25-29 | a multiple of y at least x and within y of it |
| PscnvMmTree.RoundDownGreatest | pscnv/pscnv_mm.c:13-23 | no multiple of y between the rounded-down value and x is larger |
| PscnvMmTree.RoundUpLeast | pscnv/pscnv_mm.c:25-29 | no multiple of y at least x is smaller than the rounded-up value |
| PscnvMmTree.RoundUpAsWritten | pscnv/pscnv_mm.c:25-29 | the 64-bit rounding agrees with the unbounded one unless `x + y - 1` wraps |
| PscnvMmTree.RoundUpWraps | pscnv/pscnv_mm.c:25-29 | 2^64 - 0xfff bytes in 4 KiB pages rounds to 0 as written, while the true rounding is 2^64, over the size limit |
| PscnvMmTree.NodeCmp | pscnv/pscnv_mm.c:44-54 | nodes are ordered by sentinel, then by start |
| PscnvMmTree.NodeCmpOrder | pscnv/pscnv_mm.c:44-54 | `nodecmp` is antisymmetric and transitive, so the tree order is a total order |
| PscnvMmTree.GetFree | pscnv/pscnv_mm.c:141-160 | both ends of the usable part of a free node are aligned to the request's page size, and a non-empty part lies inside the node |
| PscnvMmTree.GetFreeLargest | pscnv/pscnv_mm.c:141-160 | that part is the largest aligned range inside the node |
| PscnvMmTree.FreedWf | pscnv/pscnv_mm.c:170-217 | freeing a node and merging it with free neighbours keeps the tree well formed (sorted, adjacent, no two free neighbours) |
| PscnvMmTree.FreedUsed | pscnv/pscnv_mm.c:170-217 | freeing a node removes exactly that node from the used ones |
| PscnvMmTree.FreedAlone | pscnv/pscnv_mm.c:170-217 | a node between two used nodes is simply retyped free |
| PscnvMmTree.FreedLinks | pscnv/pscnv_mm.c:176-182 | freeing a node unlinks it from its allocation's chain |
| PscnvMmTree.Unlink | pscnv/pscnv_mm.c:176-182 | the node's own `prev` and `next` are cleared, and so is the `prev` of the node its `next` named; every other link keeps its target |
| PscnvMmTree.Window | pscnv/pscnv_mm.c:317-323 | the search window of a node lies inside the node and inside the requested start and end |
| PscnvMmTree.FirstFitSpec | pscnv/pscnv_mm.c:301-351 | a front search returns the first node that fits, and none exactly when no node fits |
| PscnvMmTree.LastFitSpec | pscnv/pscnv_mm.c:301-351 | a back search returns the last node that fits, and none exactly when no node fits |
| PscnvMmTree.Fit | pscnv/pscnv_mm.c:301-351 | the search direction follows `PSCNV_MM_FROMBACK` |
| PscnvMmTree.Piece | pscnv/pscnv_mm.c:327-332 | the piece taken is at the front or the back of the window as asked, and at most the requested size |
| PscnvMmTree.PieceFits | pscnv/pscnv_mm.c:327-332 | the piece lies inside the window and is at least the minimum size |
| PscnvMmTree.PieceAligned | pscnv/pscnv_mm.c:327-332 | the piece's ends are aligned to the requested page size |
| PscnvMmTree.SplitWf | pscnv/pscnv_mm.c:353-370 | cutting a piece out of a free node keeps the tree well formed |
| PscnvMmTree.SplitUsed | pscnv/pscnv_mm.c:353-370 | the cut adds exactly the new piece to the used nodes |
| PscnvMmTree.SplitTiles | pscnv/pscnv_mm.c:353-370 | the pieces of the split tile the original node |
| PscnvMmTree.SplitByCuts | pscnv/pscnv_mm.c:353-370 | splitting off the left and right remainders one at a time gives the same tree as the split |
| PscnvMmTree.SplitRetyped | pscnv/pscnv_mm.c:348-370 | retyping the node before splitting gives the split with the requested type |
| PscnvMmTree.CutLeftFreed | pscnv/pscnv_mm.c:353-361 | splitting off the left part inserts a node and frees it, as the source does |
| PscnvMmTree.CutRightFreed | pscnv/pscnv_mm.c:363-370 | splitting off the right part inserts a node and frees it, as the source does |
| PscnvMmTree.LpInType | pscnv/pscnv_mm.c:317 | the gap type `flags & TMASK` keeps the large-page bit, so the page size of the request follows from it |
| PscnvMmTree.HolderUnique | pscnv/pscnv_mm.c:433-444 | in a well-formed tree at most one node holds an address |
| PscnvMmChain.ChainLinked | pscnv/pscnv_mm.c:418-425 | appending a piece links it after the previous one in both directions |
| PscnvMmChain.UndoDone | pscnv/pscnv_mm.c:405-412 | rolling back a failed fragmented allocation restores the used nodes and the links of before the call |
| PscnvMmChain.GrownEnd | pscnv/pscnv_mm.c:427-428 | clearing the last piece's `next` changes nothing, because it was never set |
| PscnvMmChain.GrownAllocation | pscnv/pscnv_mm.c:386-431 | a completed allocation is a chain of new used nodes linked in order |
| PscnvMmChain.FreedAll | pscnv/pscnv_mm.c:219-234 | following `next` from the head frees every node of the chain |
| PscnvMmChain.FreeUndoesAlloc | pscnv/pscnv_mm.c:219-234 | freeing a whole allocation restores the used nodes and links of before it was made |
| PscnvMmChain.TakingDone | pscnv/pscnv_mm.c:403-426 | when the loop ends, the pieces taken add up to the rounded size, and without FRAGOK there is exactly one, which fits |
| PscnvMm.Mm.constructor | pscnv/pscnv_mm.c:236-276 | a new allocator holds the two sentinels and one free node spanning start to end |
| PscnvMm.Mm.FreeNode | pscnv/pscnv_mm.c:170-217 | the node is freed and merged with its neighbours, and unlinked from its chain |
| PscnvMm.Mm.SplitNode | pscnv/pscnv_mm.c:334-370 | the free node is split into the requested piece and free remainders |
| PscnvMm.Mm.SplitOffLeft | pscnv/pscnv_mm.c:353-361 | the part left of s becomes a free node and the piece moves one place right when that part is not empty |
| PscnvMm.Mm.SplitOffRight | pscnv/pscnv_mm.c:363-370 | the part right of e becomes a free node |
| PscnvMm.Mm.FindFit | pscnv/pscnv_mm.c:301-351 | the search returns the node `Fit` chooses |
| PscnvMm.Mm.AllocSingle | pscnv/pscnv_mm.c:301-384 | it succeeds exactly when some node fits; the piece taken is new, used, of the requested type and within the size and address bounds; on -ENOMEM nothing changes |
| PscnvMm.Mm.Alloc | pscnv/pscnv_mm.c:386-431 | -EINVAL exactly when the rounded size exceeds 2^60; on failure nothing stays allocated; on success the chain covers exactly the rounded size with placed pieces; without FRAGOK it succeeds exactly when one node fits and gives one piece |
| PscnvMm.Mm.TakeAll | pscnv/pscnv_mm.c:403-430 | the allocation loop with its rollback: the same result as `Alloc` for a rounded size |
| PscnvMm.Mm.TakeLinked | pscnv/pscnv_mm.c:404-425 | one round takes a piece exactly when a node fits and links it behind the last one |
| PscnvMm.Mm.Rollback | pscnv/pscnv_mm.c:405-412 | walking back along `prev` frees every piece taken so far and restores the state of before the call |
| PscnvMm.Mm.Free | pscnv/pscnv_mm.c:219-234 | freeing an already free node changes nothing; otherwise every node of its chain is freed and unlinked |
| PscnvMm.Mm.FreeChain | pscnv/pscnv_mm.c:226-232 | the loop along `next` frees exactly the chain's nodes |
| PscnvMm.Mm.FindNode | pscnv/pscnv_mm.c:433-444 | the node found holds the address; none is found exactly when no node holds it |
| NouveauMem.SpliceCoalesced | nouveau/nouveau_mem.c:42-83 | replacing a block by pieces with no new free neighbours keeps the list coalesced |
| NouveauMem.MergeNextOk | nouveau/nouveau_mem.c:116-138 | merging a block with its successor keeps the list spanning the heap |
| NouveauMem.MergeNextOwned | nouveau/nouveau_mem.c:116-138 | merging two free blocks does not change the owned blocks |
| NouveauMem.Carve | nouveau/nouveau_mem.c:42-83 | the pieces tile the block; the owned piece is the requested range when no `kmalloc` fails, and keeps the rest of the block when one does |
| NouveauMem.CarveOk | nouveau/nouveau_mem.c:42-83 | the pieces tile the original block and only the middle one is owned |
| NouveauMem.CarveOwned | nouveau/nouveau_mem.c:42-83 | the owned blocks gain exactly the middle piece |
| NouveauMem.CarveKeepsOk | nouveau/nouveau_mem.c:42-83 | splitting a free block keeps the heap spanning its range and coalesced |
| NouveauMem.FirstHeadSpec | nouveau/nouveau_mem.c:104-111 | the front search returns the first free block with room at its aligned start, and none exactly when there is none |
| NouveauMem.LastTailSpec | nouveau/nouveau_mem.c:96-102 | the back search returns the last free block with room at its aligned end, and none exactly when there is none |
| NouveauMem.HeadStart | nouveau/nouveau_mem.c:105 | the head start is the block start rounded up to the alignment |
| NouveauMem.TailStart | nouveau/nouveau_mem.c:97 | the tail start is the block end minus the size rounded down to the alignment |
| NouveauMem.TailFitsWrap | nouveau/nouveau_mem.c:97-100 | a free block of 0x1000 bytes at 0 passes the 64-bit tail test for 0x2000 bytes, although it cannot hold them |
| NouveauMem.HeadFitsWrap | nouveau/nouveau_mem.c:105-108 | a free block of 0x1000 bytes at 0x1000 passes the 64-bit head test for 2^64 - 0x1000 bytes |
| NouveauMem.FitsInside | nouveau/nouveau_mem.c:96-111 | the unbounded tests only accept pieces inside the block |
| NouveauMem.FreedOk | nouveau/nouveau_mem.c:116-138 | freeing a block and merging it with free neighbours keeps the heap spanning its range and coalesced, and removes exactly that block from the owned ones |
| NouveauMem.ClearOk | nouveau/nouveau_mem.c:177-180 | clearing a file's blocks keeps the heap spanning its range and leaves no block owned by that file |
| NouveauMem.ClearOwned | nouveau/nouveau_mem.c:177-180 | the owned blocks lose exactly the file's blocks |
| NouveauMem.Heap.InitHeap | nouveau/nouveau_mem.c:142-165 | the heap holds one free block spanning the range, or -ENOMEM with nothing changed |
| NouveauMem.Heap.FindHead | nouveau/nouveau_mem.c:104-111 | the loop returns the first block passing the head test |
| NouveauMem.Heap.FindTail | nouveau/nouveau_mem.c:96-102 | the loop returns the last block passing the tail test |
| NouveauMem.Heap.SplitBlock | nouveau/nouveau_mem.c:42-83 | the block is replaced by `Carve`'s pieces and the owned piece is returned |
| NouveauMem.Heap.AllocBlock | nouveau/nouveau_mem.c:86-114 | no heap gives NULL; otherwise the first (or last, for tail) fitting free block is carved, NULL exactly when none fits, and the piece is aligned and of the requested size |
| NouveauMem.Heap.FreeBlock | nouveau/nouveau_mem.c:116-138 | the heap becomes `Freed`, and only that block stops being owned |
| NouveauMem.Heap.Release | nouveau/nouveau_mem.c:170-196 | the heap keeps its range and becomes `Coalesce` of the list with the file's blocks freed: the file owns nothing, the other owned blocks stay, no two free blocks are neighbours |
| NouveauMem.Heap.ClearFile | nouveau/nouveau_mem.c:177-180 | the first loop frees the file's blocks and nothing else |
| NouveauMem.Heap.CoalesceAll | nouveau/nouveau_mem.c:185-195 | the second loop turns the list into `Coalesce` of it, keeping the range and the owned blocks |
| NouveauMem.Heap.CoalesceRuns | nouveau/nouveau_mem.c:185-195 | the outer loop over the blocks gives `Coalesce` of the list |
| NouveauMem.Heap.MergeRun | nouveau/nouveau_mem.c:186-194 | the inner loop merges free successors into block p until the next one is not free, without changing what the list coalesces to |
| NouveauMem.CoalesceHead | nouveau/nouveau_mem.c:185-195 | the coalesced list starts with a block of the same start and owner |
| NouveauMem.CoalesceOk | nouveau/nouveau_mem.c:185-195 | coalescing keeps the list spanning the heap's range and the owned blocks, and leaves no two free neighbours |
| NouveauMem.CoalesceNoFile | nouveau/nouveau_mem.c:185-195 | coalescing gives no block to a file that had none |
| NouveauMem.Heap.Takedown | nouveau/nouveau_mem.c:342-357 | the heap is emptied and marked gone |
| SunIdr.NewRange | drm/drm_sun_idr.c:13-24 | a new range starts at the given id with no freed ids; it is full exactly when the start is at the top id |
| SunIdr.Ordered | drm/drm_sun_idr.c:54-99 | the ranges of the list are sorted and disjoint |
| SunIdr.CoverUnique | drm/drm_sun_idr.c:54-99 | at most one range covers an id |
| SunIdr.Take | drm/drm_sun_idr.c:115-136 | a freed id is reused first, then the next unused one; -1 exactly when the range is exhausted |
| SunIdr.TakeGood | drm/drm_sun_idr.c:115-136 | the id handed out is in the range and was not in use |
| SunIdr.TakeKeepsOk | drm/drm_sun_idr.c:115-136 | taking an id keeps the allocator's invariant, with the id then in use |
| SunIdr.SplitIds | drm/drm_sun_idr.c:80-95 | splitting the freed ids keeps those below the new start and moves the others, losing none |
| SunIdr.Split | drm/drm_sun_idr.c:54-99 | inserting a range splits its predecessor at the new start |
| SunIdr.SplitGood | drm/drm_sun_idr.c:54-99 | both halves of a split keep the range invariant |
| SunIdr.InsertKeepsOk | drm/drm_sun_idr.c:54-99 | inserting a range keeps the allocator's invariant |
| SunIdr.RemoveKeepsOk | drm/drm_sun_idr.c:214-240 | pushing a removed id onto its range's free list keeps the invariant |
| SunIdr.Idr.constructor | drm/drm_sun_idr.c:138-146 | a new idr has one range from 0 and no ids in use |
| SunIdr.Idr.Find | drm/drm_sun_idr.c:202-212 | the object of a used id, NULL for an unused one |
| SunIdr.Idr.Get | drm/drm_sun_idr.c:44-52 | the index of the range starting at the given id, -1 exactly when there is none |
| SunIdr.Idr.SplitFree | drm/drm_sun_idr.c:80-95 | the loop splits the freed ids as `SplitIds` states |
| SunIdr.Idr.LastBefore | drm/drm_sun_idr.c:61-62 | the last range starting before the new start |
| SunIdr.Idr.Insert | drm/drm_sun_idr.c:54-99 | a range starting at the id is inserted after its predecessor, which is split there; the invariant is kept |
| SunIdr.FirstAtOrAbove | drm/drm_sun_idr.c:61-62 | the walk stops at the first range starting at or above the id, every range before it starting below |
| SunIdr.FirstAtOrAboveIs | drm/drm_sun_idr.c:61-62 | in tiled ranges that stop is the one index with its predecessor below the id and itself (if any) at or above it |
| SunIdr.Placed | drm/drm_sun_idr.c:158-160 | the list and index `idr_get_new_above` searches from: the range starting at the id, found or split off its predecessor |
| SunIdr.FirstWithIdFrom | drm/drm_sun_idr.c:162-167 | the first range from k on that can give out an id, every range before it exhausted |
| SunIdr.Idr.RangeAt | drm/drm_sun_idr.c:158-160 | afterwards a range starts at the id, the ranges from it on are exactly those starting at or above it, and list and index are those of `Placed` |
| SunIdr.Idr.FirstWithId | drm/drm_sun_idr.c:162-167 | the loop returns `FirstWithIdFrom`: the first range at or after j that can give out an id |
| SunIdr.Idr.TakeFrom | drm/drm_sun_idr.c:162-181 | once the range at start is in place, the first range from it on with an id gives that id, which is at least start, was unused and is mapped to the object unless the node allocation fails; -1 and nothing changed when no range has one |
| SunIdr.Idr.GetNewAbove | drm/drm_sun_idr.c:148-181 | -EINVAL for a negative start; otherwise the ranges become `Placed`'s, the first range from the start with an id gives it (its most recently freed id, else its next unused one), that id is returned and mapped to the object on success and lost on -ENOMEM; -1 exactly when no range from the start has an id |
| SunIdr.Idr.Remove | drm/drm_sun_idr.c:214-240 | -EINVAL for an unused id; otherwise the id is no longer in use and is pushed onto its range's free list |
| SunIdr.Idr.Replace | drm/drm_sun_idr.c:249-262 | -EINVAL for an unused id; otherwise the old object is returned and the id maps to the new one |
| Ramht.FoldBelow | pscnv/pscnv_ramht.c:32-40 | the folded hash is below 2^bits |
| Ramht.HashFrom | pscnv/pscnv_ramht.c:32-40 | the loop xors the handle's `bits`-wide pieces from the counter's start down |
| Ramht.HashAsWritten | pscnv/pscnv_ramht.c:32-40 | with the counter starting at 0 the loop never runs and the hash is always 0 |
| Ramht.Hash | pscnv/pscnv_ramht.c:32-40 | the corrected hash folds all 32 bits of the handle and is a valid slot |
| Ramht.HashIgnoresHandle | pscnv/pscnv_ramht.c:35 | as written handles 0 and 1 hash alike; the corrected hash tells them apart |
| Ramht.FirstFreeSpec | pscnv/pscnv_ramht.c:48-59 | probing returns the first free slot in probe order from the hash, and none exactly when every slot is taken |
| Ramht.ProbeCovers | pscnv/pscnv_ramht.c:56-59 | linear probing with wrap-around visits every slot |
| Ramht.ProbeReturns | pscnv/pscnv_ramht.c:59 | the probe comes back to its start only after visiting every slot |
| Ramht.FullTable | pscnv/pscnv_ramht.c:60-62 | a full table gives no slot |
| Ramht.RoomFound | pscnv/pscnv_ramht.c:48-55 | any free slot means a slot is found |
| Ramht.Table.Probe | pscnv/pscnv_ramht.c:48-59 | the loop finds the slot `FirstFree` names |
| Ramht.EmptyTableSlots | pscnv/pscnv_ramht.c:42-63 | in an empty table of 2^9 slots handle 1 goes to slot 0 as written and to slot 1 with the folded hash |
| Ramht.Table.InsertAt | pscnv/pscnv_ramht.c:44-63 | -ENOMEM and nothing written when the table is full; otherwise handle and context are written in the first free slot probing from the given slot |
| Ramht.Table.InsertAsWritten | pscnv/pscnv_ramht.c:42-63 | as written the probe starts at slot 0 for every handle: the first free slot from 0 gets handle and context, -ENOMEM when the table is full |
| Ramht.Table.Insert | pscnv/pscnv_ramht.c:42-63 | corrected: -ENOMEM and nothing written when the table is full; otherwise handle and context are written in the first free slot from the folded hash |
| Nv50Chan.InstStart | pscnv/nv50_chan.c:33-45 | objects start after the page directory, 16-byte aligned |
| Nv50Chan.BoHoldsObjects | pscnv/nv50_chan.c:19-45 | every bo size leaves room after the page directory for the objects the channel needs |
| Nv50Chan.Round16 | pscnv/nv50_chan.c:101-102 | the size rounded up to a multiple of 16 |
| Nv50Chan.Round16AsWritten | pscnv/nv50_chan.c:101-102 | in 32 bits the rounding agrees for sizes up to 0xfffffff0 and gives 0 above |
| Nv50Chan.IobjAsWritten | pscnv/nv50_chan.c:86-112 | as written the result is 0 or the old position |
| Nv50Chan.IobjAsWrittenWraps | pscnv/nv50_chan.c:101-104 | a request of 0xfffff000 bytes at 0x4200 in a 64 KiB bo is granted and moves the position back to 0x3200 |
| Nv50Chan.IobjAgrees | pscnv/nv50_chan.c:86-112 | away from the wrap the code as written behaves as the unbounded bump allocator |
| Nv50Chan.DmaEnd | pscnv/nv50_chan.c:120 | the last byte of the object, `start + size - 1` |
| Nv50Chan.DmaWords | pscnv/nv50_chan.c:125-130 | six words, the first the type and the last two zero |
| Nv50Chan.DmaWordsDecode | pscnv/nv50_chan.c:125-130 | for 40-bit addresses, start and end can be read back from the words |
| Nv50Chan.Channel.constructor | pscnv/nv50_chan.c:8-45 | the bo has the chosen size and objects start after the page directory |
| Nv50Chan.Channel.IobjNew | pscnv/nv50_chan.c:86-112 | 0 and no change when the rounded object does not fit; otherwise the old position, advanced by the rounded size, and the object lies inside the bo |
| Nv50Chan.Channel.DmaobjNew | pscnv/nv50_chan.c:117-134 | 0 and nothing written when the object does not fit; otherwise its six words are written at the old position and the position advances by 0x20 |
| PscnvMem.Truncate | pscnv/pscnv_mem.c:52-62 | `snprintf` keeps a prefix of at most the buffer's capacity |
| PscnvMem.HumanReadable | pscnv/pscnv_mem.c:52-62 | the text fits the 16-byte buffer |
| PscnvMem.HumanReadableParses | pscnv/pscnv_mem.c:52-62 | the text ends in "MB", "kB" or " Byte" as the value is at least 1 MiB, at least 1 KiB, or smaller, and the number parses back to the value in that unit |
| PscnvMem.AllocSize | pscnv/pscnv_mem.c:203-212 | no size for 0 or 2^40 and above; otherwise the size rounded up to whole pages, or to large pages when asked, and still within the limit |
| PscnvMem.InitChunkSize | pscnv/pscnv_mem.c:133-139 | the chunk size is a multiple of the large page, 0 exactly when none was asked for |
| PscnvMem.NChunks | pscnv/pscnv_mem.c:214 | the fewest chunks of that size that cover the bo; one when chunking is off |
| PscnvMem.ChunkBounds | pscnv/pscnv_mem.c:64-76 | every chunk is non-empty, at most the chunk size, and ends inside the bo |
| PscnvMem.ChunksTile | pscnv/pscnv_mem.c:64-76 | the chunk sizes add up to the bo size |
| PscnvMem.OffsetInChunk | pscnv/pscnv_mem.c:79-86 | the chunk chosen for an offset exists and contains that offset |
| PscnvMem.InChunk | pscnv/pscnv_mem.c:530 | the offset relative to the chunk's start |
| PscnvMem.Bo.constructor | pscnv/pscnv_mem.c:216-242 | a new bo has its chunks numbered in order and none allocated |
| PscnvMem.Bo.Rv32 | pscnv/pscnv_mem.c:491-550 | a read through an allocated chunk returns the word; any other read returns the poison value |
| PscnvMem.Bo.Wv32 | pscnv/pscnv_mem.c:574-636 | a write through an allocated chunk updates exactly that word; any other write changes nothing |
| PscnvMem.MemAlloc | pscnv/pscnv_mem.c:191-242 | NULL exactly when the size is refused; otherwise a new bo of the rounded size with unallocated chunks |
| PscnvMem.WindowBase | pscnv/pscnv_mem.c:643 | the 64 KiB-aligned window base, below 2^44 |
| PscnvMem.WindowOffset | pscnv/pscnv_mem.c:644 | the offset inside the window |
| PscnvMem.WindowSplit | pscnv/pscnv_mem.c:643-644 | base plus offset is the address, taken modulo 2^44 as the two masks do |
| PscnvMem.Pramin.Place | pscnv/pscnv_mem.c:648-651 | the window register is written only when the base changes |
| PscnvMem.Pramin.Read | pscnv/pscnv_mem.c:639-655 | the read moves the window when needed and returns the VRAM word at the address |
| PscnvMem.Pramin.Write | pscnv/pscnv_mem.c:658-672 | the write moves the window when needed and changes exactly the VRAM word at the address |
| PscnvChan.StateStr | pscnv/pscnv_chan.c:41-54 | "UNKNOWN" exactly for values that are not a state |
| PscnvChan.StateNamesDistinct | pscnv/pscnv_chan.c:41-54 | every state has its own name |
| PscnvChan.Chan.Fail | pscnv/pscnv_chan.c:56-68 | the channel ends in FAILED, and a failed one is left alone |
| PscnvChan.Chan.Pause | pscnv/pscnv_chan.c:70-112 | -ENOSYS without a hook; -EALREADY and one more waiter when pausing or paused; -EINVAL and no change unless running; a running channel becomes PAUSING with the hook's result |
| PscnvChan.Chan.PauseDone | pscnv/pscnv_chan.c:114-134 | the PAUSING to PAUSED transition that `pscnv_chan_pause_wait` waits for |
| PscnvChan.Chan.Continue | pscnv/pscnv_chan.c:175-215 | -ENOSYS without a hook; -EINVAL unless paused; the last waiter resumes the channel, to RUNNING when the hook succeeds and FAILED otherwise |
| PscnvChan.FirstEmptyLowest | pscnv/pscnv_chan.c:238-245 | the free id chosen is the lowest in range, and none exactly when all are taken |
| PscnvChan.ChanTable.Lookup | pscnv/pscnv_chan.c:444-464 | ids 0 to 127 look in the channel table, -1 to -3 in the fake table, anything else gives NULL |
| PscnvChan.ChanTable.FindEmpty | pscnv/pscnv_chan.c:238-245 | the loop returns the lowest free id in range, -1 when there is none |
| PscnvChan.ChanTable.BindAsWritten | pscnv/pscnv_chan.c:221-256 | as written, binding the DMA channel twice returns -ENOSPC with the lock still held |
| PscnvChan.ChanTable.Bind | pscnv/pscnv_chan.c:221-256 | corrected: the lock is released on every path; the channel gets the DMA id, a fake id or the lowest free id, and is then found by lookup |
| PscnvChan.ChanTable.Unbind | pscnv/pscnv_chan.c:258-271 | the channel's slot is cleared and its id reset |
| PscnvChan.ChanTable.BindUnbindRestores | pscnv/pscnv_chan.c:221-271 | binding and then unbinding a channel restores both tables |
| Text.HexOf | pscnv/pscnv_mm.c:415 | `%llx` prints lower-case hex digits that `to_i(16)` reads back as the number |
| Text.Hex4 | mm_check.rb:23 | `%04x` prints at least four digits, exactly four below 0x10000, reading back as the number |
| Text.DecOf | pscnv/pscnv_mem.c:56-60 | `%llu` prints decimal digits that read back as the number |

## Left out

- The red-black tree of `pscnv_mm.c` is modelled as its in-order sequence.
  Balancing, the `maxgap` augmentation (`PSCNV_RB_AUGMENT`, `pscnv_mm_augup`) and the subtree pruning it enables are not modelled. The search visits nodes in order and finds the same node as the pruned search.
- `pscnv_mm_find_node` walks the tree by comparison; the model scans the sequence. Both return the node holding the address.
- Node pointers are node ids. `pscnv_mm_alloc` returns the head node; `Mm.Alloc` returns the whole chain.
- `Mm.Free` takes the allocation's chain as a ghost argument, to state which nodes it frees.
- The `kzalloc` failures inside `pscnv_mm_alloc_single` (335-345) and `pscnv_mm_init` are not modelled: the model's node allocation always succeeds.
- The debug output and consistency checks of `pscnv_mm.c` (`pscnv_mm_validate_node`, `pscnv_mm_dump`, `pscnv_mm_validate`, lines 58-139) are not modelled. Only the two message formats that `mm_check.rb` reads are modelled.
- The "non-contiguous" error branches of `pscnv_mm_free_node` (187-190, 201-204) only print. They are not modelled.
- `pscnv_mm_takedown` (278-299) is not modelled: it frees every node through a callback.
- The flag and type values (`PSCNV_MM_T1` = 1, `PSCNV_MM_LP` = 2, `PSCNV_MM_FRAGOK` = 4, `PSCNV_MM_FROMBACK` = 8, `PSCNV_MM_TYPE_USED0` = 0, `PSCNV_MM_TYPE_USED1` = 1, `PSCNV_MM_TYPE_FREE` = 2) are assumed. `pscnv_mm.h` is not part of this model.
- Of `nouveau_mem.c`, only the block heap is modelled: split, alloc, free, init, release and takedown. The VM binding helpers (`nv50_mem_vm_bind_linear`, `nv50_mem_vm_unbind`) and the memory-type detection and initialisation functions program hardware; they are not part of this model.
- `Heap.Release`: `Coalesce` fixes the list the release leaves; the model keeps no list pointers, so it does not capture which `mem_block` structures are freed by `kfree`.
- `Heap.AllocBlock`: the fit tests use unbounded arithmetic, not the 64-bit arithmetic of the source (see "## Findings").
- `Heap.AllocBlock`: alignment exponents of 31 and above are excluded, because `1 << align2` is an `int` shift, undefined from 31 on.
- `idr_for_each`, `idr_remove_all`, `idr_destroy`, `idr_pre_get` and `fr_destroy` of `drm_sun_idr.c` are not modelled. They iterate with callbacks, free memory or do nothing.
- The `KM_NOSLEEP` allocations of `idr_get_new_above` (171-173) and `idr_remove` (225-227) can fail; that is the `allocFails` parameter of `Idr.GetNewAbove` and `Idr.Remove`. `fr_new` allocates with `KM_SLEEP`, which does not fail.
- Locks (spinlocks, mutexes) are not modelled. The exception is `ChanTable`, where the missed unlock is the point.
- `SortByBegin`: Ruby's `sort!` is not stable, so the order of ranges with equal begin after a dump is not fixed by the script. The model keeps their input order; the contracts (sorted by begin, a permutation) state only what Ruby promises, but `DumpOf` and the replay depend on the order chosen.
- `ClassesOfPatterns`: the model's alloc pattern captures the size field, which the script's pattern (named groups, size `\h+` ungrouped) does not capture. `ParseLine` ignores that capture, so the events read are those of the script's `$1`, `$2`, `$3`.
- `mm_check.rb`'s `check_mm_debug`, its file and `dmesg` input, and the printing itself (31-38, 97-108) are not modelled. The script's output is modelled as a list of messages, and its input as a list of lines.
- `nv_rv32` and `nv_wv32` go through BAR1 mappings and the VRAM slow path for VRAM chunks. The model keeps one word array per bo. It does not model the VRAM paths, the BAR mapping or the warnings for wrong allocation types.
- `nv50_chan_new` is modelled only as far as the bo size and the first object position. The page-directory writes, the RAMHT and RAMFC setup and `nv50_chan_new_fifo` are not modelled.
- `Mm.Alloc`: rounds the size with the unbounded `RoundUp`, not the 64-bit `pscnv_roundup` of the source, so a size within a page of 2^64 is refused with -EINVAL rather than allocated as nothing (see "## Findings"; `RoundUpAsWritten` and `RoundUpWraps` model the 64-bit rounding).
- `Channel.IobjNew`: rounding and the bound test use unbounded arithmetic, not the 32-bit arithmetic of the source (see "## Findings").
- `pscnv_chan_pause_wait` (waiting with a timeout), `pscnv_chan_new`, the reference counting and `mmap` of `pscnv_chan.c` are not modelled.
- The engine hooks called by `pscnv_chan_pause` and `pscnv_chan_continue` are parameters: whether one exists and what it returns.
- `pscnv_mem_init`, `pscnv_mem_takedown`, `pscnv_mem_free`, `pscnv_chunk_free`, `pscnv_mem_alloc_and_map` and `pscnv_bo_map_bar1` are not modelled. They call into the VRAM and system-RAM back ends and the VM code, which are not part of this model.
- `PscnvMem.HumanReadableParses`: stated for values below 2^40, the sizes `pscnv_mem_alloc` accepts. From 10^13 MiB on, the 16-byte buffer cuts the unit short; `HumanReadable` models that cut, but no lemma states it.
- The `kzalloc` failure of `pscnv_mem_alloc` (216-220) is not modelled: `MemAlloc` returns NULL only for a refused size.
- `InitChunkSize`: requires a module parameter below 0x4000. From 0x4000 on, `pscnv_requested_chunk_size << 17` overflows `int`, which C leaves undefined, so the model states nothing for those values.
- `Bo.Rv32`: memory is a bo's array of 32-bit words, and an offset that is not a multiple of 4 reads the word holding it. The source reads 4 bytes at the byte offset, which can straddle two words.
- `Bo.Wv32`: as for `Bo.Rv32`, an offset that is not a multiple of 4 writes the word holding it, not 4 bytes at that byte offset.
- `Pramin`: VRAM is a map from address to word, and the window register is recorded as the list of values written to it.

## Findings

| source | as written | input that shows it | evidently intended | confidence | as-written member | corrected member |
|---|---|---|---|---|---|---|
| mm_check.rb:60-66 | `dump_mm` sorts `$mm[domain]` in place while `add_range` is iterating over that array | live ranges [3,4), [5,6), [1,2), new range [1,4): [3,4) is reported twice and [1,2) never | every live range that intersects the new one is reported once | not executed | MmCheck.ReportsAsWrittenCounterexample | MmCheck.AddReports |
| mm_check.rb:73 | the abort message interpolates `$1`, which is nil inside `remove_range` | any free of an unknown domain: the message is `unknown mm domain ""` | the message names the domain | not executed | MmCheck.AbortMessageAsWritten | MmCheck.AbortMessageNamesDomain |
| pscnv/pscnv_ramht.c:35 | the loop starts at `i = 0` with the condition `i > 0`, so it never runs and every handle hashes to 0; `pscnv_ramht_insert` then probes from slot 0 for every handle | handles 0 and 1 with 9 bits: both hash to slot 0; in an empty table handle 1 is stored in slot 0 | the loop starts at 32 and folds all 32 bits of the handle, and the probe starts at that slot | not executed | Ramht.HashIgnoresHandle, Ramht.Table.InsertAsWritten | Ramht.Hash, Ramht.Table.Insert |
| pscnv/nv50_chan.c:101-104 | rounding and the bound test are computed in `uint32_t` and wrap | instpos 0x4200, size 0xfffff000, bo 0x10000: granted at 0x4200, instpos moves back to 0x3200 | requests that do not fit in the bo are refused | not executed | Nv50Chan.IobjAsWrittenWraps | Nv50Chan.Channel.IobjNew |
| pscnv/pscnv_chan.c:229-232 | the early -ENOSPC return for an already bound DMA channel does not release `ch_lock` | binding the DMA channel while it is bound | every return path releases the lock | not executed | PscnvChan.ChanTable.BindAsWritten | PscnvChan.ChanTable.Bind |
| nouveau/nouveau_mem.c:97-100 | the tail fit test computes `end - size` in `uint64_t`, which wraps when the size exceeds the block's end | free block of 0x1000 bytes at 0, request of 0x2000 bytes: the test passes | a block smaller than the request is skipped | not executed | NouveauMem.TailFitsWrap | NouveauMem.Heap.AllocBlock |
| nouveau/nouveau_mem.c:105-108 | the head fit test computes `start + size` in `uint64_t`, which wraps for sizes near 2^64 | free block of 0x1000 bytes at 0x1000, request of 2^64 - 0x1000 bytes: the test passes | a block smaller than the request is skipped | not executed | NouveauMem.HeadFitsWrap | NouveauMem.Heap.AllocBlock |
| pscnv/pscnv_mm.c:25-29 | `pscnv_roundup` computes `x + y - 1` in `uint64_t`, which wraps for sizes within a page of 2^64 | size 2^64 - 0xfff with 4 KiB pages rounds to 0, passes the 2^60 limit, and `pscnv_mm_alloc` returns success with nothing allocated | the request is refused with -EINVAL | not executed | PscnvMmTree.RoundUpWraps | PscnvMm.Mm.Alloc |
