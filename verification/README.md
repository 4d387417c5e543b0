# Storage allocator, object store and segment table

This project models three components of the repository and proves properties of them, in the
32-bit layout: a descriptor takes 4 bytes, a free segment (length and link) exactly one
quantum of 8 bytes, a block header 28 bytes.

**The allocator (MSA and MSA_GC).** `Msa.MsaGc` is one class for both: MSA is MSA_GC whose
switches stay as the constructor sets them, since growth is then never refused. A block,
`SegBlks.SegBlk`, keeps the words of its data area in an array that every operation reads and
writes as the source does: length words with flags, and the links of the free list. A ghost
map tells which segments these words hold. `Valid` says that

- the segments tile each data area exactly, no two free ones are adjacent, every descriptor
  word and every link is right, and the counter of free segments is exact;
- blocks are disjoint in memory and form one list that is linked both ways; the current block
  is one of them or null;
- `_nSeg`, `_currUse`, `_nBlk`, `_totUse` and `_markCount` are the number and bytes of the
  allocated segments, the number and bytes of the blocks and the number of marks, and
  `_currUse` does not exceed `_maxUse`;
- `_nAllocSeg` of a block is at least the number of its allocated segments.

Every operation keeps this, and so it holds in every reachable state. `live` is the set of
allocated segments of all blocks with lengths and flags; the contracts say what an operation
does to it and that the data of surviving segments stays. `AllBounded` (every
`_maxFreeSegLen` covers the free segments of its block) and `AllExact` (every `_nAllocSeg` is
exact) are kept by everything but a sweep. The layers below are `Descriptors` (words and
flags), `SegMaps` (tilings on values), `FreeLists` and `BlockWords` (what the writes do to the
words), `Views` and `BlockLists` (sums and lists over all blocks).

Two things a sweep does not keep are results of their own, in `SweepFindings`: the count of
allocated segments is lowered at most once per block, so that a block whose count was exact is
given back exactly if it was empty or one piece of garbage from end to end; and the cached
bound is rebuilt from 0 out of some of the free segments only. `SweepBounds` says which: a run
is a longest possible stretch of free segments and garbage, and becomes one free segment; it is
seen if it begins with a free segment and has garbage inside or above it, if it holds two
pieces of garbage, or if nothing was free and it begins with the lowest garbage. The new bound
is the length of the longest run seen, so that it is right if and only if one of the longest
runs of the block is seen or it has none. What the bound hides, `alloc` passes over.

What source/API/MSA/sweep.cpp:75-76 announces, that a block goes when nothing is left in it, is
thus not what the code does; the model follows the code.

`AllocFindings` has a third: `HasCurrent` (where there are blocks, one is current) is kept by
every operation but an allocation of almost 2^32 bytes, after which the next request does not
search the block there is; and requests above 2^32 - 12 bytes are rounded to a length of 8 or 0.

**Variable-length integers, archive, vector, segment table.** `Codec` has the buffer forms
packVLU/unpackVLU and packVLI/unpackVLI, each proved equal to a form given by arithmetic whose
round trips are proved; `Archives` the stream forms; `Vectors` the segmented vector with its
table of segments. `SegmentTables` is the table with its two views, hash chains linked both
ways and the vector by id, which always describe the same map `recs`. What the operations make
of that map is `Interning.Step`, about which the statements over all runs are proved, and
`TableRuns` carries them over to the table itself. `TableFormat` is the serial form.

**Object store.** `ObjStores` has clusters of slots with the two levels of lowest free index,
and the iterator. `view` is the table of object pointers; `StoreRuns` has the statements over all
runs.

Inputs that come from outside are parameters: the address that the system allocator returns
for a new block (`base`, 0 when it has none), and the pointer of a new object's storage. A raw
access to memory at an address is the method `Home`, which finds the block that holds it.

What the source demands of its callers is required: `free` gets NULL or a pointer into a block
whose word before it does not look allocated unless it belongs to a live segment that is not
collectable (it clears only one flag, source/API/MSA/free.cpp:84); `mark` likewise; requests are
not rounded to 0; the block length exceeds the header; sweep runs with
collection on; the object given back to the store exists; the hash value passed to addSegment
is that of the bytes, reference counts and ids stay in their 16 bits.

## Model

| member | source | states |
|---|---|---|
| `Msa.MsaGc.constructor` | source/API/MSA/MSA.cpp:70-81 | The new allocator is empty and valid, peak use and error code are 0, both switches are on, and the block length is the requested one rounded up by less than a quantum. |
| `Msa.MsaGc.SetEnabled` | source/API/MSA/MSA_GC.cpp:68-71 | Both switches take the value given; nothing else changes. |
| `Descriptors.AllocLenFits` | source/header/MSA.h:100-103 | The rounded length is a multiple of the quantum, holds request and descriptor with less than a quantum to spare, and this exactly for requests that do not wrap around in 32 bits. |
| `Descriptors.AllocLenZero` | source/header/MSA.h:100-103 | The rounded length is 0 for exactly eight requests, from 2^32 - 11 to 2^32 - 4; the three above are rounded to 8. |
| `Descriptors.WordInjective` | source/header/MSA.h:60-133 | A descriptor word determines length and flags: they never collide, since lengths are multiples of the quantum. |
| `Descriptors.FlagsOf` | source/API/MSA/mark.cpp:79-94 | Testing, setting and clearing a flag in the word of a segment reads and changes that flag of the segment and no other, and leaves the length. |
| `Descriptors.WordNumber` | source/header/MSA.h:60-133 | The word with the length in the upper 29 bits and the three flags below it is that number. |
| `Descriptors.AllocBits` | source/header/MSA.h:60-133 | On the bits of any word, testing, setting and clearing with the mask 1 reads and changes the lowest bit and no other. |
| `Descriptors.GcBits` | source/header/MSA.h:60-133 | With the mask 2, the second lowest. |
| `Descriptors.MarkBits` | source/header/MSA.h:60-133 | With the mask 4, the third lowest. |
| `Descriptors.FlagSums` | source/header/MSA.h:60-133 | The flag operations of the model do the same to the number. |
| `Msa.MsaGc.Alloc` | source/API/MSA/alloc.cpp:71-139 | A block is passed over if and only if its cached bound is below the rounded length or none of its free segments fits. With a current block, the first block not passed over in the order of the search serves the request, by its first segment that fits; the search begins at the head if fewer than 80 in 100 of the bytes in blocks are in use, else at the current block (where the 32-bit products wrap around, their rests are compared). If every block is passed over, and only then or without a current block, growth is asked for. Growth is refused exactly when it is switched off or the system has no memory, and the new block serves the request exactly when its length does not wrap around. Exactly the one segment is added to the live ones, or none with NULL; all data of live segments stays; current block, peak use, switches and error code are as the source sets them. So are bound and count of every block: the block that serves counts one more and has its bound set anew only where it had one free segment, the bound of a block whose free list was walked in vain is its longest free segment, and no other changes. For no bytes nothing is done. The current block is lost exactly when a first block's length wraps around. |
| `Msa.MsaGc.AllocRounded` | source/API/MSA/alloc.cpp:86-138 | The same for the rounded length. |
| `Msa.MsaGc.UnservedWhen` | source/API/MSA/alloc.cpp:86-110 | Where every cached bound is right and some block is current, growth is asked for if and only if no free segment of any block holds the request, wherever the current block is. |
| `Msa.MsaGc.ServeNew` | source/API/MSA/alloc.cpp:116-131 | The new block serves the request if and only if its data area is long enough. |
| `AllocFindings.WrapLosesCurrent` | source/API/MSA/alloc.cpp:110-117 | A request near 2^32 in a new allocator leaves a block, all of it free, and no current block. |
| `AllocFindings.FreeBlockIgnored` | source/API/MSA/alloc.cpp:86-114 | The next request, for 4 bytes, fails when the system has no memory, although all 32 bytes of that block are free: without a current block there is no search. |
| `AllocFindings.WrapTooShort` | source/API/MSA/alloc.cpp:83-84 | The rounding wraps around: a request for 2^32 - 1 bytes is served with a segment of one quantum. |
| `AllocFindings.HandedOutTwice` | source/API/MSA/alloc.cpp:147-201 | For a request that is rounded to 0 a block hands out its first free segment, which stays free with every word as it was; only the count of allocated segments changes, and is wrong. The next such request gets the same segment. |
| `Msa.MsaGc.Search` | source/API/MSA/alloc.cpp:86-106 | Forwards from the start block and then backwards before it, the first block that is not passed over serves the request; none does exactly when every block is passed over. The start is the head if 100 * currUse < 80 * totUse, else the current block, where no product wraps around. Bounds and counts of all blocks afterwards. |
| `Msa.MsaGc.SearchForwards` | source/API/MSA/alloc.cpp:95-98 | The blocks from the current one to the tail are tried in order; those before the one that serves are passed over, and that one is not. The bound of a block passed over is its longest free segment if its free list was walked; bounds and counts of the others are as before. |
| `Msa.MsaGc.SearchBackwards` | source/API/MSA/alloc.cpp:102-105 | The blocks before the current one are tried towards the head; those before the one that serves are passed over, and that one is not. Bounds and counts likewise. |
| `Msa.MsaGc.ChooseStart` | source/API/MSA/alloc.cpp:88-91 | Where no product wraps around, the search starts at the head if and only if 100 * currUse < 80 * totUse, else at the current block; in general if and only if 5 * currUse is less than 4 * totUse, both modulo 2^32. |
| `Msa.MsaGc.InefficientWhen` | source/API/MSA/alloc.cpp:68-69 | The efficiency test is a use below 80% where both products wrap around equally often, in particular never; otherwise their rests are compared. |
| `Msa.MsaGc.TryBlk` | source/API/MSA/alloc.cpp:96-98 | A block fails to serve the request if and only if its cached bound is too small or none of its free segments fits; otherwise it is first fit. Its bound and count are exactly as the source leaves them. |
| `Msa.SearchedOrder` | source/API/MSA/alloc.cpp:93-106 | Blocks whose bounds and counts are those that a search leaves were passed over in its order. |
| `SegBlks.SegBlk.FstFit` | source/API/MSA/alloc.cpp:147-201 | The least-addressed free segment that is long enough is allocated, split when longer; without one nothing changes but the bound, which is then the length of the longest free segment. With one the count rises by one and the bound is set anew only where it was the only free segment. The block stays well formed and all data stays. For the length 0 the first free segment is found and stays free. |
| `SegBlks.SegBlk.TakeWrites` | source/API/MSA/alloc.cpp:172-195 | The words written: descriptor, remnant with its link, and the predecessor's link or the head. |
| `SegBlks.SegBlk.SplitWrites` | source/API/MSA/alloc.cpp:172-189 | Descriptor, remnant and what follows in the free list, counter and bound, for an exact match and for a split. |
| `BlockWords.TakenWellFormed` | source/API/MSA/alloc.cpp:172-195 | Those words turn a well-formed block into the well-formed block with the first bytes of the segment carved off. |
| `SegMaps.CarveTiles` | source/API/MSA/alloc.cpp:179-190 | Splitting a free segment keeps the tiling of the data area and leaves no two free segments adjacent. |
| `Msa.MsaGc.AddBlkBase` | source/API/MSA/addBlk.cpp:68-134 | With memory, one block, all of it one free segment and long enough, is appended to the list; without, nothing changes and -1 is returned. List, sums and bounds stay right. |
| `Msa.MsaGc.AddBlk` | source/API/MSA/addBlk_GC.cpp:61-69 | Growth happens only with collection off or growth allowed, and switches collection on in the latter case. |
| `Descriptors.BlkLenForOk` | source/API/MSA/addBlk.cpp:74-79 | The new block's data area is a positive number of whole quanta, and holds the request unless request plus header wraps around. Without wrap-around the length is the least one from the default on that does; with it, the default. |
| `SegBlks.SegBlk.constructor` | source/API/MSA/addBlk.cpp:94-130 | The header and the first words make a well-formed block with one free segment, exact counts and a right bound. |
| `Msa.MsaGc.Append` | source/API/MSA/addBlk.cpp:100-107 | The doubly linked list with its ends becomes the list with the block at the tail. |
| `Msa.MsaGc.QueryBlk` | source/API/MSA/queryBlk.cpp:62-79 | A block is returned exactly when some block's data area holds the address, and then it does. |
| `Msa.MsaGc.Free` | source/API/MSA/free.cpp:62-162 | NULL is accepted; a word without the flag is an error and nothing changes; otherwise exactly the one segment leaves the live ones and all other data stays. Its block is released if and only if its count of allocated segments was 1, be it right or not, and then the segment was its last; else the count falls by one, and the bound grows to the free segment that the freed one is now in, if that is longer. Count and bound of every other block stay. With exact counts a block always goes with its last segment. The current block moves to the head only when it was released. Right bounds and exact counts stay so. |
| `SegBlks.SegBlk.Insert` | source/API/MSA/free.cpp:127-159 | In all four neighbour cases the segment joins the free list where its address belongs and merges with both free neighbours; the other segments stay. The bound is raised exactly to the length of the free segment it ends up in. |
| `SegBlks.SegBlk.FindPlace` | source/API/MSA/free.cpp:129-134 | The loop ends between the last free segment below and the first one above. |
| `SegBlks.SegBlk.JoinForward` | source/API/MSA/free.cpp:136-143 | The words of the merge with, or the link to, the following free segment. |
| `SegBlks.SegBlk.JoinBackward` | source/API/MSA/free.cpp:145-159 | The words of the merge into, or the link from, the preceding free segment; the new bound is the larger of the old one and the joined length. |
| `SegMaps.ReleasedTiles` | source/API/MSA/free.cpp:136-159 | Freeing with both merges keeps the tiling, leaves no two free segments adjacent, and takes exactly one segment from the allocated ones. |
| `BlockWords.FreedWellFormed` | source/API/MSA/free.cpp:136-159 | The words that freeing writes hold the new segments and their address-ordered list. |
| `Msa.MsaGc.Unlink` | source/API/MSA/free.cpp:108-120 | The list becomes the list without the block, ends included; the current block moves to the head if it was that one. |
| `Msa.MsaGc.Mark` | source/API/MSA/mark.cpp:65-100 | NULL and marked segments give 0, anything not collectable -1 without a change, and otherwise 1 and exactly that segment is marked; the mark count stays the number of marked segments, and the caches of the blocks are not touched. |
| `Msa.MsaGc.AllocGC` | source/API/MSA/allocGC.cpp:63-76 | As Alloc in every respect - first fit, order of the search, growth, current block, bounds and counts, the request for no bytes - but the new segment is collectable; all data of live segments stays. |
| `Msa.MsaGc.TagSince` | source/API/MSA/allocGC.cpp:66-68 | Setting the flag leaves all data that an allocation kept where it was. |
| `Msa.MsaGc.Tag` | source/API/MSA/allocGC.cpp:66-68 | Only the collectable flag of that segment changes. |
| `Msa.MsaGc.Sweep` | source/API/MSA/sweep.cpp:68-231 | The live segments afterwards are those of the unvisited blocks and, unmarked, those of the visited ones but the unmarked collectable ones; no mark is left anywhere, all surviving data stays, words, count and bound of unvisited blocks are untouched, the bytes in use fall by exactly what was collected, and collection is off. The blocks that stay keep their order. A visited block leaves exactly when its count comes to zero and the sweep does not stop at it; the bound of one that stays is the length of the longest run that the sweep saw. It stops at the first block from the tail where a block's worth is collected and no mark is left, and that block becomes current; otherwise the current block is the last one that the sweep made current, else the old one, or the head when that has left. |
| `Msa.MsaGc.SweepBlocks` | source/API/MSA/sweep.cpp:78-223 | The loop over the blocks survives the removal of the current one and terminates; it ends early exactly where it should, and leaves the blocks that stay in their order. |
| `Msa.MsaGc.SweepNext` | source/API/MSA/sweep.cpp:81-222 | One round: either the sweep ends here, exactly when it should, or it goes on with the block before. The list is the same, or without this one block. |
| `BlockLists.RemoveInOrder` | source/API/MSA/sweep.cpp:195-222 | Taking a block out of a list leaves the others in their order. |
| `Msa.MsaGc.Visit` | source/API/MSA/sweep.cpp:82-187 | One block: it is swept, the counters follow, and the end test is exactly whether enough is collected and no mark is left. |
| `Msa.MsaGc.Onwards` | source/API/MSA/sweep.cpp:189-222 | From a swept block to the one before it in the old list, whether or not the block is released. |
| `BlockLists.CurrentStep` | source/API/MSA/sweep.cpp:189-219 | One more block swept: the current block is then what the rule for the whole sweep says. |
| `BlockLists.MovesWhen` | source/API/MSA/sweep.cpp:189-194 | A block that stays becomes current if and only if something was collected in it or in the blocks behind it up to the next one that stays. |
| `Msa.MsaGc.Dismiss` | source/API/MSA/sweep.cpp:197-221 | A block whose count is zero leaves list and sums; it held no allocated segment. |
| `SegBlks.SegBlk.Sweep` | source/API/MSA/sweep.cpp:82-178 | For any marks the block stays well formed, with exactly the garbage gone and marks cleared; bytes, segments and marks are counted right; the count of allocated segments falls by one at most, and just when something was released and nothing was free. The new bound is the length of the longest run of free segments and garbage that the sweep sees, 0 if there is none; it is right if and only if one of the longest runs is seen, or there is no run. |
| `SegBlks.SegBlk.SweepWalk` | source/API/MSA/sweep.cpp:87-176 | The walk meets the end of the block exactly and terminates, although a merge moves it backwards. |
| `SegBlks.SegBlk.SweepStep` | source/API/MSA/sweep.cpp:88-174 | One segment: kept, unmarked or released; the next position lies further on and is again a segment. |
| `SegBlks.SegBlk.StepMarked` | source/API/MSA/sweep.cpp:90-97 | A marked segment loses its mark and nothing else. |
| `SegBlks.SegBlk.StepGarbage` | source/API/MSA/sweep.cpp:99-166 | A collectable segment without mark is released and counted, and the walk goes on from the free segment it ended up in. |
| `SegBlks.SegBlk.Advance` | source/API/MSA/sweep.cpp:126-131 | The two free-list pointers come to stand on both sides of the segment, and the maximum is raised to exactly the lengths of the free segments passed. |
| `SegBlks.SegBlk.ReleaseWrites` | source/API/MSA/sweep.cpp:133-165 | The words of the two merges are those that free writes, though in another order; the maximum is raised, to the joined length, exactly on a backward merge. |
| `SegBlks.SegBlk.ReleaseFirst` | source/API/MSA/sweep.cpp:114-124 | In a block without free segments the released one becomes the whole list. |
| `SegMaps.SweptIs` | source/API/MSA/sweep.cpp:88-103 | Of the segments, those stay that are not collectable or are marked, with length and flags but the mark. |
| `SegMaps.SweptStep` | source/API/MSA/sweep.cpp:88-174 | Dealing with one more segment takes the sweep of all segments below its address to the sweep of all below its end. |
| `SegMaps.SweptSkip` | source/API/MSA/sweep.cpp:148-174 | Nothing allocated lies between a released segment and the end of the free segment it merged into. |
| `Views.ProgressStep` | source/API/MSA/sweep.cpp:78-178 | Sweeping one more block extends what has been swept, collected and unmarked by exactly that block. |
| `Views.NoMarks` | source/API/MSA/sweep.cpp:227 | When the mark count is zero, no segment of any block is marked. |
| `Msa.MsaGc.Check` | source/API/MSA/check.cpp:56-64 | The allocator's own consistency check passes in every valid state. |
| `SegBlks.SegBlk.Check` | source/API/MSA/check.cpp:72-90 | No free segment of a valid block is shorter than a quantum. |
| `Msa.MsaGc.Store` | source/header/MSA.h:135-145 | A caller that writes a word inside the data of its own live segment changes that word only: the allocator stays valid and all data of other segments stays. |
| `SegMaps.TilingUnique` | source/API/MSA/free.cpp:136-159 | Tiling and coalescing leave no choice: the allocated segments of a block determine its free ones. |
| `SegBlks.SegBlk.FreeList` | source/API/MSA/alloc.cpp:155-170 | Following the links in the words of a block from its head visits exactly its free segments, in ascending order of address, as many as are counted. |
| `FreeLists.ChainIsList` | source/API/MSA/alloc.cpp:155-170 | Where every link names the next entry, following them lists exactly the entries, in ascending order. |
| `Msa.MsaGc.Located` | source/API/MSA/alloc.cpp:83-84 | Every live segment lies inside the data area of exactly one block. |
| `Msa.MsaGc.LiveLayout` | source/API/MSA/alloc.cpp:83-84 | Live segments are disjoint and whole numbers of quanta long. |
| `BlockLists.BooksSet` | source/API/MSA/alloc.cpp:129-131 | Number and bytes of segments stay the sums over all blocks when a segment is added or marked. |
| `BlockLists.BooksDrop` | source/API/MSA/free.cpp:93-94 | They stay so when a segment is freed. |
| `BlockLists.BooksRemove` | source/API/MSA/sweep.cpp:197-201 | Number and bytes of blocks stay right when an empty block goes. |
| `BlockLists.BooksSweep` | source/API/MSA/sweep.cpp:110-112 | All counters stay right when a block is swept. |
| `SweepFindings.LeavesWhen` | source/API/MSA/sweep.cpp:114-116 | Where the count was exact, a visited block is given back if and only if it was empty, or was one collectable unmarked segment from end to end. |
| `SweepFindings.CountExactWhen` | source/API/MSA/sweep.cpp:116 | The count of allocated segments stays exact over a sweep if and only if nothing was released, or one segment of a block that had none free. |
| `SweepFindings.SurplusStays` | source/API/MSA/sweep.cpp:114-189 | A count that exceeds the allocated segments does so by as much after every sweep, and the block is not given back. |
| `SweepBounds.RunsAre` | source/API/MSA/sweep.cpp:99-171 | The free segments that a sweep leaves are exactly the maximal runs of free segments and garbage before it. |
| `SweepBounds.ReleasedTop` | source/API/MSA/sweep.cpp:126-164 | Over a release the maximum stays the length of the longest free segment seen, although merges and later passes change which ones are. |
| `SweepBounds.BoundAfter` | source/API/MSA/sweep.cpp:85-178 | At the end of the walk it is the length of the longest run seen: one that begins with a free segment and has garbage inside or above it, that holds two pieces of garbage, or that begins with the lowest garbage where nothing was free. |
| `SweepBounds.BoundRightWhen` | source/API/MSA/sweep.cpp:178 | The new bound covers every free segment if and only if, before the sweep, there is no run or one of the longest is seen. |
| `SweepFindings.BoundRight` | source/API/MSA/sweep.cpp:178 | So for a block after its sweep. |
| `SweepFindings.IdleWrong` | source/API/MSA/sweep.cpp:85-178 | Without garbage in it, a block comes out of the sweep with a right bound if and only if it is full. |
| `SweepFindings.WrongWithGarbage` | source/API/MSA/sweep.cpp:126-164 | A block where garbage is released and the bound is wrong: garbage at its begin and its free rest behind an allocated segment. |
| `SweepFindings.SweepOne` | source/API/MSA/sweep.cpp:85-178 | One block with one segment, swept: without garbage the bound is 0 although the block has room; with its only segment collected the empty block stays and its count is wrong. |
| `SweepFindings.Overlooked` | source/API/MSA/alloc.cpp:95-114 | After such a sweep a request for 4 bytes fails, when the system has no memory, although the block has room for it. |
| `SweepFindings.Start` | source/API/MSA/alloc.cpp:110-139 | Such a block is reached by one allocation in a new allocator. |
| `Codec.FlipIsXor` | source/API/gen/packVLU.cpp:91-92 | The bit flip used in the model is exclusive or with a single bit. |
| `Codec.EncVLU` | source/API/gen/packVLU.cpp:79-95 | The form has the least length whose 7 bits a byte hold the value. |
| `Codec.NumberOfVLU` | source/API/gen/packVLU.cpp:79-95 | Read as a number, big end first, the form of one, two, three and four bytes is the value plus 0, 8000, C00000 and E0000000 in base 16. |
| `Codec.NumberReadVLU` | source/API/gen/unpackVLU.cpp:75-101 | Whatever the bytes, the decoder takes the value that they hold as such a number; it fails exactly when they end too early. |
| `Codec.LenVLU` | source/API/gen/packVLU.cpp:79-84 | The length is least: the value does not fit into a byte less. |
| `Codec.FormVLU` | source/API/gen/packVLU.cpp:76-92 | The three loops compute exactly the form of the value. |
| `Codec.PackVLU` | source/API/gen/packVLU.cpp:74-98 | The form is stored from the position on, and nothing else of the buffer changes. |
| `Codec.UnpackVLU` | source/API/gen/unpackVLU.cpp:70-104 | Value and next position are those that the form at the position has. |
| `Codec.Leading` | source/API/gen/unpackVLU.cpp:75-96 | The mask tests tell the length of the form and what the first byte contributes. |
| `Codec.RoundTripVLU` | source/API/gen/unpackVLU.cpp:75-101 | Every value below 2^28 is decoded from its form, whatever follows. |
| `Codec.ListRoundTripVLU` | source/API/gen/packVLU.cpp:79-97 | Values written back to back are read back in order with nothing left over. |
| `Codec.PrefixFree` | source/API/gen/packVLU.cpp:91-95 | No form is the beginning of another value's form. |
| `Codec.PackThenUnpackVLU` | source/API/gen/packVLU.cpp:74-98 | In a buffer, unpacking undoes packing. |
| `Codec.LenVLI` | source/API/gen/packVLI.cpp:83-87 | The length is least: the value is not in the range of a byte less. |
| `Codec.EncVLI` | source/API/gen/packVLI.cpp:83-99 | The form has that length. |
| `Codec.NumberOfVLI` | source/API/gen/packVLI.cpp:83-99 | Read as a number, big end first, the form is the value plus a constant for each length and sign. |
| `Codec.NumberReadVLI` | source/API/gen/unpackVLI.cpp:82-108 | Whatever the bytes, the decoder takes the value that they hold as such a number; it fails exactly when they end too early or begin no form. |
| `Codec.FormVLI` | source/API/gen/packVLI.cpp:79-96 | The three loops compute exactly the form of the value from its 32-bit two's complement. |
| `Codec.PackVLI` | source/API/gen/packVLI.cpp:78-102 | The form is stored from the position on, and nothing else of the buffer changes. |
| `Codec.UnpackVLI` | source/API/gen/unpackVLI.cpp:77-111 | Value and next position are those that the form at the position has; sign extension restores negative values. |
| `Codec.RoundTripVLI` | source/API/gen/unpackVLI.cpp:82-108 | Every value from -2^27 to 2^27 - 1 is decoded from its form: the complemented sign bits select exactly one branch. |
| `Codec.ListRoundTripVLI` | source/API/gen/packVLI.cpp:83-99 | Signed values written back to back are read back in order with nothing left over. |
| `Codec.NarrowVLI` | source/API/gen/packVLI.cpp:90-92 | The low bytes of the 32-bit word are those of the narrower two's complement. |
| `Archives.Archive.InsertVLU` | source/API/archive/archive.cpp:227-248 | The stream receives the same bytes that packVLU stores. |
| `Archives.Archive.ExtractVLU` | source/API/archive/archive.cpp:250-281 | What is read is what unpackVLU decodes, and exactly its bytes are consumed. |
| `Archives.Archive.PutUInt32` | source/API/archive/archive.cpp:147-157 | The four bytes go out little end first: byte j is the word divided by 256 to the j, modulo 256. |
| `Archives.Archive.GetUInt32` | source/API/archive/archive.cpp:159-168 | They are read back in that order: the word is the sum of the bytes read, byte j times 256 to the j. |
| `Archives.RoundTripUInt32` | source/API/archive/archive.cpp:147-168 | Every 32-bit word is read back from its bytes. |
| `Archives.Archive.PutBytes` | source/API/archive/archive.cpp:220-223 | The bytes are appended in order. |
| `Archives.Archive.GetBytes` | source/API/archive/archive.cpp:215-218 | The next bytes are read in order. |
| `Vectors.Vector.Get` | source/header/vector.h:54-59 | The cell at an index below the bound is read. |
| `Vectors.Vector.Put` | source/header/vector.h:60-85 | Afterwards the cell holds the value and every other earlier cell what it held; the vector grows by whole segments and no more than needed. |
| `Vectors.Vector.Resize` | source/header/segArray.h:55-109 | Growth by any number of segments keeps the old segments and what they hold. |
| `Vectors.Vector.NewTable` | source/header/segArray.h:61-79 | The new table holds the old segments first and then new ones, all distinct. |
| `Vectors.SplitInjective` | source/header/vector.h:54-59 | Different indices have different segment and offset. |
| `Vectors.SplitOnto` | source/header/vector.h:54-59 | Every segment and offset is that of an index. |
| `Vectors.SplitIs` | source/header/vector.h:54-59 | Segment and offset are quotient and remainder. |
| `Interning.RunBalanced` | source/API/segmentTable/add.cpp:74-105 | Over every run of adds and drops: no byte string is held twice, its reference count is its adds less its drops, and it is held exactly while that is positive. |
| `TableRuns.Replay` | source/API/segmentTable/add.cpp:74-105 | Every run of operations on a table, from an empty one on, leaves a valid table that holds a byte string exactly while its adds exceed its drops, with that count. |
| `TableRuns.Perform` | source/API/segmentTable/drop.cpp:61-81 | One operation on a table does to what it holds what it does on values. |
| `Interning.StepInterned` | source/API/segmentTable/add.cpp:74-105 | Every operation keeps: one id per byte string, its own hash value, a positive count. |
| `Interning.StepRef` | source/API/segmentTable/drop.cpp:61-81 | Every operation changes the count of a byte string by exactly what it is: +1, -1 or 0. |
| `Interning.StepExact` | source/API/segmentTable/drop.cpp:61-81 | What each operation makes of the table, entry by entry: counted once more, entered under the least unused id with its hash and count 1, counted once less, or taken out. |
| `Interning.HashNext` | source/API/gen/hashDJB2.cpp:65-70 | The hash of no bytes is 5381, and each byte makes it 33 times as large plus the byte, in 32 bits. |
| `Interning.IdOfUnique` | source/API/segmentTable/lookUp.cpp:71-78 | The id of a held byte string is unique. |
| `Interning.LowestUnique` | source/API/segmentTable/nextSegmentId.cpp:60-66 | There is one least unused id. |
| `SegmentTables.SegmentTable.constructor` | source/API/segmentTable/segmentTable.cpp:67-74 | The new table is empty and both views agree. |
| `SegmentTables.SegmentTable.LookUpEntry` | source/API/segmentTable/lookUp.cpp:80-89 | An entry is found exactly when the table holds the byte string, and it is that one. |
| `SegmentTables.SegmentTable.LookUp` | source/API/segmentTable/lookUp.cpp:71-78 | The id of the byte string, or NULL_SEGMENT_ID when it is not held. |
| `SegmentTables.SegmentTable.HashDJB2` | source/API/gen/hashDJB2.cpp:65-70 | The loop computes the hash of the byte string in 32 bits. |
| `SegmentTables.SegmentTable.Lock` | source/API/segmentTable/lockSegment.cpp:60-62 | The entry of an id, or null when the id is not in use, by range or by empty slot. |
| `SegmentTables.SegmentTable.AddSegment` | source/API/segmentTable/add.cpp:74-95 | A held byte string is counted once more; another gets the least unused id and count 1; for no bytes it fails. Chains and vector still describe the same map. |
| `SegmentTables.SegmentTable.AddNew` | source/API/segmentTable/add.cpp:82-94 | A byte string that is not held gets the least unused id. |
| `SegmentTables.SegmentTable.AddUse` | source/API/segmentTable/add.cpp:97-105 | An id in use is counted once more; another is an error and nothing changes. |
| `SegmentTables.SegmentTable.DropSegment` | source/API/segmentTable/drop.cpp:61-81 | The count falls by one, with the last use the entry leaves both views and its id is free again; an id not in use is an error and nothing changes. |
| `SegmentTables.SegmentTable.Unlink` | source/API/segmentTable/drop.cpp:68-73 | The chain becomes the chain without the entry, linked both ways; no other chain changes. |
| `SegmentTables.SegmentTable.Detach` | source/API/segmentTable/drop.cpp:68-77 | The entry leaves its chain and its slot; nothing else changes in either. |
| `SegmentTables.SegmentTable.RemoveEntry` | source/API/segmentTable/drop.cpp:67-79 | Both views lose exactly that entry. |
| `SegmentTables.SegmentTable.Link` | source/API/segmentTable/addEntry.cpp:77-86 | The entry becomes the head of its chain, linked both ways; no other chain changes. |
| `SegmentTables.SegmentTable.Attach` | source/API/segmentTable/addEntry.cpp:77-88 | The entry comes to its chain and its slot; nothing else changes in either. |
| `SegmentTables.SegmentTable.AddEntry` | source/API/segmentTable/addEntry.cpp:68-91 | Both views gain exactly that entry. |
| `SegmentTables.SegmentTable.NextSegment` | source/API/segmentTable/nextSegmentId.cpp:60-66 | The least unused id is returned, and everything below the new low mark is in use or about to be. |
| `SegmentTables.SegmentTable.Recount` | source/API/segmentTable/adjustRefCount.cpp:58-60 | Only the count of that entry changes. |
| `SegmentTables.SegmentTable.Store` | source/API/segmentTable/store.cpp:58-76 | The archive receives exactly the serial form of what the table holds, and the count check passes. |
| `SegmentTables.SegmentTable.WriteEntry` | source/API/segmentTable/store.cpp:65-70 | One entry in its serial form: id, length, bytes, the hash little end first, count. |
| `SegmentTables.SegmentTable.Load` | source/API/segmentTable/load.cpp:58-82 | From the serial form of any well-formed mapping a table that holds nothing, be it new or emptied by drops, becomes a table that holds just that mapping, and nothing more is read. |
| `SegmentTables.SegmentTable.LoadEntry` | source/API/segmentTable/load.cpp:61-81 | One more entry, the next by id, is added. |
| `SegmentTables.SegmentTable.AddLast` | source/API/segmentTable/load.cpp:75-80 | The entry is added and the next id is the one behind it, also when that lies below the old one. |
| `SegmentTables.SegmentTable.SkipTo` | source/API/segmentTable/load.cpp:63-66 | Ids not in use are filled in up to the one read. |
| `SegmentTables.SegmentTable.ReadRec` | source/API/segmentTable/load.cpp:67-73 | Length, bytes, hash value and count are read back as they were written. |
| `SegmentTables.StoreAndLoad` | source/API/segmentTable/load.cpp:58-82 | A table stored and loaded into an empty one holds the same bytes, hash values and counts under the same ids. |
| `SegmentTables.AddToBoth` | source/API/segmentTable/nextSegmentId.cpp:60-66 | After that, adding any byte string to both tables gives the same id in both, and they hold the same again, also when the top ids of the first had been dropped. |
| `TableFormat.FirstFrom` | source/API/segmentTable/store.cpp:62-64 | The serial form goes on with the least id not yet passed. |
| `TableFormat.MoreToCome` | source/API/segmentTable/load.cpp:61 | As long as the count is not reached there is another entry. |
| `TableFormat.SerialFields` | source/API/segmentTable/store.cpp:58-76 | The serial form, byte by byte: the number of entries, and for each by ascending id its id, length, bytes, the four bytes of the hash little end first, and count. |
| `ObjStores.OidUnpacks` | source/header/objStore.h:77-86 | Cluster and slot are read back from the id, whose remainder modulo 4 is the tag 1. |
| `ObjStores.OidBits` | source/header/objStore.h:62-86 | The id of the model is the word that the source puts together with shifts and the tag 1. |
| `ObjStores.FieldBits` | source/header/objStore.h:62-86 | A word of these fields is cluster * 65536 + slot * 4 + tag, and the source's masks and shifts give cluster and slot back. |
| `ObjStores.FieldsOf` | source/header/objStore.h:80-86 | So do the quotients of the model, for any word. |
| `ObjStores.Oid` | source/header/objStore.h:77-79 | No object has the null id. |
| `ObjStores.ObjStore.constructor` | source/API/objStore/objStore.cpp:64-68 | The new store is empty and valid. |
| `ObjStores.ObjStore.Alloc` | source/API/objStore/alloc.cpp:58-104 | The object gets the lexicographically least free place, or the first of a new cluster exactly when no place is free, and its id is cluster * 65536 + slot * 4 + 1; nothing else in the table changes; object count and its peak follow. The clusters are the old ones, and perhaps one new one behind them. |
| `ObjStores.ObjStore.TakeOld` | source/API/objStore/alloc.cpp:64-80 | In an existing cluster: counter and both minima are right afterwards. |
| `ObjStores.ObjStore.TakeNew` | source/API/objStore/alloc.cpp:81-92 | In a new cluster: counter and both minima are right afterwards, also with one slot a cluster. |
| `ObjStores.ObjStore.ScanSlots` | source/API/objStore/alloc.cpp:69-71 | The scan without bound stays inside the segment and finds the next free slot. |
| `ObjStores.ObjStore.ScanClusters` | source/API/objStore/alloc.cpp:74-79 | The scan finds the next cluster with a free slot, or -1 when there is none. |
| `ObjStores.ObjStore.AddCluster` | source/API/objStore/resizeClusterTable.cpp:61-88 | The clusters stay and one with all slots free is added. |
| `ObjStores.ObjStore.Vacate` | source/API/objStore/free.cpp:71-77 | One slot becomes free; counter and least free index of its cluster are right afterwards. |
| `ObjStores.ObjStore.Free` | source/API/objStore/free.cpp:57-82 | Exactly that place becomes free; counter and both minima are right afterwards, and the clusters are the same. |
| `ObjStores.ObjStore.Lock` | source/header/objStore.h:125-129 | The pointer stored at the place of the id, NULL for the null id. |
| `StoreRuns.StepObjects` | source/API/objStore/alloc.cpp:58-104 | An operation takes one place that was free or gives back one that was in use, and no other object moves. |
| `StoreRuns.FullOrNot` | source/API/objStore/alloc.cpp:64-81 | A least free place exists exactly when any place is free. |
| `StoreRuns.RunObjects` | source/API/objStore/free.cpp:57-82 | After every run there are as many objects as were taken and not given back. |
| `StoreRuns.Perform` | source/API/objStore/alloc.cpp:58-104 | One operation on a store does to its table what it does on values; the id is that of the least free place, or of the first of a new cluster. |
| `StoreRuns.Replay` | source/API/objStore/alloc.cpp:58-104 | Every run of operations on a store, from an empty one on, leaves a valid store with the table that the run leaves on values, and the right object count. |
| `ObjStores.Iterator.constructor` | source/API/objStore/iterator.cpp:57-59 | The iteration begins before the first object. |
| `ObjStores.Iterator.EndOfSequence` | source/API/objStore/iterator.cpp:61-63 | True exactly when no object is left to visit. |
| `ObjStores.Iterator.Next` | source/API/objStore/iterator.cpp:65-78 | The least object not visited, by its place in the id with the tag 1, or the null id when there is none. |
| `ObjStores.Enumerate` | source/API/objStore/iterator.cpp:61-78 | From a store left as it is, the iterator yields as many ids as there are objects, in the order of their places, and then says that it is at the end. |
| `ObjStores.EnumerationExact` | source/API/objStore/iterator.cpp:65-78 | That sequence holds exactly the ids of the objects, in ascending order, none twice. |
| `ObjStores.LiveFromHas` | source/API/objStore/iterator.cpp:65-78 | The enumeration lists exactly the places in use. |
| `ObjStores.LiveCount` | source/API/objStore/iterator.cpp:61-63 | It has as many members as the store counts objects. |

## Left out

- Msa.MsaGc.Alloc: requests from 2^32 - 11 to 2^32 - 4, which are rounded to 0. What they do to a block is AllocFindings.HandedOutTwice; the allocator's own count of segments would be too high as well, and nothing would be valid any more. Msa.MsaGc.AllocGC likewise. The clearing of new segments is compiled out (MSA_CLR_FLG is 0), and so is not there.
- Msa.MsaGc.Free: a collectable segment is not freed; the source clears only one of its flags (source/API/MSA/free.cpp:84), so that the length of the free segment would be read with the other one in it. The flag is cleared after the block has been looked up and not before; the two do not affect each other.
- Memory words are unbounded naturals that hold what is stored; sums over all blocks do not wrap around. The arithmetic on requests and the efficiency test wrap around at 32 bits as in the source.
- The allocation limit (source/API/MSA/addBlk.cpp:83-87): it compares without the block header and can give data areas that are no whole number of quanta. The limit is 0.
- The destructors, `_nGC_Segs` and `MSA::info`: diagnostics and release of everything.
- ObjStore::allocOID: it does not maintain the counters and indices that the allocator relies on.
- ObjStores.ObjStore.Alloc: does not model that the storage allocator fails (a null pointer): counters and indices have been advanced before it is noticed. The same holds for SegmentTable, where only byte strings of length 0, for which it gives no memory, are modelled.
- ObjStores.ObjStore.AddCluster: the cluster table is a sequence that is replaced, so that the release of the old table is not seen; the shrinking branch has no caller.
- Shrinking a segmented array and resizing it to the same number of segments: put only grows.
- SegmentTables.SegmentTable.Load: does not model loading into a table that holds something, or negative ids; a table emptied by drops is modelled.
- VLU and VLI forms of five bytes and more, 64-bit longs, unsigned plain chars: the decoders do not read them. A first byte from 120 to 135 begins no VLI form; for it the decoder's result is not defined.
- NameTable, OptionsParser, byteSwap, the other hash functions and tables, BidirNameMap: the same structures again, or small.
- Reading beyond the end of an archive.
- The virtual machine, compiler, streams and platform code: not part of this model.
