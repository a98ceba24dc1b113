# Verified models of four OSSS-UCX components

This project models four components of the OSSS-UCX OpenSHMEM library and proves what they
are for. They do not depend on each other.

**The boundary-tag allocator** (`osss-ucx/src/ptmalloc/ptmalloc.c`): one malloc space over one
fixed segment, as `create_mspace_with_base` makes it. Memory is an array of 64-bit words that the
operations change in place; addresses and chunk sizes are counted in 8-byte words, requests, the
ends of the segment and the size of top in bytes, because the segment may begin and end anywhere in
a word and `init_top` gives top whatever is left. A head word is 8 * size plus the in-use bits; a free chunk's foot, its list and tree links
and the bin headers of the `mstate` are words of the same array, so every word an operation
touches may be part of some client's block, and the proofs show that it is not. Ghost state of a
space: the tiling `g` of the segment by chunks, and the binned chunks `b` with their lists and
tries. The configuration: no locks, `FOOTERS` 0, 8-byte `size_t`, no memory from the system, so that
`sys_alloc` returns null and `sys_trim` and `release_unused_segments` only change counters.
All corruption and usage error branches are `assert false`: in a valid space no client that frees and
resizes live blocks only ever reaches one.

**The hash table** (`osss-ucx/src/klib/khash.h`): triangular probing over a power of two of
buckets, tombstones, two flag bits per bucket packed into 32-bit words, and the rehash in place in
which old and new table share the buckets. It is proved to be a finite map.

**The distributed lock** (`osss-ucx/src/api/lock.c`): a system of steps over any number of PEs, one
lock word, a node per PE, and puts that arrive in any order until a quiet. It is proved to be an
atomic test-and-set lock; its queue is never used.

**The pooled queue** (`osss-ucx/src/klib/klist.h`): a list that ends in a sentinel, whose nodes come
from a growable pool. It is proved to be a FIFO queue that owns each of its nodes once.

## Files

| file | what it holds |
|---|---|
| `Shift.dfy`, `TreeIndex.dfy`, `BinMap.dfy` | shifts, `compute_tree_index`, the 32-bit maps of non-empty bins |
| `SizeTrie.dfy`, `TrieSearch.dfy` | the bitwise tries of chunk sizes without memory; best-fit searches |
| `Words.dfy`, `Rings.dfy`, `Bins.dfy` | memory words, circular lists, bins and tries as words |
| `BinInsert.dfy`, `BinTrees.dfy`, `BinRemove.dfy`, `TreeWalks.dfy` | what word writes do to the bins, what words a walk reads |
| `Tiling.dfy`, `Heap.dfy` | the tiling of the segment; heads, feet and payloads |
| `Outcome.dfy` | malloc, free, realloc and memalign without memory: which chunk is chosen, and the chunks, bins, dv and top afterwards |
| `BinFacts.dfy`, `HeapFacts.dfy`, `Alignment.dfy` | steps of the operations; alignments |
| `Mspace.dfy` | the class with the allocator's fields and operations |
| `Session.dfy` | a client with pointer variables: every run |
| `RoundUp.dfy`, `Probing.dfy`, `BucketFlags.dfy`, `Tables.dfy`, `Rehashing.dfy`, `HashTable.dfy`, `TableRun.dfy` | the hash table, and every run of a client of it |
| `Lock.dfy` | the distributed lock |
| `Queue.dfy` | the pooled queue |

The operations on memory refine those of `Outcome.dfy`, which know only the chunks with their sizes
(`g`), the lists of the bins (`sz`, `lists`), dv, top, trim_check and the release counter: `Chosen` says which chunk
malloc takes, `AfterMalloc`, `AfterFree`, `Reallocated` and `AlignedOut` what is left. The contracts say that
`Mspaces.Mspace.Layout` afterwards is exactly that.

`Mspaces.Mspace.Valid` is the invariant that the authors wrote as debug code (lines 2920-3181): the
chunks from the first one on tile the segment up to top; each PINUSE bit is the CINUSE bit of the
chunk before; the foot of a free chunk is its size; no two free chunks touch, top included; each free
chunk is dv or in exactly one bin; each list and trie is linked as it should be; a bitmap bit is set
exactly if its bin holds a chunk.

## Results that differ from what one might expect

- The gcc/x86 form of `compute_tree_index` narrows to `unsigned int` and files a chunk in another bin
  than the portable form unless size >> 8 is below 2^32 or its low 32 bits are at least 0xC000
  (`TreeIndex.NarrowAgrees`, for every size).
- `internal_memalign` rounds an alignment up by doubling 16 until it is reached; this ends exactly for
  alignments up to 2^63, and runs for ever above (`Alignment.RoundingEnds`).
- `init_top` does not round the size of top down, so top's head reads as in use (`cinuse`) exactly if
  the segment ends 2 or 3 bytes past a multiple of four. `mspace_free` then does not see that the block
  behind the freed one is top: it clears top's PINUSE bit and bins the block in front of top
  (`Mspaces.Mspace.Free`). On a new space, `malloc` and `free` of one block bring back the space as created
  if and only if the segment ends 0 or 1 bytes past a multiple of four, or there was no room for the
  block (`Mspaces.Mspace.CreateMallocFree`, for every base, capacity and request); what is left behind fits no
  tiling (`Mspaces.Mspace.StrandedIsBroken`).
- `create_mspace_with_base` accepts every capacity above 1008 bytes, but a new space is valid if and only
  if the capacity is also larger than 1008 plus the bytes that aligning the base skips
  (`Mspaces.Mspace.CreateWithBase`). For the up to seven capacities in between the size of top is 0, and
  the first request gets null, or it wraps around to nearly 2^64, and then the first request is granted
  wherever the segment ends (`Mspaces.Mspace.FirstMalloc`).
- `kh_put` resizes a full table, but the resize makes no room if the table has 2^31 buckets and is at
  least half full, because `kroundup32` wraps to 0 (`HashTables.ResizeMakesRoom`, an if and only if).
- `lock.c` is called a rewrite of an MCS queue lock in its head comment. `set_lock` leaves its loop only when the word
  was reset, so no PE is ever chained (`DistributedLock.MutualExclusion`).
- The PE number in the lock word has 16 bits: a holder's `clear_lock` returns exactly if its number is
  below 2^15. A holder with a larger number gives the lock back and then waits for ever
  (`DistributedLock.ClearFinishes`, `DistributedLock.WaitsForEver`).

## Model

| member | source | states |
|---|---|---|
| TreeIndex.BranchFreeIsOfSize | osss-ucx/src/ptmalloc/ptmalloc.c:2609-2625 | the branch-free index computation is the one by the highest set bit, for every size |
| TreeIndex.NarrowAgrees | osss-ucx/src/ptmalloc/ptmalloc.c:2580-2592 | the x86 form agrees with the portable one exactly when size >> 8 fits 32 bits or its low half is at least 0xC000 |
| TreeIndex.Bounds | osss-ucx/src/ptmalloc/ptmalloc.c:2609-2640 | a size lies at or above the least size of its treebin and, but for the last bin, below that of the next |
| TreeIndex.Monotone | osss-ucx/src/ptmalloc/ptmalloc.c:2609-2640 | a size in a higher treebin is larger |
| TreeIndex.ProbeSign | osss-ucx/src/ptmalloc/ptmalloc.c:2633-2636 | while a walk doubles sizebits, its sign bit is the size bit of the level the walk is at |
| SizeTrie.PathBound | osss-ucx/src/ptmalloc/ptmalloc.c:2629-2631 | a path of a trie has exactly as many nodes as levels below its root, and fewer than bit_for_tree_index |
| BinMap.FirstMarkedIsLeast | osss-ucx/src/ptmalloc/ptmalloc.c:2679-2694 | least_bit and compute_bit2idx find the least marked bin |
| BinMap.MarkedAbove | osss-ucx/src/ptmalloc/ptmalloc.c:2696-2697 | left_bits masks exactly the bins above the given one |
| BinMap.MarkedAfterMark | osss-ucx/src/ptmalloc/ptmalloc.c:2646-2655 | marking a bin sets its mark and no other |
| BinMap.MarkedAfterClear | osss-ucx/src/ptmalloc/ptmalloc.c:2646-2655 | clearing a bin clears its mark and no other |
| BinMap.ExactBinMarked | osss-ucx/src/ptmalloc/ptmalloc.c:4886-4893 | a non-zero low pair of the shifted map means that the bin picked is marked, and a zero pair that neither is |
| BinMap.MarkedAboveShifted | osss-ucx/src/ptmalloc/ptmalloc.c:4907-4909 | shifting the map down and up and masking leaves exactly the marked bins above idx |
| SizeTrie.Unique | osss-ucx/src/ptmalloc/ptmalloc.c:3002-3050 | a size that belongs below a node and is in the tries has one place |
| SizeTrie.Descend | osss-ucx/src/ptmalloc/ptmalloc.c:3002-3050 | a size in a subtree is below the child that its next bit picks |
| SizeTrie.AddRootOk | osss-ucx/src/ptmalloc/ptmalloc.c:3346-3351 | the first size of an empty treebin keeps the tries valid |
| SizeTrie.AddLeafOk | osss-ucx/src/ptmalloc/ptmalloc.c:3352-3366 | a new size hung where the walk along its bits ends keeps the tries valid |
| SizeTrie.SubstituteOk | osss-ucx/src/ptmalloc/ptmalloc.c:3421-3471 | replacing a node by a leaf of its subtree, or cutting off a leaf, keeps the tries valid |
| TrieSearch.Prefers | osss-ucx/src/ptmalloc/ptmalloc.c:4035-4050 | with rsize started at -nb, the wrapped comparison takes a chunk exactly if it is big enough and smaller than the best so far |
| TrieSearch.FoundInOwnBin | osss-ucx/src/ptmalloc/ptmalloc.c:4040-4085 | a fit found in the bin of nb is a smallest one of all bins |
| TrieSearch.FoundInLaterBin | osss-ucx/src/ptmalloc/ptmalloc.c:4069-4085 | a fit found in the next marked bin, after none in the own bin, is a smallest one of all |
| TrieSearch.FoundNowhere | osss-ucx/src/ptmalloc/ptmalloc.c:4069-4077 | no fit in the own bin and no marked bin above: nothing fits |
| TrieSearch.FoundInFirstBin | osss-ucx/src/ptmalloc/ptmalloc.c:4106-4123 | for a small request the least chunk of the first marked bin is a smallest one of all |
| Rings.LinkedInsert | osss-ucx/src/ptmalloc/ptmalloc.c:3280-3283 | the four link writes of an insertion make the circular list with the chunk in second place |
| Rings.LinkedRemove | osss-ucx/src/ptmalloc/ptmalloc.c:3298-3299 | the two link writes of a removal make the circular list without the chunk |
| BinInsert.OkChained | osss-ucx/src/ptmalloc/ptmalloc.c:3268-3284 | linking a chunk into the list of its size keeps all bins valid and adds exactly that chunk |
| BinInsert.OkNewRoot | osss-ucx/src/ptmalloc/ptmalloc.c:3346-3351 | the words of a new root keep all bins valid and add exactly that chunk |
| BinInsert.OkNewLeaf | osss-ucx/src/ptmalloc/ptmalloc.c:3352-3366 | the words of a new leaf keep all bins valid and add exactly that chunk |
| BinRemove.OkUnchained | osss-ucx/src/ptmalloc/ptmalloc.c:3287-3304 | unlinking a chunk that others of its size stay with keeps all bins valid and removes exactly that chunk |
| BinRemove.OkReplaced | osss-ucx/src/ptmalloc/ptmalloc.c:3407-3476 | a tree node whose place is taken by the next chunk of its size leaves all bins valid |
| BinRemove.OkCutLeaf | osss-ucx/src/ptmalloc/ptmalloc.c:3421-3476 | a leaf cut off leaves all bins valid |
| BinRemove.OkPromoted | osss-ucx/src/ptmalloc/ptmalloc.c:3421-3476 | a node whose place is taken by a leaf from below leaves all bins valid |
| Words.RequestWords | osss-ucx/src/ptmalloc/ptmalloc.c:1970-1990 | a padded request is at least the bytes and their overhead, less than 8 bytes more unless minimal, and small exactly up to MAX_SMALL_REQUEST |
| Words.OrPinuse | osss-ucx/src/ptmalloc/ptmalloc.c:2774-2776 | setting PINUSE leaves size and CINUSE alone, whatever the word was |
| Words.AndNotPinuse | osss-ucx/src/ptmalloc/ptmalloc.c:2040-2042 | clearing PINUSE leaves size and CINUSE alone |
| Tiling.FreeBefore | osss-ucx/src/ptmalloc/ptmalloc.c:1825-1845 | a clear PINUSE bit means that prev_foot is the size of a free chunk that ends here, with no flag bit set |
| Tiling.TiledMerged | osss-ucx/src/ptmalloc/ptmalloc.c:5004-5064 | a freed chunk and its free neighbours made one chunk: the tiling is kept and no two free chunks touch |
| Tiling.LiveMerged | osss-ucx/src/ptmalloc/ptmalloc.c:5004-5064 | the merge ends the life of exactly the freed chunk |
| Tiling.TiledSplit | osss-ucx/src/ptmalloc/ptmalloc.c:4914-4923 | a chunk cut in two parts of at least minimal size keeps the tiling |
| Tiling.NothingUsed | osss-ucx/src/ptmalloc/ptmalloc.c:2965-2985 | a tiling without a chunk in use has no chunk at all: all is top |
| Heap.UsedWhole | osss-ucx/src/ptmalloc/ptmalloc.c:2779-2781 | set_inuse_and_pinuse on a free chunk keeps heads and feet right and touches no other block's payload |
| Heap.UsedFirstPart | osss-ucx/src/ptmalloc/ptmalloc.c:4918-4922 | the heads and the foot of a split free chunk keep the heap right and touch no other block's payload |
| Heap.UsedFromTop | osss-ucx/src/ptmalloc/ptmalloc.c:4965-4974 | a chunk cut off top keeps the heap right and touches no block's payload |
| Heap.FreedWhole | osss-ucx/src/ptmalloc/ptmalloc.c:2037-2042 | head, foot and next PINUSE bit of a merged free chunk keep the heap right; the foot goes into no live payload |
| Heap.FreedToTop | osss-ucx/src/ptmalloc/ptmalloc.c:5034-5037 | top grown downwards over the freed words keeps the heap right |
| Heap.CutUsed | osss-ucx/src/ptmalloc/ptmalloc.c:2774-2776 | set_inuse on both parts of a cut block keeps the heap right and every payload word of both parts |
| Heap.GrownUsed | osss-ucx/src/ptmalloc/ptmalloc.c:4175-4185 | the last block grown into top keeps the heap right and its own words |
| Heap.HeapFrame | osss-ucx/src/ptmalloc/ptmalloc.c:3268-3476 | no bin operation writes a head, a foot or a word of a live payload |
| BinFacts.ExactIsTightest | osss-ucx/src/ptmalloc/ptmalloc.c:4889-4899 | a chunk of the exact bin is a tightest fit of all binned chunks |
| BinFacts.NextIsTightest | osss-ucx/src/ptmalloc/ptmalloc.c:4903-4913 | a chunk of the next non-empty small bin is a tightest fit of all binned chunks |
| BinFacts.TreeIsTightest | osss-ucx/src/ptmalloc/ptmalloc.c:4106-4137 | a best fit of the tries is a tightest fit of all binned chunks when no small bin serves |
| BinFacts.FitOrNone | osss-ucx/src/ptmalloc/ptmalloc.c:4087-4088 | the wrapped comparison with dv takes the tree chunk exactly if dv does not fit or is larger |
| HeapFacts.PayloadWritten | osss-ucx/src/ptmalloc/ptmalloc.c:1825-1845 | a client that writes its own payload, the next chunk's prev_foot word included, keeps the space valid and all other payloads |
| HeapFacts.BlockMoved | osss-ucx/src/ptmalloc/ptmalloc.c:4203-4208 | malloc, copy and free together replace one live block by one with the same words |
| Mspaces.Mspace.InsertSmallChunk | osss-ucx/src/ptmalloc/ptmalloc.c:3268-3284 | the bins stay valid and hold exactly one chunk more; only bin words and the chunk are written |
| Mspaces.Mspace.UnlinkSmallChunk | osss-ucx/src/ptmalloc/ptmalloc.c:3287-3304 | the bins stay valid and hold exactly that chunk less; its list is the old one without it |
| Mspaces.Mspace.UnlinkFirstSmallChunk | osss-ucx/src/ptmalloc/ptmalloc.c:3307-3321 | the first chunk of the bin, and no other, is taken out of its list, the bins stay valid |
| Mspaces.Mspace.ReplaceDv | osss-ucx/src/ptmalloc/ptmalloc.c:3325-3334 | the old dv, if any, is binned and nothing else is, the new one is dv, the space is valid |
| Mspaces.Mspace.InsertLargeChunk | osss-ucx/src/ptmalloc/ptmalloc.c:3339-3388 | for any size of at least 256 bytes the bins stay valid and hold exactly one chunk more, behind the first of its list |
| Mspaces.Mspace.FindPlace | osss-ucx/src/ptmalloc/ptmalloc.c:3353-3360 | the walk ends at the node of the size, or at the one null child word where the size belongs |
| Mspaces.Mspace.UnlinkLargeChunk | osss-ucx/src/ptmalloc/ptmalloc.c:3407-3476 | chained, leaf or inner node: the bins stay valid and hold exactly that chunk less; its list is the old one without it |
| Mspaces.Mspace.FindLeaf | osss-ucx/src/ptmalloc/ptmalloc.c:3423-3429 | the walk ends at a leaf below the node, and knows the word it hangs from |
| Mspaces.Mspace.WalkPath | osss-ucx/src/ptmalloc/ptmalloc.c:4040-4067 | what the walk along the bits leaves unseen is no better, or in the subtree it returns |
| Mspaces.Mspace.WalkLeftmost | osss-ucx/src/ptmalloc/ptmalloc.c:4078-4085 | the leftmost walk ends with a smallest fit of the bin |
| Mspaces.Mspace.BestLarge | osss-ucx/src/ptmalloc/ptmalloc.c:4033-4085 | the chunk found is a smallest one of at least nb among all treebins, null exactly if there is none |
| Mspaces.Mspace.TmallocLarge | osss-ucx/src/ptmalloc/ptmalloc.c:4033-4103 | the block is cut from a smallest tree chunk that fits and is tighter than dv, the first of its size, and the rest is binned; null only if dv fits at least as tightly as every tree chunk, or none fits |
| Mspaces.Mspace.TmallocSmall | osss-ucx/src/ptmalloc/ptmalloc.c:4106-4142 | the block is cut from a smallest tree chunk, the first of its size; the rest becomes dv and the old dv is binned |
| Mspaces.Mspace.MallocDv | osss-ucx/src/ptmalloc/ptmalloc.c:4945-4963 | the block is the front of dv; a rest of less than a minimal chunk goes with it, a larger one is dv; the bins stay as they are |
| Mspaces.Mspace.MallocTop | osss-ucx/src/ptmalloc/ptmalloc.c:4965-4975 | the block is the front of top, which begins behind it and ends where it ended |
| Mspaces.Mspace.MallocNext | osss-ucx/src/ptmalloc/ptmalloc.c:4903-4927 | the block is the front of the first chunk of the next non-empty small bin; the rest, if a chunk, becomes dv and the old dv is binned |
| Mspaces.Mspace.Malloc | osss-ucx/src/ptmalloc/ptmalloc.c:4873-4985 | null exactly if the request is too big or neither top nor any free chunk can serve it, and then no field and no word changes; else the block is at the one place malloc takes it from: a small bin of its size or the next, before dv is looked at; else dv if it is big enough for a small request, or no larger than the best binned fit for a larger one; else a smallest binned fit; top only if no free chunk fits; chunks, lists of the bins, dv and top afterwards are exactly those of that choice, and all other payloads are untouched |
| Outcomes.OneChoice | osss-ucx/src/ptmalloc/ptmalloc.c:4873-4985 | the choice is unique: the block malloc returns, and the space it leaves, are functions of the space before; among binned chunks of one size it is the first of its list |
| Outcomes.PutThenTaken | osss-ucx/src/ptmalloc/ptmalloc.c:3268-3321 | a chunk put in a bin and taken out again leaves the lists as they were; of a small size the chunk put in last is taken first |
| Mspaces.Mspace.Free | osss-ucx/src/ptmalloc/ptmalloc.c:4987-5086 | exactly that block is no longer live, no other payload is touched, the space stays valid; the block and its free neighbours are the bottom of top if the block ends there, the new dv if dv is one of them, and else one binned chunk; the lists of the bins, dv, top, trim_check and the release counter are exactly as that leaves them; where top reads as in use and the block ends at it, top is as before, its PINUSE bit is clear and a free chunk stands in front of it |
| Mspaces.Mspace.FreeBackward | osss-ucx/src/ptmalloc/ptmalloc.c:5004-5030 | merging with the free chunk before, in a bin or dv, for either way that top may read, with exactly the space that free leaves |
| Mspaces.Mspace.FreeForward | osss-ucx/src/ptmalloc/ptmalloc.c:5032-5080 | joined to top, merged with dv or with a binned chunk behind, or binned as it is: exactly one of these, with every field and the binned chunks stated |
| Mspaces.Mspace.FreeIntoTop | osss-ucx/src/ptmalloc/ptmalloc.c:5034-5045 | top is the freed words and the old top; dv is cleared if it was part of them; afterwards top is never larger than trim_check, so that the next free does not ask for a trim again unless top grows |
| Mspaces.Mspace.FreeIntoDv | osss-ucx/src/ptmalloc/ptmalloc.c:5046-5051 | the freed words and dv behind them are the new dv; no chunk is binned or taken out of a bin |
| Mspaces.Mspace.FreeWithNext | osss-ucx/src/ptmalloc/ptmalloc.c:5052-5061 | the binned chunk behind is merged too; dv grows if it was the chunk before, and else exactly the merged chunk is binned |
| Mspaces.Mspace.BinFreed | osss-ucx/src/ptmalloc/ptmalloc.c:5066-5080 | exactly the merged chunk is binned, in its place in the list of its size; a large one counts down to the next release check |
| Mspaces.Mspace.InternalRealloc | osss-ucx/src/ptmalloc/ptmalloc.c:4146-4213 | null exactly if the request is too big or cannot be met in place, out of top or by a new block, and then no field and no word changes; else the block holds the old words as far as old block and request reach; it stays where it is exactly if it is big enough, and then all beyond the request is freed if it makes a chunk, or if top behind it is, and then it has exactly the size asked for; else it is where malloc puts it and the old block is freed |
| Mspaces.Mspace.Realloc | osss-ucx/src/ptmalloc/ptmalloc.c:5108-5130 | realloc of null is malloc, with its choice; else exactly the one block is replaced, with the space that cutting, growing or moving it leaves, and all others are untouched; null exactly if malloc, or the resize, cannot be served, and then nothing changes |
| Mspaces.Mspace.Memalign | osss-ucx/src/ptmalloc/ptmalloc.c:4217-4300 | the block is the first aligned one in what malloc serves for the padded request: at its start if that is aligned, else the first behind room for a chunk; it holds the request and at most a minimal chunk more; leader and trailer are freed, with exactly the space that leaves; null exactly if the padded request cannot be served, and then nothing changes |
| Mspaces.Mspace.AlignStart | osss-ucx/src/ptmalloc/ptmalloc.c:4243-4272 | a block whose payload is aligned stays as it is; else the aligned block is the first that leaves a chunk in front, and leader and aligned block tile what malloc gave although the new head was user data |
| Alignment.AlignedChunkFits | osss-ucx/src/ptmalloc/ptmalloc.c:4252-4259 | the aligned position is the first at least a minimal chunk behind the start, and at most an alignment and three words behind it |
| Alignment.RoundAlignment | osss-ucx/src/ptmalloc/ptmalloc.c:4220-4226 | the alignment used is the least power of two of at least 32 that is not below the request |
| Alignment.PowerTest | osss-ucx/src/ptmalloc/ptmalloc.c:4222 | a & (a - 1) is zero exactly for powers of two |
| Alignment.RoundedUp | osss-ucx/src/ptmalloc/ptmalloc.c:4252-4255 | masking with -alignment rounds up to the next multiple |
| Alignment.RoundingEnds | osss-ucx/src/ptmalloc/ptmalloc.c:4222-4226 | the doubling loop ends exactly for alignments up to 2^63 |
| Mspaces.Mspace.InitUserMstate | osss-ucx/src/ptmalloc/ptmalloc.c:4790-4811 | no blocks, every bin an empty list or null root, top all of the segment but state and foot, for every byte base and length; valid if and only if top has a positive size |
| Mspaces.Mspace.CreateWithBase | osss-ucx/src/ptmalloc/ptmalloc.c:4832-4844 | null exactly if the capacity is too small or would wrap; else a space without blocks, with nothing written outside the segment, valid if and only if the capacity exceeds state, foot and what aligning the base skips |
| Words.TopHead | osss-ucx/src/ptmalloc/ptmalloc.c:3582-3594 | the size of top in bytes with the PINUSE bit: its second bit reads as CINUSE, the bits above are the size in words |
| Mspaces.Mspace.InitTop | osss-ucx/src/ptmalloc/ptmalloc.c:3582-3594 | the two heads are written as such, nothing else is; top's PINUSE bit is lost if there is no room for top |
| Mspaces.Mspace.MallocThenFree | osss-ucx/src/ptmalloc/ptmalloc.c:4965-5064 | in an empty space, a block cut off top and freed leaves the space as created if and only if the end of top reads as free or there was no room |
| Mspaces.Mspace.CreateMallocFree | osss-ucx/src/ptmalloc/ptmalloc.c:4832-5064 | the same over every base and capacity that leaves room for top: as created if and only if base + capacity is 0 or 1 modulo 4, or null was returned |
| Mspaces.Mspace.FirstMalloc | osss-ucx/src/ptmalloc/ptmalloc.c:4965-4974 | in a space whose top size is 0 or wrapped, a request is granted exactly if it wrapped, and its bytes lie in the segment exactly if 56 bytes and what is missing for top suffice |
| Mspaces.Mspace.AllFreed | osss-ucx/src/ptmalloc/ptmalloc.c:4987-5086 | after any history, with no live block left, top is all of the space and its head says so, dv is null and all bins are empty, as at creation |
| Mspaces.Mspace.UsableSize | osss-ucx/src/ptmalloc/ptmalloc.c:5223-5230 | the bytes of a block a client may use, 0 for null |
| Mspaces.Mspace.PayloadsDisjoint | osss-ucx/src/ptmalloc/ptmalloc.c:1825-1845 | payloads of live blocks have no word in common and lie inside the segment |
| Sessions.Session.Serve | osss-ucx/src/ptmalloc/ptmalloc.c:4873-5134 | one request of a client does to its variables and data what it would do to unrelated blocks of memory, and to the space exactly what the operations without memory do; a block is given exactly if the space at that moment can serve it, in place exactly if it fits there, and where none is given nothing changes |
| Sessions.Session.Run | osss-ucx/src/ptmalloc/ptmalloc.c:4873-5134 | every run of requests keeps the space valid, and is a run of the operations without memory; in each moment the live blocks are those of the variables, and each holds what its client last wrote to it |
| Sessions.Session.FreeAll | osss-ucx/src/ptmalloc/ptmalloc.c:4987-5086 | freeing all blocks after any run brings back the space as created |
| RoundUp.RoundsUp | osss-ucx/src/klib/khash.h:176 | kroundup32 is the least power of two not below x, and 0 for 0 and above 2^31 |
| Probing.BucketIsMod | osss-ucx/src/klib/khash.h:234-235 | masking with n - 1 is the remainder modulo n |
| Probing.ProbeStep | osss-ucx/src/klib/khash.h:238 | the step of a search makes the next triangular probe |
| Probing.ProbesDiffer | osss-ucx/src/klib/khash.h:237-240 | the first n probes go to n different buckets |
| Probing.Covered | osss-ucx/src/klib/khash.h:237-240 | every bucket is among the first n probes |
| Probing.FirstReturn | osss-ucx/src/klib/khash.h:236-240 | the probes first come back to their start after 2n - 1 steps, so a search stopped there has seen the table |
| BucketFlags.EitherIs | osss-ucx/src/klib/khash.h:165-167 | the two-bit test is either of the one-bit tests |
| BucketFlags.AfterSetDel | osss-ucx/src/klib/khash.h:171 | setting one bucket's deleted bit leaves all other flags alone |
| BucketFlags.AfterSetNotEmpty | osss-ucx/src/klib/khash.h:169 | clearing one bucket's empty bit leaves all other flags alone |
| BucketFlags.AfterSetLive | osss-ucx/src/klib/khash.h:170 | clearing one bucket's flags leaves all other flags alone |
| BucketFlags.WhenAllEmpty | osss-ucx/src/klib/khash.h:223-229 | bytes 0xaa mean empty and not deleted |
| Tables.Absent | osss-ucx/src/klib/khash.h:237-241 | a search that ends at an empty bucket has shown that the key is nowhere |
| Tables.Found | osss-ucx/src/klib/khash.h:237-241 | a live bucket with the key is the only one |
| Tables.SearchEnds | osss-ucx/src/klib/khash.h:237-240 | with an empty bucket left, a search ends within n probes and never comes back to its start |
| Tables.Inserted | osss-ucx/src/klib/khash.h:336-345 | a key put in a bucket on its path is found, and so are all others |
| Tables.Deleted | osss-ucx/src/klib/khash.h:349-355 | a tombstone takes away one key; all others are still found |
| Tables.LiveCount | osss-ucx/src/klib/khash.h:336-354 | there are as many live buckets as keys |
| Tables.OneSite | osss-ucx/src/klib/khash.h:320-334 | the bucket for a new key, and whether it is a tombstone, are determined by the flags |
| Rehashing.MoveStarts | osss-ucx/src/klib/khash.h:253-268 | at the start every key is in the old table and nowhere else |
| Rehashing.PickedUp | osss-ucx/src/klib/khash.h:270-276 | the key of a live old bucket is taken in hand, all others stay where they are |
| Rehashing.PutDown | osss-ucx/src/klib/khash.h:278-290 | the key in hand is put where the new table finds it, without overwriting a key |
| Rehashing.RoomLeft | osss-ucx/src/klib/khash.h:281 | the new table has as many non-empty buckets as keys, so an empty one is left |
| Rehashing.MoveEnds | osss-ucx/src/klib/khash.h:268-302 | when the old table has no live bucket, the new one holds exactly the old contents |
| HashTables.TableSizes | osss-ucx/src/klib/khash.h:244-250 | a resize to n - 1 keeps the size, one to n + 1 doubles it, or wraps to 4 at 2^31 |
| HashTables.ResizeMakesRoom | osss-ucx/src/klib/khash.h:310-318 | put's resize makes room exactly if the table has fewer than 2^31 buckets or is less than half full |
| HashTables.HashTable.Counts | osss-ucx/src/klib/khash.h:336-354 | size and n_occupied count the live and the non-empty buckets, and an empty one is left |
| HashTables.HashTable.Get | osss-ucx/src/klib/khash.h:230-243 | the one live bucket of the key, with its value, or n_buckets exactly if the map has no such key |
| HashTables.HashTable.Clear | osss-ucx/src/klib/khash.h:223-229 | the map is empty, every bucket empty, the table as large as before |
| HashTables.HashTable.Del | osss-ucx/src/klib/khash.h:349-355 | a live bucket's key is removed from the map, and the bucket and no other becomes a tombstone; deleting any other bucket changes nothing |
| HashTables.HashTable.FindEmpty | osss-ucx/src/klib/khash.h:278-281 | the probe loop of the rehash ends at an empty bucket on the key's path |
| HashTables.HashTable.KickOne | osss-ucx/src/klib/khash.h:283-286 | swapping the key in hand for the one in its bucket places one key, takes one out of the old table and loses none |
| HashTables.HashTable.Settle | osss-ucx/src/klib/khash.h:287-291 | writing the key in hand to a bucket no old key is in places it, and no other key is lost |
| HashTables.HashTable.KickOut | osss-ucx/src/klib/khash.h:277-292 | the loop ends, because each kick-out leaves fewer live old buckets, and no key is lost or doubled |
| HashTables.HashTable.Rehash | osss-ucx/src/klib/khash.h:269-294 | every key ends up in the new table |
| HashTables.HashTable.Resize | osss-ucx/src/klib/khash.h:244-306 | the map stays the same whether the table grows, shrinks, stays or an allocation fails; -1 exactly if memory that is needed is not given; after a rehash there are no tombstones |
| HashTables.HashTable.MakeRoom | osss-ucx/src/klib/khash.h:310-318 | unless an allocation fails, a full table is rehashed at its size if fewer than half its buckets hold keys, and else doubled, and then has room for one more key |
| HashTables.HashTable.FindSite | osss-ucx/src/klib/khash.h:320-334 | the bucket of the key; or, if it is absent, the last tombstone before the first empty bucket on its path, and that empty bucket exactly if there is none |
| HashTables.HashTable.PutNow | osss-ucx/src/klib/khash.h:319-347 | the code returned says what the bucket was: live, empty or deleted; 2 exactly if the path to the first empty bucket has a tombstone, and then the last one is filled; only the flags of that bucket change |
| HashTables.HashTable.Put | osss-ucx/src/klib/khash.h:307-348 | the key is in the map, once; 0 exactly if it was before, -1 exactly if a resize is due and does not get its memory, and then nothing changed; size grows by one exactly for 1 and 2; without a resize 2 exactly if the path to the first empty bucket has a tombstone, and then the last one is filled, else that empty bucket; after a resize the first bucket on the path that is not in use |
| TableRuns.Serve | osss-ucx/src/klib/khash.h:223-355 | one request of a client, a put with its value, a lookup, a removal, clear or resize, answers what a finite map answers, and changes the map as it would |
| TableRuns.Run | osss-ucx/src/klib/khash.h:223-355 | every run of requests is a run of a finite map; with fewer than 2^30 keys the table can always grow |
| DistributedLock.BlobInjective | osss-ucx/src/api/lock.c:29-41 | the 32-bit word is zero, or equal to another, exactly if both halves are |
| DistributedLock.LockOwner | osss-ucx/src/api/lock.c:46-77 | every address has its owner among the PEs |
| DistributedLock.OwnersSpread | osss-ucx/src/api/lock.c:46-77 | where all PEs agree on addresses, the owner goes round the PEs from each long word to the next, starting with PE 0; else it is the last PE |
| DistributedLock.InvKept | osss-ucx/src/api/lock.c:94-248 | every step of every PE keeps the invariant |
| DistributedLock.MutualExclusion | osss-ucx/src/api/lock.c:135-182 | over all interleavings at most one PE is between acquiring and giving back, and none is ever chained |
| DistributedLock.QuietWhenFree | osss-ucx/src/api/lock.c:229-239 | while the word is reset no put is on its way and the data is what was last written |
| DistributedLock.HolderReadsLatest | osss-ucx/src/api/lock.c:229-239 | a holder reads the latest write of any holder before it, and its own once they have arrived |
| DistributedLock.ClearFinishes | osss-ucx/src/api/lock.c:151-205 | a holder's clear resets the word; the call returns at once exactly if its number fits 15 bits |
| DistributedLock.WaitsForEver | osss-ucx/src/api/lock.c:198-214 | a clear that waits for a chainer waits for ever |
| DistributedLock.WordNamesOwner | osss-ucx/src/api/lock.c:109-129 | with at most 2^15 PEs the word is reset or names the holder; a holder of a higher number it cannot name |
| DistributedLock.RefinesTestAndSet | osss-ucx/src/api/lock.c:94-248 | with any number of PEs every step is one of an atomic test-and-set lock held by the owner, or invisible |
| DistributedLock.RunRefines | osss-ucx/src/api/lock.c:94-248 | so every run, with any number of PEs, is a run of the atomic lock |
| DistributedLock.TestLock | osss-ucx/src/api/lock.c:144-196 | test_lock returns 0 exactly if it acquired, and else changes nothing shared |
| DistributedLock.SetReturnsHeld | osss-ucx/src/api/lock.c:135-227 | over every run, a PE that called set_lock and is idle again has held the lock in between |
| DistributedLock.AcquiringHolds | osss-ucx/src/api/lock.c:135-227 | the same from any moment of set_lock, or of test_lock after its swap |
| DistributedLock.TestReturns | osss-ucx/src/api/lock.c:143-248 | over every run, the first step of a PE after it called test_lock takes the lock if nobody holds it, and if somebody does the call has returned 1 and taken nothing |
| DistributedLock.ClearReturnsFree | osss-ucx/src/api/lock.c:150-239 | over every run, a PE that called clear_lock and is idle again gave the lock back in between, after all its puts had arrived |
| DistributedLock.AcquireFinishes | osss-ucx/src/api/lock.c:165-182 | after the swap, set_lock returns without waiting for another PE |
| PooledQueue.Pool.Alloc | osss-ucx/src/klib/klist.h:54-58 | the last pooled node, or a new one if there is none |
| PooledQueue.Pool.Free | osss-ucx/src/klib/klist.h:59-66 | the node is pooled; a full pool is doubled, an empty one gets room for 16 |
| PooledQueue.Queue.Push | osss-ucx/src/klib/klist.h:104-109 | the contents grow by one element at the end, in the node whose data is returned |
| PooledQueue.Queue.Shift | osss-ucx/src/klib/klist.h:110-118 | the first element is taken off, or -1 exactly if there is none; no node is lost |
| PooledQueue.Queue.Destroy | osss-ucx/src/klib/klist.h:96-103 | every node, in the list or pooled, is freed exactly once |

## Left out

- System memory: `sys_alloc` beyond returning null, `mmap_alloc`, `mmap_resize`, added segments, `prepend_alloc`; they rest on calls of the operating system.
- The `dl` versions of the allocator's routines, which repeat the `mspace` ones for a global state, and locks, footers, statistics and the independent allocators.
- `mspace_calloc`: a malloc and a memset.
- Mspaces.Mspace.Realloc: like Mspaces.Mspace.InternalRealloc, Mspaces.Mspace.Memalign and the runs of Sessions.Session, stated for spaces whose top reads as free; in the others the free these operations make of a block that ends at top fails as Mspaces.Mspace.Free states.
- Mspaces.Mspace.FirstMalloc: the memory array reaches as far as the words the code writes; what lies behind the segment is not part of this model.
- Mspaces.Mspace.InitUserMstate: the fields of the `mstate` besides the bin headers are fields of the class, not words of memory, so their words are only cleared; segment, magic and footprint fields are not modelled.
- Mspaces.Mspace.Memalign: alignments up to 2^63 only, because the code does not end for larger ones.
- Mspaces.Mspace.PlantMate: the parent word is written before the list links, where the code writes it after them; they are different words.
- Mspaces.Mspace.Malloc: where the code sets the request to the largest size and lets both comparisons and `sys_alloc` fail, the model returns null at once.
- Chunk sizes and addresses are counted in words, so the arithmetic on them is that of `size_t` divided by 8; only sizes of top and ends of the segment are byte counts.
- `sys_trim` beyond turning itself off: an external segment is never released.
- DistributedLock.HolderReadsLatest: clients that put twice to one cell without a quiet in between are outside the model, as the order in which two puts arrive is not defined; so a holder's put is a step only while none of its own is on the way to that cell.
- TableRuns.Run: a client puts only while the table can grow, which it can tell from the fields of the table; a put beyond that is answered with Full and not made.
- HashTables.HashTable.Put: needs a table that can still grow, for which HashTables.ResizeMakesRoom gives the exact condition; beyond it the load bound would be lost.
- The keys of the hash table are compared with equality, and the hash is any function; that `strcmp` equality and string hashes agree is not part of this model. Tables without values are not modelled.
- A shrinking `realloc` that fails inside `kh_resize`, and one that fails in `kmp_free`: the code does not look at the result.
- The floating-point product with 0.77 is taken as the exact quotient (77 n + 50) / 100, which it is for all powers of two from 4 to 2^31.
- Lock: threads of one PE, taking a lock twice, clearing a lock not held, and fairness, which the compare-and-swap loop does not give. Quiet, progress and the remote compare-and-swap have their documented meaning.
- Which PE owns a lock word beyond its being one of the PEs, as all PEs compute it from the same address.
