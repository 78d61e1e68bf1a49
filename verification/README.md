# Infra layer: containers, allocator, thread pool, relocation

This project models the finished algorithms of the infra layer and of one ELF loader, and proves
what they promise.  `dafny verify dfyconfig.toml` checks all of it.

- **Red-black tree** (`rb_*.dfy`).  `RbTree.RedBlackTree` is the tree in memory: nodes with left,
  right and parent links that rotations, `FixInsert` and `FixDelete` rewrite in place.  Its methods are
  proved against pictures of the tree (`RbShape`): a `Tree` for the subtree of the current node and a
  `Path` for everything around it, so that one round of either loop is a function on such a pair.
  `RbLaws` proves the red-black rules of these functions, `RbMap` the order, the map and the height, and
  `RbRuns` all runs of the operations; `RbCases` draws the rounds of the loops.
- **Hash table** (`hash_table.dfy`).  An array of buckets with linked chains, for any key type and any
  hash function; `HashString` is the one of the library, on its `CString`.
- **Pool allocator** (`mem_*.dfy`).  `MemPool.MemoryPool` keeps the headers of the blocks in a map from
  addresses and updates them in place; `MemBlocks` and `MemHeap` are its meaning as a sequence of blocks
  and the laws of every run, and `MemExact` says which block a malloc takes and how it cuts it.  `size_t`
  values wrap explicitly.
- **Thread pool** (`pool_*.dfy`).  `PoolSections` states each critical section as a function,
  `PoolMemory.Pool` shows that the code on the linked queue computes it, and `PoolProtocol` runs the
  sections of any number of workers and submitters in any order as a transition system with an inductive
  invariant.  Timeouts, spurious wake-ups, the choice of the waiter that a signal wakes, failed
  allocations and failed thread starts are all steps or parameters of a step.  `PoolTurns` states what one
  turn with the mutex does and how the pool grows and shrinks; `PoolLaws` and `PoolWakeUps` draw the other
  conclusions.
- **Relocation pass** (`elf_*.dfy`).  `ElfPass.ProcessRelocs` writes into a byte array; `ElfReloc` says
  which words the tables of an image ask for, and `ElfFile` what that means for the bytes of ELF headers,
  symbols and relocation entries.  The words follow section 4.4 of the System V AMD64 psABI.
- **Growable buffer** (`buffer.dfy`).  A byte array that reserve and write replace, with a history
  counter for the bytes that reallocations copy.

Results of system calls, of malloc and of thread creation are parameters.  A pointer to user data is an
opaque integer, 0 for null.

Where the code does less than one might expect, the exact condition is proved: `Remove`, `MendedBalanced`
and `NullReadIff` (equal black heights, and a loop that reads siblings without a test),
`DestroyReturnsOnlyWhenIdle` (destroy can wait forever), `FreedUnderSubmitterIff` (it does not wait for
submitters), `CoveredStep`, `WakeUpsHoldIff` and `FinishWakesIff` (the one step that loses a wake-up, and
what makes up for it), `RoundedCovers` and `MallocGives` (wrapping sizes), `FirstTwoPointersFit` (bases and
alignments that the pool cannot serve) and `SitesRight` (unchecked overflow).  Each comes with an input on
which it fails: `RemovalUnbalances`, `RemovalReadsNull`, `DestroyAtOnceNeverReturns`, `FreedUnderSubmitter`,
`RefusedMemoryStrandsSubmitter`, `NextSubmissionMayNotWake`, `WrappedRequestIsServed`, `SixtyFourDoesNotFit`,
`UnalignedBaseDoesNotFit` and `OverflowMisses`.

Code and comment disagree at `ppdb/src/cosmo/test4_main.c:131`, which numbers R_X86_64_GOTPCREL 37; the
model uses the constant of the psABI, 9, which the name stands for.

## Model

| member | source | states |
|---|---|---|
| `RbTree.RedBlackTree.constructor` | ppdb/src/internal/infra/infra_ds.c:367-381 | a new tree is empty, legal, and stands for the empty map |
| `RbTree.RedBlackTree.RotateLeft` | ppdb/src/internal/infra/infra_ds.c:284-304 | in memory: the subtree at any hole of the tree becomes its left rotation, with every child and parent link and the root pointer consistent; no other node changes |
| `RbTree.RedBlackTree.RotateRight` | ppdb/src/internal/infra/infra_ds.c:306-326 | the mirror image of RotateLeft |
| `RbTree.RedBlackTree.FixInsert` | ppdb/src/internal/infra/infra_ds.c:328-364 | the pointer loop computes FixUp from any hole with at most one red-red pair there; it terminates and leaves every link consistent |
| `RbTree.RedBlackTree.BlackenRoot` | ppdb/src/internal/infra/infra_ds.c:364 | the root of the tree turns black and nothing else changes |
| `RbShape.LiftShortens` | ppdb/src/internal/infra/infra_ds.c:329-363 | each round of the insertion loop brings its node nearer to the root |
| `RbLaws.LiftRedAt` | ppdb/src/internal/infra/infra_ds.c:329-363 | each of the six cases of a round keeps the loop invariant: the only red-red pair, if any, is at the current node |
| `RbLaws.LiftLevelAt` | ppdb/src/internal/infra/infra_ds.c:329-363 | each round keeps the black count of all root-to-null paths equal |
| `RbLaws.LiftFlat` | ppdb/src/internal/infra/infra_ds.c:329-363 | each round keeps the in-order sequence of keys and values |
| `RbCases.LiftPictures` | ppdb/src/internal/infra/infra_ds.c:331-346 | a round below a left child of the grandparent, drawn out: recolour below a red uncle, or rotate an outer node's parent or an inner node above the grandparent |
| `RbCases.FixUpMirrors` | ppdb/src/internal/infra/infra_ds.c:329-364 | the insertion loop on the mirror image of a tree gives the mirror image: its right branches are the left ones reflected |
| `RbLaws.FixUpLaw` | ppdb/src/internal/infra/infra_ds.c:328-365 | from a legal tree with one new red node the loop ends in a legal tree with the same in-order sequence and the same nodes, each once |
| `RbTree.RedBlackTree.Descend` | ppdb/src/internal/infra/infra_ds.c:400-415 | the walk ends at the node of the key, or at a null link that is the place of the key, with parent the node above it, in at most as many rounds as the tree is high |
| `RbTree.RedBlackTree.Overwrite` | ppdb/src/internal/infra/infra_ds.c:409-413 | an insertion of a key that is there is a map update that moves no node |
| `RbTree.RedBlackTree.Attach` | ppdb/src/internal/infra/infra_ds.c:417-428 | a new key is linked, the colours are repaired, size grows by one, and the contents gain exactly that pair |
| `RbTree.RedBlackTree.Insert` | ppdb/src/internal/infra/infra_ds.c:390-431 | insert is map update, or changes nothing without memory; the node allocated for it joins the tree if and only if the key is new, and no other node comes or goes; a legal tree stays legal |
| `RbTree.RedBlackTree.Find` | ppdb/src/internal/infra/infra_ds.c:433-450 | find is map lookup (null when absent), in at most as many rounds as the tree is high |
| `RbMap.AbsentAt` | ppdb/src/internal/infra/infra_ds.c:403-415 | in a tree ordered by keys a search that ends at a null link has shown that the key is absent |
| `RbMap.FoundAt` | ppdb/src/internal/infra/infra_ds.c:439-447 | the node where the search stops holds the value of the key in the map |
| `RbMap.SizeBound` | ppdb/src/internal/infra/infra_ds.c:328-365 | a balanced tree of n pairs has n + 1 at least 2 to the power of its black height |
| `RbMap.HeightBound` | ppdb/src/internal/infra/infra_ds.c:328-365 | a legal tree of n pairs has height at most 2 log2 (n + 1), stated as 2^height <= (n + 1)^2 |
| `RbTree.RedBlackTree.Bounded` | ppdb/src/internal/infra/infra_ds.c:328-365 | on a legal tree in memory, size is the cardinality of the map and the height has the logarithmic bound |
| `RbRuns.Perform` | ppdb/src/internal/infra/infra_ds.c:390-585 | each insertion, lookup, removal or clear of any tree with ordered keys, black root and no red-red pair either is a removal that reads a null pointer, exactly when Crashes says so, or keeps all this and does to the map what the plain map operation does; all but the removal of a black leaf keep a legal tree legal |
| `RbRuns.Run` | ppdb/src/internal/infra/infra_ds.c:390-585 | every run of insertions (with any outcome of malloc), lookups, removals and clears from an empty tree stops only at a removal that reads a null pointer, and until then answers and holds what the plain map does; while no removal of the run takes a black leaf below the root, none crashes and the tree is legal and logarithmically high |
| `RbRuns.LastInsertStays` | ppdb/src/internal/infra/infra_ds.c:390-585 | the plain map of a run holds the last value inserted for a key that no later operation touches |
| `RbRuns.TakenOutStaysOut` | ppdb/src/internal/infra/infra_ds.c:509-585 | and nothing for a key that was never inserted, or not since it was removed or the tree was cleared |
| `RbRuns.LegalDoesNotCrash` | ppdb/src/internal/infra/infra_ds.c:452-560 | on a legal tree no operation reads a null pointer |
| `RbTree.RedBlackTree.FixDelete` | ppdb/src/internal/infra/infra_ds.c:452-507 | from any hole of any tree the pointer loop terminates; it reads a null pointer if and only if Safe fails there, otherwise it computes FixDown with every link consistent; its body runs exactly at a black node below the root |
| `RbTree.RedBlackTree.SinkLeft` | ppdb/src/internal/infra/infra_ds.c:454-478 | one round at any left child reads a null pointer if and only if Reads fails, and otherwise computes Sink, link by link |
| `RbTree.RedBlackTree.SinkRight` | ppdb/src/internal/infra/infra_ds.c:480-504 | one round at any right child reads a null pointer if and only if Reads fails, and otherwise computes Sink, link by link |
| `RbLaws.SinkReadsNodes` | ppdb/src/internal/infra/infra_ds.c:455-500 | where one black node is missing, every sibling and nephew that the loop reads without a test exists |
| `RbShape.SinkShortens` | ppdb/src/internal/infra/infra_ds.c:453-505 | each round of the deletion loop brings its node nearer to the root or ends the loop |
| `RbLaws.SinkShortAt` | ppdb/src/internal/infra/infra_ds.c:453-505 | each round keeps the invariant that the tree would be legal with one more black at the current node |
| `RbCases.SinkPictures` | ppdb/src/internal/infra/infra_ds.c:462-477 | a round at a left child with a black sibling, drawn out: recolour and climb, one rotation for a red far nephew, two for a red near one alone |
| `RbCases.SinkBorrows` | ppdb/src/internal/infra/infra_ds.c:456-461 | with a red sibling it is the round below, once the sibling is rotated above the parent |
| `RbCases.FixDownMirrors` | ppdb/src/internal/infra/infra_ds.c:452-507 | the deletion loop on the mirror image of a tree gives the mirror image |
| `RbLaws.SinkRepairable` | ppdb/src/internal/infra/infra_ds.c:453-505 | on any tree, equal black heights or not, a round that reads no null pointer keeps black root and no red-red pair, with one exception at the current node |
| `RbLaws.FixDownLaw` | ppdb/src/internal/infra/infra_ds.c:452-507 | the whole deletion loop, entered at any node one black short, reads no null pointer and restores every rule |
| `RbLaws.FixDownTinted` | ppdb/src/internal/infra/infra_ds.c:452-507 | on any tree with black root and no red-red pair the whole loop, while it reads no null pointer, keeps these rules, the sequence and the nodes, each once |
| `RbLaws.SafeIffGuarded` | ppdb/src/internal/infra/infra_ds.c:452-507 | the loop reads no null pointer if and only if, walking up from its hole before any rotation, each sibling and the nephews it asks for are there as far as the first red sibling, red nephew or red parent |
| `RbTree.RedBlackTree.Unlink` | ppdb/src/internal/infra/infra_ds.c:535-551 | taking out a node with at most one child leaves that child at its place and every other link as it was |
| `RbTree.RedBlackTree.Successor` | ppdb/src/internal/infra/infra_ds.c:529-532 | the walk finds the leftmost node of the right subtree |
| `RbTree.RedBlackTree.Mend` | ppdb/src/internal/infra/infra_ds.c:558-560 | fix_delete is called only for a black node with a child; whether it reads a null pointer is Mendable, and otherwise the tree becomes Mended |
| `RbLaws.MendedTinted` | ppdb/src/internal/infra/infra_ds.c:535-560 | on any tree with a black root and no red-red pair, balanced or not, a removal that reads no null pointer keeps these rules, the rest of the sequence and the nodes |
| `RbLaws.MendedBalanced` | ppdb/src/internal/infra/infra_ds.c:535-560 | on a legal tree no null pointer is read, the loop is not entered, and the black heights stay equal if and only if the unlinked node is not a black leaf below the root |
| `RbCases.MendPictures` | ppdb/src/internal/infra/infra_ds.c:558-560 | nothing is repaired when a red node or a childless one goes, a red child turns black, and only a black child below the root starts the loop |
| `RbLaws.BalancedAvoidsLoop` | ppdb/src/internal/infra/infra_ds.c:558-560 | no removal from a balanced tree enters the loop of fix_delete |
| `RbLaws.NullReadIff` | ppdb/src/internal/infra/infra_ds.c:509-560 | a removal reads a null pointer if and only if it enters the loop and the walk up from its hole misses a sibling or nephew, a test on the tree before the call |
| `RbLaws.SpliceLaw` | ppdb/src/internal/infra/infra_ds.c:535-560 | in a legal tree the child of an unlinked black node is red; the tree stays balanced without repair exactly when the node was red or the root |
| `RbMap.TakeSuccessorFlat` | ppdb/src/internal/infra/infra_ds.c:553-556 | moving the successor into the place of the removed pair takes exactly one pair out of the in-order sequence |
| `RbTree.RedBlackTree.Remove` | ppdb/src/internal/infra/infra_ds.c:509-569 | on any tree with ordered keys, black root and no red-red pair: reads a null pointer if and only if ReadsNull holds before; otherwise returns the mapped value, deletes exactly that key, frees exactly one node, leaves the tree RemoveKey of the old one with these rules and all links kept, and enters the loop if and only if EntersLoop held; from a legal tree it keeps equal black heights if and only if the unlinked node is not a black leaf below the root |
| `RbExample.ThreeBlackNodes` | ppdb/src/internal/infra/infra_ds.c:390-569 | inserting 2, 1, 3 and 4 and removing 4, with the trees that the contracts of Insert and Remove name, leaves three black nodes |
| `RbExample.RemovalUnbalances` | ppdb/src/internal/infra/infra_ds.c:558-560 | removing 1 from that legal tree leaves a tree whose black heights differ |
| `RbExample.SecondRemovalLoops` | ppdb/src/internal/infra/infra_ds.c:558-560 | after such a removal from a legal tree of seven nodes a second one enters the loop of fix_delete, there without reading a null pointer |
| `RbExample.RemovalReadsNull` | ppdb/src/internal/infra/infra_ds.c:462-463 | on a tree of four black nodes with ordered keys, black root and no red-red pair, but unequal black heights, the removal of 2 reads the colour of a missing nephew |
| `RbExample.ThirdRemovalReadsNull` | ppdb/src/internal/infra/infra_ds.c:462-463 | the removals of 1, 5 and 2 lead from a legal tree of seven nodes to such a read |
| `RbTree.RedBlackTree.ClearNode` | ppdb/src/internal/infra/infra_ds.c:571-577 | the recursion frees the nodes in post-order, reading none after it is freed |
| `RbLaws.PostOrderOnce` | ppdb/src/internal/infra/infra_ds.c:571-577 | post-order meets every node exactly once |
| `RbLaws.PostOrderParentsLast` | ppdb/src/internal/infra/infra_ds.c:571-577 | in post-order every node comes after all nodes below it |
| `RbTree.RedBlackTree.Clear` | ppdb/src/internal/infra/infra_ds.c:579-585 | clear frees each node exactly once and after all nodes below it, and leaves the empty map |
| `HashTables.HashString` | ppdb/src/internal/infra/infra_ds.c:110-117 | the loop that wraps in every round gives, modulo 2^64, 5381 times 33^length plus the sum of the signed characters, each times 33 to the number of characters behind it |
| `HashTables.PolynomialIs` | ppdb/src/internal/infra/infra_ds.c:110-117 | the recurrence hash * 33 + c has that closed form |
| `HashTables.IndexOf` | ppdb/src/internal/infra/infra_ds.c:170 | for strings and this hash function, the polynomial modulo 2^64 modulo capacity is a bucket, and a key of the table is in that bucket and in no other |
| `HashTables.Create` | ppdb/src/internal/infra/infra_ds.c:119-144 | zero capacity and either failed allocation give the matching error and no table; otherwise an empty table of that capacity |
| `HashTables.BucketBytes` | ppdb/src/internal/infra/infra_ds.c:129 | the byte count of the bucket array does not wrap if and only if the capacity is below 2^61 |
| `HashTables.HashTable.Locate` | ppdb/src/internal/infra/infra_ds.c:170-180 | the walk of a bucket ends at the one node of the key, or at null exactly when the key is absent |
| `HashTables.HashTable.Put` | ppdb/src/internal/infra/infra_ds.c:165-200 | put is map update; a new key goes in front of the bucket of its hash; it fails only for a new key without memory, and then, as for a known key, every chain stays as it is |
| `HashTables.HashTable.Get` | ppdb/src/internal/infra/infra_ds.c:202-218 | get is map lookup, null when absent |
| `HashTables.HashTable.Bypass` | ppdb/src/internal/infra/infra_ds.c:232-236 | unlinking through the bucket head or through prev removes one node from its chain and leaves all chains linked |
| `HashTables.HashTable.Remove` | ppdb/src/internal/infra/infra_ds.c:220-247 | remove returns the mapped value, or null, and deletes exactly that key and its node |
| `HashTables.HashTable.Clear` | ppdb/src/internal/infra/infra_ds.c:249-265 | clear frees every node exactly once and leaves the empty map |
| `HashTables.ShapePush` | ppdb/src/internal/infra/infra_ds.c:194-196 | a node put in front of its bucket keeps each key once and only in its own bucket |
| `HashTables.ShapeCut` | ppdb/src/internal/infra/infra_ds.c:232-236 | a node taken out keeps each other key once and only in its own bucket |
| `HashTables.EachNodeOnce` | ppdb/src/internal/infra/infra_ds.c:254-263 | walking all buckets meets the node of every key exactly once, and no other node |
| `HashTables.Run` | ppdb/src/internal/infra/infra_ds.c:165-265 | for any hash function, capacity and outcomes of malloc, every run answers and holds what the plain map does, and size is the cardinality of the map |
| `HashTables.LastPutStays` | ppdb/src/internal/infra/infra_ds.c:165-265 | the plain map of a run holds the last value put for a key that no later operation touches |
| `HashTables.TakenOutStaysOut` | ppdb/src/internal/infra/infra_ds.c:220-265 | and nothing for a key that was never put, or not since it was removed or the table was cleared |
| `MemBlocks.TilesTotal` | ppdb/src/internal/infra/infra_memory.c:134-157 | payloads and headers of a tiling list add up to the pool, and the headers alone fit |
| `MemBlocks.PayloadsDisjoint` | ppdb/src/internal/infra/infra_memory.c:134-157 | in a tiling list no payload overlaps another payload or any header |
| `MemBlocks.BestFitIsBest` | ppdb/src/internal/infra/infra_memory.c:32-51 | the search result is a smallest sufficient free block, the first of those, and none exactly when there is none |
| `MemPool.MemoryPool.FindFreeBlock` | ppdb/src/internal/infra/infra_memory.c:32-51 | the loop over the list, with its early exit on an exact match, computes that best fit |
| `MemBlocks.FailureIsExact` | ppdb/src/internal/infra/infra_memory.c:32-51 | on a coalesced list the search fails if and only if no contiguous unallocated region, however it is cut into blocks, holds a header and the size |
| `MemPool.MemoryPool.constructor` | ppdb/src/internal/infra/infra_memory.c:134-157 | the pool starts as one free block of pool_size minus a header with block_count 1 and cleared statistics |
| `MemHeap.RoundedCovers` | ppdb/src/internal/infra/infra_memory.c:321-322 | the rounded size is a multiple of the alignment, and covers the request, with at most 2 (align - 1) bytes more, if and only if the additions do not wrap |
| `MemPool.MemoryPool.Split` | ppdb/src/internal/infra/infra_memory.c:328-340 | the two header writes carve the block: the used part of exactly the rounded size, the rest free behind it |
| `MemPool.MemoryPool.TakeWhole` | ppdb/src/internal/infra/infra_memory.c:341-344 | a block that is not split is taken as it is |
| `MemPool.MemoryPool.Malloc` | ppdb/src/internal/infra/infra_memory.c:313-352 | pool malloc on the headers in memory computes MemHeap.Malloc, pointer, list and statistics |
| `MemHeap.MallocInv` | ppdb/src/internal/infra/infra_memory.c:320-352 | malloc keeps the list address-ordered and tiling, coalesced, aligned, and its usage counter exact |
| `MemHeap.MallocGives` | ppdb/src/internal/infra/infra_memory.c:320-351 | malloc returns an aligned pointer that was not live and keeps every live block as it is; size bytes behind it lie in one used block if and only if size + 2 (align - 1) is below 2^64; current_usage grows by size, or by 1 for a size of 0 |
| `MemHeap.MallocFailsIff` | ppdb/src/internal/infra/infra_memory.c:314-326 | without wrap-around malloc fails if and only if no contiguous unallocated region of the pool holds a header and the greatest multiple of the alignment that is at most size + 2 (align - 1), with 1 for a size of 0 |
| `MemHeap.MallocFailsRounded` | ppdb/src/internal/infra/infra_memory.c:322-326 | for every size, wrapping or not: if and only if no such region holds a header and the rounded request |
| `MemExact.MallocPlaces` | ppdb/src/internal/infra/infra_memory.c:326-351 | a malloc that succeeds without wrap-around takes the first smallest block with room, returns the address 32 behind its header, and leaves one used block, or a used one of exactly the rounded size and a free rest when more than 64 bytes are left; all other blocks stay |
| `MemExact.FailureChangesNothing` | ppdb/src/internal/infra/infra_memory.c:326-352 | a malloc that fails changes neither the list nor the statistics |
| `MemHeap.WrappedRequestIsServed` | ppdb/src/internal/infra/infra_memory.c:321-351 | a request of 2^64 - 1 bytes to a fresh pool succeeds with a block of one alignment unit, which does not hold it |
| `MemMask.MaskIsGreatest` | ppdb/src/internal/infra/infra_memory.c:14 | for every alignment that the configuration accepts, `x & ~(a - 1)`, bit by bit on 64-bit words, is RoundDown, the greatest multiple of the alignment that is not above x |
| `MemMask.AlignSize` | ppdb/src/internal/infra/infra_memory.c:14 | the macro as it is written, with its wrapping addition, is AlignUp |
| `MemMask.AcceptedIff` | ppdb/src/internal/infra/infra_memory.c:221-223 | the test `a & (a - 1)` with a nonzero accepts exactly the powers of two |
| `MemPool.MemoryPool.Absorb` | ppdb/src/internal/infra/infra_memory.c:180-185 | a merge joins two neighbouring free blocks and their extents, and block_count follows |
| `MemPool.MemoryPool.MergePass` | ppdb/src/internal/infra/infra_memory.c:178-189 | one pass already leaves no two neighbouring free blocks, and has not changed the final result |
| `MemPool.MemoryPool.TryMergeBlocks` | ppdb/src/internal/infra/infra_memory.c:174-191 | the loop to the fixpoint computes Coalesce |
| `MemBlocks.CoalesceResult` | ppdb/src/internal/infra/infra_memory.c:174-191 | after coalescing no two neighbours are both free |
| `MemBlocks.CoalesceTiles` | ppdb/src/internal/infra/infra_memory.c:174-191 | coalescing keeps the tiling |
| `MemBlocks.CoalesceKeeps` | ppdb/src/internal/infra/infra_memory.c:174-191 | coalescing keeps every used block and their requested sizes |
| `MemBlocks.CoalescePair` | ppdb/src/internal/infra/infra_memory.c:174-191 | merging any one pair first makes no difference to the result |
| `MemPool.MemoryPool.Free` | ppdb/src/internal/infra/infra_memory.c:376-392 | pool free of null or of a block pointer computes MemHeap.Release; of a block that is free already it changes nothing |
| `MemHeap.ReleaseInv` | ppdb/src/internal/infra/infra_memory.c:381-392 | free keeps the invariants of the list and of the usage counter |
| `MemHeap.ReleaseGives` | ppdb/src/internal/infra/infra_memory.c:381-392 | free takes away exactly the block of its pointer and keeps every other live block |
| `MemHeap.PointerFits` | ppdb/src/internal/infra/infra_memory.c:349-351 | free will look up the header of the block that malloc chose if and only if the address behind that header is aligned |
| `MemHeap.FirstPointerFits` | ppdb/src/internal/infra/infra_memory.c:349-351 | for an aligned base this holds for the first pointer if and only if the alignment divides the header size |
| `MemHeap.FirstTwoPointersFit` | ppdb/src/internal/infra/infra_memory.c:328-351 | for any base it holds for the first pointer and for the first one behind a cut if and only if the alignment divides the base and the header size |
| `MemHeap.UnalignedBaseDoesNotFit` | ppdb/src/internal/infra/infra_memory.c:349-351 | a base of 4112 with an alignment of 32 misplaces the first pointer |
| `MemHeap.SixtyFourDoesNotFit` | ppdb/src/internal/infra/infra_memory.c:349-351 | with an alignment of 64 the header that free looks up is 32 bytes off |
| `MemHeap.MallocThenFree` | ppdb/src/internal/infra/infra_memory.c:320-392 | freeing a pointer just obtained restores the block list and the usage counter exactly |
| `MemHeap.RunInv` | ppdb/src/internal/infra/infra_memory.c:313-392 | all invariants hold after every run of malloc and free, wrapping requests included; among them that current_usage is the sum of the original sizes modulo 2^64 |
| `MemHeap.FreeingAllRestores` | ppdb/src/internal/infra/infra_memory.c:376-392 | after any run, freeing all live pointers in any order restores the initial single block |
| `MemHeap.WasteBound` | ppdb/src/internal/infra/infra_memory.c:321-343 | a used block holds its request and wastes at most 2 (align - 1) + 64 bytes |
| `MemHeap.StatisticsHonest` | ppdb/src/internal/infra/infra_memory.c:346-371 | over every run whose roundings do not wrap, current_usage is the sum of the original sizes of used blocks and at most the pool size, and peak_usage is the greatest value it had |
| `MemExact.TotalCounts` | ppdb/src/internal/infra/infra_memory.c:407-410 | over every run total_allocations is the number of mallocs that returned a pointer, modulo 2^64 |
| `MemPool.MemoryPool.Fragmentation` | ppdb/src/internal/infra/infra_memory.c:297-298 | pool_fragmentation is 3200 times the number of blocks, modulo 2^64, divided by the pool size and rounded down, which is the share of the headers in percent while the product fits; it never exceeds 100 |
| `PoolMemory.Pool.WorkerSection` | ppdb/src/internal/infra/infra_sync.c:26-54 | the critical section of a worker, on the linked queue, computes WorkerTurn and keeps head, tail and count consistent |
| `PoolTurns.EnterOutcome` | ppdb/src/internal/infra/infra_sync.c:26-54 | a timed-out worker above min_threads leaves with the queue as it is; any other takes the first task, waits in a running pool without tasks, or leaves a closing one; no other thread changes |
| `PoolTurns.IdleWorkersLeave` | ppdb/src/internal/infra/infra_sync.c:29-37 | from every reachable open state without work some steps of workers bring the pool down to min_threads, and no steps of workers bring it below |
| `PoolMemory.Pool.FinishSection` | ppdb/src/internal/infra/infra_sync.c:60-65 | the section after a task computes FinishTurn: the counter, and whether not_full is signalled |
| `PoolMemory.Pool.SubmitSection` | ppdb/src/internal/infra/infra_sync.c:341-399 | the section of a submitter computes SubmitTurn for every outcome of malloc and of thread creation, appending one node at the tail |
| `PoolTurns.SubmitOutcome` | ppdb/src/internal/infra/infra_sync.c:341-385 | a submission is not ready in a closing pool, waits at a full queue, is out of memory without a node, and otherwise its task is the last of the queue |
| `PoolTurns.SubmissionGrows` | ppdb/src/internal/infra/infra_sync.c:387-396 | an accepted submission starts a thread if and only if every counted worker is in a task, the pool is below max_threads, and the platform starts it; thread_count grows by exactly that |
| `PoolTurns.SubmissionFindsWorker` | ppdb/src/internal/infra/infra_sync.c:387-396 | so when threads can be started, after an accepted submission some worker is not in a task, or there are max_threads |
| `PoolMemory.Pool.DestroySection` | ppdb/src/internal/infra/infra_sync.c:298-301 | the section of destroy raises both flags, as the Destroy step does, and touches neither the queue nor the counters |
| `PoolLaws.ClosedAcceptsNothing` | ppdb/src/internal/infra/infra_sync.c:298-301 | once destroy has raised its flags no task is accepted any more and the flags stay, whatever the threads do |
| `PoolMemory.Pool.FreeQueue` | ppdb/src/internal/infra/infra_sync.c:318-324 | the last loop of destroy frees the leftover nodes in queue order, each once |
| `PoolProtocol.InitInv` | ppdb/src/internal/infra/infra_sync.c:265-289 | the invariant holds when create returns |
| `PoolProtocol.EnterInv` | ppdb/src/internal/infra/infra_sync.c:26-54 | a worker that waits, leaves or starts a task keeps the invariant |
| `PoolProtocol.FinishInv` | ppdb/src/internal/infra/infra_sync.c:60-65 | a worker that ends a task and signals one submitter keeps the invariant |
| `PoolProtocol.AcceptInv` | ppdb/src/internal/infra/infra_sync.c:364-399 | a submitter that queues a task, signals one worker and perhaps starts a thread keeps the invariant |
| `PoolProtocol.RefuseInv` | ppdb/src/internal/infra/infra_sync.c:344-369 | a submitter that blocks or is refused keeps the invariant |
| `PoolProtocol.StepInv` | ppdb/src/internal/infra/infra_sync.c:18-400 | every enabled step of any thread or of the platform keeps the invariant |
| `PoolProtocol.RunInv` | ppdb/src/internal/infra/infra_sync.c:18-400 | the invariant holds in every reachable state |
| `PoolLaws.Fifo` | ppdb/src/internal/infra/infra_sync.c:45-58 | exactly once, in order: submitted equals started followed by the queue until destroy discards leftovers, and the queue never exceeds queue_size |
| `PoolLaws.Counters` | ppdb/src/internal/infra/infra_sync.c:22-65 | active_count is the number of running tasks and at most thread_count; thread_count is the live workers plus those that left by the loop guard, at most max_threads, and at least min_threads while running |
| `PoolLaws.QueuedTasksAwaited` | ppdb/src/internal/infra/infra_sync.c:26-54 | while running with a sleeping worker, the queue is no longer than the workers signalled for it |
| `PoolWakeUps.CoveredStep` | ppdb/src/internal/infra/infra_sync.c:46-65 | from any reachable running state in which, with a sleeping submitter, the free slots are at most the active workers plus the woken submitters, a step keeps this bound if and only if it is not a woken submitter refused memory while another one sleeps and the bound is tight |
| `PoolWakeUps.WakeUpsHoldIff` | ppdb/src/internal/infra/infra_sync.c:349-382 | the bound holds all along a run from the start if and only if no step of the run is such a refusal |
| `PoolWakeUps.MemoryNeverStrands` | ppdb/src/internal/infra/infra_sync.c:365-369 | when every task is given memory, no run has such a step |
| `PoolLaws.NoStrandedTask` | ppdb/src/internal/infra/infra_sync.c:26-54 | while running, a queued task never faces only workers asleep in the timed wait |
| `PoolWakeUps.NoLostWakeUp` | ppdb/src/internal/infra/infra_sync.c:349-382 | while running, after a run without such a refusal, beside a free slot a sleeping submitter has an active worker or a woken submitter |
| `PoolWakeUps.BlockedSubmitterHasHope` | ppdb/src/internal/infra/infra_sync.c:349-382 | while running, after a run without such a refusal, a sleeping submitter always leaves some thread that goes on without a timeout |
| `PoolWakeUps.RefusedMemoryStrandsSubmitter` | ppdb/src/internal/infra/infra_sync.c:364-369 | a concrete run with such a refusal, at whose end a submitter sleeps beside an empty queue with no active worker and no woken submitter |
| `PoolWakeUps.DesertedSleeps` | ppdb/src/internal/infra/infra_sync.c:26-65 | from such a state no steps of workers, with any timeouts and spurious wake-ups of their own, wake a submitter |
| `PoolWakeUps.FinishWakesIff` | ppdb/src/internal/infra/infra_sync.c:60-65 | from any state with sleeping submitters the end of a task wakes exactly one of them if the queue has a free slot at that moment, and none otherwise |
| `PoolWakeUps.WokenIff` | ppdb/src/internal/infra/infra_sync.c:60-65 | no other step wakes a submitter, except the broadcast of destroy and a spurious wake-up |
| `PoolWakeUps.NextSubmissionMayWake` | ppdb/src/internal/infra/infra_sync.c:371-385 | an example: from the stranded state one run of an accepted submission wakes the sleeper |
| `PoolWakeUps.NextSubmissionMayNotWake` | ppdb/src/internal/infra/infra_sync.c:60-65 | and another one does not: a further submission fills the queue before the served task ends, which then signals nobody |
| `PoolLaws.FreedIsUnused` | ppdb/src/internal/infra/infra_sync.c:307-333 | destroy frees the pool only when every worker has returned and counted itself out |
| `PoolLaws.FreedUnderSubmitterIff` | ppdb/src/internal/infra/infra_sync.c:292-334 | a call of destroy in any reachable open state can free the pool while a submitter that called before it is still inside if and only if the pool is idle at the call and some submitter is inside |
| `PoolLaws.FreedUnderLaterCall` | ppdb/src/internal/infra/infra_sync.c:307-333 | whenever destroy can still return it can also free the pool under a submitter that calls during destroy |
| `PoolLaws.FreedUnderSubmitter` | ppdb/src/internal/infra/infra_sync.c:307-333 | a concrete run in which the pool is freed while a submitter has yet to take its mutex: destroy waits for workers only |
| `PoolLaws.DoomedForever` | ppdb/src/internal/infra/infra_sync.c:22-71 | once a worker is bound to leave by the loop guard of a closing pool, no run lets destroy return |
| `PoolLaws.UndoomedStep` | ppdb/src/internal/infra/infra_sync.c:39-43 | otherwise every step of a worker or of destroy brings the closing pool strictly nearer to its end, and no step of a submitter takes it away |
| `PoolLaws.DestroyReturnsAnyway` | ppdb/src/internal/infra/infra_sync.c:298-333 | however the threads then interleave, destroy returns after a bounded number of steps of workers and destroy, and until it does such a step is enabled |
| `PoolLaws.DestroyReturnsIff` | ppdb/src/internal/infra/infra_sync.c:298-316 | after the flags are raised destroy can return if and only if nothing was queued and no worker was running a task, about to test the loop guard, or gone by it |
| `PoolLaws.DestroyReturnsOnlyWhenIdle` | ppdb/src/internal/infra/infra_sync.c:292-334 | a call of destroy in any reachable open state can return if and only if the pool is idle at the call |
| `PoolLaws.DestroyAtOnceNeverReturns` | ppdb/src/internal/infra/infra_sync.c:292-316 | for every configuration, destroy right after create, before the first workers have tested the loop guard, cannot return |
| `ElfBytes.DecodeEncode` | ppdb/src/cosmo/test4_main.c:107-129 | a word stored in little-endian order reads back |
| `ElfBytes.LittleEndian` | ppdb/src/cosmo/test4_main.c:107-129 | the low byte of a word comes first |
| `ElfBytes.UntouchedBytes` | ppdb/src/cosmo/test4_main.c:103-146 | a list of stores changes only the bytes it covers |
| `ElfBytes.ApplyTwice` | ppdb/src/cosmo/test4_main.c:103-146 | making the same stores again changes nothing, even where they overlap |
| `ElfBytes.OrderIrrelevant` | ppdb/src/cosmo/test4_main.c:83-149 | stores that do not overlap may be made in any order and repeated |
| `ElfPass.FindSymtab` | ppdb/src/cosmo/test4_main.c:60-80 | the search loop finds the first symbol table, and reports none when no section follows it |
| `ElfReloc.SymbolMoves` | ppdb/src/cosmo/test4_main.c:91-101 | the value of a defined symbol moves with the base modulo 2^64; index 0, indexes out of range and undefined sections stay at 0 |
| `ElfReloc.StoresMove` | ppdb/src/cosmo/test4_main.c:107-129 | loaded at another base, for a defined symbol, 64, RELATIVE, 32 and 32S words move by the difference, and PC32 and PLT32 words stay the same |
| `ElfPass.StoreByType` | ppdb/src/cosmo/test4_main.c:103-146 | each relocation type makes exactly its store, unknown and undefined ones none |
| `ElfPass.NextEntry` | ppdb/src/cosmo/test4_main.c:89-147 | an entry read after any number of earlier stores still makes the store that the original tables ask for |
| `ElfPass.ProcessRelocs` | ppdb/src/cosmo/test4_main.c:47-152 | the nested loops return -1 and leave the image alone without the magic number or the two tables, and otherwise return 0 and make exactly the stores of all entries of the original image, in order |
| `ElfReloc.TablesSurvive` | ppdb/src/cosmo/test4_main.c:83-149 | while targets avoid the tables, no prefix of the stores changes a header, symbol or relocation entry |
| `ElfReloc.Idempotent` | ppdb/src/cosmo/test4_main.c:83-149 | a second pass finds the same entries and changes nothing |
| `ElfReloc.OnlyTargetsChange` | ppdb/src/cosmo/test4_main.c:83-149 | every untargeted byte is unchanged |
| `ElfReloc.AnyOrder` | ppdb/src/cosmo/test4_main.c:83-149 | with disjoint targets the stores of an image may be made in any order |
| `ElfOrder.OrderOfEntriesIrrelevant` | ppdb/src/cosmo/test4_main.c:83-149 | an image with the same relocation entries in another order, or in other sections, and the same symbol values gets the same words at all targets, and nothing else of it changes |
| `ElfReloc.SignExtension` | ppdb/src/cosmo/test4_main.c:111-125 | the stored low half, sign-extended, is the full value modulo 2^64 if and only if the value fits in signed 32 bits |
| `ElfReloc.Pc32Reaches` | ppdb/src/cosmo/test4_main.c:111-125 | the sign-extended displacement plus the address of the site reaches S + A modulo 2^64 if and only if it fits |
| `ElfSites.SitesRight` | ppdb/src/cosmo/test4_main.c:89-147 | at the end of the pass, at every site that no later entry overwrites with another word: 64 sites hold S + A, RELATIVE sites B + A, and each 32-bit site is right in the sense of the psABI if and only if its value fits |
| `ElfSites.CompatibleUnopposed` | ppdb/src/cosmo/test4_main.c:89-147 | without overlapping targets that is every site |
| `ElfFile.SymtabFound` | ppdb/src/cosmo/test4_main.c:54-80 | for any ELF header and section headers in the image, byte for byte as elf.h lays them out, the pass uses the first section of type 2, and gives up if there is none or it is the last |
| `ElfFile.SiteEnds` | ppdb/src/cosmo/test4_main.c:89-147 | for any Elf64_Rela and Elf64_Sym in the tables, byte for byte, with S the base plus st_value if st_shndx is not 0 and otherwise 0, whatever name, info and size are: a site that no later entry overwrites holds S + A, B + A, or the low half of S + A or of S + A - P, by the numbers of the types |
| `ElfFile.OtherBytesStay` | ppdb/src/cosmo/test4_main.c:89-147 | a byte over which no such entry stores is unchanged; types other than 1, 2, 4, 8, 10, 11, and 9, 41 and 42 with S not 0, store nothing |
| `ElfFile.StoresAsked` | ppdb/src/cosmo/test4_main.c:103-146 | an entry makes exactly one store at its offset, of its width and word, if its type asks for one, and none otherwise |
| `ElfFile.MagicIs` | ppdb/src/cosmo/test4_main.c:50-54 | the file is taken if and only if it starts with 0x7f and the letters ELF |
| `ElfExample.Relocates` | ppdb/src/cosmo/test4_main.c:127-129 | a concrete 224-byte image meets every condition of the pass and its laws, and its one RELATIVE site ends up holding the base |
| `ElfExample.SymbolRelocates` | ppdb/src/cosmo/test4_main.c:98-108 | a concrete 272-byte image with a symbol of value 0x401000 and size 32: its 64 site ends up holding the base plus 0x401000 |
| `ElfExample.UndefinedReaches` | ppdb/src/cosmo/test4_main.c:111-113 | a concrete image with a PC32 entry for an undefined symbol: its site leads to address 0 if and only if it is loaded in the low or the high two gigabytes |
| `ElfExample.OverflowMisses` | ppdb/src/cosmo/test4_main.c:111-113 | loaded at 2^32 it misses, and the pass reports success |
| `Buffers.Init` | ppdb/src/internal/infra/infra_core.c:378-389 | zero capacity and a failed allocation give the matching error; otherwise an empty buffer of that capacity |
| `Buffers.Buffer.Reserve` | ppdb/src/internal/infra/infra_core.c:400-414 | the contents are kept; the capacity grows only on request and on success, and the copied bytes are counted; a growing reserve keeps the bounds on capacity and copying if and only if the new capacity is at least the bytes copied so far plus the initial and the old capacity, and at most max (initial, 2 * largest size) |
| `Buffers.Buffer.MakeRoom` | ppdb/src/internal/infra/infra_core.c:420-429 | in wrapping size_t arithmetic the capacity becomes the larger of twice the old one and what is needed |
| `Buffers.Buffer.Write` | ppdb/src/internal/infra/infra_core.c:416-433 | the chunk is appended, or nothing changes; exactly when it does not fit the capacity becomes the larger of twice the old one and the new size; the bounds on capacity and copied bytes are kept |
| `Buffers.Buffer.Reset` | ppdb/src/internal/infra/infra_core.c:456-460 | the contents are empty and the bounds stay |
| `Buffers.Run` | ppdb/src/internal/infra/infra_core.c:378-433 | over every run of writes and resets the capacity is at most max (initial, 2 * the largest size the run ever reached), all reallocations together copied at most capacity - initial bytes, and a write with memory and sizes far from the limits succeeds |
| `Buffers.SinceReset` | ppdb/src/internal/infra/infra_core.c:416-460 | the contents after a run are the accepted chunks since the last reset, one after the other |
| `Buffers.ReserveByOnes` | ppdb/src/internal/infra/infra_core.c:400-414 | growing by reserve alone copies quadratically much: the bound is due to the doubling in write |

## Left out

- RbTree.RedBlackTree.Remove: after a read through a null pointer, which it reports exactly, nothing is stated about the tree or later operations.
- RbTree.RedBlackTree.Insert: keys are unbounded integers; the code only compares its 32-bit keys, so their width does not matter.
- HashTables.HashTable.Put: the wrap-around of the 64-bit size field at 2^64 entries is not modelled.
- HashTables.Create: an allocation of the buckets that succeeds is taken to have room for all of them; for capacities from 2^61 on the byte count wraps (BucketBytes), and the code would write past a smaller array.
- MemPool.MemoryPool.Free: takes null or the pointer of some block; what the code reads before a pointer that malloc never returned is not modelled.
- MemHeap.StatisticsHonest: asks that no request wraps when rounded, because a wrapped request adds its full size to current_usage; without that, RunInv states the usage modulo 2^64.
- MemHeap.RunInv: asks for a valid region: an alignment that divides the base and the 32-byte header; FirstTwoPointersFit shows that otherwise free looks for the header of one of the first two pointers in the wrong place.
- PoolWakeUps.NoLostWakeUp: asks for a run without the refusal that CoveredStep singles out; RefusedMemoryStrandsSubmitter is a run that shows why.
- PoolProtocol.StepInv: a wait that was signalled is taken not to report a timeout as well, and infra_cond_wait not to fail.
- PoolProtocol.InitInv: starts when create returns; the start of the first threads one by one, its failure path, and the unlocked updates of thread_count there are left out.
- PoolLaws.FreedIsUnused: speaks of workers; FreedUnderSubmitterIff says when destroy frees the pool under a submitter, which it is up to the caller to prevent.
- ElfPass.ProcessRelocs: asks that headers, tables and targets lie in the image and that targets avoid the tables; the code checks none of this and would touch memory outside the image.
- ElfSites.SitesRight: for the three GOT types it states that the symbol itself is reached, as the code does without a table; what the psABI asks of a global offset table is not modelled.
- Buffers.Buffer.Write: an allocation that succeeds is taken to have the bytes asked for, and then no object is as large as 2^63 bytes; MemHeap.MallocGives says when the pool's own malloc keeps this, and it serves a wrapped size with too few bytes. memcpy from a source inside the buffer is not modelled.
- Null checks of the first arguments, which return INFRA_ERROR_INVALID_PARAM or do nothing.
- Pool-mode realloc, with the split_block and allocate_from_pool that only it calls: its size accounting does not keep the tiling and the statistics that malloc and free keep.
- pool.used_size and pool_utilization: malloc adds the rounded size and free subtracts the size of the block, so they differ for a block that was not split.
- The branches of the allocator that use the system heap, calloc, creation of the mutex, initialisation and cleanup of the module.
- infra_hash_destroy and infra_rbtree_destroy, which clear and then free the container, and infra_thread_pool_get_stats.
- The list operations, string wrappers, logging, time and files of the core module, and infra_buffer_read.
- find_symbol, mapping and running the loaded file, and all printing.
- Network, platform, multiplexing, peer and command-line code, and the database stubs.
