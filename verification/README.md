# A verified model of NVFUSE

NVFUSE is an ext2-style file system in user space. This project models the parts of it
whose correctness is not visible in any single function, and proves what they promise:

* **Red-black tree** (`RbShape`, `RbMemory`, `RbTree`, `RbIndex`): `rbtree.c` as pointer
  code over heap nodes. A ghost zipper (context and focus) pictures the heap; every rotation,
  repair and splice is proved against it, for insertion and for deletion.
* **Block groups** (`BlockGroups`): bitmaps, the free counters kept twice, the wrapping bitmap
  scan, the round robin over groups, and splitting runs at group boundaries.
* **Block map of an inode** (`PointerTree`, `FileTree`, `BlockPath`, `FilePrune`, `FileCut`,
  `FileGrow`, `BlockMap`): the 11-direct/1/2/3-indirect pointer tree, read, extended and
  truncated. Truncation is proved for every pointer tree, with or without holes. A new inode,
  appending at the end and truncation keep one invariant: a valid tree without holes.
* **Directory B+tree** (`BpPairs`, `BpShape`, `BpUpdate`, `BpSplit`, `BpLeaf`, `BpFacts`,
  `BpSeen`, `BpChain`, `BpTree`, `BpStale`): search, insertion with leaf, index and root splits up the
  path stack, update and in-leaf removal refine a finite map, also with offsets left on the stack
  as long as the root is not split; what searches find when it is; occupancy, height, leaf chain.
* **Buffer cache** (`BufferLists`, `BufferCache`): get, release, eviction and the flush loop
  against a plain store of blocks.
* **Reactor task** (`ReactorRing`, `ReactorTask`): submission and completion rings under every
  interleaving of submitter, reactor core, device and waiter.
* **Directory table** (`Directory`, `DirectoryIndex`): the compact slots against the hash index,
  for directories of every size, and the index as the contents of the B+tree.
* **Container table** (`ContainerTable`): owners, locks and the free count of the control plane.
* **Extended attributes** (`Xattr`): the packed byte area as an encoding of a name-to-value map.

Object state is held in classes with the source's fields; what the fields mean is a
function or predicate that each method's contract speaks about. Ghost parameters carry
the position in a proof and are not part of the program.

Where the code does not do what one would expect, the model follows the code:

* Truncation takes the block number through `(s32)((s64)x >> 12)`, so sizes whose block count
  does not fit 32 bits cut at the wrong place. `FileCut.TruncationPoint` gives the exact
  condition, `FileCut.HugeSizesWrap` an input.
* `nvfuse_writefile_directio_core` adds all requested blocks to the file size, while
  `nvfuse_get_block` maps at most the rest of one pointer array: `BlockMap.Inode.DirectWrite`
  gives the exact condition under which no hole is left.
* Replacing an extended attribute by a shorter value is refused, since the difference of the
  lengths wraps around. `Xattr.SetSucceedsIff` gives the exact condition,
  `Xattr.ShorterValueRefused` an input.
* The keys of the dirty index are compared by signed difference, which orders them exactly
  when they are less than 2^63 apart (`RbIndex.DifferenceOrders`). For an insertion into keys that
  are that close, the comparison with the root alone decides whether the sequence stays ascending;
  the keys stay close exactly when the new one is close to all others (`RbIndex.DirtyIndex.Insert`).
* `bp_update_key_tree` and `bp_remove_key` leave the path of a missing key on the stack. Nothing
  minds, except an insertion that splits the root: a split clears the mark of the root before
  `bp_split_tree` looks at it, so that the loop goes on to the offsets left on the stack, makes no
  new root, and hangs the upper half of the old one on the node popped. What searches then find is
  stated through the descent itself (`BpSeen.Sees`). In a tree of height 1 it is the right map
  (`BpTree.Master.InsertKey`). In general, when the node popped has room, it is the right map if
  and only if that node lies on the right border of the lower half and no key lies behind its last
  one (`BpTree.StraySees`). When the node popped has room, is not on the path of the new key and
  does not belong to the two middle children of the root, nothing behind the middle is found any
  more; `BpStale.LosesKeys` is a run that loses a key of a tree of height 2. The operations on
  directory indexes open a new master each time and are not affected (`DirectoryIndex`).
* In `nvfuse_rmfile` and `nvfuse_rmdir` the result of the search is unsigned, so the test for a
  missing name never fires and block 0x7FFFFFF is read. `Directory.SlotInside` and
  `Directory.Dir.Remove`: the slot lies in the directory if and only if the name does.
* `nvfuse_make_first_directory` stores the directory's own inode in ".." as well as in ".".
  Removing either makes `nvfuse_rmfile` and `nvfuse_rmdir` read the inode that they have locked,
  and wait for themselves (`Directory.Dir.Remove`).
* Index items hold 30 bits of a slot number, fewer than `MAX_FILES_PER_DIR` allows. The index maps
  every name to its slot if and only if the directory has at most 2^30 entries
  (`Directory.ExactIff`, `Directory.Dir.Create`); a lookup through the index is right exactly below
  slot 2^30 (`Directory.LookupIsScanIff`, with the input `Directory.OneTooMany`), while
  `nvfuse_find_existing_dentry` is right in every directory (`Directory.Dir.FindExisting`).
* `nvfuse_createfile` does not ask whether the name is there: the directory stays in order exactly
  when neither the name nor its key is in use (`Directory.Dir.Create`).
* When no buffer is unused or clean, `nvfuse_replace_buffer_cache` flushes the dirty ones and then
  looks for a victim among the dirty ones, of which there are none left (`BufferCache.Cache.Get`).
* The container table does not refuse a lock on a container that nobody owns, nor a release by core
  0; `ContainerTable.Table.Acquire`, `Release` and `ReleaseByCore` say exactly when it stays in
  order, `ContainerTable.LockedAndFree` shows a search that would not end.

`dafny verify dfyconfig.toml` checks the whole project.

## Model

| member | source | states |
|---|---|---|
| RbShape.PlugInorder | rbtree.c:41-80 | the in-order sequence of a whole tree is what comes before the focus, the focus, and what comes after, so a change at the focus is a change in the middle |
| RbShape.HeightIsLogarithmic | rbtree.c:83-140 | a red-black tree of n nodes has height at most 2*log2(n+1) |
| RbShape.PlugBalanced | rbtree.c:83-140 | a balanced subtree in a context that expects its black height gives a red-black tree |
| RbShape.LeftRecolorBalanced | rbtree.c:93-102 | recolouring parent, uncle and grandparent moves a red-red conflict two levels up without changing black heights |
| RbShape.LeftRepairBalanced | rbtree.c:103-115 | the one or two rotations of a left repair give a balanced subtree of the same black height |
| RbShape.RightRepairBalanced | rbtree.c:116-137 | the same on the right |
| RbShape.LeftDeficitMovesUp | rbtree.c:158-163 | painting the sibling red moves a missing black node to the parent, and keeps the order |
| RbShape.LeftRepaidBalanced | rbtree.c:164-178 | the final rotations of an erase repair pay the missing black node back |
| RbShape.LeftRaisedFits | rbtree.c:150-157 | rotating a red sibling up keeps all black heights and exposes a black sibling |
| RbShape.MovedSuccessor | rbtree.c:214-244 | putting the successor in place of the erased node gives the old sequence minus that node |
| RbMemory.LeftRotationPictures | rbtree.c:41-60 | the pointer writes of a left rotation turn the heap picture of a tree into the picture of the rotated tree |
| RbMemory.RightRotationPictures | rbtree.c:62-80 | the same for a right rotation |
| RbMemory.SplicedPictures | rbtree.c:214-244 | the pointer writes that replace a node by its successor give the picture of the spliced tree, also when the successor is its right child |
| RbTree.Root.RotateLeft | rbtree.c:41-60 | parent, child and root links after a left rotation, for every place in a tree |
| RbTree.Root.RotateRight | rbtree.c:62-80 | the same for a right rotation |
| RbTree.Root.LinkNode | include/rbtree.h:204-211 | a red leaf hangs where the search ended |
| RbTree.Root.RepairLeft | rbtree.c:89-115 | one round of insertion repair: the conflict is gone or two levels higher, the sequence is the same |
| RbTree.Root.RepairRight | rbtree.c:116-137 | the mirror image |
| RbTree.Root.InsertColor | rbtree.c:83-140 | from one red-red conflict to a red-black tree with the same in-order sequence |
| RbTree.Root.ExposeLeft | rbtree.c:148-157 | the sibling of a deficient subtree becomes black |
| RbTree.Root.RepairHoleLeft | rbtree.c:142-178 | one round of erase repair on the left: done, or the deficit is higher up |
| RbTree.Root.RepairHoleRight | rbtree.c:179-203 | the mirror image |
| RbTree.Root.EraseColor | rbtree.c:142-206 | from one missing black node to a red-black tree with the same in-order sequence |
| RbTree.Root.SpliceAt | rbtree.c:214-244 | successor and hole after the splice |
| RbTree.Root.EraseOneChild | rbtree.c:245-269 | erasing a node with at most one child |
| RbTree.Root.EraseTwoChildren | rbtree.c:213-244 | erasing a node with two children |
| RbTree.Root.EraseAt | rbtree.c:208-270 | erasing any node of a valid tree yields a valid one whose in-order sequence is the old one minus that node, with consistent parent links |
| RbIndex.DifferenceOrders | nvfuse_buffer_cache.c:806-814 | the signed 64-bit difference orders two keys if and only if they are less than 2^63 apart |
| RbIndex.DirtyIndex.Search | nvfuse_buffer_cache.c:822-842 | finds the node with the key, or there is none, for every u64 key |
| RbIndex.DirtyIndex.FindSlot | nvfuse_buffer_cache.c:801-815 | finds the key, or the free place that the comparisons lead to: the right one exactly if the first comparison is right |
| RbIndex.DirtyIndex.Insert | nvfuse_buffer_cache.c:799-820 | a new key goes into the contents, a present one changes nothing; the tree stays red-black; the sequence stays ascending if and only if the signed difference to the root is the true one; the keys stay less than 2^63 apart if and only if the new one is so |
| RbIndex.DirtyIndex.Erase | rbtree.c:208-270 | the contents lose exactly the node; the tree stays red-black |
| RbIndex.DirtyIndex.First | rbtree.c:343-353 | the first of the sorted contents |
| RbIndex.DirtyIndex.Last | rbtree.c:355-365 | the last of the sorted contents |
| RbIndex.DirtyIndex.Next | rbtree.c:367-393 | the element behind the given one |
| RbIndex.DirtyIndex.Prev | rbtree.c:395-417 | the element before the given one |
| RbIndex.DirtyIndex.Walk | rbtree.c:343-393 | rb_first and rb_next enumerate exactly the sorted contents |
| BlockGroups.MakeDescriptor | nvfuse_mkfs.c:163-193 | the place and size of the descriptor, the two bitmaps, the inode table and the data area of a group: each begins where the one before it ends, the last ends with the group; 4096 inode blocks, 32768 blocks, of which those of the data area are counted free |
| BlockGroups.OneUse | nvfuse_mkfs.c:163-193 | every block of a group has exactly one use: descriptors, one of the bitmaps, the table block of one inode, or one data block; the data blocks are those from 4100 on |
| BlockGroups.ClearCounts | nvfuse_core.c:2388-2445 | what the counters are compared with is the number of elements of the set of clear bits |
| BlockGroups.Superblock.Format | nvfuse_mkfs.c:385-420 | after formatting only metadata and the root block are taken and both counters agree with the bitmaps |
| BlockGroups.Superblock.TakeRootBlock | nvfuse_mkfs.c:60-82 | the root directory's block is taken from the bitmap and from both counters |
| BlockGroups.Superblock.WriteDescriptors | nvfuse_mkfs.c:211-250 | every group starts with all its data blocks counted free, and the superblock with their sum |
| BlockGroups.Superblock.ReserveMetadata | nvfuse_mkfs.c:280-316 | exactly the blocks before the data area are marked taken |
| BlockGroups.Superblock.ScanGroup | nvfuse_core.c:2404-2432 | the wrapping scan takes min(n, clear bits) distinct data blocks that were clear, despite its jump over the metadata |
| BlockGroups.Superblock.AllocInGroup | nvfuse_core.c:2388-2445 | the same with both free counters and the used counter in step |
| BlockGroups.Superblock.AllocBlocks | nvfuse_indirect.c:218-289 | the round robin takes min(n, free blocks) distinct free data blocks and ends; it begins in the group of the inode, or in the group used last when the inode is that of the last call; the blocks come in cyclic order of their groups, and a group is passed only when nothing is free in it |
| BlockGroups.RoundsIs | nvfuse_indirect.c:243-288 | the distance that orders the groups: r steps of bg = (bg + 1) % groups lead from the first group to the one at distance r |
| BlockGroups.Superblock.FreeInGroup | nvfuse_core.c:2447-2504 | a range of one group is cleared, counters in step |
| BlockGroups.Superblock.FreeRun | nvfuse_core.c:697-725 | a run is split where it crosses into another group: every bit of it cleared once, no other touched |
| BlockGroups.Superblock.FreeBlocks | nvfuse_core.c:697-725 | the same for data blocks; free plus used stays the size of the volume |
| BlockGroups.Superblock.FreeNonNegative | nvfuse_core.c:623-652 | counters never go negative, and no free block anywhere means the sum is 0 |
| BlockPath.PathOfBlock | nvfuse_indirect.c:106-143 | a block number leads to a bounded full path and back |
| BlockPath.BlockOfPath | nvfuse_indirect.c:106-143 | every full path comes from exactly one block number |
| BlockPath.PathsOrdered | nvfuse_indirect.c:106-143 | block numbers and paths are ordered alike, so the paths are distinct |
| BlockPath.Borders | nvfuse_indirect.c:106-143 | the first and last block numbers of each depth and their paths, in numbers; none for negative and too big ones |
| BlockPath.BoundaryCounts | nvfuse_indirect.c:140-141 | the next `boundary` blocks use the next slots of the same array |
| BlockPath.BoundaryEnds | nvfuse_indirect.c:140-141 | the block after them is the first of its array |
| PointerTree.Store | nvfuse_indirect.c:523-530 | storing a pointer deep in a tree exchanges exactly the blocks below that slot |
| FileTree.FileStorePtr | nvfuse_indirect.c:523-530 | after a store, paths through the slot lead into the new subtree and all others where they did |
| FileTree.FileFrame | nvfuse_indirect.c:824-860 | pointer blocks outside a file may change freely |
| FilePrune.PruneRange | nvfuse_indirect.c:824-860 | clearing a range of one pointer array removes exactly what hangs below it |
| FileCut.NothingLeftBelow | nvfuse_indirect.c:774-789 | where nvfuse_find_shared stops, nothing before the cut hangs on the part it gives up |
| FileCut.CutMaps | nvfuse_indirect.c:864-947 | cutting there unmaps the cut and everything after it, and nothing before |
| FileCut.CutStaysLean | nvfuse_indirect.c:788-801 | no pointer block without data is left behind |
| FileCut.SurvivorsAreNeeded | nvfuse_indirect.c:864-947 | a block survives if and only if it lies on the way to data before the cut |
| FileCut.TruncationPoint | nvfuse_indirect.c:875-880 | truncation cuts where the size says if and only if the block count fits 32 bits or wraps beyond the largest file |
| FileCut.HugeSizesWrap | nvfuse_indirect.c:875-880 | truncating to 2^44 bytes drops everything |
| FileGrow.AppendAllowed | nvfuse_indirect.c:450-466 | appending at the first unmapped block of a hole-free file never violates assert(!offsets[n]) |
| FileGrow.MissingOnBranch | nvfuse_indirect.c:628-634 | the pointer blocks to be allocated are those missing on the way to the block |
| FileGrow.AppendKeepsHoleFree | nvfuse_indirect.c:574-671 | appending keeps a file free of holes |
| FileGrow.TruncateKeepsHoleFree | nvfuse_indirect.c:864-947 | truncating keeps a file free of holes |
| FileGrow.MappedOnce | nvfuse_indirect.c:574-671 | no two logical blocks share a block |
| FileGrow.NewBranchPtr | nvfuse_indirect.c:443-496 | the new branch leads along zero offsets to the new data, and nowhere else |
| FileGrow.Fill | nvfuse_indirect.c:529-541 | filling free slots of an array adds exactly the new blocks and mappings |
| FileGrow.GraftGrows | nvfuse_indirect.c:523-554 | hanging a new branch on a free slot maps exactly its data |
| BlockMap.Inode.FreeData | nvfuse_indirect.c:697-728 | coalescing pointers into runs frees every non-zero pointer once and nothing else |
| BlockMap.Inode.FreeBranches | nvfuse_indirect.c:824-860 | all data and pointer blocks below an array of branches are freed, each once |
| BlockMap.Inode.GetBranch | nvfuse_indirect.c:181-216 | the pointers along a path up to the first zero |
| BlockMap.Inode.AllZeroes | nvfuse_indirect.c:678-684 | whether the start of an array is all zeroes |
| BlockMap.Inode.FindCut | nvfuse_indirect.c:773-789 | the last level that must survive: nothing before the cut below it, something before the cut in it |
| BlockMap.Inode.FindShared | nvfuse_indirect.c:764-810 | the same, with the top of the rest detached unless the clearing of the array's end will take it |
| BlockMap.Inode.FreeEnd | nvfuse_indirect.c:906-912 | clearing the end of one array of the shared branch |
| BlockMap.Inode.TrimBranch | nvfuse_indirect.c:906-915 | everything after the branch at every level is gone |
| BlockMap.Inode.FreeIndirects | nvfuse_indirect.c:916-942 | the fall-through kills the remaining whole subtrees |
| BlockMap.Inode.Truncate | nvfuse_indirect.c:864-947 | for every tree: mappings before the cut are kept, all others are gone, exactly the blocks no longer reached are freed, no block is shared; for sizes below 2^44 less a block, block b stays mapped if and only if b * 4096 is less than the size; a file without empty pointer blocks keeps exactly the blocks it needs |
| BlockMap.ShrunkIs | nvfuse_indirect.c:864-947 | bit by bit: a block is taken after a truncation if and only if it was, and was not the file's or still is |
| BlockMap.Inode.ReturnBlocks | nvfuse_indirect.c:291-299 | blocks taken by a failed allocation are given back |
| BlockMap.Inode.AllocFreeBlocks | nvfuse_indirect.c:301-358 | all the blocks asked for, or none and the bitmap as before |
| BlockMap.Inode.BlksToAllocate | nvfuse_indirect.c:373-398 | the longest run of free slots within the limit and the array |
| BlockMap.Inode.BuildBranch | nvfuse_indirect.c:443-496 | new pointer blocks linked to each other and to the data |
| BlockMap.Inode.Splice | nvfuse_indirect.c:523-554 | the missing link and further data pointers are stored |
| BlockMap.Inode.CountMapped | nvfuse_indirect.c:597-624 | the longest run that lies together on disk |
| BlockMap.Inode.Extend | nvfuse_indirect.c:425-554 | maps exactly `num` new logical blocks to distinct blocks that were free, changes no other mapping, keeps the tree free of sharing; too few free blocks change nothing |
| BlockMap.Inode.GetBlock | nvfuse_indirect.c:574-671 | lookup returns the mapped run, blocks that lie together from the reported one on; with create the new run is mapped, no other block is mapped differently, and the reported block is the one mapped at lblock; it fails if and only if the missing pointer blocks and the run exceed the free blocks; errors change nothing |
| BlockMap.MappedRunIs | nvfuse_indirect.c:597-624 | the run found ends only at the limit, the end of the array or the first block that does not follow on disk |
| BlockMap.UnmappedRunIs | nvfuse_indirect.c:373-398 | the run to be allocated is unmapped and ends only at the limit, the end of the array or the first mapped block |
| BlockMap.AppendedIs | nvfuse_indirect.c:425-554 | each logical block of the run, and no other, is mapped to a block of its own that was free and is now taken; no other bit has changed |
| BlockMap.Inode.Append | nvfuse_indirect.c:574-671 | appending at the end of a file without holes is always allowed and leaves a valid file without holes; how many blocks it maps, and when it fails |
| BlockMap.Inode.DirectWrite | nvfuse_api.c:1108-1119 | after a direct write behind the end the file has no holes up to its new size if and only if the blocks fit into the array of the first one |
| BlockMap.Inode.Preallocate | nvfuse_api.c:2728-2755 | the loop of nvfuse_fallocate keeps a file without holes and stops short only at the end of the block range, or when the free blocks are fewer than the next append needs |
| BlockMap.Inode.Shorten | nvfuse_indirect.c:864-947 | truncating a valid file without holes leaves one |
| BlockMap.Inode.constructor | nvfuse_core.c:322-329 | a new inode is valid and maps nothing |
| BpPairs.BinSearch | nvfuse_bp_tree.c:423-455 | with the leaf comparison the position of the key or -1; with the index comparison the one interval that holds it |
| BpPairs.MergeKey | nvfuse_bp_tree.c:1815-1838 | the pair goes to its place in ascending order, using the unused pair behind |
| BpPairs.BubbleSort | nvfuse_bp_tree.c:1913-1940 | a permutation in ascending order, the identity on what ascends already |
| BpPairs.CollectOthers | nvfuse_bp_tree.c:757-764 | the parent's pairs without the split child, and its key; all pairs when it is not there |
| BpPairs.ClearAndCollect | nvfuse_bp_tree.c:630-702 | the parent's pairs without the split leaf |
| BpPairs.MergeTwo | nvfuse_bp_tree.c:704-705 | two merges put both halves in the place of the split child |
| BpShape.RouteBounds | nvfuse_bp_tree.c:1280-1324 | exactly one child's interval holds a key, the advisory last key notwithstanding |
| BpShape.Widen | nvfuse_bp_tree.c:704-705 | a subtree stays valid when its interval is extended downwards |
| BpUpdate.Lift | nvfuse_bp_tree.c:992-998 | a change at any depth of a key's path makes the whole tree valid again, with exactly that change |
| BpSplit.ParentEntries | nvfuse_bp_tree.c:743-786 | the pairs the parent of a split child needs, with all children in their intervals |
| BpSplit.NoOverflow | nvfuse_bp_tree.c:595-598 | if they fit, the parent is valid again |
| BpSplit.Overflow | nvfuse_bp_tree.c:552-605 | if not, the two halves are valid below and above the median |
| BpLeaf.LeafHalved | nvfuse_bp_tree.c:655-669 | a full leaf and one pair more make two valid leaves |
| BpFacts.HeldOnce | nvfuse_bp_tree.c:1387-1418 | a key is stored once in the whole tree |
| BpFacts.HeldOnPath | nvfuse_bp_tree.c:1387-1407 | only the leaf the search reaches can hold the key |
| BpFacts.MapPut | nvfuse_bp_tree.c:945-1009 | one pair exchanged is one update of the map |
| BpFacts.Room | nvfuse_bp_tree.c:552-583 | a subtree of height h needs an interval of at least 169^h keys |
| BpFacts.Shallow | nvfuse_bp_tree.c:1762-1775 | the u64 key space bounds the height by 9, so the 128-entry stack cannot overflow |
| BpSeen.EndsOnce | nvfuse_bp_tree.c:1326-1339 | a search ends in one leaf at most, whatever the shape of the tree |
| BpSeen.SubFinds | nvfuse_bp_tree.c:1308-1339 | a descent through a valid subtree ends in a leaf and finds exactly the pairs held |
| BpSeen.HungFinds | nvfuse_bp_tree.c:1308-1339 | what a descent finds after a subtree has been hung behind the children of one node |
| BpSeen.RehungSees | nvfuse_bp_tree.c:751-797 | with the upper half of a root hung on one of its nodes, searches see all pairs if and only if that node is on the right border of the lower half, with no key behind its last one |
| BpChain.LinkedAfter | nvfuse_bp_tree.c:671-687 | linking a new leaf behind another keeps next and prev consistent |
| BpChain.LeavesDistinct | nvfuse_bp_tree.c:671-687 | no leaf occurs twice in the chain |
| BpChain.LeavesAscend | nvfuse_bp_tree.c:671-687 | the leaves from left to right hold all pairs of the tree, keys ascending |
| BpChain.ChainAscends | nvfuse_bp_tree.c:671-687 | following the next links from the leaf where a search for the least key ends meets every leaf once and lists all pairs, keys ascending |
| BpTree.ChainListsContents | nvfuse_bp_tree.c:671-687 | in every sound tree that list is the contents, of m_key_count pairs |
| BpTree.Master.constructor | nvfuse_bp_tree.c:371-398 | an empty map |
| BpTree.Master.NextNode | nvfuse_bp_tree.c:1308-1324 | the child whose interval holds the key |
| BpTree.Master.Traverse | nvfuse_bp_tree.c:1326-1339 | the leaf for the key; the index nodes passed go on top of what was on the stack |
| BpTree.Master.Search | nvfuse_bp_tree.c:1387-1418 | found if and only if the map has the key, from any stack |
| BpTree.Master.FindKey | nvfuse_bp_tree.c:863-879 | exactly the mapped item, or absent, from any stack; the stack is empty afterwards |
| BpTree.Master.UpdateKey | nvfuse_bp_tree.c:881-903 | a present key gets the new item, a missing one changes nothing but the stack; the stack is empty afterwards if and only if the key was present, or the root is a leaf and the stack was empty |
| BpTree.Master.RemoveKey | nvfuse_bp_tree.c:1420-1470 | the map loses the key, when its leaf stays non-empty or is the root; a missing key leaves the stack as a failed update does |
| BpTree.Master.DropPair | nvfuse_bp_tree.c:1439-1443 | the pairs behind move up, the last is cleared |
| BpTree.Master.InsertInLeaf | nvfuse_bp_tree.c:917-943 | a leaf with room |
| BpTree.Master.SplitIndexNode | nvfuse_bp_tree.c:586-605 | the index node is valid again, or split at its median; off the path of the key, which nodes are written and with what |
| BpTree.Master.LinkLeaf | nvfuse_bp_tree.c:671-687 | next and prev of the leaf, its new neighbour and the leaf behind |
| BpTree.Master.SplitLeaf | nvfuse_bp_tree.c:607-669 | a full leaf becomes two |
| BpTree.Master.MergeLeaves | nvfuse_bp_tree.c:695-705 | the parent's pairs with both leaves |
| BpTree.Master.MergeSplit | nvfuse_bp_tree.c:751-777 | on the path of the key, the parent's pairs with both halves of an index node, the upper key being the larger of the two candidates; off the path, the upper half behind the pairs of a node that lies before it |
| BpTree.Master.SplitRoot | nvfuse_bp_tree.c:801-842 | a new root over the halves of the old one |
| BpTree.Master.SplitTree | nvfuse_bp_tree.c:720-850 | the whole tree valid again with the new pair, after splits up to any level; stray if and only if all nodes on the path were full and the stack held more than the path: then the halves of the root, and the node popped |
| BpTree.Master.Climb | nvfuse_bp_tree.c:736-797 | the loop up the stack: along the path of the key, and beyond it exactly when the root was split and the stack is not empty, where the upper half is hung on the node popped if that has room |
| BpTree.StraySees | nvfuse_bp_tree.c:751-797 | after that, searches see the map with the new pair if and only if the node popped is on the right border of the lower half, with no key behind its last one |
| BpTree.StrayLoses | nvfuse_bp_tree.c:751-797 | a node popped away from the middle of the root: no key behind the middle is found |
| BpTree.Master.AddRootNode | nvfuse_bp_tree.c:457-539 | a full root leaf becomes an index node over two leaves |
| BpTree.Master.InsertKey | nvfuse_bp_tree.c:945-1009 | the map gets the pair; an existing key is reported and overwritten only on request; the tree stays valid if and only if the stack was empty or the root is not split; searches see the new map in those cases and at height 1, and nothing behind the middle of a higher tree when the stack ends with a node away from the middle; nodes other than the root stay half full in insert-only histories |
| BpStale.UpdateThenInsert | nvfuse_bp_tree.c:720-850 | a failed update and then an insertion that splits the root: the right map at height 1, nothing behind the middle when the failed key belongs to a node away from it |
| BpStale.TreeReady | nvfuse_bp_tree.c:786-797 | a valid tree of height 2 where this happens |
| BpStale.LosesKeys | nvfuse_bp_tree.c:720-850 | a run on it after which a key of the old contents is not found |
| BufferLists.MovedOk | nvfuse_buffer_cache.c:38-59 | moving a buffer keeps every buffer on exactly one list and each count equal to its list's length |
| BufferLists.ListsMean | nvfuse_buffer_cache.c:38-59 | every buffer is at exactly one place of all lists, on the list of its kind, and each count is the length of its list |
| BufferLists.MovedTo | nvfuse_buffer_cache.c:38-59 | a moved buffer is the first, or the last, of its new list; the lists of other kinds stay |
| BufferCache.EvictKeeps | nvfuse_buffer_cache.c:102-161 | giving a clean buffer to another key changes no block a reader sees |
| BufferCache.Cache.TakeVictim | nvfuse_buffer_cache.c:102-161 | the victim is the last unused buffer, or else the last clean one, never a dirty one |
| BufferCache.Cache.Miss | nvfuse_buffer_cache.c:203-240 | the victim becomes the held, empty buffer of the key, at the head of its list |
| BufferCache.Cache.Hit | nvfuse_buffer_cache.c:189-240 | the cached buffer is held, at the head of its list |
| BufferCache.Cache.Get | nvfuse_buffer_cache.c:305-348 | a reader gets the bytes last released dirty for the key, through hits, misses, evictions and flushes; it fails exactly when the key is new and no buffer is unused or clean |
| BufferCache.Cache.Release | nvfuse_buffer_cache.c:910-934 | releasing dirty is a write to the plain store, releasing clean is none; the buffer goes to the head of the dirty or clean list, or to its end, and the other lists stay |
| BufferCache.Cache.Forget | nvfuse_buffer_cache.c:456-476 | a dropped buffer leaves the block on disk, and heads the unused list |
| BufferCache.Cache.Collect | nvfuse_core.c:2848-2866 | the first min(512, all) dirty buffers, in reverse order on the flushing list; the others stay in order |
| BufferCache.Cache.SyncDirty | nvfuse_core.c:951-1016 | every flushing buffer reaches its block |
| BufferCache.Cache.Finish | nvfuse_core.c:2871-2888 | flushed buffers become clean, in reverse order at the head of the clean list |
| BufferCache.Cache.FlushDirtyData | nvfuse_core.c:2834-2893 | ends with empty dirty and flushing lists and the disk equal to the plain store, except for buffers held meanwhile |
| ReactorRing.WindowPut | nvfuse_reactor.c:144-164 | storing at the head appends to the queue, also across the wrap |
| ReactorRing.WindowGet | nvfuse_reactor.c:123-142 | reading at the tail takes the first of the queue |
| ReactorRing.Ring.IsFull | nvfuse_reactor.c:81-108 | full with one slot less than the ring has |
| ReactorRing.Ring.Size | nvfuse_reactor.c:94-121 | the length of the queue |
| ReactorRing.Ring.Put | nvfuse_reactor.c:144-189 | FIFO put, refused when full |
| ReactorRing.Ring.Get | nvfuse_reactor.c:123-142 | FIFO get |
| ReactorRing.Ring.GetMany | nvfuse_reactor.c:326-334 | up to max requests, in order |
| ReactorTask.NextKeeps | nvfuse_reactor.c:275-343 | no step of anybody finds a ring full; order of submission and of completion is kept; nothing is lost or doubled |
| ReactorTask.SomebodyMoves | nvfuse_reactor.c:320-324 | while the waiter waits, somebody can move |
| ReactorTask.RunsAreShort | nvfuse_core.c:920-929 | every run ends, after at most four steps per request |
| ReactorTask.EachOnce | nvfuse_core.c:920-929 | the wait loop ends with each submitted request exactly once |
| ReactorTask.NamedIs | nvfuse_reactor.c:43-67 | on every run, completion after completion, the request that the device has finished is the one reported |
| ReactorTask.Task.SubmitOne | nvfuse_reactor.c:281-292 | the first request not submitted goes to the end of the SQ, and nothing else moves |
| ReactorTask.Task.FetchOne | nvfuse_reactor.c:538-545 | the first request of the SQ becomes the last the device holds, and nothing else moves |
| ReactorTask.Task.CompleteOne | nvfuse_reactor.c:166-189 | the request completed, any that the device holds, goes to the end of the CQ, exactly it is taken from the device, and nothing else moves; a full ring is noticed |
| ReactorTask.Task.ReapSome | nvfuse_core.c:925-927 | a round of the waiter moves what is in the CQ, up to what is missing, in order |
| ReactorTask.Task.Drive | nvfuse_reactor.c:275-343 | on every schedule the rings go through the states of the queues, and what the waiter gets are the requests that the completions named, in their order |
| Directory.Dir.constructor | nvfuse_api.c:1647-1680 | a directory with its two first entries, both for its own inode |
| Directory.Dir.FindEmpty | nvfuse_core.c:2569-2645 | the slot behind the last one in use, in a new block when all are full |
| Directory.Dir.SetIndex | nvfuse_core.c:727-772 | a reader of a new key gets the slot modulo 2^30, one of a used key gets 0; the collision count goes up modulo 4; other keys are untouched |
| Directory.Dir.GetIndex | nvfuse_core.c:774-815 | the slot of a key, 0 after a collision |
| Directory.Dir.DelIndex | nvfuse_core.c:861-903 | a key without collisions goes, another loses one collision, a missing one changes nothing |
| Directory.SetThenDrop | nvfuse_core.c:727-903 | storing a slot and deleting it again leaves the index as it was for a new key, the collision count for one with fewer than three collisions, and all other keys |
| Directory.ExactIff | nvfuse_core.c:744-750 | the index maps each name to precisely its slot if and only if the directory has at most 2^30 entries |
| Directory.Dir.FindExisting | nvfuse_core.c:2648-2698 | the slot a scan of all entries finds, in directories of every size, or 0xFFFFFFFF |
| Directory.Dir.Lookup | nvfuse_api.c:467-511 | the four outcomes of a lookup through the index |
| Directory.LookupIsScanIff | nvfuse_api.c:467-511 | lookup through the index equals the scan if and only if the name is ordinary and its slot below 2^30, or it is missing and its key unused |
| Directory.BeyondTheLimit | nvfuse_api.c:467-511 | every name from slot 2^30 on is taken for a collision or an inconsistency |
| Directory.OneTooMany | nvfuse_api.c:1262-1266 | a directory in order with 2^30 + 1 names of eight letters, the last of which is not found |
| Directory.Dir.Create | nvfuse_api.c:1237-1355 | one entry more at the end; slots compact, pointer, size and index in step if and only if name and key are new; the index exact if and only if there were fewer than 2^30 entries |
| Directory.Dir.CloseGap | nvfuse_api.c:1357-1421 | the last entry moves into the gap, in the table and in the index |
| Directory.SlotInside | nvfuse_api.c:1436-1443 | the slot read lies inside the directory if and only if the name is in it; a missing name passes the guard as block 0x7FFFFFF |
| Directory.Dir.Remove | nvfuse_api.c:1423-1619 | for every name: outside the directory exactly for a missing one, stuck exactly for "." and "..", removed exactly when it is there and rmfile meets a file, or rmdir a directory other than the root with at most two links; then exactly the entry is gone, its place taken by the last one; slots stay compact, pointer, size and index in step; in every other case nothing changes |
| Directory.RemoveDirectory | nvfuse_api.c:1525-1619 | a directory that is there is removed if and only if it is not the root and has no names but "." and ".."; its name is then gone |
| Directory.DirMeans | nvfuse_api.c:1237-1355 | a directory in order in numbers: which slots are in use, the size, unique names, and the index holding every ordinary name at its slot modulo 2^30 and no other key |
| DirectoryIndex.SetIndexing | nvfuse_core.c:727-772 | on the B+tree what Directory.Dir.SetIndex does to a map |
| DirectoryIndex.GetIndexing | nvfuse_core.c:774-815 | on the B+tree what Directory.Dir.GetIndex does to a map |
| DirectoryIndex.DelIndexing | nvfuse_core.c:861-903 | on the B+tree what Directory.Dir.DelIndex does to a map |
| ContainerTable.Table.constructor | nvfuse_control_plane.c:727-781 | all containers but the first are free |
| ContainerTable.Table.FindFree | nvfuse_control_plane.c:818-823 | the search ends, at the first container behind the last allocated one that nobody owns |
| ContainerTable.Table.FindOwned | nvfuse_control_plane.c:836-848 | the first unlocked container of the core behind the last allocated one, or 0 if there is none |
| ContainerTable.Table.AllocNew | nvfuse_control_plane.c:805-834 | 0 if and only if none is free, held containers stay as they are; the table stays in order if and only if the status asked for is no lock |
| ContainerTable.Table.AllocOwned | nvfuse_control_plane.c:835-867 | 0 if and only if the core has no unlocked container; held containers stay as they are; stops exactly when it comes to container 0 |
| ContainerTable.Table.Release | nvfuse_control_plane.c:869-893 | succeeds exactly for the owner of a container that is not held, else -1 and nothing changes; held containers stay as they are; the exact condition under which the table stays in order |
| ContainerTable.Table.ReleaseByCore | nvfuse_control_plane.c:895-924 | releases the containers of the core before the first held one; held containers stay as they are; the free count stays right if and only if core 0 does not clear free ones |
| ContainerTable.Table.Acquire | nvfuse_control_plane.c:926-960 | a writer is alone, readers share; the table stays in order if and only if the container has an owner |
| ContainerTable.Table.ReleaseReservation | nvfuse_control_plane.c:962-986 | one holder less, unlocked after the last |
| ContainerTable.AcquireThenRelease | nvfuse_control_plane.c:926-986 | a release undoes an acquisition: table and count are as before, and the acquisition was one that was free to be made |
| ContainerTable.TableMeans | nvfuse_control_plane.c:727-781 | a table in order: the count is that of the containers without owner, container 0 is the control plane's, and lock states and reference counts agree |
| ContainerTable.LockedAndFree | nvfuse_control_plane.c:815-823 | a locked container without owner counts as free and is never found |
| Xattr.LeRoundTrip | nvfuse_xattr.c:33-41 | the u32 lengths read back |
| Xattr.EntryBytes | nvfuse_xattr.c:33-41 | the bytes of one entry, written out |
| Xattr.EntryAt | nvfuse_xattr.c:33-41 | what the cursor reads at an entry |
| Xattr.EndAt | nvfuse_xattr.c:28-41 | a zero terminator stays inside the area |
| Xattr.PackedOnce | nvfuse_xattr.c:33-41 | the bytes determine the attributes |
| Xattr.SetSucceedsIff | nvfuse_xattr.c:145-187 | set succeeds if and only if name and value have allowed lengths, the result fits into 3968 bytes and an existing value does not get shorter |
| Xattr.SetLimits | nvfuse_xattr.c:80-127 | the limits in numbers: names of 1 to 256 bytes, values of 1 to 512, and 10 bytes more for each new attribute, of 3968 |
| Xattr.ShorterValueRefused | nvfuse_xattr.c:180-187 | a shorter value is refused although there is room |
| Xattr.SetIsUpdate | nvfuse_xattr.c:129-216 | a successful set is a map update |
| Xattr.RemoveIsDelete | nvfuse_xattr.c:322-336 | a successful remove is a map deletion |
| Xattr.Area.FindEntry | nvfuse_xattr.c:136-143 | the entry with the name, or the end |
| Xattr.Area.FindLast | nvfuse_xattr.c:168-172 | the end of the entries |
| Xattr.Area.RemoveEntry | nvfuse_xattr.c:189-197 | the bytes encode the attributes without that one |
| Xattr.Area.WriteEntry | nvfuse_xattr.c:204-209 | the bytes encode the attributes and the new one |
| Xattr.Area.Set | nvfuse_xattr.c:80-216 | set on the bytes, and nothing changed when it fails |
| Xattr.Area.Remove | nvfuse_xattr.c:269-336 | remove on the bytes, and nothing changed when it fails |
| Xattr.Area.Get | nvfuse_xattr.c:388-445 | name and value with their zeros, ERANGE when the buffer is too small |
| Xattr.Area.List | nvfuse_xattr.c:511-532 | all names in order, or as many as fit and -1 |
| Xattr.NameListed | nvfuse_xattr.c:511-532 | in the list each name stands behind those before it, with a zero behind it, and nothing else |

## Left out

- Locks, buffer heads, reference counts of buffers inside truncation, mempools, SPDK/DPDK and IPC calls: plumbing; sections under a lock are single steps and device I/O succeeds.
- bp_redist_data_child and bp_merge_key_tree (a leaf that becomes empty): line 1227 of nvfuse_bp_tree.c looks at a node that was released; removal is modelled for leaves that stay non-empty and for a root leaf.
- bp_alloc_bitmap: new B+tree nodes get consecutive offsets.
- B+tree key 0, which marks an unused pair; nvfuse_lookup_linear, the fallback after a collision.
- BpTree.Master.InsertKey: with offsets left on the stack, a root split and a height above 1, nothing is said about searches when the node on top of the stack is full and not on the path of the key.
- BpTree.Master.RemoveKey: requires the leaf to keep a pair, because the merge of leaves is not modelled.
- DirectoryIndex.DelIndexing: requires the leaf to keep a pair, as RemoveKey does.
- Directory.Dir.Create: a new directory block is always available; inode allocation is not modelled.
- Directory.Dir.Remove: what the inode of the entry shows is a parameter; removal of the inode itself is not modelled. Of the locks only that of the directory itself is.
- BlockMap.Inode.GetBlock: returns the blocks taken as an extra result; maxblocks 0 is excluded where pointer blocks are missing, because the source then asserts on an array of length 0; verify_chain cannot fail in one thread; running out of space returns -1 and gives everything back, as the code after assert(0) does.
- BlockMap.Inode.Preallocate: starts at most at the end of the file; beyond it nvfuse_alloc_branch may assert on its offsets.
- BlockMap.Inode.FindShared: the branch for a pointer that appears while truncating cannot be taken in one thread.
- The index node's last key (advisory) is required to lie in the node's interval; this holds in all modelled histories.
- The rb_parent_color word is modelled as two fields; rb_augment_* and rb_replace_node are unused.
- BufferCache.Cache.Get: a buffer that is held already is excluded, as nvfuse_inc_bc_ref asserts. bm_hash_count is a statistic and is not modelled.
- BufferCache.Cache.Release: the holder's changes to the buffer count as made at release, because the buffer is locked until then.
- The rest of nvfuse_control_plane.c (applications, the log of the container table), nvfuse_aio.c (request splitting), the inode cache and the inode bitmap: they would add easier members.
- nvfuse_link, nvfuse_rename and nvfuse_rm_direntry do not maintain the compact directory; data-plane mode, paths and permissions are not modelled.
- Counters such as m_key_count and sb_free_blocks are unbounded integers; block numbers and sizes are modelled without the u32 limit except where a cast matters (truncation, attribute lengths, signed key differences).
