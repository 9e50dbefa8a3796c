# NeoOS kernel cores, modelled and verified in Dafny

NeoOS is an x86_64 kernel written in C. This project models the parts of it where a simple abstract
object (a sequence, a map of bytes, a set of frames, a forest) is implemented by branch-heavy code that
works in place, or by threads that interleave, and proves that the code keeps the abstract object.

Verify everything with `dafny verify dfyconfig.toml`.

| Component | Files | What is proved |
|---|---|---|
| Red-black tree | `RbShape`, `RbMem`, `RbRead`, `RbFixup`, `RbLocal`, `RbWalk`, `RbRepair`, `RbTree` | Insertion and erasure over real parent/child pointers keep the red-black rules, the in-order sequence, every stored aggregate, the cached minimum and all memory outside the tree; with callbacks that stop early, exactly when an erasure leaves every aggregate true |
| Physical frames | `Dll`, `Buddy`, `Pmm` | The buddy allocator keeps its free blocks disjoint, aligned and coalesced, its counts exact, its live blocks apart; it fails only when no aligned run is free |
| Page tables | `PageTree`, `Paging` | Map, unmap, re-protect, huge-page split and copy-on-write change exactly the translation they should, and nothing of what the tables above a page allow, in the address space they are called for and in every other, whatever tables these share, and keep reference counts equal to owners; built on the allocator above |
| Sector cache | `BlkTable`, `BlkCache`, `BlkProtocol`, `BlkSteps` | Hash chains implement a map that loses exactly its least recently used sector; over all interleavings every cached sector is the disk's unless a write over it is in flight, and every read returns what the disk held meanwhile; the critical sections are the steps of that protocol |
| Byte input/output | `DivMod`, `Image`, `BlkFile` | Reads and writes of any position and length act on the device as one run of bytes, failures included |
| Partitions | `Part`, `PartFormat`, `PartIo` | A table written down in the on-disk format is read back as written; for every disk image, the partitions are exactly those the tables ask for, first come first served, inside the disk and apart; a write through one of them cannot reach another |
| FAT | `Utf`, `FatName`, `FatSlots`, `FatFormat`, `FatDir`, `FatChain` | UTF-8/UTF-16 conversion, 8.3 names, long-name runs, slots on disk, directories as lists of entries, cluster chains, file contents, and exactly when what was written can be read back |
| Record locks | `FlockTable`, `FlockGraph`, `Flock` | The per-byte lock map changes exactly on the range asked for, write locks exclude, and exactly when a process may go to sleep without closing a cycle of waits |
| Pipes | `PipeRing`, `PipeProtocol`, `PipeAccounts`, `PipeSteps` | Over all interleavings bytes come out in order and the end of the file after the last of them; what became of every byte of every write and of every read; who can be left asleep; the critical sections are the steps of that protocol |
| Futexes | `Futex` | A wake detaches exactly the waits it should, never one of another key, and no record outlives its wait |
| Stop and continue | `Signal` | No thread of a process escapes its stop; after a continue a thread stops only by taking another signal, and exactly when a stop outlives a continue that came after it was sent |

How the model is built: pointers and intrusive links are indexes into sequences that the classes reassign, so
aliasing is explicit; the abstract object is a ghost value that `Valid()` ties to those fields. Threads that
interleave (cache readers and writers, pipe ends, stopping threads) are transition systems whose steps are the
critical sections of the source; results about them hold for every run. A ghost parameter such as a tree or a
path only names the state an operation starts from, and never restricts it. A predicate whose body is written
`( ... ) == true` means its body; written so, a goal of that form is one goal for the verifier instead of one for
each of its parts.

Where the code does not do what its comments or its interface suggest, the model follows the code:

- A propagate callback may stop at a node it leaves unchanged, and both callback sets of the kernel do. When the
  successor of an erased node lies deeper than its right child, both walks of the erase can then stop below the slot
  the successor moved to, which keeps the erased node's aggregate. `RbWalk.WalkExact` gives the exact condition,
  `RbWalk.StaleMinimum` a four-node tree. The fix-up may repair it by a rotation; `RbTree.RbTree.Erase` states exactly
  when, `RbRepair.TurningRepairs` is a tree where it does. The second walk, meant for what the rotations change, never
  changes anything (`RbTree.RbTree.WalkAgain`). Insertion and every other erase are not affected.
- A pipe writer that has filled the ring wakes the readers, retakes the lock and looks only whether the ring is
  still full. If the last reader closed meanwhile it goes to sleep with no reader left and no wake-up to come.
  `PipeProtocol.WritersExactly` states that this is the only step that breaks the promise;
  `PipeProtocol.WriterLeftAsleep` is such a run.
- Lengths are cut to 32 bits on their way to the ring of a pipe. A read whose length is a multiple of 2^32 returns 0,
  as at the end of the file, with bytes in the pipe, and no other read does (`PipeProtocol.TruthfulNext`). A write
  gives the pipe at most its length modulo 2^32, so from 2^32 on a blocking one never completes
  (`PipeAccounts.CastBounds`).
- `deadlock_locked` follows one blocker per sleeper. With two blockers a cycle can close unnoticed:
  `FlockGraph.TwoBlockersMissed` is such a table and `Flock.TwoBlockersReached` the calls that lead to it. A sleep
  closes a cycle if and only if the holder of some lock in its way already waits for the process
  (`FlockGraph.SleepExact`); where every sleeper waits for one process the walk finds exactly that
  (`FlockGraph.WalkFinds`).
- Setting a lock that splits an older one when one record is left loses the range and reports no locks; the exact
  condition is part of `Flock.Locks.Take`, and `Flock.LockLost` is such a call.
- The FAT driver hands out every entry of the file allocation table, and a table has as many as its sectors hold. Those
  past the last cluster of the volume have no sectors on the device: writes to them are lost, the call reports success,
  and reads end there. `FatChain.Volume.WriteFile` states that the bytes written can be read back if and only if the
  sectors they went to are on the device, and that the whole file is right on a volume without such entries;
  `FatChain.SpareEntry` is a volume and a write that is lost.
- A name with U+FFFF, or an 8.3 name ending in a bare dot, does not read back; `Utf.RoundTrip`,
  `FatName.RoundTrip83` and `FatDir.Directory.Create` say so with an if-and-only-if.
- Freeing a block whose frames are not all shared or all sole breaks the allocator's account:
  `Pmm.DropMixed` shows that the callers' promise is exactly what is needed, `Pmm.DropMixedLoses` a frame lost.
- The comments of `signal_do_continue` say that clearing the pending bit and the `stopping` flag covers every point a
  thread can be at. It does not: a thread chooses its signal without the lock, and takes it whether or not it is still
  pending. `Signal.OutlivesExactly` states that a thread is stopped for a stop sent before the last continue if and only
  if a continue fell between choosing and taking the signal, between sending the stop and telling the siblings of it,
  or between posting and choosing one of the stop signals that a continue does not remove. `Signal.ContinueLost` and
  `Signal.SiblingStopsLater` are runs of the three kinds.

## Model

| member | source | states |
|---|---|---|
| `RbTree.RbTree.RotateLeft` | kernel/lib/rbtree.c:34-54 | the rotated tree stands where the old one stood, with its parent links, over the same nodes, aggregates recomputed, and no cell outside the tree changes |
| `RbTree.RbTree.RotateRight` | kernel/lib/rbtree.c:56-76 | the mirror image of the left rotation |
| `RbFixup.AugRotLKeeps` | kernel/lib/rbtree.c:34-54 | a rotation keeps the in-order sequence, and the aggregate of every node stays true |
| `RbFixup.InsertCase1` | kernel/lib/rbtree.c:96-105 | with a red uncle, recolouring moves the one red-red fault two levels up and breaks nothing else |
| `RbFixup.InsertCase2L` | kernel/lib/rbtree.c:106-111 | an inner red grandchild becomes an outer one |
| `RbFixup.InsertCase3L` | kernel/lib/rbtree.c:112-116 | one rotation replaces the grandparent by a sound black subtree of the same order, height and aggregate |
| `RbTree.RbTree.InsertFixup` | kernel/lib/rbtree.c:81-136 | from any red node under a sound path, the loop ends in a red-black tree of the same in-order sequence with true aggregates; no cell outside the tree changes |
| `RbTree.RbTree.Propagate` | kernel/sched/fair.c:116-124 | the walk leaves the path with every aggregate recomputed, or recomputed up to the first one found unchanged when the callback stops early; no cell outside the tree changes |
| `RbTree.RbTree.LinkNode` | kernel/lib/rbtree.h:86-91 | the new red leaf hangs in the empty slot the search ended at; no cell outside the tree changes |
| `RbTree.RbTree.Insert` | kernel/lib/rbtree.c:81-150 | any red leaf linked anywhere into any red-black tree: the result is red-black, its in-order sequence is the old one with that node at that place, every aggregate is true whether or not the callback stops early, and no cell outside the tree changes |
| `RbShape.StopIsFresh` | kernel/lib/rbtree.h:45-47 | stopping early loses nothing where all above the first node was right for its old aggregate |
| `RbTree.RbTree.SpliceOut` | kernel/lib/rbtree.c:160-167 | a node with at most one child is replaced by it in memory: the rest of the tree is as before, and neither the node's own cell nor any outside the tree changes |
| `RbTree.RbTree.SubtreeMin` | kernel/lib/rbtree.c:169-172 | the in-order first node of the subtree |
| `RbFixup.EraseCase1L` | kernel/lib/rbtree.c:183-189 | a red sibling is turned into a black one; the subtree stays exactly one black short |
| `RbFixup.EraseCase2` | kernel/lib/rbtree.c:190-193 | reddening the sibling moves the missing black one level up |
| `RbFixup.EraseCase3L` | kernel/lib/rbtree.c:195-200 | the sibling is replaced by an equal one with a red outer child |
| `RbFixup.EraseCase4L` | kernel/lib/rbtree.c:201-206 | the last rotation restores the missing black; the whole tree is red-black again |
| `RbTree.RbTree.EraseFixup` | kernel/lib/rbtree.c:176-237 | from any tree one black short at the given place, the loop computes the fix-up of that tree, which is red-black, of the same sequence, with true aggregates if they were true, and in any case with the aggregate of the node above the gap right for its children's if it was; no cell outside the tree changes |
| `RbFixup.EraseOneChild` | kernel/lib/rbtree.c:248-257 | a node with at most one child taken out leaves a tree that is sound, or one black short exactly there |
| `RbFixup.EraseTwoChildren` | kernel/lib/rbtree.c:258-278 | the successor in the erased node's place leaves a tree without that node, sound or one black short where the successor was |
| `RbTree.RbTree.MoveSuccessor` | kernel/lib/rbtree.c:258-278 | the same on the pointers, for a successor that is the right child and for one further down; neither the erased node's cell nor any outside the tree changes |
| `RbTree.RbTree.Erase` | kernel/lib/rbtree.c:239-295 | any node of any red-black tree: the result is red-black and its in-order sequence is the old one without that node; every aggregate is true if and only if the first walk leaves none stale, or the fix-up rotates at the stale slot and the parent's aggregate was not to change; neither the erased node's cell nor any outside the tree changes |
| `RbTree.RbTree.UnlinkWalk` | kernel/lib/rbtree.c:239-283 | after the first walk every aggregate is true if and only if the slot is not stale, and the tree is red-black or one black short where the node went |
| `RbWalk.WalkExact` | kernel/lib/rbtree.c:258-283 | two children: the walk leaves a wrong aggregate exactly if it stops early, the right child has a left child, the right subtree folds the same without the successor, and the whole subtree folds differently without the erased node |
| `RbWalk.OneChildWalk` | kernel/lib/rbtree.c:248-257 | at most one child: the walk, early or not, leaves every aggregate true |
| `RbWalk.StaleMinimum` | kernel/sched/fair.c:105-134 | subtree minimum, four nodes: after both walks the root holds 1 where the minimum is 5 |
| `RbRepair.RepairExact` | kernel/lib/rbtree.c:176-295 | a stale slot with a black successor: the fix-up leaves every aggregate true if and only if all is black on the way from the gap up to the slot, not all is black on its other side, and the aggregate of its parent, if it has one, is the same without the erased node |
| `RbRepair.Inner` | kernel/lib/rbtree.c:176-237 | on a path with true aggregates the fix-up ends with true ones, or arrives at its end with true ones exactly if every step finds all black |
| `RbRepair.SlotTurned` | kernel/lib/rbtree.c:183-206 | a rotation at the slot makes it true, whatever it held |
| `RbRepair.TurningRepairs` | kernel/lib/rbtree.c:176-295 | a nine-node tree whose stale slot the fix-up repairs |
| `RbWalk.LeastLawful` | kernel/sched/fair.c:105-115 | the minimum is a lawful aggregate, absent children adding nothing |
| `RbTree.RbTree.PropagateAgain` | kernel/lib/rbtree.c:288-294 | a second walk keeps order and colours, and changes nothing where aggregates are true |
| `RbTree.RbTree.WalkAgain` | kernel/lib/rbtree.c:288-294 | the second walk of an erase changes nothing at all, not even where aggregates are wrong |
| `RbLocal.SecondWalk` | kernel/lib/rbtree.c:288-294 | a walk that stops early changes nothing from a node whose aggregate is right for its children's |
| `RbLocal.MindsStop` | kernel/lib/rbtree.c:176-237 | the fix-up leaves that node right for its children's aggregates, rotated or not |
| `RbShape.AggIsFold` | kernel/lib/rbtree.c:138-150 | a stored aggregate that is locally true is the fold of the operation over the whole subtree |
| `RbShape.AggAtEveryNode` | kernel/lib/rbtree.c:277-295 | and that at every node of the tree |
| `RbShape.PlugRedBlack` | kernel/lib/rbtree.c:81-136 | a sound subtree under a sound path is a red-black tree |
| `RbShape.UnplugRedBlack` | kernel/lib/rbtree.c:239-295 | and every subtree of a red-black tree with its path is sound |
| `RbTree.RbTree.First` | kernel/lib/rbtree.c:325-330 | the in-order first node, or none |
| `RbTree.RbTree.Next` | kernel/lib/rbtree.c:339-351 | the node after this one in order, or none; none for an unlinked node |
| `RbTree.RbCached.InsertCached` | kernel/lib/rbtree.c:369-380 | the cached leftmost is the in-order first node after the insertion, on top of what the insertion promises |
| `RbTree.RbCached.EraseCached` | kernel/lib/rbtree.c:382-391 | and after an erasure, on top of what the erasure promises |
| `Pmm.Pmm.ListPush` | kernel/mm/pmm.c:78-87 | the block is listed at its order, every list stays doubly linked and lists exactly the free blocks of its order |
| `Pmm.Pmm.ListRemove` | kernel/mm/pmm.c:89-100 | the block is listed nowhere, the same for every other block |
| `Buddy.TakeBlock` | kernel/mm/pmm.c:116-117 | a free block taken from the lists is in no free block's way, and the others stay disjoint, aligned and coalesced |
| `Buddy.SplitBlock` | kernel/mm/pmm.c:119-126 | returning the upper half keeps that, and covers the same frames |
| `Buddy.MergeBlock` | kernel/mm/pmm.c:176-187 | joining the free buddy gives an aligned block of the next order and covers the same frames |
| `Buddy.PutBlock` | kernel/mm/pmm.c:176-189 | a block whose buddy is not free of its order goes back with everything coalesced |
| `Buddy.RunInOneBlock` | kernel/mm/pmm.c:136-190 | coalescing leaves nothing behind: an aligned run of 2^order frames that is free throughout lies in one free block |
| `Pmm.Pmm.SplitTo` | kernel/mm/pmm.c:119-126 | the block in hand shrinks to the order asked for; every other frame stays accounted for |
| `Pmm.Pmm.AllocFrames` | kernel/mm/pmm.c:103-133 | a success is an aligned block of frames nobody referred to, now referred to once and apart from every live block; 0 means no aligned run of 2^order frames is free, and changes nothing |
| `Pmm.Pmm.Alloc` | kernel/mm/pmm.c:196-215 | the same for the physical address |
| `Pmm.Pmm.Coalesce` | kernel/mm/pmm.c:176-189 | the block in hand is free again and everything is coalesced and exactly counted |
| `Pmm.Pmm.FreeFrames` | kernel/mm/pmm.c:136-190 | one reference less on each frame; with the last one the block is free, counted and nobody's |
| `Pmm.Pmm.Free` | kernel/mm/pmm.c:136-190 | a bad address or order changes nothing; otherwise as above |
| `Pmm.Pmm.AllocThenFree` | kernel/mm/pmm.c:103-190 | freeing what was just allocated restores references, free count and live blocks |
| `Pmm.OwnIdle` | kernel/mm/pmm.c:103-133 | live blocks stay pairwise apart when an idle block joins them |
| `Pmm.OwnDropped` | kernel/mm/pmm.c:136-190 | and when a block loses a reference, shared or not |
| `Pmm.DropMixed` | kernel/mm/pmm.c:165-172 | for a block that is not solely held, the account survives a free if and only if all its frames were shared |
| `Pmm.DropMixedLoses` | kernel/mm/pmm.c:165-172 | two frames, one of them shared: freed together, the other is lost |
| `Pmm.OwnHalves` | kernel/mm/pmm.c:378-380 | live blocks stay apart when one is given up in halves |
| `Pmm.Pmm.FreeHalves` | kernel/mm/pmm.c:357-391 | freeing the two halves of a block one after the other is freeing the block |
| `Pmm.Pmm.Share` | kernel/mm/pmm.c:344-348 | one more reference on exactly that frame, or none left where the 16-bit counter wraps; the account survives if and only if the frame was in use and its counter had room |
| `Pmm.Pmm.AddRegion` | kernel/mm/pmm.c:233-245 | exactly the whole frames inside the region become free |
| `Pmm.Pmm.constructor` | kernel/mm/pmm.c:275-289 | before any region is added every frame counts as referenced and nothing is free |
| `PageTree.TranslateOff` | kernel/mm/paging.c:256-280 | a page whose path does not go through the changed entry translates as before and is allowed what it was |
| `PageTree.PhysicalPage` | kernel/mm/paging.c:256-280 | on addresses: through a 4 KiB, 2 MiB or 1 GiB entry, an address leads where its 4 KiB page is said to |
| `PageTree.LeafStore` | kernel/mm/paging.c:84-97 | writing a leaf entry changes the translation of its page to exactly that entry, and of no other page, and nothing that tables allow |
| `PageTree.HangEmpty` | kernel/mm/paging.c:62-78 | hanging a zeroed table under an absent entry changes no translation, and nothing that tables allow |
| `PageTree.SplitStore` | kernel/mm/paging.c:373-397 | a huge entry replaced by a table of its 512 leaves changes the translation of no page, and of what tables allow only what the new entry does not, under any root that reaches the page directory in one place, in several or in none |
| `PageTree.OwnersStore` | kernel/mm/paging.c:553-598 | the number of leaves owning a frame changes by exactly the entries exchanged |
| `PageTree.Reprotect` | kernel/mm/paging.c:154-181 | the leaf keeps its frame, its owner and its copy-on-write mark and gets exactly the access asked for, except that a copy-on-write leaf is not made writable; without access it is parked with no access bit |
| `Paging.Paging.AllocTable` | kernel/mm/paging.c:49-57 | a zeroed frame nobody referred to, or nothing changed and every frame is in use |
| `Paging.Paging.TableEntry` | kernel/mm/paging.c:62-78 | the next table, present before or hung in without changing a translation; a failure changes nothing |
| `Paging.Paging.MapInto` | kernel/mm/paging.c:84-97 | a success makes exactly this page translate to the frame and flags; new tables limit no access, so what the tables on the way to any page allow stays as it was; a failure changes no translation and takes an exhausted allocator; either way every address space without the last table on the page's path is as before, whatever else it shares |
| `Paging.Paging.UnmapFrom` | kernel/mm/paging.c:126-148 | the page translates to nothing, its old frame is handed back, no other translation changes, nor any in an address space without the page's table |
| `Paging.Paging.SetProt` | kernel/mm/paging.c:154-181 | the page's leaf, if it has a frame, translates to that frame with exactly the access asked for, never writable while copy-on-write; no other translation changes, nor any in an address space without the page's table |
| `Paging.ReprotectAccounted` | kernel/mm/paging.c:154-181 | re-protecting keeps every frame's reference count equal to the number of leaves owning it |
| `Paging.Paging.SplitHuge` | kernel/mm/paging.c:373-397 | every page translates as before, under this root and under every other that has the page directory as one or not at all, also where it stands in two places as in the kernel's own tables; what its tables allow it stays as it was, but for user access to the pages of the one split; this page is now mapped by small pages; a failure changes nothing |
| `Paging.GrantAccounted` | kernel/mm/paging.c:579-581 | making a sole owner's leaf writable keeps the account |
| `Paging.CopyAccounted` | kernel/mm/paging.c:582-594 | copying into a fresh frame and dropping the old reference keeps the account |
| `Paging.Paging.CowFault` | kernel/mm/paging.c:553-598 | a handled fault leaves the page writable, with the same bytes, in a frame this leaf alone owns; every other page, every address space without the page's table and every data frame is as before, and reference counts equal owners; an unhandled one changes nothing and means no copy-on-write leaf or no free frame |
| `Paging.CameFurther` | kernel/mm/paging.c:62-78 | of the tables there were, a walk that makes tables changes only the one it would have ended at |
| `Paging.ElsewhereKept` | kernel/sched/proc.c:271-272 | an address space without that table translates as before, although it shares the kernel's tables |
| `PageTree.TreeLeveled` | boot/boot.asm:108-135 | a tree whose tables have one place each is one whose tables have a level each |
| `BlkTable.Table.Lookup` | kernel/fs/blkcache.c:69-74 | finds the entry of a key if and only if the table holds one, and its data is what the table holds |
| `BlkTable.Table.Unlink` | kernel/fs/blkcache.c:77-84 | exactly that key leaves the table and the order of last use; chains stay linked and complete |
| `BlkTable.Table.Claim` | kernel/fs/blkcache.c:89-109 | an entry for the key; a full table without it loses exactly its least recently used key, any other loses none |
| `BlkTable.Table.Victim` | kernel/fs/blkcache.c:93-99 | the first free entry if there is one, else the entry of the least recently used key |
| `BlkTable.Table.Touch` | kernel/fs/blkcache.c:130-130 | a stamped key becomes the most recently used one, the others keep their order |
| `BlkTable.Table.Put` | kernel/fs/blkcache.c:154-157 | the key holds the bytes and is the most recently used one; what it drives out of a full table is the least recently used key |
| `BlkTable.AgedFull` | kernel/fs/blkcache.c:93-99 | as many keys are listed as there are entries exactly when no entry is free |
| `BlkTable.CutEffect` | kernel/fs/blkcache.c:77-84 | cutting an entry out of its chain takes exactly its key out of the map |
| `BlkTable.PushWellFormed` | kernel/fs/blkcache.c:102-107 | pushing an entry adds exactly its key, and each key still has one entry, in its own bucket |
| `BlkCache.Cache.ReadLocked` | kernel/fs/blkcache.c:127-138 | a hit if and only if the sector is cached, with its bytes; it becomes the most recently used one; a miss changes nothing and notes the generation; each is counted |
| `BlkCache.Cache.Install` | kernel/fs/blkcache.c:149-157 | stores the bytes read, as the most recently used sector and in place of the least recently used one of a full cache, if the generation is the noted one, and does nothing otherwise |
| `BlkCache.Cache.EndWrite` | kernel/fs/blkcache.c:185-200 | a single sector written is stored in the same way, several are refreshed where cached, in their order of use, and all of the range is dropped when the device failed; the generation moves on |
| `BlkCache.Cache.Invalidate` | kernel/fs/blkcache.c:204-212 | exactly the device's sectors are dropped, the others keep their order of use; the generation moves on |
| `BlkProtocol.InvNext` | kernel/fs/blkcache.c:120-212 | every step of any reader, writer or invalidation keeps the coherence invariant |
| `BlkProtocol.RunInv` | kernel/fs/blkcache.c:120-212 | so it holds in every state of every run, with any number of readers |
| `BlkProtocol.Coherent` | kernel/fs/blkcache.c:120-212 | in every run a cached sector equals the disk's unless a write over it is in flight, and then it is content the sector held during that write |
| `BlkProtocol.ReadTrue` | kernel/fs/blkcache.c:120-159 | in every run a read returns what the disk holds at that moment, or held since the read began, or since the beginning of a write over the sector that is still in flight |
| `BlkProtocol.HeldSince` | kernel/fs/blkcache.c:172-202 | what a write in flight has collected of a sector, the disk has held since that write began |
| `BlkSteps.Read` | kernel/fs/blkcache.c:127-138 | the first critical section of a read is a hit or a miss of the protocol, and returns what a hit returns there |
| `BlkSteps.Install` | kernel/fs/blkcache.c:149-157 | the second one is its install step |
| `BlkSteps.BeginWrite` | kernel/fs/blkcache.c:179-181 | the first one of a write is its begin step |
| `BlkSteps.EndWrite` | kernel/fs/blkcache.c:185-200 | the second one is its end step, failed or not |
| `BlkSteps.Invalidate` | kernel/fs/blkcache.c:204-212 | an invalidation is a step of it |
| `BlkFile.Device.WriteMulti` | kernel/fs/blkcache.c:172-202 | the sectors of the range, translated to the disk, and no others; refused outside the device or on a read-only one, and otherwise in place unless the device reported a failure; a single sector is then cached; the cache stays coherent and its generation moves on twice |
| `BlkFile.Device.ReadOne` | kernel/fs/blkcache.c:120-159 | the disk's sector, cached or not, and then the most recently used one in the cache; refused outside the device, and otherwise an error exactly if the device reported a failure |
| `BlkFile.Device.ReadTurn` | kernel/block/blkdev_file.c:43-65 | one turn of the loop returns a non-empty slice of the device at the offset |
| `BlkFile.Device.WriteTurn` | kernel/block/blkdev_file.c:43-65 | one turn replaces a non-empty slice; a failed command damages at most the sectors it covered |
| `BlkFile.Device.Read` | kernel/block/blkdev_file.c:32-72 | min(len, size - position) bytes of the device as one run of bytes if the device reported no failure; after a failure the bytes that were read, and an error exactly if there were none |
| `BlkFile.Device.Write` | kernel/block/blkdev_file.c:32-72 | the slice at the position is replaced by min(len, size - position) bytes and nothing outside changes unless the device is read-only or reported a failure; then the prefix reported is in place, damage is confined to the failed command's sectors, and an error means no prefix; past the end no space and no change |
| `Part.Scan.Accept` | kernel/block/part.c:35-48 | an entry becomes a partition if and only if it is a non-empty stretch of the disk apart from those before it and the registry grants it |
| `Part.Scan.Register` | kernel/block/blockdev.c:122-178 | what does not fit the disk is refused; what is registered has the bounds asked for |
| `Part.Scan.GptLoad` | kernel/block/part.c:52-74 | without a read error, accepts exactly a header and entry array whose checksums hold |
| `Part.Scan.GptExpected` | kernel/block/part.c:81-92 | a protective MBR entry or a signature at sector 1 |
| `Part.Scan.ScanGpt` | kernel/block/part.c:94-122 | a GPT is found if and only if the primary or the backup is sound, the primary first; its entries become partitions first come, first served |
| `Part.Scan.ScanMbr` | kernel/block/part.c:124-148 | if no read failed, the four entries of a usable MBR, first come, first served; nothing otherwise |
| `Part.Scan.PartScan` | kernel/block/part.c:150-168 | for every disk image the partitions lie inside the disk and apart; if no read failed and nothing was refused they are exactly the offered entries that fit, first come, first served |
| `Part.AcceptedLaid` | kernel/block/part.c:35-48 | whatever a table says, what it becomes lies inside the disk and apart |
| `Part.AcceptedFrom` | kernel/block/part.c:35-48 | no partition is invented |
| `Part.LeftOut` | kernel/block/part.c:35-48 | an entry is left out only if empty, outside the disk, refused by the registry, or overlapping one accepted before it |
| `PartFormat.MbrReadable` | kernel/block/part.c:124-148 | an MBR written with these four entries is read if and only if every boot indicator is 0 or 0x80 and no entry is protective |
| `PartFormat.MbrOffered` | kernel/block/part.c:124-148 | and then offers exactly what the entries say, with nothing for empty and extended ones |
| `PartFormat.EntryRoundTrip` | kernel/block/part.c:94-122 | a GPT entry written down is read back as its sectors from first to last |
| `PartFormat.GptRoundTrip` | kernel/block/part.c:52-74 | a header and an entry array written with their checksums are found and read back as written |
| `PartFormat.PrimaryOffered` | kernel/block/part.c:94-122 | a disk with a written primary GPT offers its entries |
| `PartFormat.BackupOffered` | kernel/block/part.c:94-122 | with a damaged primary it offers the entries of the backup, at the sector the primary names or else the last |
| `PartFormat.AllAccepted` | kernel/block/part.c:35-48 | entries that lie inside the disk and apart and are refused by nobody all become partitions |
| `PartFormat.ScanGptDisk` | kernel/block/part.c:150-168 | so scanning a disk with a written GPT gives the partitions written, if no read failed and nothing was refused |
| `PartFormat.ScanMbrDisk` | kernel/block/part.c:150-168 | and so does scanning one with a written MBR |
| `Part.TranslationFits` | kernel/block/blockdev.c:245-247 | a range checked against a partition stays in it and in 64 bits when translated |
| `BlkFile.Device.Translated` | kernel/block/blockdev.c:242-242 | the 64-bit sum is the sector's place on the disk for every sector of the device |
| `Part.WriteIsolated` | kernel/block/blockdev.c:112-117 | sectors changed inside one partition are in no other |
| `PartIo.Open` | kernel/block/blockdev.c:122-178 | a partition a scan found is a device of exactly its sectors |
| `PartIo.Write` | kernel/fs/blkcache.c:172-202 | a write through a partition is refused if it does not fit in it, else is in place, and never changes a sector of another partition, whether or not it fails |
| `Utf.DecodeOne` | kernel/fs/fatfs.c:928-939 | accepts exactly the encodings of a Unicode scalar value (RFC 3629, sections 3 and 4) at the front of the string |
| `Utf.ToUtf16` | kernel/fs/fatfs.c:924-952 | the UTF-16 form of a well-formed string that fits; an error means ill-formed, or too long |
| `Utf.EncodingSpells` | kernel/fs/fatfs.c:928-939 | the decoder's arithmetic inverts the encoder |
| `Utf.Cancel` | kernel/fs/fatfs.c:924-952 | UTF-8 is prefix-free: a string has one reading |
| `Utf.FromUtf16` | kernel/fs/fatfs.c:958-979 | whole characters up to the terminator or the end of the room, never part of one |
| `Utf.RoundTrip` | kernel/fs/fatfs.c:924-979 | with enough room, decoding the encoding gives the string back if and only if it has no U+FFFF |
| `Utf.CutShort` | kernel/fs/fatfs.c:958-979 | a string with U+FFFF comes back shorter |
| `Utf.PairValue` | kernel/fs/fatfs.c:963-965 | a high and a low surrogate are one character with the upper ten bits from the high one, in both directions |
| `Utf.LoneHalf` | kernel/fs/fatfs.c:966-968 | a surrogate without its partner, or on the wrong side of it, is one U+FFFD |
| `FatName.Fits83` | kernel/fs/fatfs.c:1094-1109 | accepts exactly names of one to eight allowed characters with at most one dot and at most three after it |
| `FatName.ToFatName` | kernel/fs/fatfs.c:594-625 | the padded 8 and 3 character fields of the name |
| `FatName.RoundTrip83` | kernel/fs/fatfs.c:594-625 | a name that fits reads back if and only if it does not end in a bare dot |
| `FatName.Ok83Exactly` | kernel/fs/fatfs.c:1082-1089 | the characters of an 8.3 name: capitals, digits and sixteen others |
| `FatName.UpExactly` | kernel/fs/fatfs.c:600-604 | small letters, and nothing else, become capitals |
| `FatName.CaseRoundTrip` | kernel/fs/fatfs.c:1990-2012 | a base and an extension each of one case read back in that case from the two flags, whatever the other bits |
| `FatDir.Checksum` | kernel/fs/fatfs.c:808-814 | the rotating sum over the eleven characters |
| `FatSlots.ScanRun` | kernel/fs/fatfs.c:981-1045 | reading a whole run of long-name slots gives its entry with the name, start and length of the run |
| `FatSlots.ListItems` | kernel/fs/fatfs.c:981-1045 | scanning an intact directory lists exactly its files, whatever the buffer held before |
| `FatSlots.PieceExactly` | kernel/fs/fatfs.c:981-1042 | in any directory: behind any piece of a long-name run, the entry has the long name if and only if the run is whole and its checksum is the entry's, and otherwise its 8.3 name |
| `FatSlots.SumTurns` | kernel/fs/fatfs.c:808-814 | each character is added, modulo 256, to the sum turned right by one bit |
| `FatFormat.ShortRoundTrip` | kernel/fs/fatfs.c:63-77 | an entry laid down in its 32 bytes is read back as it is if and only if its first byte and attributes are those of an entry |
| `FatFormat.LongRoundTrip` | kernel/fs/fatfs.c:795-830 | a long-name slot is read back, its thirteen characters in order, if and only if its number is not 0 or 0xE5 |
| `FatFormat.RunRoundTrip` | kernel/fs/fatfs.c:1293-1313 | every long-name slot of an intact file is read back |
| `FatSlots.RunLies` | kernel/fs/fatfs.c:1215-1256 | the first free run of slots lies between files and covers only holes and the unused end |
| `FatSlots.WrittenHolds` | kernel/fs/fatfs.c:1177-1211 | writing a run there leaves every other item where it was |
| `FatSlots.ErasedHolds` | kernel/fs/fatfs.c:1345-1364 | marking a run deleted leaves every other item where it was |
| `FatDir.MakeBlocks` | kernel/fs/fatfs.c:1305-1311 | thirteen units a slot: the name, a terminator if there is room, then padding |
| `FatDir.MakeFile` | kernel/fs/fatfs.c:1274-1315 | the run is whole, its checksum is that of its short entry, and it reads back as the name if and only if the name can be stored |
| `FatDir.LongKeeps` | kernel/fs/fatfs.c:1293-1313 | a long name's slots read back as the name if and only if it has no U+FFFF |
| `FatDir.Directory.DirNext` | kernel/fs/fatfs.c:981-1045 | the next entry of the listing, or none when it ends |
| `FatDir.Directory.Find` | kernel/fs/fatfs.c:1070-1078 | the first entry listed under the name, or none if none is |
| `FatDir.FileFound` | kernel/fs/fatfs.c:1070-1078 | the first file of a name is the one found under it |
| `FatDir.CaseFound` | kernel/fs/fatfs.c:1990-2012 | a file with case flags and no long name is listed and found in small letters |
| `FatDir.Directory.FindFreeRun` | kernel/fs/fatfs.c:1215-1256 | the first run of that many free slots, after one new cluster only if there was none before; none only if there is none and the directory is the root, could not get a cluster, or got one that is too small |
| `FatDir.Directory.Create` | kernel/fs/fatfs.c:1261-1342 | one entry more among the old ones in their order, with the data given, under the name if and only if it can be stored; each error has its cause, no space only without a free run where the directory cannot grow further, and lists what was listed before |
| `FatDir.Directory.CreateFinds` | kernel/fs/fatfs.c:1070-1078 | a fresh storable name is found after its creation with its cluster and size, and every other name is found as before |
| `FatDir.Directory.EraseRun` | kernel/fs/fatfs.c:1345-1364 | exactly that entry leaves the listing |
| `FatDir.Directory.CreateErases` | kernel/fs/fatfs.c:1261-1364 | erasing what was just created restores the listing |
| `FatDir.InsertFound` | kernel/fs/fatfs.c:1070-1078 | an inserted fresh name is the one found; other names are found as before |
| `FatChain.Volume.AllocCluster` | kernel/fs/fatfs.c:305-339 | the first free entry from the hint on, else the first one from 2 on, marked as an end, the hint behind it; 0 means that none is free or a read of the table failed |
| `FatChain.Volume.FreeChain` | kernel/fs/fatfs.c:342-356 | exactly the file's clusters become free; every other chain is whole; the hint is no later than its first cluster |
| `FatChain.GrowChain` | kernel/fs/fatfs.c:545-557 | linking a free cluster to the end keeps all chains acyclic, ended and disjoint |
| `FatChain.FreedChains` | kernel/fs/fatfs.c:342-356 | and so does clearing a whole chain |
| `FatChain.Volume.ClusterAt` | kernel/fs/fatfs.c:377-400 | the q-th cluster of the chain, from the start or from any cursor into it |
| `FatChain.LbaOwn` | kernel/fs/fatfs.c:127-129 | in 32-bit arithmetic, two sectors of two clusters are the same sector only if cluster and place are the same |
| `FatChain.StoreContent` | kernel/fs/fatfs.c:408-439 | bytes rewritten in the sector of a file's byte are the same bytes rewritten in the file's content; past the end of the device nothing is |
| `FatChain.StoreOther` | kernel/fs/fatfs.c:408-439 | and no byte of a chain without that cluster changes |
| `FatChain.Volume.WriteRange` | kernel/fs/fatfs.c:408-439 | the file's content with exactly that range replaced as far as its sectors are on the device; no other chain's content changes |
| `FatChain.Volume.ReadAt` | kernel/fs/fatfs.c:478-516 | the slice of the content, all of it or up to the first byte whose sector is not on the device or could not be read |
| `FatChain.Volume.Extend` | kernel/fs/fatfs.c:527-557 | the chain has the clusters needed, exactly the clusters added are free no more, every other chain is as before; failure means no entry is free or the table could not be read |
| `FatChain.Volume.WriteFile` | kernel/fs/fatfs.c:518-567 | the file holds its old bytes, zeros up to the position if it was shorter, and the new bytes, as far as their sectors are on the device; the new bytes can be read back if and only if all of theirs are; no other file's chain or bytes change; failure means no entry is free or the table could not be read, and changes no byte |
| `FatChain.ReadBackExactly` | kernel/fs/fatfs.c:305-339 | the bytes written can be read back if and only if the sectors they went to are on the device |
| `FatChain.FitsWhole` | kernel/fs/fatfs.c:165-168 | with no more entries in the table than clusters on the device, a write leaves exactly the bytes it should |
| `FatChain.SpareEntry` | kernel/fs/fatfs.c:305-339 | a volume on which a write succeeds and cannot be read back |
| `FlockTable.Exclusive` | kernel/fs/flock.c:57-65 | no byte is write-locked by one process while another holds any lock on it |
| `FlockTable.CarveLost` | kernel/fs/flock.c:82-103 | trimming or splitting a record loses no byte outside the range |
| `FlockTable.InsertTidy` | kernel/fs/flock.c:219-223 | the new record adds exactly its range to the lock map |
| `FlockTable.JoinHolds` | kernel/fs/flock.c:107-128 | joining two records changes no byte |
| `FlockTable.MergedTidy` | kernel/fs/flock.c:107-128 | when nothing joins any more, a process's records are disjoint and same-type ones do not touch |
| `FlockTable.FreeExactly` | kernel/fs/flock.c:57-65 | on the lock map: a lock can be taken if and only if no byte of it is held by another process with one of the two a write lock |
| `FlockTable.SpansExactly` | kernel/fs/flock.c:82-103 | a lock has to be split if and only if its owner has one kind of lock on the range and on the bytes at both sides of it |
| `FlockTable.Maximal` | kernel/fs/flock.c:107-128 | no record could be longer: its owner does not hold the byte before or behind it in the same way |
| `Flock.RangeOf` | kernel/fs/flock.c:151-164 | exactly the bytes the three forms of length describe; an error exactly for a negative start |
| `Flock.Locks.Conflict` | kernel/fs/flock.c:57-65 | the first record that forbids the lock; none exactly if no byte of it is contested |
| `Flock.Locks.Carve` | kernel/fs/flock.c:82-103 | the process holds nothing in the range and what it held elsewhere; refused, unchanged, exactly when a split finds no record |
| `Flock.Locks.Merge` | kernel/fs/flock.c:107-128 | the same lock map in disjoint, non-touching records |
| `Flock.Locks.Take` | kernel/fs/flock.c:216-224 | the lock map changes on exactly the range; the exact condition of each failure and what it leaves |
| `Flock.LockLost` | kernel/fs/flock.c:216-224 | a table on which asking for a lock loses the one there was |
| `Flock.Locks.SetLock` | kernel/fs/flock.c:200-230 | refused exactly when a byte of it is held by another process with one of the two a write lock; taken exactly with a record to spare |
| `Flock.Locks.Unlock` | kernel/fs/flock.c:193-198 | the lock map loses exactly the range; refused, unchanged, exactly when a split finds no record |
| `Flock.Locks.GetLock` | kernel/fs/flock.c:178-191 | reports a blocker exactly if a byte is contested |
| `Flock.Locks.WouldDeadlock` | kernel/fs/flock.c:133-146 | the bounded walk along blockers |
| `FlockGraph.WalkSound` | kernel/fs/flock.c:133-146 | a deadlock is reported only for a real path back to the caller |
| `FlockGraph.EdgeExactly` | kernel/fs/flock.c:133-146 | a process waits for another if and only if it sleeps for a range of which the other holds a byte it may not have |
| `FlockGraph.WalkComplete` | kernel/fs/flock.c:133-146 | with one blocker per sleeper, every path of at most 64 hops is found |
| `FlockGraph.PathShort` | kernel/fs/flock.c:133-146 | 64 hops are enough: a path visits each sleeper once and there are 64 slots |
| `FlockGraph.SleepExact` | kernel/fs/flock.c:200-214 | going to sleep closes a cycle if and only if the holder of some lock in the way already waits, at some remove, for the process |
| `FlockGraph.WalkFinds` | kernel/fs/flock.c:133-146 | where every sleeper waits for one process, the walk reports a deadlock if and only if the sleep would close a cycle |
| `FlockGraph.SleepAcyclic` | kernel/fs/flock.c:200-214 | there, a sleeper let in after the walk closes no cycle |
| `FlockGraph.AwakeAcyclic` | kernel/fs/flock.c:193-224 | a process that is awake may change its locks without closing a cycle |
| `FlockGraph.WokenAcyclic` | kernel/fs/flock.c:211-213 | waking a sleeper closes none |
| `FlockGraph.TwoBlockersMissed` | kernel/fs/flock.c:133-146 | with two blockers a cycle goes unnoticed |
| `Flock.TwoBlockersReached` | kernel/fs/flock.c:200-224 | calls that lead from an empty table to such a cycle |
| `Flock.Locks.WaitLock` | kernel/fs/flock.c:200-230 | taken if and only if no byte is contested and there is a record to spare; otherwise refused with a real deadlock, or asleep exactly when there is a slot; the wait-for graph stays acyclic if and only if no holder in the way already waited for the process |
| `Flock.Locks.ReleaseVnode` | kernel/fs/flock.c:232-240 | exactly this process's locks on this file go |
| `Flock.Locks.ReleasePid` | kernel/fs/flock.c:242-250 | exactly this process's locks go |
| `PipeRing.Ring.RingRead` | kernel/ipc/pipe.c:93-101 | the first min(want, count) bytes leave the front, across the wrap |
| `PipeRing.Ring.RingWrite` | kernel/ipc/pipe.c:104-113 | the first min(want, space) bytes join the back, across the wrap |
| `PipeProtocol.OrderedNext` | kernel/ipc/pipe.c:122-232 | every step keeps: bytes accepted are bytes taken followed by the ring, which never overflows |
| `PipeProtocol.TruthfulNext` | kernel/ipc/pipe.c:122-168 | every step keeps: reads returned exactly the bytes taken, none of them empty unless its length is a multiple of 2^32, and 0 for the end of the file only with no writer open and every accepted byte read |
| `PipeProtocol.ReadersNext` | kernel/ipc/pipe.c:122-232 | no reader is asleep with bytes to read or no writer left, unless a thread still owes the wake-up |
| `PipeProtocol.WritersExactly` | kernel/ipc/pipe.c:210-224 | the same for writers survives a step if and only if it is not a writer going to sleep on a full ring with no reader left and no wake-up owed |
| `PipeProtocol.RunServed` | kernel/ipc/pipe.c:122-314 | in every state of every run what reads returned is a prefix of what was accepted, ends of file are true, and no reader misses a wake-up; nor a writer while the above never happened |
| `PipeProtocol.WriterLeftAsleep` | kernel/ipc/pipe.c:210-224 | a run that leaves a writer asleep with no reader and nobody to wake it |
| `PipeAccounts.WriteKept` | kernel/ipc/pipe.c:170-225 | in every run, while a write is under way its buffer is what the pipe accepted from it followed by what it has left; one that may not wait never sleeps |
| `PipeAccounts.WriteEnds` | kernel/ipc/pipe.c:170-232 | a write ends by a step of its own: with all accepted, or non-blocking, or interrupted in its sleep, or, with SIGPIPE, when no reader is open; it reports the number of bytes accepted from it, and an error exactly if there were none |
| `PipeAccounts.WriteBegan` | kernel/ipc/pipe.c:170-177 | every thread in the middle of a write began it with some buffer |
| `PipeAccounts.AcceptedIsGiven` | kernel/ipc/pipe.c:170-232 | what the pipe accepted is the pieces writes gave it, in the order they gave them |
| `PipeAccounts.PieceOfRun` | kernel/ipc/pipe.c:197-198 | each of them from a thread in the middle of a write |
| `PipeAccounts.PushFills` | kernel/ipc/pipe.c:197-199 | a turn fills the ring or takes all that is left if and only if the 32-bit cast of what is left does not cut it short |
| `PipeAccounts.CastBounds` | kernel/ipc/pipe.c:197-199 | a write gives at most its length modulo 2^32, so one that ends with all accepted is shorter than 2^32 |
| `PipeAccounts.ReadEnds` | kernel/ipc/pipe.c:122-168 | in every run a read ends by a step of its own: with all the bytes there are up to its length, cut to 32 bits; with 0 if there are none and no writer is open; with EAGAIN if it may not wait; or interrupted in its sleep |
| `PipeAccounts.ReadKept` | kernel/ipc/pipe.c:122-149 | a waiting read still asks for what it asked for, and one that may not wait never sleeps |
| `PipeAccounts.SleepsExactly` | kernel/ipc/pipe.c:128-224 | a thread goes to sleep if and only if it may wait and there is nothing for it to do: an empty ring with a writer open, or a full one |
| `PipeAccounts.EndsCounted` | kernel/ipc/pipe.c:280-314 | in every run the open ends are those created and copied less those closed, and the pipe is freed with the last |
| `PipeSteps.Pipe.ReadLocked` | kernel/ipc/pipe.c:126-152 | the critical section of a read is the look step of the protocol, with its result |
| `PipeSteps.Pipe.WriteLocked` | kernel/ipc/pipe.c:178-208 | the one of a write is its push step |
| `PipeSteps.Pipe.Recheck` | kernel/ipc/pipe.c:216-224 | the test before a writer sleeps is its recheck step |
| `PipeSteps.Pipe.Dup` | kernel/ipc/pipe.c:280-285 | copying an end is a step of it |
| `PipeSteps.Pipe.CloseEnd` | kernel/ipc/pipe.c:287-314 | closing one is, with the free and the wake-ups that are due |
| `Futex.Futexes.Enqueue` | kernel/ipc/futex.c:115-134 | a wait whose value still matches is on its key's list before the lock is dropped; otherwise nothing changes |
| `Futex.Futexes.Finish` | kernel/ipc/futex.c:136-144 | the record is on no list when the wait returns, woken or not, and no other record moves |
| `Futex.GoneIs` | kernel/ipc/futex.c:155-182 | a sweep takes min(val, matching) records, all of the key, and loses none |
| `Futex.Futexes.Sweep` | kernel/ipc/futex.c:155-182 | the loop over the links computes that split of the list |
| `Futex.Futexes.Wake` | kernel/ipc/futex.c:155-182 | min(val, sleeping waits on the key) are roused, no wait of another key even in the same bucket, and all of them when val suffices |
| `Futex.Futexes.Requeue` | kernel/ipc/futex.c:209-217 | together min(val + val2, sleeping waits) are roused, none of another key |
| `Signal.FreshNext` | kernel/ipc/signal.c:323-461 | every step keeps: a thread stopped or committed to stopping took its signal after the last continue |
| `Signal.OrderlyNext` | kernel/ipc/signal.c:63-87 | every step keeps: of the signal it chose, a thread noted in order when the stop was sent, posted, last seen pending and taken, and no continue came between posting and seeing a SIGSTOP |
| `Signal.CountNext` | kernel/ipc/signal.c:338-426 | every step keeps: the process counts exactly the stops no continue has undone |
| `Signal.StopsExactly` | kernel/ipc/signal.c:15-16 | the signals that stop are 19 to 22 |
| `Signal.RunInv` | kernel/ipc/signal.c:323-461 | these hold in every state of every run |
| `Signal.GroupStop` | kernel/ipc/signal.c:323-401 | in every run, from the moment a thread has told its siblings of a stop until the next continue, every thread of the process is stopped, on its way into the stop or has SIGSTOP pending; when none is on its way or has it pending all are stopped |
| `Signal.ContinueHolds` | kernel/ipc/signal.c:405-426 | after a continue a thread is not stopped until it takes another signal, wherever the continue met it |
| `Signal.OutlivesExactly` | kernel/ipc/signal.c:405-488 | in every run a thread is stopped for a stop sent before the last continue if and only if a continue came between choosing and taking its signal, between sending the stop and telling the siblings, or while a signal other than SIGSTOP was pending |
| `Signal.TakenLateExactly` | kernel/ipc/signal.c:645-651 | in the steps of the run, the first gap: a stopped thread has a choosing and a later taking step, and the gap was hit if and only if a continue lies between them and the signal was gone when taken |
| `Signal.ContinueLost` | kernel/ipc/signal.c:645-651 | a run for the first gap and one for the last: the thread ends stopped with nothing pending |
| `Signal.SiblingStopsLater` | kernel/ipc/signal.c:323-344 | a run for the second: a stop already undone stops a sibling |

## Left out

- Boot, interrupt dispatch, context switching, inline assembly, the scheduler and the wait queues themselves: the models take as given that a critical section is atomic and that a sleeper is queued before its lock is dropped.
- Device drivers, network stack, system-call layer, ELF loading, devfs, procfs, ramfs, memfd, heap, poll and user programs: they would mostly add easy members.
- `rb_replace_node`, `rb_last` and `rb_prev`, which mirror what is modelled, and callback sets of which only some are null.
- An aggregate is a number or, for an absent child, nothing; the rotate callback recomputes both nodes, lower one first, as the header asks, where the kernel's copy one and recompute the other, which is the same while aggregates are true.
- The allocator's spin lock, the multiboot memory map, poisoning and statistics.
- Pmm.Pmm.Free: asks that the frames of the block be all held once or all shared, as the source's callers do; `Pmm.DropMixed` shows this is needed. A part of a live block can be freed after the ghost step `Halve`.
- Pmm.Pmm.FreeFrames: the same.
- Page-table entries are records of a frame and flags instead of 64-bit words; a physical address is aligned, so combining it with flags is exact.
- Paging.Paging.MapInto: asks that the path of the page meets no huge entry, as the source does of its callers: it would follow one into data.
- Paging.Paging.UnmapFrom: the same; and it returns the frame instead of freeing it after the TLB shootdown, which is not part of this model.
- Paging.Paging.SetProt: the same.
- Paging.Paging.CowFault: the same.
- Paging.Paging.SplitHuge: asks that no 1 GiB page lies on the way to the page, which the source does not look for either.
- Address-space creation, fork and teardown.
- Writers of the sector cache are serialised for each sector by the file-system lock; the model takes that as given.
- BlkFile.Device.Read and BlkFile.Device.Write: one thread at a time, as the file-system lock guarantees; the size of the device in bytes is taken to fit 64 bits.
- Part.Scan.Register: a registry without a free slot, a name too long or in use are one free choice to refuse.
- Part.Scan.PartScan: names and numbers of partitions, and running out of memory for the buffers; crc32 is any function.
- FAT directories are sequences of slots, whose bytes `FatFormat` gives, and positions are slot numbers; sector buffering, the second copy of the FAT and device errors while writing directories, the table or sectors that are on the device are not modelled.
- FatDir.Directory.Create: the short alias of a long name is a parameter, in use and not a label as the source makes it, so its uniqueness is not modelled; nor are timestamps.
- FatChain.LbaOwn: asks that the sectors of all entries of the table have addresses of 32 bits.
- FatChain.Volume.WriteFile: the same; positions stay below 2^32 less a cluster, where 32-bit arithmetic is exact; a failure part way through an extension keeps the clusters already linked, as in the source.
- Truncation, renaming, directories inside directories, and mounting.
- Flock.RangeOf: sums that overflow 64 bits are excluded; in C they are undefined.
- Flock.Locks.WaitLock: the acyclic graph is promised while no process acts as it sleeps, as one with a second thread could; the sleep itself and its retry are separate calls.
- PipeProtocol.RunServed: sleepers of a pipe that has been freed, and the notification of pollers, are not modelled.
- PageTree.PhysicalPage: frames of 2 MiB and 1 GiB entries are aligned to their size, as the processor asks, so that adding an offset is combining the bits; "not mapped" is a value of its own where the source returns 0.
- Futex timeouts, signals and the translation of user addresses are the caller's choice of when to call Finish and of the key.
- Signal.RunInv: thread exit, blocked signals, which of several pending signals is chosen first, what wait4 reports, and that a signal to the process reaches one thread only are not modelled.
