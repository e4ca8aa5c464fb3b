# A verified model of go-tfhfs

go-tfhfs is a content-addressed file system on a copy-on-write B+ tree.  This
project models its core in Dafny and proves what each part is for.  Code that
changes things step by step is modelled as classes and methods with loops, each
proved against a specification; code that only computes is modelled as
functions and lemmas.

## Components and main results

**The tree** (`Keys`, `BTree`, `Path`, `Edits`, `Stack`, `IbTree`, `Delta`,
`CommitTo`, `IbTransaction`).  A node is an immutable value; a mutable cursor
walks and edits the path to a leaf.  A tree stands for a sorted map.  For every
well-formed tree (uniform depth, strictly sorted keys, separators equal to the
least key below) setting, deleting and range-deleting give a well-formed tree
with exactly the map one expects, through all splits, borrows, merges and root
changes, and whatever the reused cursor has cached.  Which tree that is, up to
rebalancing, is given by a recursion from the root down (`Edits`), and so is
when rebalancing happens.  The difference of two trees is reported exactly, in
order and once per key, even for trees of different depth with shared parts.
Committing keeps the map, stores all reachable nodes, and is the identity when
repeated.

**The block storage** (`Storage`, `StorageLemmas`, `StorageFlush`,
`StorageJobs`, `StorageStatus`, `StorageSteady`, `StorageObject`,
`StorageCopies`). In every reachable state each block's disk count is its
explicit references, plus the names that refer to it, plus the references of
blocks that hold disk references, and its in-memory count is the matching sum of
handles, dirtiness, pending names and in-memory references; none goes below
zero. The steps are functions on a world; each is shown to keep every count
level with its sum, and the class methods are proved to do these steps. A flush
terminates for any acyclic graph and leaves exactly the counted blocks, closed
under references, and in memory only blocks that are in use.

**The tree backend** (`Location`, `Tiling`, `Space`, `Purge`, `TreeFlush`,
`TreeBackend`).  Free places, places in use and superblocks tile the device at
all times; the index of free places, kept twice in the tree whose nodes it
allocates, is exact.  A flush writes only to places that were not in use, frees
exactly the nodes that the old tree has and the new one does not, and what is
read back from the device is what the running backend has.

**Transactions and merge** (`Hugger`, `Merge`).  In every interleaving of begin,
change, compare-and-swap, merge-and-retry, close and flush steps the root is what
the commits give one at a time, and a flush loses none.  The three-way merge is
given pointwise; when it is a fast-forward is stated as an if-and-only-if, in
both of its modes.

**The CART cache** (`EntryList`, `Cart`), after Bansal and Modha, "CAR: Clock with
Adaptive Replacement", USENIX FAST 2004.  Four doubly linked lists on the heap
partition the entries; all bounds and counters are exact after every operation,
and eviction always ends with a victim that is not referenced.

**File contents** (`FileData`) and **block copy between servers** (`BlockCopy`,
`ParallelCopy`).
Reads and writes of a handle are those of a flat zero-filled array, with the exact
condition under which a write is not.  A copy succeeds if and only if all that is
below the block can be obtained, and then the target holds the whole closure, in
every interleaving of parallel copies; and every such run ends.

## How to read the model

`Valid` and its relatives (`Ready` and `Browsing` for the cursor, `Inv` for the
storage, `Accounted` for the tree backend, `Core` in the middle of an operation)
are the invariants.  A method that requires and ensures one keeps it over whole
runs.  A height `h` is a ghost parameter: the number of levels above the leaves.
`Flat` gives the leaf entries below a list of slots, `TreeMap` the map.

Assumptions, all as requirements of the members concerned:

- keys are not empty and a node with a single slot is below half the maximum size
  (`BTree.Fits`), so a node that may lend a slot has two; what the tree operations
  say about small nodes, and only that, supposes smaller entries (`IbStack.Even`);
- a tree has at most `MAXIMUM_TREE_DEPTH` levels;
- the graph of references between blocks is acyclic;
- the device stays below 2 to the 60 bytes (`Space.GrownTotal`,
  `TreeBackend.Enough`) and a superblock fits its slot.

Where an operation panics in the source (a missing key in a delete, a negative
count, an unknown block), the model has a precondition.  The order in which Go
ranges over a map is arbitrary in the model, and so is whether the difference
of two trees finds equal slots to be the same object.

## Model

| member | source | states |
|---|---|---|
| `Keys.LessTotal` | ibtree/ibstack.go:570-588 | the order of keys as byte strings is total; with `LessTransitive` and `LessAsymmetric` it is a strict order |
| `IbStack.SearchLeaf` | ibtree/ibstack.go:568-577 | binary search in a leaf: every slot before the result is below the key and no slot from it on is |
| `IbStack.SearchInner` | ibtree/ibstack.go:578-596 | binary search in an interior node: the last slot not above the key, or slot 0 |
| `IbStack.Stack.constructor` | ibtree/ibstack.go:26-52 | a new cursor is at the root, with nothing cached below it |
| `IbStack.Stack.InvalidateSubNodes` | ibtree/ibstack.go:62-68 | exactly the cached nodes below the cursor are dropped |
| `IbStack.Stack.SetIndex` | ibtree/ibstack.go:54-60 | moving to another slot drops the cached nodes below; moving to the same slot keeps them |
| `IbStack.Stack.ChildNodeAt` | ibtree/ibstack.go:136-146 | the cached node is the child it stands for: the answer is the one a cursor without a cache gives, also off either end |
| `IbStack.Stack.Push` | ibtree/ibstack.go:179-187 | the path grows by the slot gone through, and every cached node is still the child its parent and index say |
| `IbStack.Stack.Pop` | ibtree/ibstack.go:166-177 | an edited node goes back into its parent, or its slot goes if it is empty; the entries of the whole tree stay the same |
| `IbStack.Stack.Search` | ibtree/ibstack.go:562-609 | all entries left of where it ends are below the key and none from there on is, whatever was cached; at every level the way taken is that of `Edits.Edited` |
| `IbStack.Stack.GoNextLeaf` | ibtree/ibstack.go:425-455 | the cursor goes past exactly one entry, across nodes, or beyond the last entry; the answer tells whether it moved |
| `IbStack.Stack.GoPreviousLeaf` | ibtree/ibstack.go:398-423 | the cursor goes back by exactly one entry, across nodes, or before the first entry |
| `IbStack.Stack.RewriteNodeChildren` | ibtree/ibstack.go:102-115 | the node at the cursor gets new slots and loses its stored id; a leaf that is now small is counted |
| `IbStack.Stack.RewriteAtIndex` | ibtree/ibstack.go:69-100 | insert, replace or remove at the cursor is that splice of the slots |
| `IbStack.Stack.SplitNode` | ibtree/ibstack.go:519-541 | both parts of a node that is too big are non-empty and well formed, in order, split at half the slots |
| `IbStack.Stack.GrowRoot` | ibtree/ibstack.go:552-559 | a root over the two halves is a well-formed tree one level higher with the same entries, and fits in a node |
| `IbStack.Stack.AddChildAt` | ibtree/ibstack.go:514-560 | through all splits the entries are the old ones with the new one spliced in; the node where splitting stops fits; the tree, once put back, is what cutting from the leaf up gives, and is a level higher exactly if the root is cut; a first half that is a small leaf is counted |
| `IbStack.Stack.MoveFrom` | ibtree/ibstack.go:189-224 | borrowing moves one slot from the nearer end of the sibling; separators are right again and the entries of the tree are unchanged |
| `IbStack.BorrowOne` | ibtree/ibstack.go:189-224 | lending and taking together leave a well-formed pair of nodes and the same contents of the whole tree |
| `IbStack.Stack.MergeTo` | ibtree/ibstack.go:226-268 | a merge leaves one node with the slots of both in order and the entries of the tree unchanged |
| `IbStack.MergeIsSame` | ibtree/ibstack.go:226-268 | replacing two neighbours by their merge keeps well-formedness, separators and the contents of the whole tree |
| `IbStack.LentFine` | ibtree/ibstack.go:309-317 | a sibling that lends a slot does not become small itself, if all entries are light: no slot takes more than what a node of half the maximum size has beyond a small one |
| `IbStack.LenderLeftSmall` | ibtree/ibstack.go:309-317 | an input with an entry that is not light: a well-formed tree in which a leaf that is large enough to lend becomes small by it, beside the leaf it lent to |
| `IbStack.Stack.PickSibling` | ibtree/ibstack.go:291-308 | the larger of two siblings, or the only one; none exactly if the node has no sibling |
| `IbStack.Stack.FixChild` | ibtree/ibstack.go:283-318 | a node is tended to exactly if it is small and has a sibling; the larger sibling takes it in if it is below half the maximum size, else lends it a slot; entries are unchanged; fewer nodes are left, or as many with fewer bytes missing |
| `IbStack.FixedFits` | ibtree/ibstack.go:283-318 | tending to a small node makes no node that is too big |
| `IbStack.Stack.GoDownLeft` | ibtree/ibstack.go:361-371 | goes down through interior nodes in memory only, and the walk has fewer nodes ahead |
| `IbStack.Stack.MoveRight` | ibtree/ibstack.go:457-481 | goes on or up with fewer nodes ahead; it stops only at the root, past its last slot |
| `IbStack.RoomyLarge` | ibtree/ibstack.go:283-318 | a node whose slots take at least a given size, and which has enough of them not counting small children, is not small |
| `IbStack.TwentyStay` | ibtree/hugger/hugger.go:82-83 | in the nodes of the file system twenty slots of the at most 78 are enough |
| `IbStack.SlotEven` | ibtree/ibstack.go:189-224 | a slot at any level is no larger, and leads to no shorter key, than the entries below the node allow |
| `IbStack.MergeRoomy` | ibtree/ibstack.go:226-268 | a merge keeps that, with the same least size of a slot: it takes away a small child with its slot |
| `IbStack.BorrowRoomy` | ibtree/ibstack.go:189-224 | borrowing keeps that if all entries are light: the lender does not become small |
| `IbStack.Stack.TendChild` | ibtree/ibstack.go:491-506 | one turn of the walk: if all entries are light, everything it has passed stays tidy at all levels, unless a node above the leaves is changed; that never happens if interior nodes have room |
| `IbStack.Stack.Rebalance` | ibtree/ibstack.go:483-512 | the mutating leaf-first walk terminates and leaves the left-to-right sequence of entries as it was; if all entries are light, no small node in memory has a sibling right below the root, and at no level has one if the interior nodes in memory had room before the call |
| `IbStack.OnlyChildMerged` | ibtree/ibstack.go:283-318 | an input without room: a tidy tree in which merging the parent of a small only child, as the walk does, leaves that child small beside others in the merged node |
| `IbStack.Stack.CollapseRoot` | ibtree/ibstack.go:320-349 | the tree loses a level exactly if its root is small and all slots below fit in one node; entries are unchanged |
| `IbStack.Stack.Commit` | ibtree/ibstack.go:272-357 | whatever the cursor holds becomes a well-formed tree with exactly those entries; it is the path put back level by level if no leaf was rewritten small, and otherwise that tree rebalanced, one level lower exactly if its root is then small and all below it fits in one node; only an interior root that has become empty stays childless |
| `IbTree.Get` | ibtree/ibtree.go:263-272 | the value in the map that the tree stands for, or none |
| `IbTree.Set` | ibtree/ibtree.go:294-308 | the new tree is well formed and stands for the old map with the key set; it is the one that the recursion from the root down makes, which cuts each node that a new slot makes too big, and is rebalanced exactly if the edited leaf is small |
| `IbTree.RootLeafGrows` | ibtree/ibstack.go:514-560 | a new key in a tree of one leaf gives it a level exactly if the leaf with the new entry exceeds the maximum size, and otherwise leaves one leaf of exactly that size |
| `Edits.EditedFrom` | ibtree/ibstack.go:514-560 | for every path to a leaf, editing the leaf and putting nodes back on the way up, cutting as needed, is the recursion from any level down |
| `Edits.InsertedLeaf` | ibtree/ibstack.go:514-541 | a leaf with a new entry stays one node exactly if it fits, and else is two with half the slots each, in order |
| `Edits.InsertedInner` | ibtree/ibstack.go:514-560 | above the leaves a node gets a slot exactly if the one below was cut, and is cut exactly if it then does not fit; the node where this ends fits |
| `IbTree.Delete` | ibtree/ibtree.go:118-126 | the new tree is well formed and stands for the old map without the key; it is the one that the recursion from the root down makes, rebalanced, with the root looked at for collapse, exactly if the leaf has become small |
| `IbTree.SearchGreater` | ibtree/ibtree.go:416-423 | nothing before the cursor is above the key and everything from the cursor on is |
| `IbTree.SearchLesser` | ibtree/ibtree.go:407-414 | everything up to the cursor is below the key and nothing behind it is |
| `IbTree.NextKey` | ibtree/ibtree.go:274-282 | the least key of the whole map above the given one |
| `IbTree.PrevKey` | ibtree/ibtree.go:284-292 | the greatest key of the whole map below the given one |
| `IbTree.TrimLeft` | ibtree/ibtree.go:223-230 | dropping everything left of a cursor below a level keeps what is from the cursor on, gives the nodes that keeping from its key on gives at each level, and counts the leaf if it becomes small |
| `IbTree.TrimRight` | ibtree/ibtree.go:231-239 | dropping everything right of a cursor below a level keeps what is up to the cursor, and gives the nodes that keeping up to its key gives |
| `IbTree.CutBetween` | ibtree/ibtree.go:215-242 | two cursors are trimmed to the level where they part, in order, losing exactly what lies between them, with the two kept parts of that node |
| `IbTree.DeleteRange` | ibtree/ibtree.go:200-261 | the map without the closed interval; the new tree can be used if and only if the root is a leaf or a key remains; it is the tree cut between the last key before and the first one after the interval, rebalanced exactly if the leaf of the latter was cut and is small |
| `Edits.RangeUp` | ibtree/ibtree.go:215-261 | cutting where the ways to the two keys part and putting nodes back is the recursion from the root down, and so is whether a leaf counts as small |
| `Edits.PathIsAimed` | ibtree/ibstack.go:562-609 | every path to an entry of a well-formed tree is the way that a search for its key takes |
| `IbTree.OnlyKeyRange` | ibtree/ibtree.go:248-261 | an input for the other case: a two-level tree whose only key is deleted as a range |
| `IbTransaction.Transaction.Get` | ibtree/ibtransaction.go:60-63 | after any operations on the reused cursor, the same as a lookup in the map |
| `IbTransaction.Transaction.NextKey` | ibtree/ibtransaction.go:65-68 | the strict successor in the map, whatever the cursor has cached |
| `IbTransaction.Transaction.PrevKey` | ibtree/ibtransaction.go:70-73 | the strict predecessor in the map, whatever the cursor has cached |
| `IbTransaction.Transaction.Set` | ibtree/ibtransaction.go:79-82 | the map with the key set, in the tree of `IbTree.Set`; the reused cursor is valid again |
| `IbTransaction.Transaction.Delete` | ibtree/ibtransaction.go:40-43 | the map without the key, in the tree of `IbTree.Delete`; the reused cursor is valid again |
| `IbTransaction.Transaction.DeleteRange` | ibtree/ibtransaction.go:55-58 | the map without the interval, in the tree of `IbTree.DeleteRange`; the reused cursor is valid again |
| `IbTransaction.StripTreePrefix` | ibtree/ibtransaction.go:101-111 | gives a key exactly if the prefix is there, and adding the prefix gives the key back |
| `IbTransaction.NextInSubTree` | ibtree/ibtransaction.go:132-138 | asking the whole tree and stripping the prefix gives the successor within the subtree |
| `IbTransaction.PrevInSubTree` | ibtree/ibtransaction.go:140-145 | the same for the predecessor |
| `IbTransaction.RangeInSubTree` | ibtree/ibtransaction.go:119-124 | a range delete of a subtree removes exactly the keys with the prefix whose rest is in the range |
| `Delta.IterateDelta` | ibtree/delta.go:24-116 | reports, each once and in increasing key order, exactly the keys on which the two maps differ, with the old and the new entry, for trees of any two heights and whichever equal slots are skipped; the loop terminates |
| `Delta.ChangesAreDelta` | ibtree/delta.go:16-24 | the changes between two sorted sequences of entries are the delta of their maps |
| `Delta.PassSame` | ibtree/delta.go:58-66 | skipping a slot that both trees share does not change what is left to report |
| `Delta.StepLower` | ibtree/delta.go:68-91 | at different keys, going deeper or past the lower one reports exactly its change and gets closer to the end |
| `Delta.StepEqual` | ibtree/delta.go:93-115 | at equal keys, going deeper or past both reports exactly their change and gets closer to the end |
| `CommitTo.CommitTo` | ibtree/ibtree.go:129-193 | the result is stored under the returned id with all nodes below it, has the same entries and is the identity on a committed node; the saver learns exactly which nodes the new tree shares with what was stored |
| `CommitTo.CommitChildren` | ibtree/ibtree.go:137-184 | after it no slot carries a node in memory only; keys and entries are the same |
| `CommitTo.TreeSaver.SaveNode` | storage/tree/tree.go:548-567 | the node is stored under an id that is new, or holds the same node if ids come from contents; the node and its children are marked current |
| `CommitTo.CommittedTree` | ibtree/ibtree.go:129-198 | the committed root is a well-formed tree that stands for the same map |
| `Storage.Storage.constructor` | storage/storage.go:83-107 | a storage that starts on a backend satisfies the invariant if what the backend holds does |
| `Storage.Storage.GetBlockById` | storage/block.go:351-369 | finds exactly the blocks in memory or in the backend; a block is the same after loading |
| `Storage.Storage.AddStorageRefCount` | storage/block.go:170-183 | the count moves, never below zero, and the block is listed if it is unused or its held references are not as they should be, either way |
| `Storage.Storage.MarkDirty` | storage/block.go:207-217 | the first change remembers what is stored, lists the block and keeps it in memory |
| `Storage.Storage.AddRefCount` | storage/block.go:154-168 | the disk count moves, never below zero; a block that reaches zero holds its references in memory |
| `Storage.Storage.SetStorageDependencies` | storage/block.go:280-306 | one in-memory reference more or less for every occurrence of a reference |
| `Storage.Storage.SetDiskDependencies` | storage/block.go:280-306 | one disk reference more or less for every occurrence of a reference, with all that this sets off |
| `Storage.Storage.ShouldHaveStorageDependencies` | storage/block.go:308-344 | the flag and the references change together, only if the flag differs |
| `Storage.Storage.ShouldHaveDiskDependencies` | storage/block.go:308-348 | the flag and the references change together, only if the flag differs |
| `Storage.Storage.WriteBlock` | storage/block.go:113-135 | the backend holds the block if and only if its disk count is positive; the backend is asked to delete, store or update only what it must |
| `Storage.Storage.FlushBlock` | storage/block.go:107-152 | keeps the count invariant and all statuses and dirties at most the references of the block, which lets go of them in memory once it has them on disk |
| `Storage.Storage.FlushStorageRef` | storage/block.go:185-196 | a used block holds references in memory exactly if it has no disk count, an unused one lets them go and leaves memory |
| `Storage.Storage.FlushDirtyBlocks` | storage/storage.go:224-247 | the fixpoint loop terminates, for any order of the dirty blocks, with none left |
| `Storage.Storage.FlushStorageRefs` | storage/storage.go:249-266 | the fixpoint loop terminates with no block left to look at and the invariant intact |
| `Storage.Storage.GetName` | storage/storage.go:149-158 | a name is looked up in the backend once and then remembered |
| `Storage.Storage.SetNameToBlockId` | storage/storage.go:137-147 | the name has its new value, which is kept in memory until it is flushed; counts stay right |
| `Storage.Storage.FlushBlockName` | storage/storage.go:160-174 | the new value trades its in-memory reference for a disk reference and the old value loses one; counts stay right |
| `Storage.Storage.FlushBlockNames` | storage/storage.go:176-185 | afterwards every known name is flushed with the value it had |
| `Storage.Storage.Flush` | storage/storage.go:187-274 | terminates; the backend then holds exactly the blocks with a positive count, as they are, every persisted block that holds references and every name refers only to persisted blocks, and names have the values they were given; every block left in memory is in use, and holds references in memory if and only if it has no disk count; no status changes |
| `Storage.Storage.ChangeStatus` | storage/block.go:251-277 | the references of the old status are exchanged for those of the new one; counts stay right |
| `Storage.Storage.SetStatus` | storage/block.go:219-278 | refused exactly if the block would come to hold references to blocks that do not exist; otherwise this block alone has the new status; counts stay right either way |
| `Storage.Storage.SetBlock` | storage/storageblock.go:116-124 | the first handle on a block keeps it in memory, further ones only count |
| `Storage.Storage.GetBlockByIdJob` | storage/storagejob.go:79-81 | found exactly if the block is known, and then it is held |
| `Storage.Storage.GetBlockIdByNameJob` | storage/storagejob.go:82-83 | the latest value of a name, flushed or not |
| `Storage.Storage.ReferOrStoreBlock` | storage/storagejob.go:84-92 | refers to a known block or stores a new one, so that it has one more reference and a handle |
| `Storage.Storage.StoreBlockJob` | storage/storagejob.go:93-106 | a new block whose references exist fits into the count invariant |
| `Storage.Storage.UpdateBlockIdRefCount` | storage/storagejob.go:107-112 | an explicit reference more or less keeps the invariant, down to the last one |
| `Storage.Storage.UpdateBlockIdStorageRefCount` | storage/storagejob.go:113-119 | an in-memory reference more or less keeps the invariant |
| `Storage.Storage.OpenHandle` | storage/storageblock.go:49-55 | another handle on a held block changes no count |
| `Storage.Storage.CloseHandle` | storage/storageblock.go:57-76 | the last handle closed owes exactly one release |
| `StorageState.SumsMove` | storage/block.go:308-327 | how both sums of references move when one block changes, for every block |
| `StorageLemmas.SetDiskDepsStep` | storage/block.go:280-327 | taking or dropping disk references keeps every count level with its sum |
| `StorageLemmas.SetStorageDepsStep` | storage/block.go:280-327 | taking or dropping in-memory references keeps every count level with its sum |
| `StorageLemmas.FlushBlockStep` | storage/block.go:107-152 | writing out a dirty block keeps the invariant: counts equal sums for every block |
| `StorageFlush.FlushUsed` | storage/block.go:185-196 | looking at a used block keeps counts equal to sums in the middle of a sweep |
| `StorageFlush.FlushUnused` | storage/block.go:185-196 | forgetting an unused block keeps counts equal to sums, and nothing in use refers to it |
| `StorageFlush.Lighter` | storage/storage.go:224-266 | replacing a block by what it refers to makes the work list lighter in any acyclic graph: why the fixpoint loops end |
| `StorageFlush.FlushedIsPersisted` | storage/storage.go:187-274 | in every state that satisfies the invariant, an empty work list means that what is persisted is closed and exact |
| `StorageFlush.FlushedIsTended` | storage/block.go:170-196 | and that every block in memory holds references there if and only if it has no disk count and is in use |
| `StorageSteady.FlushBlockSteady` | storage/block.go:107-152 | writing out a block changes no status of any block and leaves none in memory that is neither in use nor listed |
| `StorageSteady.FlushStorageRefSteady` | storage/block.go:185-196 | the same for looking at a listed block |
| `StorageSteady.FlushedInUse` | storage/storage.go:249-266 | with an empty list, every block in memory is in use |
| `StorageFlush.ReopenStep` | storage/storage.go:83-107 | a storage reopened on what a flush left satisfies the invariant |
| `StorageJobs.ReferStep` | storage/storagejob.go:107-112 | an explicit reference more or less, as a step of the world, keeps the invariant |
| `StorageJobs.HoldStep` | storage/storagejob.go:113-119 | the same for an in-memory reference |
| `StorageJobs.StoreStep` | storage/storagejob.go:93-106 | the same for a new block |
| `StorageJobs.SetNameStep` | storage/storage.go:137-147 | the same for setting a name |
| `StorageJobs.FlushNameStep` | storage/storage.go:160-174 | the same for flushing a name |
| `StorageStatus.SetStatusStep` | storage/block.go:219-278 | the same for a status change, refused or not; no other status changes |
| `StorageSteady.SetStatusNotIdler` | storage/block.go:219-278 | blocks that are brought in to see whether they exist are listed again, refused or not: none stays in memory for nothing |
| `StorageCopies.FlushCopyStep` | storage/block.go:185-196 | looking at a listed copy moves the in-memory counts of its references, by its own flag and status, and nothing else |
| `StorageCopies.CopiesExact` | storage/maprunnerbackend.go:38-98 | once all listed copies have been looked at, the counts are right if and only if what the copies are off cancels out for every block |
| `StorageCopies.CopyExact` | storage/maprunnerbackend.go:38-98 | from every state that satisfies the invariant, writing out a dirty block through a backend that counts a copy, and then looking at the copy, leaves all counts right if and only if the block holds no references, or its in-memory flag is as its disk count wants it, or the backend is not called |
| `StorageCopies.CopyFails` | storage/maprunnerbackend.go:85-98 | a run of jobs after which they are wrong: a block that holds references in memory gets its first disk reference, and its reference is let go twice |
| `StorageCopies.DeletedCopyFails` | storage/maprunnerbackend.go:56-61 | a run of jobs after which deleting a block makes them wrong in the other direction: it loses its disk reference, and its status is changed and changed back |
| `Location.BlockSize` | storage/tree/locationentry.go:49-55 | the least multiple of the block size that is not below the size |
| `Location.KeyRoundTrip` | storage/tree/locationentry.go:36-63 | the size key gives back the place it was made from, in whole blocks |
| `Location.KeyOrder` | storage/tree/locationentry.go:36-47 | size keys compare as sizes, then offsets, and both kinds of key are equal exactly for equal places |
| `Location.BlockIdRoundTrip` | storage/tree/locationslice.go:21-42 | a block id gives back the list of places it was made from |
| `Tiling.CalculateNumberOfSuperBlocks` | storage/tree/tree.go:280-289 | the number of superblocks that start within a device |
| `Space.AddIndexed` | storage/tree/tree.go:184-197 | both indexes of free places gain exactly the place |
| `Space.RemoveIndexed` | storage/tree/tree.go:199-212 | both indexes of free places lose exactly the place |
| `Space.NextIsBestFit` | storage/tree/tree.go:224-229 | the successor of the wanted size key is the smallest sufficient free place, the first one of that size; none only if nothing fits |
| `TreeBackend.TreeBackend.AddFree` | storage/tree/tree.go:184-197 | one free place more in both indexes, that much less in use, and logged while flushing |
| `TreeBackend.TreeBackend.RemoveFree` | storage/tree/tree.go:199-212 | one free place less in both indexes, that much more in use, and logged while flushing |
| `TreeBackend.EntriesFit` | storage/tree/tree.go:184-187 | both keys of every place, and the data of a block of ordinary size, are within the size that tree operations demand and light enough for rebalancing |
| `TreeBackend.TreeBackend.Grow` | storage/tree/tree.go:295-328 | terminates; free, used and superblock places tile the larger device, which ends in a free place of the wanted size |
| `TreeBackend.TreeBackend.AllocateSlice` | storage/tree/tree.go:218-265 | takes the front of the best fitting free place, growing only if none fits; the place was not in use, and the tiling and the byte counts hold |
| `TreeBackend.TreeBackend.FreeSlice` | storage/tree/tree.go:178-182 | exactly these places become free; the tiling and the byte counts hold |
| `TreeBackend.TreeBackend.GetBlockById` | storage/tree/tree.go:497-508 | the stored metadata of exactly the known blocks |
| `TreeBackend.TreeBackend.StoreBlock` | storage/tree/tree.go:519-531 | the block has a place of its own; what is in use is exactly what nodes and blocks take up |
| `TreeBackend.TreeBackend.UpdateBlock` | storage/tree/tree.go:533-540 | new metadata for this block only, its place unchanged |
| `TreeBackend.TreeBackend.DeleteBlock` | storage/tree/tree.go:476-485 | the block and its place are given back, and nothing else |
| `TreeBackend.TreeBackend.PurgeNonCurrent` | storage/tree/tree.go:330-357 | frees the places of exactly the nodes below the old root that are not below a current one |
| `Purge.PurgedDistinct` | storage/tree/tree.go:330-357 | no node is purged twice |
| `Purge.Border` | storage/tree/tree.go:548-567 | every old node that the new tree reaches is below an old node that was marked current |
| `Purge.PurgeExact` | storage/tree/tree.go:330-357 | a node is purged if and only if the old tree reaches it and the new one does not |
| `Purge.KeptRooted` | storage/tree/tree.go:389-400 | without the purged nodes the new tree is complete and stands for the same map |
| `TreeBackend.TreeBackend.CommitRoot` | storage/tree/tree.go:389-391 | the new tree is saved in places that were not in use, with the contents it had |
| `TreeBackend.TreeBackend.RemoveFreeKeys` | storage/tree/tree.go:199-202 | both keys of a place are deleted, and must be there: a missing one would panic |
| `TreeBackend.TreeBackend.FlushPending` | storage/tree/tree.go:359-373 | the log replayed on what the transaction holds, and emptied; every removal finds its keys, in a flush and when starting on a device |
| `TreeBackend.TreeBackend.WriteSuperblock` | storage/tree/tree.go:398-421 | the superblock goes to the next slot in turn within the device, with a generation above all others |
| `TreeBackend.TreeBackend.Flush` | storage/tree/tree.go:375-474 | every place written is apart from all that was in use, so the old tree stays intact until the superblock; that goes to another slot than the last one if there are two, and no other slot is written; afterwards exactly the new tree and the blocks are in use, and the free space is that of the discarded transaction |
| `TreeBackend.PickSuperblock` | storage/tree/tree.go:76-113 | the superblock with the highest generation among those that can be read |
| `TreeBackend.TreeBackend.Init` | storage/tree/tree.go:59-132 | starting on the device gives the same blocks, free places, byte counts and generation as the backend that flushed |
| `Hugger.Hugger.Begin` | ibtree/hugger/htransaction.go:47-67 | a transaction begins on the current root; only nested ones begin while a flush waits |
| `Hugger.Hugger.Change` | ibtree/hugger/hugger.go:109-134 | the callback changes its own transaction only |
| `Hugger.Hugger.TryCommit` | ibtree/hugger/htransaction.go:84-104 | succeeds exactly if nothing changed or the root is still the one it began on; then the new root is the old one after exactly the edits of the transaction |
| `Hugger.Hugger.Retry` | ibtree/hugger/htransaction.go:106-117 | the next attempt is the current root with the delta of the failed transaction merged in |
| `Hugger.Hugger.Close` | ibtree/hugger/htransaction.go:122-130 | the transaction goes, and the root stays |
| `Hugger.Hugger.FlushStart` | ibtree/hugger/hugger.go:166-169 | flushing begins and the invariant holds |
| `Hugger.Hugger.FlushRead` | ibtree/hugger/hugger.go:170-181 | the root taken for storing, with no transaction open |
| `Hugger.Hugger.FlushStore` | ibtree/hugger/hugger.go:182-205 | the plain store of the saved root never discards a commit: the contents are unchanged |
| `Hugger.Hugger.FlushSkip` | ibtree/hugger/hugger.go:214-217 | a root that is saved already is left as it is |
| `Hugger.LocalMerge` | fs/merge.go:40-165 | the three-way merge in local mode is a merge that transactions can be given |
| `Hugger.RetriedCommit` | ibtree/hugger/htransaction.go:100-117 | in every interleaving a retried commit has its own value in every key it changed where that wins, and what all other commits left in every other key; it wins if and only if it is no metadata, or is what is there already, or is later than what is there, or nobody else has changed it |
| `Hugger.Serializable` | ibtree/hugger/htransaction.go:84-120 | in every interleaving the root is what the commits give when made one at a time, in the order of their compare-and-swap |
| `Merge.KeyParts` | fs/blockkey.go:35-65 | a key is its inode, subtype and data, and they can be read back |
| `Merge.NewKeyOrder` | fs/blockkey.go:61-65 | keys sort by inode, then subtype, then data |
| `Merge.MetaFirst` | fs/blockkey.go:61-65 | the metadata of an inode sorts before all its other keys |
| `Merge.InodeRange` | fs/merge.go:158-164 | the range deleted for an inode holds all its keys and no others |
| `Merge.JudgeInode` | fs/merge.go:63-100 | the verdict by the times of change of the two sides, and whether the inode is a directory |
| `Merge.ApplyTo` | fs/merge.go:135-156 | one delete, insert or update, done only over the old value or for a newer inode; no other key changes |
| `Merge.RemoveInodes` | fs/merge.go:158-164 | exactly the keys of inodes judged gone are removed, in any order |
| `Merge.MergeTo3` | fs/merge.go:40-165 | every key has the value that the two sides and the verdict on its inode determine, although verdicts are made during the iteration |
| `Merge.FastForward` | fs/merge.go:40-165 | a merge into the unchanged old tree gives the new tree if and only if every inode with changes is new, has later metadata, is a directory, or is gone with all its keys |
| `Merge.LoneChangeDropped` | fs/merge.go:105-108 | an input for the other case: a change without one of its metadata |
| `Merge.AllOrNothing` | fs/merge.go:40-165 | whatever it is merged into, an inode that is not a directory gets all of its changes, none of them, or goes altogether |
| `Merge.InodeOutcome` | fs/merge.go:63-164 | which of these it is, from the ctimes in the three trees alone: gone if it was removed and nobody has a later one, all if it was changed later than what is there, else none; a directory is then merged key by key |
| `Merge.LocalForward` | fs/merge.go:66-124 | in local mode a merge into the unchanged old tree gives the new tree if and only if no inode lost its metadata |
| `Merge.LocalOwn` | fs/merge.go:66-157 | in local mode a merge has the changed value where there is a change that wins over what is there, and keeps what the tree has everywhere else |
| `Merge.LocalKeepsRemoved` | fs/merge.go:66-124 | an input for the other case: an inode that was removed is still there |
| `EntryList.EntryList.PushBackElement` | xxx/xxxcartentrylist_gen.go:36-47 | the list is the old one with the element at the end; all links agree |
| `EntryList.EntryList.RemoveElement` | xxx/xxxcartentrylist_gen.go:73-85 | the list is the old one without the element, wherever it was; all links agree |
| `Cart.Cart.constructor` | xxx/cart.go:58-62 | an empty cache satisfies the invariant |
| `Cart.Cart.Get` | xxx/cart.go:66-82 | the value last set or a miss; the entry found is marked referenced and nothing else changes |
| `Cart.Cart.MoveT2ToT1` | xxx/cart.go:188-199 | a referenced frequent entry becomes the last recent one; counters stay exact |
| `Cart.Cart.RecycleT1` | xxx/cart.go:203-212 | a referenced recent entry goes to the back, long-lived if the list is long enough; one referenced entry fewer |
| `Cart.Cart.PromoteT1` | xxx/cart.go:213-221 | a long-lived recent entry becomes the last frequent one; counters stay exact |
| `Cart.Cart.ClearT2` | xxx/cart.go:187-200 | the first loop terminates with an unreferenced entry at the front of the frequent ones |
| `Cart.Cart.ClearT1` | xxx/cart.go:201-223 | the second loop terminates with an entry at the front that is neither referenced nor long-lived |
| `Cart.Cart.Evict` | xxx/cart.go:224-240 | the victim is the front of the list that the target length says, and it is not referenced |
| `Cart.Cart.Replace` | xxx/cart.go:184-240 | terminates and always finds one victim with its reference bit clear; only its value is lost, and no remembered key |
| `Cart.Cart.DropHistory` | xxx/cart.go:134-147 | the oldest remembered key of the list that the target says is forgotten |
| `Cart.Cart.AddFresh` | xxx/cart.go:150-158 | a new key is the last recent entry, not long-lived |
| `Cart.Cart.ReviveB1` | xxx/cart.go:160-181 | a remembered recent key is long-lived again, and the target for recent entries rises by the exact step within its bounds |
| `Cart.Cart.ReviveB2` | xxx/cart.go:160-181 | a remembered frequent key becomes recent, the targets move by the exact steps within their bounds |
| `Cart.Cart.Set` | xxx/cart.go:99-182 | the content is the old one with the key set, less at most one other key, and that only if the cache was full; the four lists partition the entries, lengths and targets stay in bounds and both counters are exact; as many keys are remembered as fit; the target rises for a remembered recent key, falls for a frequent one and stays otherwise |
| `FileData.FileHandle.ReadInTransaction` | fs/fh.go:152-217 | fills what one extent has, with zeros for holes, and touches no other byte of the buffer |
| `FileData.FileHandle.Read` | fs/fh.go:219-259 | the bytes of the flat file from the offset on, as many as there are, across extents and holes |
| `FileData.FileHandle.Gather` | fs/fh.go:261-328 | the new extent is the written bytes with the old ones around them, and zeros where there was nothing |
| `FileData.FileHandle.WriteExtent` | fs/fh.go:342-446 | the flat file with one piece of the buffer written, embedded or in an extent, across the switch between the two |
| `FileData.FileHandle.Write` | fs/fh.go:330-446 | the flat zero-filled file with the buffer written at the offset, but for an embedded file that is written to behind its first extent |
| `FileData.WritesFlat` | fs/fh.go:342-446 | a write is the flat overwrite if and only if it does not start behind the first extent of an embedded file with a byte that is not zero |
| `FileData.ForgottenByte` | fs/fh.go:342-446 | an input for the other case: one byte, then a write to the second extent |
| `BlockCopy.Server.GetBlock` | server/server.go:100-132 | whether the block is there, its status, and which references of a weak block are missing |
| `BlockCopy.Server.StoreBlock` | server/server.go:166-189 | a block that is there stays as it is, another one is stored with the wanted status |
| `BlockCopy.Server.UpgradeBlockNonWeak` | server/server.go:191-198 | a weak block becomes a normal one exactly if nothing it refers to is missing |
| `BlockCopy.CopyBlockTo` | connector/connector.go:126-155 | terminates on an acyclic graph; with other copies under way above it, it succeeds exactly if the block can be obtained, and then all below it is there |
| `BlockCopy.UpgradeBlock` | connector/connector.go:157-187 | the retry loop ends with a normal block exactly if everything it misses can be obtained |
| `BlockCopy.CopyMissing` | connector/connector.go:160-180 | all missing references are tried, and all are there if it succeeds |
| `BlockCopy.Closure` | connector/connector.go:126-187 | a sound target holds all that a block of it reaches, and none of it weak |
| `BlockCopy.ObtainableSame` | connector/connector.go:157-187 | what can be obtained does not change while parts of it are being obtained |
| `BlockCopy.CopyRoot` | connector/connector.go:126-187 | a copy to a sound target succeeds if and only if every block below it is on either side, in reach; then the target holds the whole closure, non-weak, and is sound again |
| `ParallelCopy.StepKeeps` | connector/connector.go:126-187 | whatever step of whatever copy comes next, weak blocks are being copied, normal ones have their references there, and a failed copy was for a block that cannot be obtained |
| `ParallelCopy.AllThere` | connector/connector.go:160-184 | once the copies a block waits for are done, all its references are there, although the answers of the target may have been out of date |
| `ParallelCopy.ParallelExact` | connector/connector.go:126-187 | in every interleaving of parallel copies, the copy ends well if and only if the block can be obtained, and then the target holds the whole closure, non-weak, and is sound |
| `ParallelCopy.Progress` | connector/connector.go:160-184 | as long as the copy is not finished, some step is possible |
| `ParallelCopy.StepLess` | connector/connector.go:126-187 | every step of every copy leaves fewer steps to come, those of the copies it starts included; a copy never asks again |
| `ParallelCopy.RunEnds` | connector/connector.go:126-187 | every run has a length bounded by the rank of the block and the most references a block has, whatever the interleaving and the answers, and one that cannot go on has finished its first copy |

## Left out

- IbTree.Delete: requires another key to remain if the root is an interior node; otherwise the source panics on a missing child while it tidies up.
- IbTree.DeleteRange: its two early returns for equal cursors are not modelled, because the cursors are never equal there.
- IbTree.Set: requires an entry that by itself makes a node of less than half the maximum size, since a sibling of that size with a single slot would lend its only one, and room for one more level, since the cursor has a fixed depth; nodes are not bounded by the maximum size, because replacing a value never cuts a node and a node is cut by the number of its slots.
- IbTransaction.Transaction.Set: requires the same.
- IbStack.Stack.Rebalance: which tree the walk makes is not given by a function, only its steps are (`IbStack.Fixed`); the condition for levels further down (`IbStack.DeepRoomy`) is sufficient, not necessary; nothing is claimed there without it, and nothing about small nodes if an entry is not light (`IbStack.Light`).
- IbStack.Stack.constructor: the fixed arrays of the cursor are sequences, since assignment copies them in the source too.
- IbTransaction.StripTreePrefix: a key shorter than the prefix gives no key, where the source would slice out of range.
- CommitTo.CommitTo: children are committed one after the other, as the source does, but the supply of new ids is given beforehand.
- Storage.Storage.SetNameToBlockId: excludes setting a name again after it was set to the empty id, flushed or not, where the source dereferences nil.
- Storage.Storage.StoreBlockJob: requires a block that is not known and references that exist, as the callers in the source see to.
- Storage.Storage.Flush: does not state the number of operations it returns, nor the call that flushes the backend afterwards.
- Storage.Storage.UpdateBlock: stands for a backend that keeps the contract of storage/backend.go. What `Storage.Init` installs does: `SetBackend` there is the method of the embedded proxy and returns that (storage/proxybackend.go:24-27, storage/storage.go:94-101), so calls are forwarded as they are. The wrapper that would run them in parallel on copies is not in use; `StorageCopies` says exactly when it would make counts wrong, as functions of the state.
- StorageCopies.CopyExact: that fetching data counts a block up and down again, which can only list it, is not modelled; in the runs of `StorageCopies.CopyFails` a flush with one listed block and nothing else to do is the one step it takes.
- TreeBackend.TreeBackend.Flush: requires a changed root, as the source returns at once otherwise; encoded sizes of nodes are a parameter; places for nodes are reserved before the nodes are encoded, in the order in which the source saves them.
- TreeBackend.TreeBackend.AllocateSlice: without the branches for a device that cannot grow, because growing never fails.
- TreeBackend.TreeBackend.Grow: the count of used bytes is an integer, where the source passes through a wrap-around that cancels out.
- TreeBackend.TreeBackend.Init: the tree is read as the map it stands for; a superblock that cannot be read is one that is not there.
- TreeBackend.TreeBackend.AddFree: the transaction is the map it stands for; its entries are within the size limit of tree operations (`TreeBackend.EntriesFit`), but that the tree stays within its maximum depth is not shown.
- TreeBackend.TreeBackend.NextKey: stands for the query on a subtree that `IbTransaction.NextInSubTree` is about.
- Hugger.Hugger.Retry: the merge is a parameter, which `Hugger.RetriedCommit` fixes; that retrying ends is not claimed, since other commits may always come first.
- Merge.MergeTo3: keys must be keys that the file system makes, and the decoding of metadata is a parameter.
- Cart.Cart.Set: setting nil, which deletes, is not modelled; it takes the entry out of the wrong list.
- Cart.Cart.Get: the variant that creates a missing value is not modelled.
- FileData.FileHandle.Read: requires that the extent of the offset starts within the file; otherwise the source indexes past a buffer that is shorter than the gap, and returns zeros from behind the end of the file in a longer one.
- FileData.FileHandle.Write: truncation, the time stamps of an inode and writes that complete later are not modelled.
- BlockCopy.CopyMissing: copies run one after the other; `ParallelCopy` has them in parallel, as steps on a state.
- BlockCopy.CopyRoot: requires a target whose blocks are normal and closed under references at the start.
- The overflow of pending operations into a place of their own, when they do not fit a superblock.
- Crash safety of data blocks between flushes: freed data space may be reused at once.
- FUSE operations, directories, permissions, HTTP and protobuf layers, message encoders, encryption and compression: input and output, generated code or foreign libraries.
- The in-memory, file and Badger backends, and names kept in a block: simple or foreign.
- Mutexes, condition variables, futures and atomics: locked regions and compare-and-swap are single steps.
