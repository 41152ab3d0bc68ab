# Verified model of the kernel's file system metadata and virtual memory

This project models two parts of the kernel and proves what they promise.

**Ext4 metadata.** Extent trees (`ExtentList`, `ExtentTree`, `ExtentDisk`, `ExtentInode`, `ExtentTeardown`,
`ExtentTruncate`), directory blocks down to their bytes (`DirRecords`, `DirNames`, `DirBlock`, `Directory`, `DirFile`),
the block and inode allocator (`Bitmap`, `AllocTable`, `BlockLayout`, `Ext4Alloc`), link counts (`LinkCount`), the
directory lookup cache (`LookupCache`), directory streams (`Getdents`, `Dirents`, `DirStream`) and checksums (`Crc32c`,
`CrcBursts`, `Checksums`).

**Virtual memory.** The frame allocator (`FrameAllocator`), the three-level page table (`PageTable`), address spaces
(`AddressSpace`, `AreaSplit`, `AreaUnmap`, `AreaProtect`, `AreaMove`, `MemorySet`), copy-on-write isolation
(`CowIsolation`, `CowRuns`, `CowSnapshot`, `CowProtect`, `CowMachine`) and the ELF loader (`ElfParse`, `ElfLoad`,
`ElfProgram`).

Three smaller state machines complete it: the pipe (`Pipe`), the dentry caches (`Dentry`) and path resolution
(`PathWalk`). `Common` holds the few definitions that all of them use.

Code that updates state in place is a class or a method with loops, proved against functions on values; the laws are
lemmas about those functions. Each section held under a lock is one atomic step. Arithmetic wraps where the kernel's
does in its default release build.

`dafny verify dfyconfig.toml` checks the whole project.

## What holds only under a condition

Some promises fail for the code as it is. Each has a lemma with a concrete failing input and the exact condition under
which the promise holds.

- **Extent insertion.** A full root leaf is split after its first record even when the new block lies before it, which
  leaves an unsorted leaf (`ExtentTree.UnsortedExample`). `ExtentTree.InsertRootExact` gives the exact condition. It
  also rules out block 2^32 - 1, the end of which wraps to zero (`ExtentTree.LastBlockUnsorted`).
- **Copy-on-write isolation.** mprotect rewrites entry flags from the area permission without looking at sharing, so it
  can make a frame writable that a forked process still shows (`CowProtect.ProtectBreaksIsolation`). It keeps isolation
  exactly when the pages it makes writable are the only ones that reach their frames (`CowProtect.ProtectIsolated`).
- **Moving a mapping.** mremap panics, after it took the area out, exactly when an empty area is keyed at the first
  free place (`AreaMove.EmptyAreaInTheWay`, `MemorySet.MemorySet.MremapMove`).
- **Mapping a page.** The walk that adds tables follows any valid entry, so a page below a larger leaf is written into
  the frame of that leaf, without a panic and without a mapping (`PageTable.LeafInTheWay`). A large page without access
  rights reads as a pointer (`PageTable.NoRights`). `PageTable.Table.Map` and `PageTable.Table.SetEntry` have the exact
  conditions.
- **Releasing a frame.** The test against double release looks at one stack only and accepts blocks that nobody holds
  (`FrameAllocator.NeverHeld`). The partition of memory is kept exactly when the block is held with that size
  (`FrameAllocator.StackFrameAllocator.Dealloc`).
- **Releasing a block or inode.** In a group whose bitmap was never initialised the code trusts the stale bytes on disk.
  The counters stay right exactly when the bit is not stale (`Ext4Alloc.GivenBack`, `Ext4Alloc.StaleExample`). A stale
  release costs the group (`Ext4Alloc.LostForGood`); no number is handed out twice either way.
- **Link counts.** At 65535 links creating a directory wraps the count of its parent, and renaming into it saturates
  (`LinkCount.CreateAtLimit`, `LinkCount.RenameAtLimit`). Below the limit these two keep the counts right, and only then
  (`LinkCount.DirCreated`, `LinkCount.RenameKeeps`). An empty directory can be removed as its own dot entry, which leaves
  its name behind with a count of zero (`LinkCount.DotExample`). Removal keeps the counts right exactly for names other
  than the dot names (`LinkCount.DirRemoved`).
- **Removing a name.** A removal merges the record into the one before it and is refused when that one looks like a
  checksum record, also in the middle of a block (`Directory.BehindExample`). `DirFile.Dir.RemoveEntry` has this as its
  exact condition.
- **Lookup cache.** The generation wraps after 2^64 commits. A scan publishes a stale binding only if the number of
  commits since it began is a positive multiple of that (`LookupCache.PublishKeeps`), and for each such number some run
  does (`LookupCache.OldScan`).
- **Creating a name.** Every failure of the file system below is a panic, such as a full disk (`Dentry.NoInodeLeft`) or
  a name that exists but is neither mounted nor cached (`Dentry.ExistingName`). `Dentry.Directory.CreateChild` and
  `Dentry.Directory.FindOrCreate` have the exact conditions.

## Model

| member | source | states |
|---|---|---|
| `ExtentList.InsertKeepsSorted` | os/src/ext4fs/ext4inode.rs:726-789 | inserting an unmapped block below the last 32-bit number into a sorted list of extents, by growing the predecessor or as a record of its own, leaves a sorted list |
| `ExtentList.InsertLookup` | os/src/ext4fs/ext4inode.rs:726-789 | the list insertion binds the new block and leaves the lookup of every other block as it was |
| `ExtentTree.FindIsLookup` | os/src/ext4fs/ext4inode.rs:458-523 | the walk over a shaped tree of any depth finds what the flat list of its extents holds |
| `ExtentTree.FindInTree` | os/src/ext4fs/ext4inode.rs:445-523 | the same for the tree rooted in the inode, also when it is empty |
| `ExtentTree.InsertLeafRefines` | os/src/ext4fs/ext4inode.rs:726-856 | a leaf insertion, split or not, spells out the list insertion and keeps both halves shaped |
| `ExtentTree.InsertIntoRefines` | os/src/ext4fs/ext4inode.rs:615-857 | an insertion below a node of any depth spells out the list insertion through every cascade of splits, and keeps entry bounds, keys equal to first keys and uniform depth |
| `ExtentTree.GrowRootRefines` | os/src/ext4fs/ext4inode.rs:871-930 | growing the root in the inode by a level changes no extent and leaves a shaped root |
| `ExtentTree.InsertRootRefines` | os/src/ext4fs/ext4inode.rs:535-945 | from the root: the flat list of the new tree is the list insertion on the old one |
| `ExtentTree.InsertRootExact` | os/src/ext4fs/ext4inode.rs:535-945 | inserting an unmapped block leaves a well-formed tree if and only if the block number is below the last one and the tree is empty, starts at or before it, or is a root leaf with room |
| `ExtentTree.InsertRootMap` | os/src/ext4fs/ext4inode.rs:535-945 | main theorem: for an insertable block the new tree is well-formed and its lookup is the old map with exactly one binding added |
| `ExtentTree.NoPredecessorSplit` | os/src/ext4fs/ext4inode.rs:728-856 | what the split of a full root leaf without predecessor leaves: the new record second in the left half, behind a larger one |
| `ExtentTree.UnsortedExample` | os/src/ext4fs/ext4inode.rs:728-856 | a concrete full root leaf whose insertion below its first key leaves an ill-formed tree |
| `ExtentTree.LastBlockUnsorted` | os/src/ext4fs/ext4inode.rs:139-141 | the last 32-bit block number leaves a list that is not sorted, because the end of its extent wraps |
| `ExtentDisk.InsertCount` | os/src/ext4fs/ext4inode.rs:615-857 | conservation: an insertion keeps every node block and adds exactly the blocks it took from the allocator, in order |
| `ExtentDisk.HoldsFrame` | os/src/ext4fs/ext4inode.rs:591-606 | a disk layout keeps representing a tree while the blocks of the tree stay as they are |
| `ExtentDisk.RebuildHolds` | os/src/ext4fs/ext4inode.rs:685-856 | after a child was inserted into, the records of its parent lead to the right nodes again |
| `ExtentInode.KeysIncrease` | os/src/ext4fs/ext4inode.rs:564-588 | every node of a sorted tree has strictly increasing keys, which the binary search relies on |
| `ExtentInode.ExtentFile.FindAim` | os/src/ext4fs/ext4inode.rs:564-588 | the binary search returns the number of entries whose key is at or before the block |
| `ExtentInode.ExtentFile.Aim` | os/src/ext4fs/ext4inode.rs:629-643 | on a node of a sorted tree it is the count the tree walk uses |
| `ExtentInode.ExtentFile.FindPhysicalBlock` | os/src/ext4fs/ext4inode.rs:445-523 | the loop over node buffers and blocks returns what the tree lookup gives |
| `ExtentInode.ExtentFile.ScanLeaf` | os/src/ext4fs/ext4inode.rs:474-496 | the scan of a leaf buffer returns the lookup in its extents |
| `ExtentInode.ExtentFile.EditLeaf` | os/src/ext4fs/ext4inode.rs:726-853 | the edit of a leaf buffer is the leaf insertion of the tree |
| `ExtentInode.ExtentFile.EditIndex` | os/src/ext4fs/ext4inode.rs:685-853 | the edit of an index buffer is the rebuilt node of the tree |
| `ExtentInode.ExtentFile.AddInTree` | os/src/ext4fs/ext4inode.rs:615-857 | the recursion over blocks on disk gives the tree insertion: the result is on disk, blocks outside the subtree are untouched, new blocks come from the allocator, and their number is returned |
| `ExtentInode.ExtentFile.AddInLeaf` | os/src/ext4fs/ext4inode.rs:726-856 | the leaf case of it |
| `ExtentInode.ExtentFile.AddInIndex` | os/src/ext4fs/ext4inode.rs:648-725 | the index case of it: descend into the child before the block |
| `ExtentInode.ExtentFile.FinishIndex` | os/src/ext4fs/ext4inode.rs:685-856 | the part after the descent: insert the record of a new sibling and split in turn |
| `ExtentInode.ExtentFile.GrowInode` | os/src/ext4fs/ext4inode.rs:871-930 | a split root becomes two index records in the inode, with the left half in a new block of block capacity |
| `ExtentInode.ExtentFile.AddExtentEntry` | os/src/ext4fs/ext4inode.rs:535-945 | the whole operation on the inode refines the tree insertion, keeps the layout ready for the next one, adds the sectors of the data block and of every new node block to i_blocks, and leaves every node it wrote, and a tree whose nodes all matched their checksums, with matching checksums |
| `ExtentInode.InsertSectors` | os/src/ext4fs/ext4inode.rs:932-934 | the sectors added to i_blocks are exactly the sectors the file gained |
| `ExtentInode.StaysSealed` | os/src/ext4fs/ext4inode.rs:591-606 | if every node block matched its stored checksum before an insertion, every node block of the new tree does |
| `ExtentTeardown.Collector.AddRun` | os/src/ext4fs/ext4inode.rs:1647-1653 | a run is collected if and only if none of its blocks was seen before; then exactly its blocks are added |
| `ExtentTeardown.Collector.CollectLeaf` | os/src/ext4fs/ext4inode.rs:1628-1656 | a leaf is collected if and only if every extent is valid and every block new |
| `ExtentTeardown.Collector.Collect` | os/src/ext4fs/ext4inode.rs:1579-1690 | a subtree is collected if and only if it is structurally sound, its external nodes have the magic number and match their checksums, and its blocks are new; then exactly its data and node blocks are added, in order |
| `ExtentTeardown.Collector.CollectChild` | os/src/ext4fs/ext4inode.rs:1663-1687 | a child is collected if and only if its block is in the data area, new, has the magic number and its checksum, and holds a sound subtree with new blocks |
| `ExtentTeardown.Collector.CollectIndex` | os/src/ext4fs/ext4inode.rs:1658-1689 | the same for all children of an index node |
| `ExtentTeardown.CollectWhole` | os/src/ext4fs/ext4inode.rs:1579-1690 | main theorem: the collection succeeds if and only if the tree is sound, its checksums match and no block occurs twice; then the list is free of duplicates and holds exactly the mapped data blocks and the external node blocks |
| `ExtentTeardown.SealedSound` | os/src/ext4fs/ext4inode.rs:1607-1626 | on a tree whose nodes all match their checksums, as insertions leave it, the checksum test refuses nothing |
| `ExtentTeardown.TreeMembers` | os/src/ext4fs/ext4inode.rs:1579-1690 | the list of a tree holds exactly its node blocks and the blocks of its runs |
| `ExtentTeardown.MappedIsInRuns` | os/src/ext4fs/ext4inode.rs:445-523 | a block is in some run if and only if the lookup maps some logical block to it |
| `ExtentTruncate.CompactRecords` | os/src/ext4fs/ext4inode.rs:1786-1836 | the compaction loop leaves the kept records at the front and frees the dropped runs |
| `ExtentTruncate.TruncateRecords` | os/src/ext4fs/ext4inode.rs:1776-1849 | partial truncation in the inode: the kept records, then zero records, and the list of freed blocks |
| `ExtentTruncate.TruncateLookup` | os/src/ext4fs/ext4inode.rs:1786-1836 | the block map afterwards is the old one restricted to the blocks before the new end |
| `ExtentTruncate.TruncateSorted` | os/src/ext4fs/ext4inode.rs:1786-1836 | the records stay sorted, and the last one ends no later than before |
| `ExtentTruncate.TruncateFrees` | os/src/ext4fs/ext4inode.rs:1786-1836 | a block is freed if and only if some removed logical block was mapped to it |
| `ExtentTruncate.TruncateCount` | os/src/ext4fs/ext4inode.rs:1786-1859 | kept and freed blocks add up to the old number of data blocks |
| `ExtentTruncate.Truncate` | os/src/ext4fs/ext4inode.rs:1695-1898 | main theorem: shrinking succeeds exactly for a sound tree with matching checksums cut to nothing or for records in the inode; then the tree is well-formed, the block map is the old one before the new end, exactly the removed blocks are given back, and i_blocks still counts what is left; a refusal changes nothing |
| `DirRecords.EncodedDecodes` | os/src/ext4fs/ext4_dir_entry.rs:4-125 | a written record decodes to what was written |
| `DirRecords.Resized` | os/src/ext4fs/ext4_dir_entry.rs:145-158 | setting the record length keeps inode, name and type |
| `DirRecords.Append` | os/src/ext4fs/ext4_dir_entry.rs:4-51 | records that tile two pieces tile both together, with the entries in order |
| `DirBlock.SetRecLen` | os/src/ext4fs/ext4_dir_entry.rs:145-158 | the setter succeeds if and only if the record decodes and the length is a multiple of four that holds its name and stays in the buffer; it changes two bytes, or none |
| `DirBlock.SetInode` | os/src/ext4fs/ext4_dir_entry.rs:127-134 | the setter succeeds if and only if the record decodes, and changes the inode field alone |
| `DirBlock.SetFileType` | os/src/ext4fs/ext4_dir_entry.rs:136-143 | the setter succeeds if and only if the record decodes, and changes the type byte alone |
| `DirBlock.WriteTo` | os/src/ext4fs/ext4_dir_entry.rs:106-125 | the writer succeeds if and only if the name fits the length and the length the buffer; then exactly the encoded record is written |
| `DirBlock.SplitRecords` | os/src/ext4fs/ext4inode.rs:1301-1314 | cutting a record back to its real length and writing another behind it leaves a tiled block with those two records in place of the one |
| `DirBlock.MergeRecords` | os/src/ext4fs/ext4inode.rs:1437-1456 | stretching a record over the next one leaves a tiled block without that one |
| `DirBlock.RetargetRecords` | os/src/ext4fs/ext4inode.rs:1506-1512 | new inode and type in place change that record alone |
| `DirBlock.Nested` | os/src/ext4fs/ext4_dir_entry.rs:161-168 | records that start before a record boundary end by it |
| `DirBlock.TailKept` | os/src/ext4fs/ext4_dir_entry.rs:161-168 | an edit that ends by the checksum record leaves it in place |
| `DirBlock.SealKeeps` | os/src/ext4fs/ext4inode.rs:250-281 | storing a checksum changes no entry and keeps the checksum record |
| `DirNames.Splice` | os/src/ext4fs/ext4inode.rs:1245-1529 | replacing a run of records changes name counts and lookups by that run alone |
| `DirNames.Inserted` | os/src/ext4fs/ext4inode.rs:1301-1314 | a new record in slack binds its name and no other |
| `DirNames.Merged` | os/src/ext4fs/ext4inode.rs:1437-1456 | merging a record into the one before it unbinds its name and no other |
| `DirNames.Freed` | os/src/ext4fs/ext4inode.rs:1457-1459 | clearing the inode of the first record of a block unbinds its name and no other |
| `DirNames.Replaced` | os/src/ext4fs/ext4inode.rs:1506-1512 | a new target rebinds its name and no other |
| `Directory.ScanFinds` | os/src/ext4fs/ext4inode.rs:1365-1403 | the scan of a tiled block is the lookup in its entries; a block that does not decode is malformed |
| `Directory.ScanBlock` | os/src/ext4fs/ext4inode.rs:1365-1403 | the scanning loop returns that for any bytes |
| `Directory.InsertIntoBlock` | os/src/ext4fs/ext4inode.rs:1287-1326 | a block takes a name if and only if one of its records has the slack for it; then one record is split and tiling and checksum record are kept, otherwise nothing changes |
| `Directory.PutAt` | os/src/ext4fs/ext4inode.rs:1301-1314 | the edit itself: the record is cut back to its real length and the new one takes the rest |
| `Directory.RemoveFromBlock` | os/src/ext4fs/ext4inode.rs:1425-1470 | removal is refused if and only if the record before the name looks like a checksum record; otherwise it returns the binding and takes exactly that record out, or changes nothing |
| `Directory.EraseAt` | os/src/ext4fs/ext4inode.rs:1437-1459 | the edit itself, by merging into the predecessor or by freeing the first record; refused exactly behind a record that looks like a checksum record |
| `Directory.BehindSplit` | os/src/ext4fs/ext4inode.rs:1437-1456 | around the first live record with a name, the record before it alone decides whether removal is refused |
| `Directory.BehindExample` | os/src/ext4fs/ext4_dir_entry.rs:161-168 | a concrete block that binds a name behind such a record, so that the name cannot be removed |
| `Directory.ReplaceInBlock` | os/src/ext4fs/ext4inode.rs:1495-1522 | replacement returns the binding and retargets exactly that record, or changes nothing |
| `DirFile.Dir.Lookup` | os/src/ext4fs/ext4inode.rs:1365-1403 | the lookup over all blocks is the binding of the name; it reports a malformed block only if there is one |
| `DirFile.Dir.SealBlock` | os/src/ext4fs/ext4inode.rs:250-281 | the checksum is stored without changing an entry |
| `DirFile.Dir.AddInSlack` | os/src/ext4fs/ext4inode.rs:1279-1328 | binds the name if and only if some block has a record with the slack for it, or changes nothing |
| `DirFile.Dir.AddInNewBlock` | os/src/ext4fs/ext4inode.rs:1332-1357 | binds the name in a new last block with a checksum record if and only if the directory can grow, or changes nothing |
| `DirFile.Dir.AddLinear` | os/src/ext4fs/ext4inode.rs:1250-1358 | binds a new name if and only if it is short enough, not bound, and there is slack or a block to grow by |
| `DirFile.Dir.RemoveLinear` | os/src/ext4fs/ext4inode.rs:1415-1477 | returns what the name was bound to and unbinds it alone, unless it stands behind a record that looks like a checksum record |
| `DirFile.Dir.ReplaceLinear` | os/src/ext4fs/ext4inode.rs:1485-1529 | returns what the name was bound to and rebinds it alone |
| `DirFile.Dir.Prepare` | os/src/ext4fs/ext4inode.rs:1156-1243 | converts a depth-zero hash-index root to an ordinary block with the same names, does nothing to a linear directory, and refuses deeper indexes unchanged |
| `DirFile.Dir.AddEntry` | os/src/ext4fs/ext4inode.rs:1245-1358 | main theorem: succeeds if and only if the directory can be changed, the name fits and is not bound, and there is slack, a root to convert or a block to grow by; then exactly this binding is added and names stay unique |
| `DirFile.Dir.RemoveEntry` | os/src/ext4fs/ext4inode.rs:1410-1477 | main theorem: gives the old binding and removes exactly it; refused if and only if the directory cannot be changed or the name stands behind a record that looks like a checksum record |
| `DirFile.Dir.ReplaceEntry` | os/src/ext4fs/ext4inode.rs:1480-1529 | main theorem: gives the old binding and replaces exactly it |
| `DirFile.ConvertedNames` | os/src/ext4fs/ext4inode.rs:1156-1243 | the converted root keeps every name, count and target of the directory |
| `DirFile.ConvertedRest` | os/src/ext4fs/ext4inode.rs:1156-1243 | the converted root has room for any name and shields none that was not shielded before |
| `DirFile.NotShielded` | os/src/ext4fs/ext4inode.rs:1415-1477 | a unique name that is removable where it is found first is removable |
| `Bitmap.SetBits` | os/src/ext4fs/ext4.rs:524-532 | setting a bit in a byte map sets that bit alone |
| `Bitmap.ClearBits` | os/src/ext4fs/ext4.rs:988-1045 | clearing a bit clears that bit alone |
| `Bitmap.FindClear` | os/src/ext4fs/ext4.rs:868-944 | the scan finds the first clear valid bit, and none if and only if none is clear |
| `Bitmap.CountClear` | os/src/ext4fs/ext4.rs:585-596 | the count is the number of clear valid bits |
| `AllocTable.EncodeDecodes` | os/src/ext4fs/ext4.rs:868-944 | number to group and bit and back is the identity |
| `AllocTable.DecodeEncodes` | os/src/ext4fs/ext4.rs:988-1045 | and the other way round |
| `AllocTable.InRange` | os/src/ext4fs/ext4.rs:988-1045 | a number in range belongs to an existing group and a valid bit of it |
| `AllocTable.TookGood` | os/src/ext4fs/ext4.rs:868-944 | handing out a clear bit of a group with the right counter keeps every other counter, and the total equal to their sum |
| `AllocTable.TookTakes` | os/src/ext4fs/ext4.rs:868-944 | it takes a number that was free, and no other |
| `AllocTable.GaveGood` | os/src/ext4fs/ext4.rs:988-1045 | clearing a stored bit leaves no counter too small; the counters stay right if and only if the group bitmap was initialised |
| `AllocTable.GaveFrees` | os/src/ext4fs/ext4.rs:988-1045 | it frees that number and no other |
| `BlockLayout.IsPowerOfGroup` | os/src/ext4fs/ext4.rs:556-564 | the division loop decides whether a group number is a power of the factor |
| `BlockLayout.GroupHasBackup` | os/src/ext4fs/ext4.rs:566-583 | decides which groups hold a superblock backup |
| `BlockLayout.ReserveRange` | os/src/ext4fs/ext4.rs:534-554 | sets exactly the valid bits of the group that lie in the physical range |
| `BlockLayout.ReservePlace` | os/src/ext4fs/ext4.rs:654-674 | sets exactly the bits of the bitmaps and inode table of a group that lie in this one |
| `BlockLayout.MaterializeBlockBitmap` | os/src/ext4fs/ext4.rs:598-677 | accepts if and only if the number of clear bits is the expected one; then the bitmap reserves all metadata of all groups, and the padding, and nothing else |
| `BlockLayout.MaterializeInodeBitmap` | os/src/ext4fs/ext4.rs:679-706 | the same for inodes, where the padding and, in group 0, the inodes before the first ordinary one are reserved |
| `Ext4Alloc.Allocator.AllocBlock` | os/src/ext4fs/ext4.rs:868-944 | in any state a run can reach: hands out a number that was free and takes exactly it, which is a step of the runs below; fails if and only if no group counts a free block and has a bitmap that agrees; right counters stay right |
| `Ext4Alloc.Allocator.TakeBlock` | os/src/ext4fs/ext4.rs:868-944 | one group of the loop, with the exact condition under which it has a block to give |
| `Ext4Alloc.Allocator.AllocInode` | os/src/ext4fs/ext4.rs:788-866 | the same for inodes; no inode in use lies in the never-used tail |
| `Ext4Alloc.Allocator.TakeInode` | os/src/ext4fs/ext4.rs:788-866 | the same for inodes |
| `Ext4Alloc.Allocator.DeallocBlock` | os/src/ext4fs/ext4.rs:988-1045 | in any such state: right counters stay right if and only if the bit was not stale; the number and no other is free afterwards; a second release changes nothing |
| `Ext4Alloc.Allocator.DeallocInode` | os/src/ext4fs/ext4.rs:946-986 | the same for inodes |
| `Ext4Alloc.GivenBack` | os/src/ext4fs/ext4.rs:946-1045 | the law behind both: exact condition for the counters, effect on what is taken, none for a stale bit, and the no-op cases |
| `Ext4Alloc.AllocKeeps` | os/src/ext4fs/ext4.rs:788-944 | an allocation keeps the counters as they should be and hands out a number that was free |
| `Ext4Alloc.DeallocKeeps` | os/src/ext4fs/ext4.rs:946-1045 | a release leaves no counter too small; right counters stay right if and only if the bit is not stale |
| `Ext4Alloc.StaysKept` | os/src/ext4fs/ext4.rs:788-1045 | over any run no counter is ever too small, and those of initialised groups are right |
| `Ext4Alloc.StaysRight` | os/src/ext4fs/ext4.rs:788-1045 | the counters are right in every state of every run from a right one in which no stale bit is given back |
| `Ext4Alloc.StaysInUse` | os/src/ext4fs/ext4.rs:788-1045 | one event leaves every number in use except the one it gives back |
| `Ext4Alloc.StaysTaken` | os/src/ext4fs/ext4.rs:788-1045 | over any run, stale releases included, a number handed out stays in use until it is given back |
| `Ext4Alloc.NoDoubleHandout` | os/src/ext4fs/ext4.rs:788-1045 | main theorem: over any run, stale releases included, two hand-outs of one number have its release in between |
| `Ext4Alloc.StaleLoses` | os/src/ext4fs/ext4.rs:988-1045 | giving back a stale bit makes the group count more than its bitmap will have |
| `Ext4Alloc.LostForGood` | os/src/ext4fs/ext4.rs:788-1045 | over any run, nothing is handed out from such a group again |
| `Ext4Alloc.StaleExample` | os/src/ext4fs/ext4.rs:988-1045 | a concrete never-initialised group with a stale set bit, where a release makes the free counter wrong |
| `LinkCount.PutCounts` | os/src/ext4fs/ext4.rs:1071-1088 | changing one entry changes the number of names of its old and its new target alone |
| `LinkCount.Namespace.AdjustLink` | os/src/ext4fs/ext4.rs:1071-1088 | counts go up and down by one and saturate at the ends of 16 bits |
| `LinkCount.Namespace.AddEntry` | os/src/ext4fs/ext4inode.rs:1245-1358 | adds the entry if and only if the directory can be changed and has room, the name fits and is not there |
| `LinkCount.Namespace.RemoveEntry` | os/src/ext4fs/ext4inode.rs:1410-1477 | removes the entry and says what it named, unless it cannot be removed from its block |
| `LinkCount.Namespace.ReplaceEntry` | os/src/ext4fs/ext4inode.rs:1480-1529 | replaces the entry and says what it named |
| `LinkCount.Namespace.CreateFile` | os/src/ext4fs/vfs.rs:304-336 | succeeds exactly for a new short name in a changeable directory with room, and an inode to hand out, also one that was freed before; every count is the number of names afterwards; failures change nothing |
| `LinkCount.Namespace.CreateDir` | os/src/ext4fs/vfs.rs:338-467 | the same, with the two dot entries, if and only if the parent count was below 65535 |
| `LinkCount.Namespace.Unlink` | os/src/syscall/fs.rs:1644-1680 | removes exactly a name that is there and names no directory, so neither dot name; every count stays right |
| `LinkCount.Namespace.Rmdir` | os/src/syscall/fs.rs:1644-1680 | main theorem: the exact condition of success, with the dot names; afterwards every count is right if and only if the name was not a dot name |
| `LinkCount.Namespace.MoveEntries` | os/src/ext4fs/vfs.rs:690-728 | the entry changes of a rename all happen, or are rolled back to the old entries, with the exact condition |
| `LinkCount.Namespace.MoveLinks` | os/src/ext4fs/vfs.rs:730-752 | the count changes of a rename, in order |
| `LinkCount.Namespace.Rename` | os/src/ext4fs/vfs.rs:634-754 | main theorem: the exact answer; after a successful rename every live count is the number of names, within or across parents, with or without a replaced file or empty directory, if and only if the count of the new parent did not overflow; failures change nothing |
| `LinkCount.DirCreated` | os/src/ext4fs/vfs.rs:338-467 | creating a directory keeps the counts if and only if the parent count is below the limit; at the limit it wraps |
| `LinkCount.NameRemoved` | os/src/ext4fs/ext4inode.rs:1562-1573 | taking a name away and lowering the count keeps the counts |
| `LinkCount.DirRemoved` | os/src/syscall/fs.rs:1644-1680 | the law behind it: with the entry, the two dot entries and three links gone the counts are right if and only if the name is an ordinary one |
| `LinkCount.TwoNames` | os/src/ext4fs/vfs.rs:338-467 | every directory is counted at least twice: for its own dot, and for its name or, in a root, its dot-dot |
| `LinkCount.DotRemoved` | os/src/syscall/fs.rs:1644-1680 | removing an empty directory through a dot name always leaves its count too small |
| `LinkCount.DotExample` | os/src/syscall/fs.rs:1610-1680 | a concrete directory removed as its own dot: its name stays in the parent and its count is zero |
| `LinkCount.RenameKeeps` | os/src/ext4fs/vfs.rs:634-754 | the law behind rename: tree shape and counts are kept if and only if the new parent does not overflow |
| `LinkCount.RenameCounted` | os/src/ext4fs/vfs.rs:634-754 | its part about counts |
| `LinkCount.WideExists` | os/src/ext4fs/vfs.rs:338-467 | a directory with any number of subdirectories up to the limit, with right counts, exists |
| `LinkCount.CreateAtLimit` | os/src/ext4fs/vfs.rs:338-467 | a concrete directory with 65535 links in which creating a directory leaves a wrong count |
| `LinkCount.RenameAtLimit` | os/src/ext4fs/vfs.rs:730-752 | a concrete directory moved into one with 65535 links, which leaves a wrong count |
| `Getdents.ReadLower` | os/src/ext4fs/vfs.rs:486-585 | from a record boundary: the live named records up to the new cursor, in order and within the buffer; it stops early only if the next one does not fit, and reports a buffer too small only if even the first does not |
| `Getdents.RestStep` | os/src/ext4fs/vfs.rs:486-585 | moving over one record removes that record from what is left and stays on a boundary |
| `Dirents.AppendRecord` | os/src/fs/inode.rs:65-90 | appends if and only if the padded record fits; the packed records before it stay, and the new one reads back with its fields |
| `Dirents.EncodedReads` | os/src/fs/inode.rs:65-90 | a record written with any fields reads back with them, and its name up to the first zero byte |
| `Dirents.ValidateRecords` | os/src/fs/inode.rs:92-117 | accepts if and only if the bytes are whole, aligned records with terminated names |
| `Dirents.OverlayMounted` | os/src/fs/inode.rs:119-149 | rewrites inode and type of exactly the records whose name is mounted over, keeps order, lengths, cookies and names, and marks exactly the first mounts of those names |
| `Dirents.Join` | os/src/fs/inode.rs:92-117 | packed buffers put together are packed, with the records in order |
| `Dirents.PackReads` | os/src/ext4fs/vfs.rs:525-552 | the records a call packs read back one by one, in as many bytes as the cursor counted |
| `Dirents.OverlaidStream` | os/src/fs/inode.rs:119-149 | rewriting packed bytes is laying the mounts over the lower records |
| `DirStream.Stream.MarkShadowed` | os/src/fs/inode.rs:119-149 | a mount is marked if and only if a record with its name was reported |
| `DirStream.Stream.ReadMounts` | os/src/fs/inode.rs:358-384 | reports the unmarked mounts in order as far as they fit, and stops only at one that does not |
| `DirStream.Stream.Getdents` | os/src/fs/inode.rs:294-391 | one call: what it returns extends the stream and fits the buffer; a buffer is too small only if the next record of the stream does not fit, and then nothing is lost; an empty answer to a non-empty buffer means the whole stream was reported |
| `DirStream.Stream.ReportedIsPrefix` | os/src/fs/inode.rs:294-391 | at any time, what all calls reported is a prefix of the whole stream |
| `DirStream.TimesShown` | os/src/ext4fs/vfs.rs:486-585 | a name is reported among the lower records as often as it is bound |
| `DirStream.TimesOthers` | os/src/fs/inode.rs:358-384 | a mount follows once if and only if no lower record stood for it |
| `DirStream.ListedOnce` | os/src/fs/inode.rs:294-391 | main theorem: in the whole stream every bound or mounted name occurs exactly once, and no other |
| `LookupCache.DirLookupCache.Get` | os/src/ext4fs/ext4inode.rs:309-320 | answers what is cached, and nothing for the empty name |
| `LookupCache.DirLookupCache.Remember` | os/src/ext4fs/ext4inode.rs:73-97 | stays within 2048 entries, starting over when full, and holds the new binding |
| `LookupCache.DirLookupCache.RememberIfCurrent` | os/src/ext4fs/ext4inode.rs:326-342 | publishes if and only if the generation is the one captured before the scan |
| `LookupCache.DirLookupCache.Invalidate` | os/src/ext4fs/ext4inode.rs:344-352 | empties the cache and advances the generation |
| `LookupCache.DirLookupCache.Commit` | os/src/ext4fs/ext4inode.rs:354-364 | keeps the new binding alone and advances the generation |
| `LookupCache.PublishKeeps` | os/src/ext4fs/ext4inode.rs:326-342 | a publication keeps the invariant unless the generation came round to its scan again |
| `LookupCache.PublishExact` | os/src/ext4fs/ext4inode.rs:326-342 | one publication keeps the invariant if and only if it is dropped or what it read still holds |
| `LookupCache.InitialInv` | os/src/ext4fs/ext4inode.rs:64-72 | an empty cache has the invariant |
| `LookupCache.Mutations` | os/src/ext4fs/ext4inode.rs:344-364 | any number of commits can pass while a scan is under way |
| `LookupCache.StepKeeps` | os/src/ext4fs/ext4inode.rs:309-364 | every step of scanners and mutator keeps the invariant, publications under that condition |
| `LookupCache.CacheIsCurrent` | os/src/ext4fs/ext4inode.rs:309-364 | main theorem: in every run in which no publication meets its generation again after a whole round, between mutations a cached binding is the one on disk |
| `LookupCache.OldScan` | os/src/ext4fs/ext4inode.rs:326-342 | for every pair of commit counts at which that condition fails, a run from the start that ends with a stale binding in the cache |
| `Crc32c.RoundInvertible` | os/src/ext4fs/checksum.rs:41-52 | one shift-and-mask round can be undone |
| `Crc32c.Compute` | os/src/ext4fs/checksum.rs:41-52 | the nested loop computes the CRC32C register update of section 12.1 of RFC 3720 |
| `Crc32c.Chain` | os/src/ext4fs/checksum.rs:41-52 | checksumming a concatenation is chaining the checksums |
| `Crc32c.SeedInjective` | os/src/ext4fs/checksum.rs:41-52 | over the same bytes different seeds give different results |
| `Crc32c.SingleByte` | os/src/ext4fs/checksum.rs:41-52 | changing any single byte changes the checksum |
| `CrcBursts.RoundXor` | os/src/ext4fs/checksum.rs:41-52 | a round of a difference is the difference of the rounds |
| `CrcBursts.CrcFeeds` | os/src/ext4fs/checksum.rs:41-52 | the byte-wise register update is the bit-serial one, least significant bit first |
| `CrcBursts.WindowInjective` | os/src/ext4fs/checksum.rs:41-52 | from one register, different windows of up to 32 bits lead to different registers |
| `CrcBursts.BurstDetected` | os/src/ext4fs/checksum.rs:41-52 | main theorem: two messages of one length that differ only within 32 consecutive bits, aligned or not, have different checksums |
| `Checksums.InodeStable` | os/src/ext4fs/checksum.rs:68-120 | storing a checksum in its fields does not change what is checksummed, nor any other byte |
| `Checksums.InodeSealVerifies` | os/src/ext4fs/checksum.rs:122-138 | a sealed inode verifies, with or without the high half |
| `Checksums.SetInodeChecksum` | os/src/ext4fs/checksum.rs:122-138 | the setter refuses short buffers unchanged, and otherwise leaves an inode that verifies |
| `Checksums.SetBitmapChecksum` | os/src/ext4fs/checksum.rs:156-194 | bitmap checksums land in the fields of their kind, with the high half where the descriptor has room, and verify |
| `Checksums.SetGroupChecksum` | os/src/ext4fs/checksum.rs:196-217 | the descriptor verifies afterwards, and only the field changed |
| `Checksums.SetSuperblockChecksum` | os/src/ext4fs/checksum.rs:219-236 | the superblock verifies afterwards, and only the field changed |
| `Checksums.SetDirLeafChecksum` | os/src/ext4fs/checksum.rs:238-262 | accepts exactly blocks with a checksum record; the block verifies afterwards, and only the field changed |
| `Checksums.SetExtentChecksum` | os/src/ext4fs/checksum.rs:291-319 | accepts exactly nodes with room for a tail; the node verifies afterwards, and only the field changed |
| `FrameAllocator.StackFrameAllocator.Init` | os/src/mm/frame_allocator.rs:79-83 | sets the managed range, all of it free |
| `FrameAllocator.StackFrameAllocator.RecycleRange` | os/src/mm/frame_allocator.rs:84-100 | pushes every page of the range exactly once, in aligned blocks, largest first |
| `FrameAllocator.StackFrameAllocator.SplitMega` | os/src/mm/frame_allocator.rs:101-107 | pushes all 4K pages of a 2M block but the first |
| `FrameAllocator.StackFrameAllocator.SplitGiga` | os/src/mm/frame_allocator.rs:101-107 | pushes all 2M blocks of a 1G block but the first |
| `FrameAllocator.StackFrameAllocator.AllocStd` | os/src/mm/frame_allocator.rs:136-155 | keeps the partition of the managed range into stacks, untouched pages and held blocks; fails if and only if nothing is free |
| `FrameAllocator.StackFrameAllocator.AllocMega` | os/src/mm/frame_allocator.rs:157-175 | the same for 2M blocks, with the exact condition of failure |
| `FrameAllocator.StackFrameAllocator.AllocGiga` | os/src/mm/frame_allocator.rs:177-190 | the same for 1G blocks, with the exact condition of failure |
| `FrameAllocator.StackFrameAllocator.Alloc` | os/src/mm/frame_allocator.rs:129-134 | dispatches on the size and keeps the partition |
| `FrameAllocator.StackFrameAllocator.Dealloc` | os/src/mm/frame_allocator.rs:192-209 | the exact condition of the panic; without one the block goes on its stack and raises the free count by its pages, and the partition is kept if and only if the block was held with that size |
| `FrameAllocator.NeverHeld` | os/src/mm/frame_allocator.rs:192-209 | a concrete page that was never handed out, passes the panic test and is free twice afterwards |
| `FrameAllocator.StackFrameAllocator.HeldPage` | os/src/mm/frame_allocator.rs:79-209 | in every reachable state a page of a held block is managed and neither stacked nor untouched |
| `FrameAllocator.StackFrameAllocator.HeldIsNotFree` | os/src/mm/frame_allocator.rs:192-209 | the start of a held block is on no stack |
| `FrameAllocator.StackFrameAllocator.HeldDisjoint` | os/src/mm/frame_allocator.rs:79-209 | no page is held through two blocks |
| `PageTable.IndexesDetermine` | os/src/mm/address.rs:254-262 | the three 9-bit indexes determine a 27-bit page number |
| `PageTable.Table.Indexes` | os/src/mm/address.rs:254-262 | the shifting loop yields the three indexes, most significant first |
| `PageTable.FindFrame` | os/src/mm/page_table.rs:170-195 | rewriting one slot changes no lookup that does not lead through it |
| `PageTable.FindAgree` | os/src/mm/page_table.rs:170-195 | lookups depend only on the entries of the own tree |
| `PageTable.WriteTranslate` | os/src/mm/page_table.rs:280-300 | writing a leaf or an empty entry where a walk ends changes exactly the page numbers of that block |
| `PageTable.GrowTranslate` | os/src/mm/page_table.rs:113-136 | adding an empty table below an empty entry changes no translation |
| `PageTable.Table.FindPte` | os/src/mm/page_table.rs:170-195 | the walk returns the translation and the page that holds its entry |
| `PageTable.Table.FindPteCreate` | os/src/mm/page_table.rs:113-136 | the walk that follows every valid entry and adds tables below invalid ones, on any memory; unless a larger leaf is on the way it changes no translation, keeps the tables a tree without sharing, and arrives at the page for the entry |
| `PageTable.Table.Descend` | os/src/mm/page_table.rs:113-136 | one level of it, through a table or through the frame of a leaf |
| `PageTable.Table.AddTable` | os/src/mm/page_table.rs:113-136 | a new table page joins the tree |
| `PageTable.Table.WriteEntry` | os/src/mm/page_table.rs:280-300 | overwriting an entry changes exactly the page numbers of its block and nothing outside the tree |
| `PageTable.Table.Map` | os/src/mm/page_table.rs:280-300 | main theorem: when the kernel gets through, the page number has the new leaf if and only if no larger leaf maps it and a large page has an access right; then exactly the page numbers of the block change; otherwise it keeps what it had; and the exact condition for stopping |
| `PageTable.WalkNeeds` | os/src/mm/page_table.rs:113-136 | a walk through pointers succeeds if and only if there are as many frames as tables are missing |
| `PageTable.WalkKeeps` | os/src/mm/page_table.rs:113-136 | no walk overwrites a valid entry, whatever frames it goes through |
| `PageTable.EntryFree` | os/src/mm/page_table.rs:280-300 | the entry at the end is invalid exactly when nothing was mapped and no table hung there |
| `PageTable.MapWorks` | os/src/mm/page_table.rs:280-300 | tables added and leaf written, seen from the state before: exactly the block changes |
| `PageTable.MapFails` | os/src/mm/page_table.rs:280-300 | below a larger leaf, and without access rights for a large page, the page number never gets the new leaf |
| `PageTable.LeafInTheWay` | os/src/mm/page_table.rs:113-136 | a concrete table with a 1G leaf below which a 4K page is mapped without a panic and without effect |
| `PageTable.NoRights` | os/src/mm/page_table.rs:280-300 | a concrete table in which a 1G page without access rights is mapped without a panic and without effect |
| `PageTable.Table.Unmap` | os/src/mm/page_table.rs:320-325 | unmaps exactly the page numbers of the leaf, and stops exactly if there is none |
| `PageTable.Table.SetEntry` | os/src/mm/page_table.rs:382-389 | stops exactly if nothing is mapped; otherwise the page number has the new leaf if and only if it is a 4K page or has an access right, and then exactly its block changes |
| `PageTable.Table.MoveEntry` | os/src/mm/page_table.rs:327-361 | succeeds if and only if the source is a 4K leaf and the target is empty, or both are the same; moves that translation alone; on failure no translation changed; stops exactly when tables are missing and frames are not enough |
| `PageTable.Table.ShareKernelHalf` | os/src/mm/page_table.rs:101-111 | both trees and their own translations stay, and the upper entries are the ones of the kernel |
| `PageTable.SharedHalfAgrees` | os/src/mm/page_table.rs:101-111 | roots with the same upper entries translate the upper half alike |
| `PageTable.SharedRoots` | os/src/mm/page_table.rs:101-111 | the memory after the copy, for both trees |
| `PageTable.OthersAgree` | os/src/mm/page_table.rs:100-195 | a tree whose own entries did not change keeps its shape and its translations |
| `AddressSpace.LookupArea` | os/src/mm/memory_set.rs:3153-3165 | the last area keyed at or below a page covers it, or no area does |
| `AddressSpace.CutMeaning` | os/src/mm/memory_set.rs:2598-2701 | cutting a range out of keyed, disjoint areas keeps them so, removes exactly the pages of the range, and leaves every other page all its attributes |
| `AddressSpace.CutAgree` | os/src/mm/memory_set.rs:2598-2701 | entries and owned frames still agree once the entries of the range are gone |
| `AreaSplit.SplitGood` | os/src/mm/memory_set.rs:2921-2948 | splitting keeps areas disjoint and keyed by their start |
| `AreaSplit.SplitSame` | os/src/mm/memory_set.rs:2921-2948 | splitting changes no page |
| `AreaSplit.SplitCuts` | os/src/mm/memory_set.rs:3031-3034 | the double split cuts both edges of the range |
| `AreaSplit.ChangedPage` | os/src/mm/memory_set.rs:3038-3061 | once both edges are cut, exactly the pages of the range get the new attribute |
| `AreaUnmap.PlanCuts` | os/src/mm/memory_set.rs:2683-2698 | carrying out the noted removals and re-keyings after the loop cuts the range out |
| `AreaUnmap.SplitHalves` | os/src/mm/memory_set.rs:3444-3466 | the cloned right half and the resized left half together are the split area |
| `AreaUnmap.ResizeIsNarrow` | os/src/mm/memory_set.rs:3749-3757 | resizing after the unmap loop gives the narrowed area with its file offset moved |
| `AreaUnmap.AllOwned` | os/src/mm/memory_set.rs:2615-2680 | after all areas were visited exactly the entries of the range are gone |
| `AreaUnmap.AllReleased` | os/src/mm/memory_set.rs:2615-2680 | and exactly their frames were released, in page order |
| `AreaProtect.AllChecked` | os/src/mm/memory_set.rs:2977-3027 | when every area passes and the last reaches the end, every page of the range may change |
| `AreaProtect.RefusedAt` | os/src/mm/memory_set.rs:2977-3027 | an area that cannot change, or a hole, is a page of the range that cannot |
| `AreaProtect.ReflaggedAgree` | os/src/mm/memory_set.rs:3038-3061 | the new flags leave entries and owned frames in agreement |
| `AreaProtect.LockedAgree` | os/src/mm/memory_set.rs:3075-3141 | locking leaves them in agreement |
| `AreaMove.MovedIn` | os/src/mm/memory_set.rs:2799-2919 | page i of the new range takes over frame and attributes of old page i, and pages beyond the old size start empty |
| `AreaMove.MovedOut` | os/src/mm/memory_set.rs:2799-2919 | the old range is unmapped and every page outside both ranges is as before |
| `AreaMove.MovedGood` | os/src/mm/memory_set.rs:2799-2919 | the areas stay disjoint and keyed by their start |
| `AreaMove.MovedAgree` | os/src/mm/memory_set.rs:2799-2919 | entries and owned frames agree at the new place |
| `AreaMove.MoveFits` | os/src/mm/memory_set.rs:2799-2919 | in a consistent address space the checks before a move pass |
| `AreaMove.FirstFreeUnique` | os/src/mm/memory_set.rs:2529-2558 | there is one first free place |
| `AreaMove.SearchFails` | os/src/mm/memory_set.rs:2529-2558 | behind the last area nothing that ends in the user range is free |
| `AreaMove.EmptyAreaInTheWay` | os/src/mm/memory_set.rs:2799-2919 | a consistent address space whose first free place holds the key of an empty area |
| `MemorySet.MemorySet.UnmapOne` | os/src/mm/memory_set.rs:3401-3441 | drops entry and frame of one page, and skips pages that are not resident |
| `MemorySet.MemorySet.UnmapPages` | os/src/mm/memory_set.rs:2626-2678 | the page loop: exactly the resident pages of the range, in order |
| `MemorySet.MemorySet.EditArea` | os/src/mm/memory_set.rs:2616-2679 | the four ways a range can meet an area |
| `MemorySet.MemorySet.SplitArea` | os/src/mm/memory_set.rs:2638-2654 | a range strictly inside an area: left part in place, right part with its own frames and file offset |
| `MemorySet.MemorySet.EditAreas` | os/src/mm/memory_set.rs:2609-2680 | the loop over the areas, with what it notes for later |
| `MemorySet.MemorySet.Munmap` | os/src/mm/memory_set.rs:2598-2701 | main theorem: exactly the pages of the range disappear, every other page keeps all attributes, areas stay disjoint and keyed, entries agree with frames, and exactly the frames of the range are released in order |
| `MemorySet.MemorySet.SplitAreaAt` | os/src/mm/memory_set.rs:2921-2948 | splits at a page strictly inside the area, otherwise does nothing |
| `MemorySet.MemorySet.Affected` | os/src/mm/memory_set.rs:2986-2994 | finds exactly the areas the range meets, in order |
| `MemorySet.MemorySet.CheckRange` | os/src/mm/memory_set.rs:2977-3027 | passes if and only if every page is mapped, not a guard, and not a shared page of a read-only file that is to become writable |
| `MemorySet.MemorySet.SplitEdges` | os/src/mm/memory_set.rs:3031-3034 | cuts both edges and changes no page |
| `MemorySet.MemorySet.ProtectArea` | os/src/mm/memory_set.rs:3045-3060 | new permission for one area and new flags for its resident pages |
| `MemorySet.MemorySet.ProtectAreas` | os/src/mm/memory_set.rs:3038-3061 | the same for every area in the range |
| `MemorySet.MemorySet.Mprotect` | os/src/mm/memory_set.rs:2952-3072 | main theorem: fails without any change if and only if the range may not change; otherwise exactly the pages of the range get the permission and keep everything else |
| `MemorySet.MemorySet.Mlock` | os/src/mm/memory_set.rs:3075-3141 | the same for the lock flag |
| `MemorySet.MemorySet.FutexKey` | os/src/mm/memory_set.rs:2238-2281 | the futex key depends only on the page, so operations that keep pages keep keys |
| `MemorySet.MemorySet.FindFreeArea` | os/src/mm/memory_set.rs:2529-2558 | first fit: the answer is free and in reach, nothing before it is free, and no answer means nothing in reach is, unless byte sums wrap |
| `MemorySet.MemorySet.MoveEntries` | os/src/mm/memory_set.rs:2885-2891 | moves the entries of the range and no other |
| `MemorySet.MemorySet.CheckEntries` | os/src/mm/memory_set.rs:2848-2884 | passes if and only if every resident page has the entry of its frame and an empty target |
| `MemorySet.MemorySet.CarryMove` | os/src/mm/memory_set.rs:2885-2908 | the state change, unless the key of the target is taken |
| `MemorySet.MemorySet.MremapMove` | os/src/mm/memory_set.rs:2799-2919 | main theorem: success moves area, entries and frames to the first free place and changes nothing else; failure changes nothing; it panics if and only if the area may move and an empty area is keyed at the first free place in reach |
| `CowIsolation.IsolatedStep` | os/src/mm/memory_set.rs:1802-2028 | the isolation argument: a step that gives write access only to frames no one else reaches keeps isolation |
| `CowIsolation.StoreIsPrivate` | os/src/mm/memory_set.rs:1960-2028 | a store through a private mapping is seen by that page alone |
| `CowIsolation.StoreKeeps` | os/src/mm/memory_set.rs:1960-2028 | a store keeps the invariant |
| `CowIsolation.RestrictKeeps` | os/src/mm/memory_set.rs:2598-2743 | taking pages away keeps the invariant and every content that stays mapped |
| `CowIsolation.OwnFrameKeeps` | os/src/mm/memory_set.rs:3469-3535 | a page with a new frame of its own keeps the invariant and changes its own content alone |
| `CowIsolation.BorrowKeeps` | os/src/mm/memory_set.rs:3537-3599 | mapping a frame of the page cache or of a registry, shared or read-only, keeps the invariant and shows its content |
| `CowIsolation.LenderKeeps` | os/src/mm/memory_set.rs:3537-3599 | the page cache or a registry taking in a new frame keeps the invariant |
| `CowIsolation.ForkedSpaces` | os/src/mm/memory_set.rs:1802-1956 | after a fork no private page of either side is writable, and both show the same frames |
| `CowIsolation.ForkKeeps` | os/src/mm/memory_set.rs:1802-1956 | fork keeps the invariant; the child sees what the parent sees |
| `CowRuns.StepKeeps` | os/src/mm/memory_set.rs:1802-2028 | every step of the system keeps the invariant, and only stores change a content that stays mapped |
| `CowRuns.RunKeeps` | os/src/mm/memory_set.rs:1802-2028 | the invariant holds in every reachable state |
| `CowRuns.RunIsolates` | os/src/mm/memory_set.rs:1802-2028 | over any run without a fork of its owner a private writable page changes only by stores through that page; the special case of the snapshot theorem for writable pages |
| `CowRuns.StaysIsolated` | os/src/mm/memory_set.rs:1802-2028 | the same for one step |
| `CowRuns.MunmapKeeps` | os/src/mm/memory_set.rs:2598-2701 | unmapping keeps the invariant and the other contents |
| `CowRuns.DiscardKeeps` | os/src/mm/memory_set.rs:2705-2743 | discarding pages keeps the invariant and the other contents |
| `CowRuns.MmapKeeps` | os/src/mm/memory_set.rs:2406-2524 | reserving an area, also in place of an empty one with its key, keeps the invariant and every content |
| `CowRuns.FillStep` | os/src/mm/memory_set.rs:3601-3662 | reading ahead keeps the invariant page by page |
| `CowRuns.ReservedPage` | os/src/mm/memory_set.rs:2406-2524 | a new area in a free range, also in place of an empty one with its key, adds exactly its pages |
| `CowSnapshot.SeparateStep` | os/src/mm/memory_set.rs:1802-2028 | a private page shares its frame with a page of a shared area only if the page cache holds it, and never with a registry; a step that passes frames on in the ways listed keeps that |
| `CowSnapshot.StepCarries` | os/src/mm/memory_set.rs:1802-2028 | every step of the system keeps that, and keeps a private page out of the frames of the page cache |
| `CowSnapshot.RunSeparates` | os/src/mm/memory_set.rs:1802-2028 | so it holds in every reachable state |
| `CowSnapshot.EmptyWorld` | os/src/mm/memory_set.rs:1802-2028 | the system without address spaces has both invariants |
| `CowSnapshot.StoreMisses` | os/src/mm/memory_set.rs:1960-2028 | a store through any other page does not change what a private page shows |
| `CowSnapshot.SnapshotKept` | os/src/mm/memory_set.rs:1802-2028 | no step but a store through the page changes it, including a fork of its owner and its own copy |
| `CowSnapshot.RunSnapshots` | os/src/mm/memory_set.rs:1802-2028 | main theorem: over any run, forks included, a private page that stays mapped and did not show a page-cache frame changes only by stores through that page |
| `CowSnapshot.ForkPasses` | os/src/mm/memory_set.rs:1802-1956 | after a fork the child has such a page, with the content of its parent |
| `CowSnapshot.ChildSeesFork` | os/src/mm/memory_set.rs:1802-2028 | main theorem: whatever parent and others do afterwards, the child sees what the parent saw when it forked, until it stores there itself |
| `CowProtect.ProtectIsolated` | os/src/mm/memory_set.rs:3038-3061 | a permission change keeps isolation if and only if it gives write access only to pages whose frame nobody else reaches |
| `CowProtect.ForkThenProtect` | os/src/mm/memory_set.rs:3048-3056 | after a fork, giving write access back to a page that turned copy-on-write always breaks isolation |
| `CowProtect.ProtectBreaksIsolation` | os/src/mm/memory_set.rs:3048-3056 | a concrete address space where it does |
| `CowMachine.Machine.FindCow` | os/src/mm/memory_set.rs:1960-2002 | finds the area of a private page that may be written but is mapped read-only, if there is one |
| `CowMachine.Machine.HandleCowFault` | os/src/mm/memory_set.rs:1960-2028 | copies the frame if and only if the page needs it and a frame is free; that is the copy step of the system |
| `CowMachine.Machine.HandlePageFault` | os/src/mm/memory_set.rs:3150-3197 | a fault is handled if and only if a usable area covers the absent page and its frame is cached or can be allocated, within the file; then it is a step of the system and the page shows the bytes its area stands for, as long as the page cache held the bytes of the files; otherwise nothing changed |
| `CowMachine.Machine.MapZeroPage` | os/src/mm/memory_set.rs:3469-3535 | a zero page in an unused frame of its own, if and only if one is free |
| `CowMachine.Machine.MapRegistryPage` | os/src/mm/memory_set.rs:3469-3535 | the frame the registry holds for the page, taken in once; fails only if it would need a frame and none is free |
| `CowMachine.Machine.MapCachePage` | os/src/mm/memory_set.rs:3537-3599 | the page of the page cache with the bytes of the file, or a private zero page for a hole of a program file, with the exact condition of failure |
| `CowMachine.Machine.CollectPages` | os/src/mm/memory_set.rs:3601-3640 | takes distinct unused frames for the absent pages in order, at most 64, with the bytes of the file |
| `CowMachine.Machine.InstallPages` | os/src/mm/memory_set.rs:3640-3662 | maps them in order |
| `CowMachine.Machine.MapFilePages` | os/src/mm/memory_set.rs:3601-3662 | the read-ahead step; the touched page shows the bytes of the file up to the end of the data, and zeroes behind |
| `CowMachine.TouchedPage` | os/src/mm/memory_set.rs:3150-3197 | what a touched page shows, for each kind of area |
| `CowMachine.CacheLent` | os/src/mm/memory_set.rs:3537-3599 | a page the page cache takes in keeps it holding the bytes of the files |
| `CowMachine.AheadShows` | os/src/mm/memory_set.rs:3601-3662 | the first page of a read-ahead shows the first bytes read |
| `CowMachine.FaultAlike` | os/src/mm/memory_set.rs:3150-3197 | a fault changes nothing about any page but what is resident |
| `CowMachine.ForkArea` | os/src/mm/memory_set.rs:1840-1920 | the entries for child and parent, page by page |
| `CowMachine.Machine.ForkSpace` | os/src/mm/memory_set.rs:1802-1956 | the loop over areas and pages is the fork step of the system |
| `CowMachine.Machine.MadviseDontneed` | os/src/mm/memory_set.rs:2705-2743 | the loop over areas is the discard step of the system |
| `ElfParse.RangesApart` | os/src/mm/memory_set.rs:329-341 | sorting and comparing neighbours decides whether all page ranges are apart |
| `ElfParse.NeighboursApart` | os/src/mm/memory_set.rs:329-341 | in sorted order neighbours decide |
| `ElfParse.RangesDecide` | os/src/mm/memory_set.rs:329-341 | page ranges are apart if and only if the segments share no page |
| `ElfParse.ReadHeaders` | os/src/mm/memory_set.rs:223-313 | one pass accepts exactly tables of good headers with at most one interpreter, whose path is terminated and UTF-8, and one table entry, and collects segments and table address |
| `ElfParse.CollectRanges` | os/src/mm/memory_set.rs:329-337 | page ranges of the non-empty segments, refused if an end does not fit |
| `ElfParse.Parse` | os/src/mm/memory_set.rs:171-382 | accepts exactly the acceptable files, with the well-formedness of UTF-8 of table 3-7 of the Unicode standard for the interpreter path, and reports type, entry, segments and header-table address |
| `ElfParse.TableIsHeld` | os/src/mm/memory_set.rs:343-359 | a reported table address comes from a segment that holds the table |
| `ElfParse.TableInside` | os/src/mm/memory_set.rs:359-371 | an address taken from a segment always passes the last check |
| `ElfLoad.SegmentBytes` | os/src/mm/memory_set.rs:3537-3662 | every byte of a segment is the byte of the file below the file size and zero up to the memory size |
| `ElfLoad.Loader.InsertArea` | os/src/mm/memory_set.rs:1386-1443 | inserts if and only if the area is not empty and meets no other |
| `ElfLoad.Loader.InsertPart` | os/src/mm/memory_set.rs:1386-1443 | one more part of the segment shows |
| `ElfLoad.Loader.MapSegment` | os/src/mm/memory_set.rs:1316-1384 | accepts exactly what fits; then exactly the pages of the segment are added, each showing what the segment describes |
| `ElfProgram.LoadProgram` | os/src/mm/memory_set.rs:1128-1310 | succeeds if and only if every segment fits; then each page of each segment shows its segment and no other page is mapped |
| `ElfProgram.StillApart` | os/src/mm/memory_set.rs:1128-1310 | segments apart before relocation are apart after it |
| `ElfProgram.ImageBytes` | os/src/mm/memory_set.rs:1128-1443 | every byte of every segment of an accepted file is what its page stands for, at its relocated address |
| `ElfProgram.TableBytes` | os/src/mm/memory_set.rs:343-371 | the same for the bytes of the header table at a reported address |
| `ElfProgram.FirstTouch` | os/src/mm/memory_set.rs:3150-3197 | the first touch of a page of a loaded program, after any other faults, loads the byte the page stands for, with the exact condition of failure |
| `ElfProgram.TouchImage` | os/src/mm/memory_set.rs:1128-1443 | main theorem: a byte of a segment loads as the byte of the file, and as zero behind the file size |
| `ElfProgram.TouchTable` | os/src/mm/memory_set.rs:343-371 | main theorem: through a reported address a process loads exactly the bytes of the header table |
| `Pipe.PipeRingBuffer.WriteByte` | os/src/fs/pipe.rs:251-261 | queues one byte at the end |
| `Pipe.PipeRingBuffer.ReadByte` | os/src/fs/pipe.rs:271-283 | delivers the first queued byte |
| `Pipe.PipeRingBuffer.AvailableRead` | os/src/fs/pipe.rs:285-292 | the number of queued bytes, also when head equals tail |
| `Pipe.PipeRingBuffer.AvailableWrite` | os/src/fs/pipe.rs:294-299 | the room that is left |
| `Pipe.RingWrite` | os/src/fs/pipe.rs:251-261 | ring arithmetic of a write: the slot behind the queue, no queued byte touched, and the right status |
| `Pipe.RingRead` | os/src/fs/pipe.rs:271-283 | ring arithmetic of a read |
| `Pipe.PipeRingBuffer.WriteSection` | os/src/fs/pipe.rs:402-466 | the locked part of a write queues as much as there is room for, in order |
| `Pipe.PipeRingBuffer.ReadSection` | os/src/fs/pipe.rs:116-191 | the locked part of a read delivers as much as there is, in order |
| `Pipe.PipeRingBuffer.Others` | os/src/fs/pipe.rs:116-191 | whatever others do in between keeps accepted equal to delivered followed by queued |
| `Pipe.PipeRingBuffer.Read` | os/src/fs/pipe.rs:116-191 | under any interleaving: what is returned was delivered last, and an empty answer happens only at end of file or for an empty request |
| `Pipe.PipeRingBuffer.Write` | os/src/fs/pipe.rs:402-466 | under any interleaving: the returned count of bytes was accepted in order, and is everything unless the readers are gone |
| `Pipe.PipeRingBuffer.WriteNonblock` | os/src/fs/pipe.rs:467-526 | one locked section, with the exact result in each case |
| `Dentry.Directory.RememberNegative` | os/src/fs/file_tree.rs:134-144 | remembers a miss, emptying a full set first |
| `Dentry.Directory.FindLowerChild` | os/src/fs/file_tree.rs:154-191 | answers what the backing directory has and keeps the caches coherent; an error caches no miss |
| `Dentry.Directory.FindChild` | os/src/fs/file_tree.rs:300-335 | answers the mount first and the backing directory second |
| `Dentry.Directory.MountChild` | os/src/fs/file_tree.rs:105-117 | a second mount on a name gives the first one |
| `Dentry.Directory.CreateChild` | os/src/fs/file_tree.rs:416-457 | makes the name if and only if nothing is known under it and the file system below makes it; gives the existing one if it is known; panics in every other case |
| `Dentry.Directory.CreateBacking` | os/src/ext4fs/vfs.rs:304-467 | the creation below fails without an inode, without a block for a directory, for a name that is bound or too long, and in a directory that cannot be changed or has no room |
| `Dentry.Directory.FindOrCreate` | os/src/fs/inode.rs:542-571 | lookup and creation together: a name that exists is found; a missing one panics if and only if the creation below fails; a lookup error can end in a panic on an existing name |
| `Dentry.NoInodeLeft` | os/src/fs/file_tree.rs:416-457 | a missing name on a disk without inodes: looked up, and still a panic |
| `Dentry.ExistingName` | os/src/fs/file_tree.rs:416-457 | a name on disk that is neither mounted nor cached: a panic however much the disk has left |
| `Dentry.Directory.UnlinkChild` | os/src/syscall/fs.rs:1631-1680 | removes a name that is not mounted over and keeps the caches coherent |
| `PathWalk.FindTree` | os/src/fs/file_tree.rs:207-298 | the loop over the queue, each component looked up through the caches of its directory, is the recursive resolution, ends at an existing node, and keeps all caches coherent |
| `PathWalk.FindIn` | os/src/fs/file_tree.rs:300-335 | one lookup in the tree of caches gives the child and changes the caches of that directory alone |
| `PathWalk.SplitNames` | os/src/fs/file_tree.rs:207-230 | components are neither empty nor a dot and hold no slash |
| `PathWalk.Budget` | os/src/fs/file_tree.rs:207-298 | a larger budget of links changes no answer other than too many links |
| `PathWalk.LeftOver` | os/src/fs/file_tree.rs:207-298 | the budget never grows |
| `PathWalk.Compose` | os/src/fs/file_tree.rs:207-298 | resolving a path is resolving its front and then its back from there |
| `PathWalk.SelfLink` | os/src/fs/file_tree.rs:255-290 | a link to itself uses up any budget |

## Left out

- ExtentInode.ExtentFile.AddExtentEntry: running out of blocks panics in the kernel; the model asks for a pool of free blocks that is large enough, and for an index root that the block does not precede, since the kernel panics there as well.
- DirStream.Stream.Getdents: works on records; `Dirents` has the bytes, and shows that both agree for names without zero bytes.
- DirStream.ListedOnce: asks for unique mount names, which the kernel keeps as keys of a map.
- LookupCache.CacheIsCurrent: runs in which a publication comes a positive multiple of 2^64 commits after its scan began are excluded, see above.
- Pipe.PipeRingBuffer.Others: what others do is a finite schedule of their locked sections.
- Extent nodes are records in the model; their byte layout, and the moves of bytes within a node buffer, are not modelled.
- The checksum of an extent node is one bit per block in the tree operations, set by every write; `Checksums` has the bytes.
- Truncation of trees with index nodes to a size other than zero: the kernel does not support it.
- Inodes without extents (direct block pointers).
- Reading and writing file data through extents, sparse writes and page-cache coherence.
- Failures and short reads of the block device: the disk returns what was last written.
- The byte layout of group descriptors, the superblock and inodes outside their checksum fields.
- Journal discard and the checks of features at mount time.
- User pages larger than 4 KiB, the trampoline page, and the encoding of page-table entries.
- Address spaces use page numbers; rounding of byte addresses and lengths at the system-call boundary is not modelled.
- mremap in place, brk, and mremap as a step of the copy-on-write runs.
- Write-back of shared file pages.
- TLB shootdown, wait queues, signals and wake-ups: a blocked call is modelled by its locked sections.
- The program interpreter, the user stack, and the layout of heap and relocation base in the ELF loader.
- The legacy loader that works on a whole image in memory.
- Truncation of mount names longer than 255 bytes in the record-level stream.
- Permissions and ownership checks in path resolution, and mount points that change during it.
- Scheduler, devices, network, procfs, timers and message queues.
