# juzfs engine in Dafny

juzfs is a small FUSE filesystem on a simulated block device. When mounted, it keeps a superblock in memory, along with:

- two bitmaps, one for inodes and one for data blocks;
- a tree of dentries and inodes that starts at the root dentry `/`.

The on-disk layout has five regions, in this order: superblock, inode bitmap, data bitmap, inode table, data blocks. A block is two device I/O units.

- **Directories.** A directory keeps its children in an array that grows in segments of eight entries, one data block per segment, at most six segments.
- **Files.** A file has six data-block slots.
- **Device access.** Every transfer goes through an aligned read-modify-write layer over the device's unit-sized reads and writes.

The project models the engine beneath the FUSE callbacks:

- **Allocators.** The bitmap allocators (`jfs_alloc_inode`, `jfs_alloc_data_blk`, `jfs_dealloc_data_blk`), and the root guard and bitmap step of `juzfs_drop_inode`.
- **Layout.** The layout arithmetic `jfs_mount` performs on a fresh disk.
- **Transfers.** The aligned transfers `jfs_driver_read` and `jfs_driver_write`.
- **Child list.** `jfs_alloc_dentry`, `juzfs_drop_dentry` and `jfs_get_dentry`.
- **Paths.** `jfs_calc_lvl`, `jfs_get_name` and `jfs_lookup`.
- **Records.** The inode records of `jfs_sync_inode` and `jfs_read_inode`, modelled as values.
- **Operations.** `mkdir`, `mknod`, `unlink`, `rmdir`, `rename`, `readdir`, `getattr`, `write`, `read` and `truncate`.

Modules, one file each:

- `Types` (types.dfy): the constants, the rounding and offset macros, names, the in-memory dentry and inode, and the on-disk records.
- `Layout` (layout.dfy): the fresh-format layout and its region order. It also covers the inode-table slot computation.
- `Bitmap` (bitmap.dfy): bits as a specification on byte sequences, plus the in-place first-fit scan over an `array<bv8>`.
- `Driver` (driver.dfy): the device as a class holding a byte sequence, with the aligned read and the read-modify-write.
- `Paths` (paths.dfy): the level count, the `strtok` components and the last component.
- `Dentries` (dentries.dfy): the child list of one directory inode, as functions on values.
- `FileIo` (fileio.dfy): the per-block split of `juzfs_write` and `juzfs_read`, and the device bytes it produces. It also has the block counts of `juzfs_truncate`.
- `FsSpec` (fsspec.dfy): every operation as a function on the whole state, with the properties of the operations proved as lemmas. The state is the inode arena, the bitmaps and the device.
- `Records` (records.dfy): syncing an inode to records and reading it back, both as written and as intended.
- `Engine` (engine.dfy): class `Fs`, the mounted filesystem.
  - Its bitmaps are arrays that the allocators change in place.
  - Its device is a `Driver.Device`, and its inodes form an arena that the methods update.
  - Each method is proved to return what the `FsSpec` function of the same name returns. Unless the outcome is undefined, it also leaves the object in the state that function computes.
- `Arith` (arith.dfy): small lemmas on products and quotients that the other proofs use.

Modelling decisions:

- **Pointers.** In-memory inodes live in a map from integer handles to `Inode` values. A dentry names its own inode and its parent's inode by handle.
- **Undefined behaviour.** This covers a NULL or freed pointer being followed, an index past an array, and a device window past the end of the disk. Such a point yields the outcome `Undefined` (or the lookup result `Fault`), and the model says nothing about the state after it.
- **Unassigned `is_find`.** `jfs_lookup` leaves `*is_find` unassigned when a file is met before the last level. Every caller therefore takes a `stale` flag standing for whatever the caller's variable held.
- **As written, with corrections alongside.** The operations follow the code as written, including the defects listed under Findings. Each defect is shown by a lemma on the as-written member. Beside it stands a corrected definition, on which the intended property is proved. The operations themselves keep the behaviour of the code.

## Model

| member | source | states |
|---|---|---|
| Types.RoundDown | include/types.h:55 | The result is a multiple of `round`, at most `value` and more than `value - round`; it is `value` itself when `round` divides it |
| Types.RoundUp | include/types.h:56 | The result is a multiple of `round`, at least `value` and less than `value + round`; it is `value` itself when `round` divides it |
| Types.RoundUpOfSumExpandedIsScaled | include/types.h:56 | The unparenthesised macro applied to `a+1` with round 8 yields `(a+1)*8`, which is not the round-up of `a+1` for any `a > 0` |
| Types.BlockAlignedIsIoAligned | include/types.h:48-49 | A block is two I/O units, so every block-aligned offset is I/O-aligned |
| Types.InoSlotsDisjoint | include/types.h:61 | The slot of ino 0 starts at `ino_list_offset` blocks, and distinct inos get disjoint block-sized slots |
| Types.DataOfsIncreasing | include/types.h:58-62 | `JFS_DATA_OFS` is strictly increasing, one whole block apart per block number |
| Types.CStrOfNameField | include/types.h:129-132 | Copying a name into the zeroed 128-byte field and reading the field back as a C string gives the name |
| Types.MatchesIffPrefix | src/juzfs_util.c:521 | The `memcmp` of `strlen(fname)` bytes accepts exactly the prefixes of the stored name, not only the name |
| Types.NewDentry | include/types.h:129-138 | The new dentry holds the name followed by NULs, has ino `(uint32_t)-1`, no inode, and the given parent and type |
| Types.StatusFollowsOwner | include/types.h:64-65 | An inode is exactly one of directory or file, decided only by its owning dentry's type |
| Types.ToInt | src/juzfs_util.c:188 | Narrowing to `int` gives a value in `[-2^31, 2^31)` congruent to the input modulo 2^32, and keeps every value in `[0, 2^31)` |
| Types.FailedSlotWraps | src/juzfs_util.c:448 | A slot holding `(uint64_t)-ENOSPC`, plus an offset of at least 28, narrows to `offset - 28` |
| Layout.FormatCounts | src/juzfs_util.c:82-95 | There is one inode-table block per inode and six data blocks per inode, and usage starts at 0 |
| Layout.MapBlksCover | src/juzfs_util.c:71-77 | A bitmap sized by the double round-up holds at least the requested number of bits, and at least one block for a positive count |
| Layout.SuperRegionHoldsRecord | src/juzfs_util.c:66 | The superblock region is at least one block and holds the 80-byte superblock record |
| Layout.FormatRegionOrder | src/juzfs_util.c:87-93 | Each region starts where the previous one ends; with at least one inode the offsets strictly increase from inode bitmap to data |
| Layout.FormatBitmapsCover | src/juzfs_util.c:69-77 | The inode bitmap has a bit for every inode and the data bitmap one for every data block |
| Layout.FormatFitsDisk | src/juzfs_util.c:80-93 | The data region ends within the disk, and the inode count is maximal: one more file's seven blocks would not fit |
| Layout.InoOfsPastDisk | include/types.h:61 | On a 4 MiB disk with 512-byte units the table starts at byte 6144, and the root inode's slot falls at byte 6291456, past the disk |
| Layout.IntendedInoSlotsInTable | src/juzfs_util.c:92-93 | With the table offset used as bytes, every ino below `max_ino` gets a disjoint block inside the table, before the data region |
| Bitmap.SetBit | src/juzfs_util.c:231 | `|=` with the mask sets bit `i` and no other, and changes no other byte |
| Bitmap.ClearBit | src/juzfs_util.c:462 | `&=` with the inverted mask clears bit `i` and no other, and changes no other byte |
| Bitmap.ClearAfterSet | src/juzfs_util.c:458-465 | Clearing a bit that was clear and has just been set restores the bitmap byte for byte |
| Bitmap.LowestClear | src/juzfs_util.c:225-242 | The result is a clear bit with only set bits below it; None means every bit is set |
| Bitmap.LowestClearUnique | src/juzfs_util.c:225-242 | Any clear bit with only set bits below it is the one the scan finds |
| Bitmap.ScanSpec | src/juzfs_util.c:225-242 | On a hit, the cursor is the lowest clear bit and that bit alone gets set; on a miss, the cursor has passed every bit and the map is unchanged |
| Bitmap.ScanAndSet | src/juzfs_util.c:225-242 | The nested byte/bit loops update the array in place exactly as ScanSpec says, with the same found flag and cursor |
| Bitmap.ClearBitAt | src/juzfs_util.c:458-465 | The in-place update leaves the array equal to ClearBit of its old contents |
| Driver.Overwrite | src/juzfs_util.c:196 | The data is placed at the offset, every other byte is unchanged, and the length is kept |
| Driver.Window | src/juzfs_util.c:161-163 | The window starts at a unit multiple at most `offset`, less than a unit before it, and spans whole units covering `size + bias`, reaching less than a unit past the request |
| Driver.AlignedWindow | src/juzfs_util.c:161-163 | An aligned request's window is the request itself |
| Driver.DriverRead | src/juzfs_util.c:160-178 | The unit loop returns exactly device bytes `[offset, offset+size)` |
| Driver.WindowReadable | src/juzfs_util.c:189-195 | The inner read of the aligned window is itself a transfer the device can serve, and it contains the request |
| Driver.OverwriteWindow | src/juzfs_util.c:195-196 | Writing back the window with the data overlaid at the bias is the same as writing the data alone |
| Driver.WriteBack | src/juzfs_util.c:199-206 | The unit-by-unit write loop puts the whole window on the device and changes nothing else |
| Driver.DriverWrite | src/juzfs_util.c:188-210 | After the read-modify-write the requested bytes hold the data and every other device byte is unchanged |
| Paths.LvlExamples | src/juzfs_util.c:552-562 | `/av/c/d/f` has level 4, `/` level 0, `/a` level 1 |
| Paths.CalcLvl | src/juzfs_util.c:563-578 | The pointer walk returns 0 for `/` and otherwise the number of slashes |
| Paths.ComponentsOfJoin | src/juzfs_util.c:499-540 | Tokenising `/c1/.../cn` at slashes gives back exactly `c1 ... cn` |
| Paths.LvlCountsComponents | src/juzfs_util.c:486 | The level of a well-formed path is the number of its components, which is the number of strtok rounds the lookup loop gets |
| Paths.LastSlash | src/juzfs_util.c:588 | The index found holds a slash and no slash follows it |
| Paths.GetName | src/juzfs_util.c:586-590 | The name is the slash-free suffix after the last slash, and the path is its prefix plus `/` plus the name |
| Paths.GetNameIsLastComponent | src/juzfs_util.c:586-590 | For a non-root path the returned name is the last component the lookup walks |
| Dentries.FirstMatch | src/juzfs_util.c:518-525 | The index is the first child whose name field starts with the component; None means no child's does |
| Dentries.FirstNamed | src/juzfs_util.c:670-675 | The index is the first child whose name is strcmp-equal; None means no child's is |
| Dentries.GrownListSize | src/juzfs_util.c:392 | As written, the grown capacity is `(dir_cnt+1)*8` |
| Dentries.IntendedListSize | src/juzfs_util.c:392 | The intended capacity is the least multiple of 8 that holds `dir_cnt+1` |
| Dentries.AllocDentryOutcome | src/juzfs_util.c:382-416 | -ENOSPC comes back exactly when the array is full and more than six segments would be needed, and nothing changes then. Otherwise the child is appended after the kept entries and the new count returned. When growing, the capacity becomes `(n+1)*8` and the new block goes into slot `n` |
| Dentries.AsWrittenCapacity | src/juzfs_util.c:392-395 | A directory whose capacity matches its children is refused exactly when it holds eight children, and it never holds more than one segment |
| Dentries.NinthChildRefused | src/juzfs_util.c:392-395 | As written, the ninth child is refused with nothing changed; with the intended capacity it is accepted as child 9 |
| Dentries.IntendedCapacity | src/juzfs_util.c:388-413 | With the intended capacity the segments stay matched to the children. Refusal happens exactly at 48 children, and a new segment's block goes into that segment's slot |
| Dentries.AllocDentryAgreesBelowNine | src/juzfs_util.c:388-413 | Below eight children the code as written and the intended capacity append identically |
| Dentries.FreedSlots | src/juzfs_util.c:688-691 | The release loop visits slots `top-1` down to `low`, one per segment dropped |
| Dentries.DropDentryOutcome | src/juzfs_util.c:664-706 | -ENOENT comes back exactly when no child has the name, and nothing changes then. Otherwise the first such child is removed with the rest kept in order, the capacity becomes `dir_cnt-1` rounded up to segments, and the count `dir_cnt-1` is returned |
| Dentries.FirstNamedByNames | src/juzfs_util.c:670-675 | The search for the first child with a name depends only on the children's names |
| Dentries.DropDentryByNames | src/juzfs_util.c:664-706 | The returned count and the released blocks depend only on the children's names, the count, the capacity and the slots |
| Dentries.AllocThenDrop | src/juzfs_util.c:664-706 | With the intended capacity, appending a child with a fresh name and dropping it again returns the old count and restores the child list and capacity. The block the append took is released, and it is the only one released |
| Dentries.GetDentry | src/juzfs_util.c:599-604 | A child comes back exactly when the position is below the child count, and it is the child at that position |
| FileIo.Pieces | src/juzfs.c:276-290 | There is one piece per block from `offset/BLK` to `(offset+size)/BLK`, each the loop body's location and length for its block |
| FileIo.PiecesVisitBlocks | src/juzfs.c:276-279 | The pieces visit blocks `offset/BLK` through `(size+offset)/BLK` inclusive, in order |
| FileIo.SingleBlockPiece | src/juzfs.c:280-283 | A request within one block is a single transfer of `size` bytes at the slot value plus the offset, narrowed to the 32-bit `int` the driver takes |
| FileIo.PiecesSum | src/juzfs.c:282-290 | The lengths add up to `size` for one block and to `size - (offset/BLK)*BLK` for several |
| FileIo.PiecesCoverFromFirstBlock | src/juzfs.c:282-290 | With `offset < BLK` the lengths add up to `size`, and none is negative |
| FileIo.StartLengthNegative | src/juzfs.c:285 | A request starting past block 0 and spanning blocks gets a negative first length |
| FileIo.FreshFileWriteLocation | src/juzfs.c:280 | On a file with all slots 0, a request inside the first block is one transfer at the offset narrowed to `int`; below 2^31 it lands on device bytes `[offset, offset+size)` |
| FileIo.FailedSlotLocation | src/juzfs.c:280 | When the first slot holds the failed allocation `(uint64_t)-ENOSPC`, a request inside the first block at offset 28 or more is one transfer at device byte `offset - 28` |
| FileIo.IntendedPiecesCover | src/juzfs.c:279-295 | With `JFS_DATA_OFS` locations and the in-block offset, the lengths sum to `size` and none is negative. Every transfer also stays inside its own data block |
| FileIo.WriteAll | src/juzfs.c:279-295 | Carrying out the write loop keeps the device's length |
| FileIo.ReadAll | src/juzfs.c:335-351 | The read loop produces as many bytes as the pieces' lengths add up to |
| FileIo.WriteAllStep | src/juzfs.c:291-294 | Each loop round writes the next `length` bytes of the buffer at the piece's location, after the earlier pieces |
| FileIo.PiecesSumAtMost | src/juzfs.c:280-290 | The pieces of a split never take more bytes from the buffer than the request size |
| FileIo.ReadAllStep | src/juzfs.c:347-350 | Each loop round appends the piece's device bytes after those already read |
| FileIo.SinglePieceRoundTrip | src/juzfs.c:291 | Reading back a single transfer just written returns the bytes written |
| FileIo.MultiBlockWriteOverlaps | src/juzfs.c:280 | With 1-byte units and slots 0 and 1, the pieces of writing `[1,2,3]` at offset 0 overlap, and reading back gives `[1,3,3]` |
| FileIo.BlocksFor | src/juzfs.c:486-487 | The count is the number of whole blocks that hold the given number of bytes |
| FsSpec.ConfigOf | src/juzfs_util.c:99-115 | The mounted superblock takes its counts and usage from the layout record |
| FsSpec.AllocInodeOutcome | src/juzfs_util.c:218-263 | Success comes exactly when the lowest clear bit exists and is not `max_ino`. The new ino is that bit, only it gets set, and the bitmap of data blocks and the device stay unchanged. The new inode is empty with zeroed slots, linked both ways with the dentry under a fresh handle. A hit at `max_ino` still sets that bit; no clear bit changes nothing. The invariant is kept |
| FsSpec.AllocDataBlkOutcome | src/juzfs_util.c:423-451 | A result other than -ENOSPC is the lowest clear bit, is not `max_data_blks`, and is the only bit set. A full map yields -ENOSPC and stays unchanged, and only the data map ever changes |
| FsSpec.DeallocDataBlk | src/juzfs_util.c:458-465 | Defined exactly for a block inside the map, and clears only that bit |
| FsSpec.AllocThenDeallocRestores | src/juzfs_util.c:423-465 | Releasing the block just allocated restores the whole state |
| FsSpec.DropInodeOutcome | src/juzfs_util.c:746-753 | -EINVAL comes back exactly for the root, with nothing changed. The step is undefined exactly for a handle outside the arena or an ino past the map, which the invariant excludes. Any other inode leaves the arena and exactly its ino bit is cleared; all else stays, the invariant included |
| FsSpec.AllocEntryKeepsInv | src/juzfs_util.c:382-416 | Appending a child keeps the invariant and the set of handles |
| FsSpec.AllocEntryOutcome | src/juzfs_util.c:382-416 | On the arena: the child is appended unless the list is full and cannot grow. Growing sets the capacity to `(dir_cnt+1)*8`, puts the data allocator's result into slot `dir_cnt` and sets the lowest clear data bit. No other inode, neither the inode map nor the device changes |
| FsSpec.FreeBlocks | src/juzfs_util.c:689-691 | The release loop changes only the data map and keeps its length |
| FsSpec.FreeBlocksOutcome | src/juzfs_util.c:689-691 | The release loop is defined exactly when every block lies in the map. Then exactly the released blocks' bits are cleared and every other bit is kept |
| FsSpec.DropEntryReleases | src/juzfs_util.c:664-706 | Dropping a child from a directory is undefined exactly when a released block lies outside the data map. Otherwise the map keeps its length and a bit is set exactly when it was set and its block was not released |
| FsSpec.DropEntryKeepsInv | src/juzfs_util.c:664-706 | Dropping a child keeps the invariant and the set of handles |
| FsSpec.Walk | src/juzfs_util.c:500-541 | A hit names a loaded child of an inode in the arena. A miss names the directory searched, and an early stop names a file |
| FsSpec.Lookup | src/juzfs_util.c:482-550 | Every handle and index the outcome names is in the arena |
| FsSpec.TargetInode | src/juzfs_util.c:545-549 | The inode returned is in the arena and is the one the returned dentry points at |
| FsSpec.WalkResolves | src/juzfs_util.c:500-541 | The loop from component `k` agrees with component-by-component resolution, for hits, misses and early file stops |
| FsSpec.LookupResolves | src/juzfs_util.c:494-537 | The root comes back exactly for `/`. A child comes back exactly when the path resolves, and it is the first child of the parent the last component names. A miss returns the directory searched, none of whose children the component names. A file comes back early only before the last level |
| FsSpec.LookupFrame | src/juzfs_util.c:482-550 | Lookup depends only on the handles, child lists and owner types of the arena |
| FsSpec.NodeType | src/juzfs.c:217-225 | mknod makes a directory exactly for `S_ISDIR` modes and a file for every other mode |
| FsSpec.MakeChildKeepsInv | src/juzfs.c:104-107 | Creating a child keeps the invariant and only adds handles |
| FsSpec.MakeChildAdds | src/juzfs.c:104-107 | The creation step returns 0. The lowest clear inode bit is set, and unless it is `max_ino` a new empty inode with that number is made under a fresh handle and the dentry points at it. The directory's list is unchanged exactly when it is full and cannot grow; otherwise it is the old list plus that dentry, with its name, type and parent. Growing takes the lowest clear data block into the slot the code writes. No other inode and not the device change |
| FsSpec.AllocInodeKeeps | src/juzfs_util.c:218-263 | The inode allocator leaves every existing inode, the data map and the device as they were |
| FsSpec.MkdirOutcome | src/juzfs.c:84-112 | -EEXIST comes back exactly when the lookup reports found, and -ENXIO exactly when it is not found and the walk stopped at a file before the last component. On a miss the result is 0 exactly when the last component fits the name field, and undefined otherwise. On 0 the directory searched gains a directory child named after the last component, as MakeChildAdds states, new inode and bitmaps included. On an error nothing changes |
| FsSpec.MknodOutcome | src/juzfs.c:202-230 | -EEXIST comes back exactly when the lookup reports found. Otherwise the result is 0 exactly when the last component fits the name field, and undefined otherwise. On 0 the node reached gains a child of the mode's type named after the last component, as MakeChildAdds states, new inode and bitmaps included. On an error nothing changes |
| FsSpec.UnlinkDentryKeepsInv | src/juzfs.c:370-373 | Dropping an inode and then its dentry keeps the invariant |
| FsSpec.UnlinkHit | src/juzfs.c:361-375 | From the invariant alone, for a found child: an entry that points at its own (non-root) directory is undefined, because the directory is freed before its list is changed. Otherwise, unless undefined, the result is 0. A child other than the root leaves the arena with its ino bit cleared, and the root stays with the inode map unchanged. The parent loses the first entry with that name, keeps the rest in order, and the drop returns `dir_cnt-1` |
| FsSpec.UnlinkOutcome | src/juzfs.c:361-392 | -ENOENT comes back exactly when not found; otherwise the result is 0 or undefined, and anything but 0 changes nothing. Unlinking the root is undefined. For a found child, 0 comes back exactly when the entry does not point at its own non-root directory and every block the parent releases lies in the data map; then exactly those blocks' bits are cleared. rmdir is undefined exactly when unlink is, and otherwise returns 0 with unlink's state |
| FsSpec.UnlinkEntryFrees | src/juzfs.c:370-373 | The two steps of unlink are undefined exactly for an entry pointing at its own non-root directory or a released block outside the data map; otherwise exactly the released blocks' bits are cleared |
| FsSpec.UnlinkEntry | src/juzfs.c:370-373 | The same outcome for the two steps of unlink on child `idx` of a directory, stated on the state |
| FsSpec.MknodKeepsInv | src/juzfs.c:202-230 | mknod keeps the invariant |
| FsSpec.RenameSamePath | src/juzfs.c:412-414 | Renaming a found path onto itself returns 0 and changes nothing |
| FsSpec.RenameMissingSource | src/juzfs.c:408-410 | A source that is not found gives -ENOENT and changes nothing |
| FsSpec.RenameOntoExisting | src/juzfs.c:425-428 | An existing destination gives mknod's -EEXIST and changes nothing |
| FsSpec.RenameTailOutcome | src/juzfs.c:430-435 | Unless undefined, the tail returns 0 and the destination entry points at the source inode and carries its ino. When the directories differ, the destination directory has that entry in place and the source's parent has lost its first child named like the source. When they are the same, the drop runs on the list that already holds the entry, which moves down one place when the dropped child came before it |
| FsSpec.RenameTailShape | src/juzfs.c:430-435 | Unless undefined, the tail returns 0. The destination directory has the repointed entry in its slot, and then the source's parent has the first child named like the source dropped; no other inode changes |
| FsSpec.RenameOutcome | src/juzfs.c:401-437 | For a found source and a destination that misses only at its last component: rename returns 0 or is undefined. On 0 the state is Renamed: no handle is gained or lost, the inode map is as before, and the destination directory ends with an entry named after the destination, typed like the source, pointing at the source inode and carrying its ino. The source entry has left its parent, every other inode is unchanged, and, when the destination directory's path does not run through the source inode, looking up the destination finds that entry |
| FsSpec.RenameCompletes | src/juzfs.c:401-437 | For the same source and destination, rename returns 0 exactly when mknod can take a clear ino below `max_ino`, the destination directory can take the entry, and every block the source's parent releases lies in the data map. On 0 the data map keeps its length, and a bit is set exactly when it was set or is the block mknod took, and it is not released |
| FsSpec.RenameAfterSecondLookup | src/juzfs.c:425-436 | After mknod, rename returns 0 exactly when the second lookup hits and the source's parent releases only blocks in the data map; then those bits are cleared from the map mknod left |
| FsSpec.MknodForRename | src/juzfs.c:202-230 | For a destination missing at its last component, the lookup after mknod hits exactly when a clear ino below `max_ino` exists and the directory can take the entry. The data map gains exactly the block taken when the list grows |
| FsSpec.MknodThenHit | src/juzfs.c:202-230 | When mknod has an ino and room in the directory, the destination is found afterwards |
| FsSpec.RenameTailReleases | src/juzfs.c:430-436 | On the state mknod left, the tail returns 0 or is undefined; 0 exactly when the source's parent releases only blocks in the data map, and then exactly those bits are cleared |
| FsSpec.RenameTailRenames | src/juzfs.c:430-436 | The tail run on the state mknod left returns 0 or is undefined, and on 0 the state is Renamed |
| FsSpec.RenameIntoOwnChild | src/juzfs.c:401-437 | rename does not refuse a destination inside the source: renaming `/a` to `/a/y` that returns 0 leaves `a`'s inode with a last child that refers to that inode itself |
| FsSpec.RenameReachesTail | src/juzfs.c:404-430 | For such a source and destination, rename reaches its tail exactly when the second lookup hits, and that hit is the entry mknod appended to the destination directory, with the new inode's bit set in the inode map |
| FsSpec.RenameAfterMknod | src/juzfs.c:431-435 | On the state mknod left, unless undefined, the tail returns 0 with the handles and inode map of the state before mknod, since the bit mknod set is cleared again. The destination directory's last entry is the one mknod made, repointed at the source inode with its ino, in a state shaped like a rename |
| FsSpec.DestinationResolves | src/juzfs_util.c:482-550 | After a change shaped like a rename, a destination that missed at its last component finds the appended entry, when the path to its directory does not run through the moved child |
| FsSpec.RenameTailFrame | src/juzfs.c:430-435 | Unless undefined, the tail removes the destination's inode from the arena (unless it is the root), keeps the owning dentry of every inode left, and leaves every inode other than the two directories as it was |
| FsSpec.MknodThenLookup | src/juzfs.c:425-430 | After the mknod step on a destination that missed at its last component, the invariant holds, and a hit of the second lookup is exactly the entry appended to that directory, whose inode is the one just made |
| FsSpec.MknodGrows | src/juzfs.c:202-230 | mknod on such a destination returns 0, keeps the invariant and the directory's own dentry and ino, and appends at most the entry it made |
| FsSpec.ReaddirOutcome | src/juzfs.c:174-192 | A found node returns 0. It emits the child at `offset` with next offset `offset+1` exactly when `offset` is below the child count |
| FsSpec.GetAttrOutcome | src/juzfs.c:121-154 | -ENOENT comes back exactly when not found, with no attributes. The root with a zero I/O unit is undefined, because its block count divides by the block size. Otherwise the result is 0 and the directory bit is set exactly for directories. A directory reports 136 bytes per child and a file its size, with one link. The root reports the usage, the device's block count and two links |
| FsSpec.OpenFile | src/juzfs.c:262-274 | Opening succeeds only for a file whose size is at least the offset |
| FsSpec.ReadOutcome | src/juzfs.c:312-353 | -ENOENT comes back exactly when not found, -EISDIR exactly for a directory, and -ESPIPE exactly for an offset past the end. Otherwise, when the split is defined, `size` is returned with the bytes the split's transfers read: at most `size` of them, and all of them when the request starts in the first block. A refusal returns no data |
| FsSpec.WriteOutcome | src/juzfs.c:256-300 | -ENOENT comes back exactly when not found, -EISDIR exactly for a directory, and -ESPIPE exactly for an offset past the end. `size` comes back exactly for a file with the offset at most its size whose split is defined. Then the device holds what the split's transfers write, the size becomes `max(size, offset+size)`, and the rest of the arena, the handle counter and the bitmaps are unchanged. Any other result changes nothing |
| FsSpec.WriteThenReadSingleBlock | src/juzfs.c:276-351 | Writing a one-block request and reading it back returns the bytes written |
| FsSpec.WriteReopens | src/juzfs.c:256-300 | After a write carried out, the same path opens the same file with its slots unchanged, and the invariant holds |
| FsSpec.AllocRun | src/juzfs.c:494-497 | The grow loop changes only the data map and the slots in `[lo, hi)` |
| FsSpec.AllocRunDistinct | src/juzfs.c:494-497 | Each block the grow loop obtains was clear before and is set after. The blocks are pairwise distinct, and no set bit is cleared |
| FsSpec.TruncateOutcome | src/juzfs.c:471-507 | -EEXIST comes back exactly when not found, -EISDIR exactly for a directory, -ENOSPC exactly beyond six blocks, and 0 otherwise; a refusal changes nothing. On 0 the size becomes `offset` and only that inode's size and slots change. A grow puts into each slot from the old block count up to the new one the block the allocation loop returns, and the data map is the one that loop leaves. Any other call, a shrink included, leaves every slot and the data map as they were |
| FsSpec.TruncateGrowsFresh | src/juzfs.c:494-497 | Every grown slot that does not hold the failure value names a block that was clear and is now set. No two grown slots name the same block, and no set block is cleared |
| FsSpec.ShrinkKeepsBlocks | src/juzfs.c:498-501 | As written, a shrink leaves the data map and the slots unchanged, so every dropped block that was set stays set; the intended shrink clears each of them |
| FsSpec.IntendedShrinkReleases | src/juzfs.c:498-501 | The intended shrink is defined exactly when the dropped slots name blocks inside the map. Then each dropped block is clear, every other bit is kept, and nothing but the data map changes |
| FsSpec.TruncateTwice | src/juzfs.c:486-504 | A second truncate to the same size returns 0 and changes nothing |
| FsSpec.TruncateToOwnSize | src/juzfs.c:486-504 | Truncating a file within six blocks to the size it already has returns 0 and changes nothing |
| FsSpec.WriteKeepsInv | src/juzfs.c:297 | write keeps the invariant |
| FsSpec.TruncateKeepsInv | src/juzfs.c:494-504 | truncate keeps the invariant |
| FsSpec.MkdirKeepsInv | src/juzfs.c:84-112 | mkdir keeps the invariant |
| FsSpec.UnlinkKeepsInv | src/juzfs.c:361-392 | unlink and rmdir keep the invariant |
| FsSpec.RenameKeepsInv | src/juzfs.c:401-437 | rename keeps the invariant |
| FsSpec.RenameTailKeepsInv | src/juzfs.c:430-435 | The tail of rename keeps the invariant |
| FsSpec.RepointKeepsInv | src/juzfs.c:432-433 | Pointing the destination entry at the source inode keeps the invariant |
| Records.DentryRecords | src/juzfs_util.c:296-299 | Each child's record holds its whole name field, its ino and its type, in order |
| Records.Segment | src/juzfs_util.c:308 | Segment `b` holds the up to eight records from index `8b` on |
| Records.WriteSegmentsContents | src/juzfs_util.c:305-311 | With distinct slots, each visited slot's block holds that slot's segment and every other block keeps its contents |
| Records.ReadBuffer | src/juzfs_util.c:352-358 | The buffer has `dir_cnt` entries, each taken from the segment read for it, when there is one |
| Records.AddChildrenRefused | src/juzfs_util.c:360-368 | Once the array cannot grow, every further append is refused and nothing changes |
| Records.AddChildrenUninitialised | src/juzfs_util.c:360-368 | Within the capacity, uninitialised entries are appended one by one |
| Records.ReloadLosesChildren | src/juzfs_util.c:271-373 | After a sync and reload of a directory with children, ino, size and slots survive but the children do not. With 1-5 children the count doubles and every entry is uninitialised; with 6 or more, the count stays and the array is never allocated |
| Records.SegmentCount | src/juzfs_util.c:305 | The count is the number of segments the children occupy, at most six for up to 48 children |
| Records.AppendReloaded | src/juzfs_util.c:360-368 | One reload step appends the child built from the record and keeps the capacity at whole segments |
| Records.IntendedChildrenOutcome | src/juzfs_util.c:360-368 | The intended loop appends one reloaded child per record, in order, and keeps whole segments |
| Records.IntendedBufferIsRecords | src/juzfs_util.c:305-358 | Reading back the segments the intended sync wrote gives the children's records in order |
| Records.IntendedSyncReadRoundTrip | src/juzfs_util.c:271-373 | The intended sync and reload give back ino, size, owner and slots. A directory also gets back its children in order, each with its name, ino and type, unloaded, under the new parent |
| Engine.FindChild | src/juzfs_util.c:518-525 | The scan loop returns Dentries.FirstMatch |
| Engine.FindNamed | src/juzfs_util.c:670-675 | The scan loop returns Dentries.FirstNamed |
| Engine.WritePieces | src/juzfs.c:279-295 | One driver write per piece leaves the device equal to FileIo.WriteAll |
| Engine.ReadPieces | src/juzfs.c:335-351 | One driver read per piece returns FileIo.ReadAll |
| Engine.Fs.constructor | src/juzfs_util.c:56-144 | A fresh mount yields the layout's counts and bitmaps of the layout's sizes. Only bit 0 of the inode map is set and the data map is clear. The root inode is the only inode: an empty directory with ino 0, owned by the parentless dentry `/` |
| Engine.Fs.AllocInode | src/juzfs_util.c:218-263 | The method's new state, dentry and handle are those of FsSpec.AllocInode |
| Engine.Fs.AllocDataBlk | src/juzfs_util.c:423-451 | The new state and block are those of FsSpec.AllocDataBlk |
| Engine.Fs.DeallocDataBlk | src/juzfs_util.c:458-465 | The method succeeds exactly when FsSpec.DeallocDataBlk is defined, and then matches its state |
| Engine.Fs.DropInode | src/juzfs_util.c:746-774 | The new state and result are those of FsSpec.DropInode |
| Engine.Fs.AllocEntry | src/juzfs_util.c:382-416 | The new state and result are those of FsSpec.AllocEntry |
| Engine.Fs.DropEntry | src/juzfs_util.c:664-706 | The result is that of FsSpec.DropEntry, as is the state unless undefined |
| Engine.Fs.ReleaseSlots | src/juzfs_util.c:688-691 | The release loop frees the blocks of the slots from the old segment count down to the new one, in that order, and ends as FsSpec.FreeBlocks does, with false when a block lies outside the data map |
| Engine.Fs.Lookup | src/juzfs_util.c:482-550 | The walk ends where FsSpec.Lookup says |
| Engine.Fs.MakeChild | src/juzfs.c:104-111 | The new state and result are those of FsSpec.MakeChild |
| Engine.Fs.Mkdir | src/juzfs.c:84-112 | The result is that of FsSpec.Mkdir; unless undefined, so is the state, and the object stays valid |
| Engine.Fs.Mknod | src/juzfs.c:202-230 | The result is that of FsSpec.Mknod; unless undefined, so is the state, and the object stays valid |
| Engine.Fs.UnlinkDentry | src/juzfs.c:370-373 | The result is that of FsSpec.UnlinkDentry, as is the state unless undefined |
| Engine.Fs.Unlink | src/juzfs.c:361-375 | The result is that of FsSpec.Unlink; unless undefined, so is the state, and the object stays valid |
| Engine.Fs.Rmdir | src/juzfs.c:389-392 | The result is that of FsSpec.Rmdir; unless undefined, so is the state, and the object stays valid |
| Engine.Fs.Rename | src/juzfs.c:401-437 | The result is that of FsSpec.Rename; unless undefined, so is the state, and the object stays valid |
| Engine.Fs.RenameTail | src/juzfs.c:430-436 | The result is that of FsSpec.RenameTail, as is the state unless undefined; the count the drop returns is ignored and rename returns mknod's 0 |
| Engine.Fs.Readdir | src/juzfs.c:174-192 | The result and entry are those of FsSpec.Readdir |
| Engine.Fs.GetAttr | src/juzfs.c:121-154 | The result and attributes are those of FsSpec.GetAttr |
| Engine.Fs.Write | src/juzfs.c:256-300 | The result is that of FsSpec.Write; unless undefined, so is the state and device, and the object stays valid |
| Engine.Fs.Read | src/juzfs.c:312-353 | The result and bytes are those of FsSpec.Read |
| Engine.Fs.Truncate | src/juzfs.c:471-507 | The result is that of FsSpec.Truncate; unless undefined, so is the state, and the object stays valid |
| Engine.Fs.GrowSlots | src/juzfs.c:494-497 | The grow loop puts one freshly allocated block into each slot from the old block count up to the new one, leaving the state and slots FsSpec.AllocRun gives |

## Left out

- Engine.Fs.Mkdir and the other Engine methods: after an `Undefined` outcome (a NULL or freed pointer followed, an index past an array, a window past the disk) the new state is left unconstrained, because the C program's behaviour is undefined from there on.
- FsSpec.Rename: when the second lookup of the destination does not end at a child entry, the outcome is `Undefined`, though the code goes on with the dentry that lookup returns. The lookup ends elsewhere in three ways. (1) The destination directory refused mknod's entry, because its list was full (as written, at eight children) and could not grow; the lookup returns that directory's own dentry. (2) A directory before the last component is missing, as in `rename /x /b/c` with no `/b`: mknod appended `c` to the directory where its walk stopped, and the second lookup stops there again and returns that directory's dentry. (3) The walk stops at a file before the last component, as in `/f/c/d` with `/f` a file and a false stale `is_find`: mknod appended the entry to the file's inode, putting the new segment's block into its slot 0, and the second lookup returns the file's own dentry. A second lookup that meets the unloaded dentry of a failed inode allocation is a `Fault`. In cases (1) to (3), `juzfs_drop_inode` runs on the returned dentry's inode. It refuses the root with -EINVAL, clears a file's ino bit and runs its block loop, and runs the recursive drop for any other directory; neither loop is modelled (see below). The returned dentry is then repointed at the source inode with its ino, so for the root the mount's root now names the source. `juzfs_drop_dentry` then runs on whatever `from_dentry->parent->inode` names after the repoint. When the root was repointed and the source sits in the root, that is the source's own inode: its children are searched for the source's name, nothing is dropped unless one matches, and rename returns 0 with the source entry still in the root. The model follows none of these paths.
- FsSpec.RenameOutcome: stated for a found source and a destination that misses only at its last component. A destination whose walk misses earlier, or stops at a file, is not covered. On 0, the lookup of the destination is promised to hit the moved entry only when the path to its directory does not run through the source inode. `rename /a /a/y` shows why: dropping `a` from the root leaves `/a/y` unreachable. The outcome is `Undefined` when mknod makes no inode (no clear bit below `max_ino`) or no entry (a full list); FsSpec.RenameCompletes states these conditions and the data map as an iff with the 0 outcome.
- FsSpec.WriteThenReadSingleBlock: the read-back property is stated for requests inside one block only, because multi-block requests do not read back as written (see Findings).
- The recursive loop of `juzfs_drop_inode` over a directory's children is not modelled. It removes entries from the array it iterates, and follows child inodes that may not be loaded. The loop over a file's blocks is left out too: it runs `size` times and indexes past the six slots. The model keeps only the root guard, the bitmap step and the release of the inode.
- The recursive sync of loaded children in `jfs_sync_inode`: Records models one inode's records; the children are the same step applied to each.
- The device I/O of `jfs_mount` and `jfs_umount` is not modelled: the superblock read and write, the bitmap reads and writes, the magic check on an already formatted disk, and the `is_mounted` flag. `Engine.Fs.constructor` models the fresh-format path only. It keeps the root inode as `jfs_alloc_inode` builds it. In the store, that is also what a sync and reload of an empty directory gives back (on the device geometry the root's slot lies past the disk, Layout.InoOfsPastDisk), and the model gives no other path to the root.
- The on-disk records sit in a store keyed by inode number and data-block number, not at byte offsets on the device. The engine's device bytes and that store are kept apart, and a unit is not modelled as bytes. So the store does not capture that a segment (8 records of 136 bytes, 1088 bytes) is longer than a 1024-byte block at 512-byte units: each segment write also overwrites the first 64 bytes of the next block, and since children are synced before their parent, a parent's segment can clobber a child's segment held in the next block.
- The operations keep the in-memory tree only. `mkdir`, `mknod` and the others never sync it, and a lookup that meets an unloaded dentry (`inode == NULL`) ends in `Fault`. The only unloaded dentry the operations make is one whose inode allocation failed. It keeps ino `(uint32_t)-1`, and reloading that ino reads past the disk. At an intermediate level the code also discards the inode `jfs_read_inode` returns.
- The FUSE glue is not modelled: `main`, the options and the operations table, `juzfs_init`/`juzfs_destroy`, and the `juzfs_open`, `juzfs_opendir` and `juzfs_utimens` stubs. `juzfs_access` is also left out; it reads an uninitialised `is_find`.
- The uid, gid and time fields of `juzfs_getattr` come from the process and the clock, and are not modelled.
- The device library's seek state is not modelled: each unit transfer names its own position.
- C memory management and pointer identity (`malloc`, `free`, struct `memcpy`, the `sizeof(path)` copy buffer), and the internals of `strtok`. The model uses sequences and an arena of handles; `strtok` is modelled by the components it hands out.
- The `-EIO` exits of the operations: the driver routines always return 0, so those branches never run.
- Integer widths: sizes, offsets and counts are unbounded. The conversion of `-ENOSPC` to `uint64_t` is kept, because that value lands in a slot. A transfer's location is narrowed to `int` (modulo 2^32, two's complement), as the driver's `int offset` parameter does, so a slot holding `(uint64_t)-ENOSPC` sends the transfer to `offset - 28` (FileIo.FailedSlotLocation). Transfer lengths and the 32-bit `int` fields of the superblock and inode are not truncated, which matters only for values of 2^31 or more. Layout.Format requires Layout.FormatFits, which excludes disks too small to hold the superblock and both bitmaps: on those the unsigned subtraction of the metadata size from the disk size (src/juzfs_util.c:80-93) wraps around, and the layout that results is not modelled.
- The segment-size macro is read as the constant 8.
- `printf`, the `inode_cnt` counter and the bitmap dump of the debug file.
- The shrink branch of `juzfs_truncate` is modelled by its effect, which is nothing: its loop's range is empty, so no loop is written for it. The intended release is FsSpec.IntendedShrink (see Findings).

## Findings

| source | as written | input that shows it | evidently intended | confidence | as-written member | corrected member |
|---|---|---|---|---|---|---|
| src/juzfs_util.c:392 | `JFS_ROUND_UP(dir_cnt+1, 8)` expands without parentheses to `(dir_cnt+1)*8`, so the grown capacity passes six segments at the ninth child | a directory holding 8 children with capacity 8 refuses a ninth with -ENOSPC | capacity `dir_cnt+1` rounded up to 8, room for 48 children | not executed | Dentries.NinthChildRefused | Dentries.IntendedCapacity |
| src/juzfs.c:280 | the slot value, a data-block number, is used directly as a device byte location | 1-byte units (2-byte blocks), slots 0 and 1: writing `[1,2,3]` at offset 0 and reading it back gives `[1,3,3]` | location `JFS_DATA_OFS(data_offsets[i])` plus the offset within the block | not executed | FileIo.MultiBlockWriteOverlaps | FileIo.IntendedPiecesCover |
| src/juzfs.c:285 | the first length is `BLK - offset` with the whole file offset | 2-byte blocks, offset 3, size 2: the first of two transfers has length -1 | `BLK - offset % BLK` | not executed | FileIo.StartLengthNegative | FileIo.IntendedPiecesCover |
| include/types.h:61 | `JFS_INO_OFS` multiplies `ino_list_offset` by the block size, though the layout stores that offset in bytes | 4 MiB disk with 512-byte units: the table starts at byte 6144, and the root's slot is computed as byte 6291456, past the disk | `ino_list_offset + ino * BLK` | not executed | Layout.InoOfsPastDisk | Layout.IntendedInoSlotsInTable |
| src/juzfs.c:499 | the shrink loop runs `i` from `file_blks` while `i < new_blks`, an empty range whenever `new_blks < file_blks` | a file of two blocks truncated to 0 keeps both blocks set in the data map | release the blocks of slots `new_blks .. file_blks-1` | not executed | FsSpec.ShrinkKeepsBlocks | FsSpec.IntendedShrinkReleases |
| src/juzfs_util.c:348 | the reload sets `dir_cnt` before appending the children, writes and reads only `dir_cnt/8` segments, and gives every child the first record's type | a directory with one child, synced and read back: count 2, both entries uninitialised | count from zero, every segment that holds a child written and read, each child with its own type; the corrected round trip is in the store and holds on the device only when segment blocks do not overlap (a block of at least 1088 bytes, or no adjacent segment blocks) | not executed | Records.ReloadLosesChildren | Records.IntendedSyncReadRoundTrip |
