# Frame OS: a verified model of its kernel cores

Dafny models of the parts of Frame OS that carry the hard invariants, with proofs about them. Each
core is modelled from its source and keeps its form: what the kernel updates in place is a class
with `modifies` clauses or a method with a loop, proved against a specification function; protocols
with several parties (processes and interrupts, driver and device, cores and locks) are transition
systems, and their properties hold in every state of every run.

`dafny verify dfyconfig.toml` checks the whole project.

**The inode filesystem** (`DiskFormat`, `BlockStore`, `BlockMap`, `BlockFree`, `FileData`, `FsTree`,
`Paths`, `Directory`, `DirUpdate`, `FileSystem`, `Rename`, `FsSpec`, `FsEffect`, `FsRun`, `FsTrace`,
`FsLimits`, `FsExample`). From bytes on the disk, through the write-through cache, to a map from
paths to byte arrays that every run of calls refines. The central account is block ownership: the
blocks marked used are those that inodes point at, each through one pointer, and blocks that are lost.
Every call, failing ones included, says for all paths, inode numbers and blocks what it changes; the
theorems on runs say exactly when a block is lost and when a path is. `FsLimits` and `FsExample`
state where the code departs from the simple picture: exactly when, and by which calls. `Canonical`
is the path canonicaliser.

**Processes** (`SchedSpec`, `SchedProof`, `SchedLaws`, `SchedWait`, `Sched`, `PcSched`, `Signals`, `Spin`).
Scheduling, wait, signals, stop, exit, fork and the disk slot pool as one transition system in which a
step is a stretch of code with interrupts off: no lost wake-up, no child reaped twice, quiescence exactly when
nothing is alive, bounded waiting. The per-core scheduler as an actor with its mailbox. Signal frames
restored under arbitrary nesting. Ranked spinlocks: mutual exclusion and freedom from deadlock for
any number of cores and locks.

**Network** (`InetSum`, `IpFragment`, `IpReasm`, `IpRoundTrip`, `IpLimits`). IPv4
fragmentation and reassembly undo each other under reordering and repetition (section 3.2 of RFC 791).

**Device rings** (`Virtio`, `VirtioRun`, `Xhci`). Split virtqueues with several requests in flight
and wrapping indices (section 2.6 of VIRTIO 1.1); cycle-bit rings (section 4.9 of the xHCI specification).

**Descriptors and pipes** (`PipeRing`, `Vfs`, with `Ring`). FIFO order, and reference counts equal to
descriptors over all tables.

**Smaller cores** (`CivilDate`, `PrintParse`, `Frames`). Calendar conversion, integer printing and
parsing, the frame bitmap. `Wrappers` holds the option type.

Conventions. A method that changes state in place is proved against a specification function; laws
about that function then say without it what happens, field by field, byte by byte or on strings
(`SchedLaws`, the rules of `Canonical`, `IpReasm.DeliverStores`, `PrintParse.ParseLaw` and others).
Bytes and machine words are integers with their range; wrap-around is written out where
the code relies on it. Ghost parameters and results (`owner`, `links`, `Books`) carry the abstract
state of a volume alongside the calls. A property that the code does not have is stated as an
if-and-only-if with the condition under which it holds, beside an `...Example` that shows it failing.

Where a comment in the source promises more than its code does, the model follows the code:

- `is_complete` (kernel/src/ip_reasm.rs:215-222) is said to hold when every byte below the total
  length has arrived; it compares a count, which bytes beyond the total also raise, and so errs both
  ways (`IpLimits.TestRightIff`).
- `on_fragment` (kernel/src/ip_reasm.rs:117-146) panics on a payload range that ends before it starts;
  the model reports such a frame as malformed (`IpLimits.MalformedIff`, `IpLimits.MalformedExample`).
- `do_wait_loop` (kernel/src/usermode.rs:1205-1261) is said to report "no child" when there is none.
  Interrupts come on between the end of its sleep and its second look, which may then report that
  while there is one (`SchedWait.FalseNoChildIff`, `SchedWait.FalseNoChildCause`).
- `truncate` (kernel/src/fs.rs:626-633) is said to make reads see an empty file; a later write beyond
  the start shows the old bytes again (`FsLimits.GapAfterTruncate`).
- `rename` (kernel/src/fs.rs:544-583) is said to return false on a failed check; it also fails after
  it has dropped the destination file (`FsLimits.RenameLosesFile`), and it accepts a destination
  inside the directory it moves (`FsTree.MovedReachable`, `FsExample.DetachExample`).
- Files are written through the inode number that a descriptor keeps (kernel/src/vfs.rs:190-222), and
  `write_at` (kernel/src/fs.rs:597-619) does not ask what the inode is. `unlink` and `rename` free
  inodes that descriptors still name. A later write stores blocks under the free inode; the next
  create loses them, or has taken the number before and gets the bytes (`FsTrace.SoundIff`,
  `FsTrace.ExactIff`, `FsTrace.SameNodeOrReused`; `FsExample.LeakExample`, `FsExample.ReuseExample`,
  `FsExample.DirWriteExample`).
- `dup` (kernel/src/vfs.rs:258-270) is said to return none for a full table; it then leaves a pipe end
  counted (`Vfs.Descriptors.Dup`).
- `apply_int_prec` (libc/src/printf.rs:460-468) is said to give a minimum digit count; a sign already
  in the vector counts as a digit (`PrintParse.PrecisionMet`).
- `localtime` (libc/src/posix.rs:210-230) stores the year in 32 bits, which is not enough for every
  64-bit time (`CivilDate.LocalTimeAddsUpIff`).
- `init_from_regions` (kernel/src/frames.rs:84-105) rounds the start of a region down, so an unaligned
  region would free a frame that starts before it (`Frames.WholeFramesIff`). Both callers pass aligned
  bases (kernel/src/frames.rs:110-133, kernel/src/arch/aarch64/boot.rs:181-206).
- Names of more than 28 bytes are stored cut off (shared/src/fs.rs:203-209) but never found again
  (`FsLimits.LookupFindsStored`), so a second one with the same beginning is accepted and breaks the
  directory (`FileSystem.Create`, `FsEffect.LinkableIff`, `FsExample.LongNameExample`).
- A directory is said to hold 448 entries (kernel/src/fs.rs:386-392); cleared slots are never used
  again, so it takes 448 entries over its lifetime (`DirUpdate.DirLink`, whose condition is on the
  size, and `FsExample.UsedUpExample`).

## Model

| member | source | states |
|---|---|---|
| `DiskFormat.LayoutFor` | shared/src/fs.rs:71-81 | the bitmap has just enough blocks for one bit per disk block; inode table and data region follow without gap |
| `DiskFormat.InodeLocInTable` | shared/src/fs.rs:84-89 | every inode number below 128 lies in the inode table, wholly inside one block, at 128 bytes times its number from the start |
| `DiskFormat.InodeLocDisjoint` | shared/src/fs.rs:84-89 | two inodes in one table block never overlap |
| `DiskFormat.BitmapLocInBitmap` | shared/src/fs.rs:94-98 | the bit of every disk block lies in the bitmap, never in the superblock or the inode table; counted from the start of the bitmap it is bit number b |
| `DiskFormat.BitmapLocDistinct` | shared/src/fs.rs:94-98 | no two blocks share a bitmap bit |
| `DiskFormat.LayoutExample` | shared/src/fs.rs:71-81 | a disk of 4096 blocks has one bitmap block, inodes from block 2 and data from block 34 |
| `DiskFormat.PutByteBitLaw` | kernel/src/fs.rs:117-131 | setting or clearing one bit leaves the other seven as they were |
| `DiskFormat.PutBitValue` | kernel/src/fs.rs:117-131 | setting bit k adds 2^k unless it is there, clearing it takes 2^k away if it is |
| `DiskFormat.Le32` | shared/src/fs.rs:112-114 | least significant byte first, and reading gives the number back |
| `DiskFormat.ReadBack` | shared/src/fs.rs:103-114 | a field read and written back leaves the same bytes |
| `DiskFormat.SuperblockExample` | shared/src/fs.rs:124-129 | the first eight bytes of a superblock |
| `DiskFormat.InodeBytes` | shared/src/fs.rs:161-174 | which bytes of the 128 each field of an inode is, and in which order |
| `DiskFormat.InodeExample` | shared/src/fs.rs:161-174 | the bytes of a directory inode |
| `DiskFormat.ParseInode` | shared/src/fs.rs:161-174 | the pointer loop reads the inode that the 128 bytes encode |
| `DiskFormat.WriteInode` | shared/src/fs.rs:177-186 | reading the written inode gives it back (round trip), and no byte outside its 128 changes |
| `DiskFormat.PutDirent` | shared/src/fs.rs:203-209 | the stored entry reads back as the name cut to 28 bytes and padded, with its inode number; no byte outside its 32 changes |
| `DiskFormat.DirentExample` | shared/src/fs.rs:203-209 | the 32 bytes of an entry |
| `DiskFormat.NameEqIsPad` | shared/src/fs.rs:212-218 | on stored names, name comparison is equality of padded names, and a name of more than 28 bytes equals nothing |
| `BlockStore.Decode` | kernel/src/fs.rs:89-105 | every disk image of the right size encodes a volume |
| `BlockStore.EncodesInode` | kernel/src/fs.rs:100-105 | rewriting one inode record changes that inode of the volume and nothing else |
| `BlockStore.EncodesBit` | kernel/src/fs.rs:117-131 | rewriting one bitmap bit changes the used flag of that block and nothing else |
| `BlockStore.EncodesData` | kernel/src/fs.rs:68-75 | writing a data block changes that block of the volume and no metadata |
| `BlockStore.Store.ReadBlock` | kernel/src/fs.rs:50-65 | a read through the 16-slot cache returns what the disk holds, hit or miss, and the cache stays coherent |
| `BlockStore.Store.WriteBlock` | kernel/src/fs.rs:68-75 | a write reaches the disk and no cached copy goes stale |
| `BlockStore.Store.CheckSuperblock` | kernel/src/fs.rs:205-212 | a volume is accepted exactly when its first four bytes are 50 0F A5 F5; then the layout is the one for the size in the next four |
| `BlockStore.Store.ReadInode` | kernel/src/fs.rs:95-98 | reads the volume's inode through the cache |
| `BlockStore.Store.PutInode` | kernel/src/fs.rs:100-105 | only that inode of the volume changes |
| `BlockStore.Store.AllocBlock` | kernel/src/fs.rs:110-124 | the lowest free data block, zeroed and marked; refused exactly when no data block is free; never a metadata block |
| `BlockStore.Store.FreeBlock` | kernel/src/fs.rs:126-131 | clears that block's mark and nothing else |
| `BlockStore.Store.AllocInode` | kernel/src/fs.rs:134-136 | the lowest free inode from 2 up, or none exactly when all are taken |
| `BlockMap.DataAddrInjective` | kernel/src/fs.rs:164-198 | the three tiers map different file blocks through different pointers |
| `BlockMap.OwnsIsExact` | kernel/src/fs.rs:110-198 | what block ownership says: a data block is lost exactly when it is marked used and no inode points at it; any other is marked used if and only if some inode points at it, through one pointer only; no pointer names a metadata block |
| `BlockMap.LostForAll` | kernel/src/fs.rs:110-198 | a volume has one account only, so a lost block is lost whoever counts |
| `BlockMap.OwnsForgotten` | kernel/src/fs.rs:478-487 | overwriting an inode with an empty one loses exactly the blocks it held |
| `BlockMap.OwnsSetPtr` | kernel/src/fs.rs:164-198 | linking a fresh block from an inode keeps the account exact, because a fresh index block is zeroed |
| `BlockMap.OwnsSetSlot` | kernel/src/fs.rs:143-157 | linking a fresh block from a slot of an index block keeps the account exact, at any level of the map |
| `BlockMap.IndirectSlot` | kernel/src/fs.rs:143-157 | the block behind a slot, allocated on demand; refused only when the disk is full, and then nothing changed; ownership is kept and no block is lost |
| `BlockMap.BlockFor` | kernel/src/fs.rs:164-198 | the block that maps a file block over all three tiers: found or allocated, with ownership kept and no block lost also after a failure half way; file data and other inodes untouched, new data blocks zero; refused only past the last block or on a full disk |
| `BlockMap.ThroughIndex` | kernel/src/fs.rs:173-197 | the step common to both indirect tiers, with the same guarantees when the index block is allocated but the block behind it is not |
| `BlockMap.ThroughDouble` | kernel/src/fs.rs:181-197 | the two-level tier, with the same guarantees |
| `BlockFree.FreeIndirect` | kernel/src/fs.rs:636-646 | frees exactly the index block and the blocks it points to |
| `BlockFree.FreeAllBlocks` | kernel/src/fs.rs:650-670 | afterwards the used data blocks are exactly those of the other inodes, over all three tiers |
| `BlockFree.OwnsWithout` | kernel/src/fs.rs:650-670 | with the inode blanked, ownership holds again and no block is lost |
| `BlockFree.Release` | kernel/src/fs.rs:650-670 | freeing an inode gives back its blocks and nobody else's |
| `FileData.ReadAt` | kernel/src/fs.rs:299-320 | the bytes of the file from the offset on: no more than asked for, none past the size, and fewer than both allow only in front of a hole; the volume is unchanged |
| `FileData.WriteChunk` | kernel/src/fs.rs:602-613 | one block's worth of the write loop as a change of the byte array; on failure no byte of any file changes |
| `FileData.WroteTwice` | kernel/src/fs.rs:597-619 | consecutive stores compose to one store |
| `FileData.WriteAt` | kernel/src/fs.rs:597-619 | through any inode number, refines a byte array: the written prefix reads back, every other mapped byte of the inode and every other inode is unchanged, the rest of a fresh block is zero, the size is the maximum, no block is lost; short only when the disk is full or the block limit is reached |
| `FileData.Truncate` | kernel/src/fs.rs:629-633 | the size becomes 0 and nothing else changes: blocks and their bytes stay |
| `FileData.FileByteTiers` | kernel/src/fs.rs:164-198 | which block a byte of a file is in: one of 28 pointers in the inode, of 128 in the indirect block, or of 128 times 128 behind the double-indirect block, four bytes each; none from block 16540 on |
| `FsTree.UniquePath` | kernel/src/fs.rs:286-295 | no aliasing: two paths that resolve to one inode are the same path |
| `FsTree.WalkAdd` | kernel/src/fs.rs:392-409 | adding an entry for a fresh inode changes resolution of exactly that path |
| `FsTree.WalkRemove` | kernel/src/fs.rs:431-453 | removing a childless entry changes resolution of exactly that path |
| `FsTree.WalkMoved` | kernel/src/fs.rs:549-583 | moving an entry moves exactly its subtree, for every path, when the destination is not inside it |
| `FsTree.MovedReachable` | kernel/src/fs.rs:549-583 | the moved inode stays reachable if and only if the destination directory is not inside the moved directory (the code does not check this) |
| `FsTree.WalkDetached` | kernel/src/fs.rs:549-583 | otherwise every path below the source is lost and all other paths are unchanged |
| `FsTree.MovedForest` | kernel/src/fs.rs:549-583 | a move keeps one entry per inode and none for the root |
| `Directory.Scan` | kernel/src/fs.rs:215-238 | the block-and-slot scan finds the first matching entry, none exactly when there is none |
| `Directory.LookupLaw` | kernel/src/fs.rs:215-238 | a name is found exactly when a live entry among the first size/32 has it, and gives that entry's number |
| `Directory.DirLookup` | kernel/src/fs.rs:215-238 | finds exactly the linked name |
| `Directory.DirIsEmpty` | kernel/src/fs.rs:457-477 | true exactly when no live entry is in the directory |
| `Directory.LinkedIsFound` | kernel/src/fs.rs:215-238 | a name the scan misses is not linked |
| `DirUpdate.DirLink` | kernel/src/fs.rs:392-409 | succeeds exactly when the directory is below 28 blocks and its last block exists or can be allocated; then one entry is stored and nothing else changes: one link is added if what is stored is a padded name not in the directory yet, otherwise no consistent set of links is left; a refusal changes nothing |
| `DirUpdate.ClearDirent` | kernel/src/fs.rs:431-453 | clears the first entry with that name and inode and nothing else; on consistent links it succeeds exactly when that name links that inode, and then one link is removed |
| `DirUpdate.EntriesAppend` | kernel/src/fs.rs:392-409 | the bytes appended are one new live entry; all other slots of all directories keep theirs |
| `DirUpdate.EntriesClear` | kernel/src/fs.rs:431-453 | the bytes cleared remove one live entry; all other slots keep theirs |
| `DirUpdate.EntriesBroken` | kernel/src/fs.rs:392-409 | appending any other name leaves two entries of one name or a name with a NUL inside, so that no set of links fits |
| `DirUpdate.EntriesSameName` | kernel/src/fs.rs:549-583 | an entry stored again under a name that is cut to its own, then cleared once, has changed its slot only |
| `DirUpdate.EntriesMixedUp` | kernel/src/fs.rs:549-583 | an entry moved to any other name that cannot be added leaves no consistent links |
| `Paths.SplitAtSlash` | kernel/src/fs.rs:286-295 | splitting distributes over a slash |
| `Paths.SplitLast` | kernel/src/fs.rs:413-427 | parent and last component have the components of the path between them |
| `FileSystem.WalkCompsIsWalk` | kernel/src/fs.rs:286-295 | resolving a path string is the tree walk of its padded components, and names of more than 28 bytes resolve to nothing |
| `FileSystem.Namei` | kernel/src/fs.rs:286-295 | resolves exactly the tree walk |
| `FileSystem.ResolveRules` | kernel/src/fs.rs:286-295 | the empty path is inode 1, slashes around a path do not matter, and a name behind a path is looked up where the path leads |
| `FileSystem.EntryIsBytes` | shared/src/fs.rs:196-200 | entry k of a directory is the 32 bytes from position 32 k of its contents: 28 of the name and 4 of the number |
| `FileSystem.SplitParent` | kernel/src/fs.rs:413-427 | the parent directory and the last component, or a refusal exactly when there is no such directory |
| `FileSystem.AddNode` | kernel/src/fs.rs:481-521 | the part of create and mkdir that changes the volume: takes the lowest free number and loses the blocks that a free inode of this number still holds; a failing link blanks the inode again; a name that cannot be added breaks the links, every other one keeps the whole invariant |
| `FileSystem.UndoneTidy` | kernel/src/fs.rs:478-521 | when free inodes are blank, a refusal for lack of room has changed nothing |
| `FileSystem.Create` | kernel/src/fs.rs:491-501 | succeeds exactly when the lookup misses the name, an inode is free and the root has room; then, if the name can be added, exactly that path appears, naming an empty file with the lowest free number, and if not, the links are broken; a refusal changes nothing but the free inode it took for the moment |
| `FileSystem.Mkdir` | kernel/src/fs.rs:506-521 | likewise for an empty directory at any path |
| `FileSystem.Unlink` | kernel/src/fs.rs:703-720 | succeeds exactly on a path naming a regular file; then exactly that path disappears and exactly that file's blocks are free |
| `FileSystem.Rmdir` | kernel/src/fs.rs:525-542 | succeeds exactly on a path naming an empty directory other than the root; then exactly that path disappears |
| `FileSystem.RemoveNode` | kernel/src/fs.rs:533-541 | dropping a childless inode and its entry keeps the whole invariant |
| `Rename.MoveEntry` | kernel/src/fs.rs:575-582 | link under the new name, unlink the old one: refused without effect exactly when the destination directory has no room; what it does is stated for every name |
| `Rename.AfterClobber` | kernel/src/fs.rs:562-574 | dropping the destination file disturbs neither parent nor the source |
| `Rename.MovedAfterClobber` | kernel/src/fs.rs:549-583 | dropping the destination and then moving is, for every path, moving |
| `Rename.RenamePath` | kernel/src/fs.rs:549-583 | refused without effect exactly when its checks fail; a no-op on the same entry; otherwise the destination file is dropped and, exactly if there is room, every path below the source moves below the destination and all other paths and files are unchanged; under a name that cannot be added nothing moves if it is cut to the old name of that entry, and else the links are broken |
| `FsSpec.AddedTree` | kernel/src/fs.rs:481-521 | seen as a map from paths to things (inode number, kind, size, bytes), a new node is one new pair |
| `FsSpec.RemovedTree` | kernel/src/fs.rs:703-720 | a removed node is one pair less |
| `FsSpec.ChangedLook` | kernel/src/fs.rs:597-633 | when an inode changes, exactly the path with its number shows it |
| `FsSpec.NumberOnce` | kernel/src/fs.rs:286-295 | no two paths have the same number |
| `FsSpec.WrittenThing` | kernel/src/fs.rs:597-619 | a write stores the data in the byte array, zeroes the rest of the blocks it adds, and extends the size to its end |
| `FsSpec.MovedTreeIs` | kernel/src/fs.rs:549-583 | a move takes every pair at or below the source, numbers included, to the same place below the destination; into its own subtree, it loses them |
| `FsSpec.MovedReach` | kernel/src/fs.rs:549-583 | after a move every live inode is reachable if and only if it was before and the destination is not below the source |
| `FsSpec.EmptyDirIff` | kernel/src/fs.rs:457-477 | a path names an empty directory exactly when the map has a directory there and nothing below |
| `FsEffect.CreateDoes` | kernel/src/fs.rs:478-501 | create is a function of the map, the next free number and whether there is room; it leaves nothing unreachable, takes that number only, and loses the blocks that hung under it |
| `FsEffect.MkdirDoes` | kernel/src/fs.rs:506-521 | so is mkdir |
| `FsEffect.UndoneDoes` | kernel/src/fs.rs:478-521 | refused for lack of room, both leave the map as it was; blocks under the number they took for the moment are lost |
| `FsEffect.UnlinkDoes` | kernel/src/fs.rs:703-720 | so is unlink, whether it succeeds or not; it frees one number, blanks that inode and loses no block |
| `FsEffect.RmdirDoes` | kernel/src/fs.rs:525-542 | so is rmdir |
| `FsEffect.WriteDoes` | kernel/src/fs.rs:597-619 | so is write through an inode number: a prefix of the data arrives in the file that has this number, wherever it is; through a free number no path changes; no block is lost |
| `FsEffect.TruncateDoes` | kernel/src/fs.rs:629-633 | so is truncate through an inode number |
| `FsEffect.InPlaceOk` | kernel/src/fs.rs:597-633 | a write or truncation through any number keeps the volume invariant unless it changes a directory |
| `FsEffect.RenameDoes` | kernel/src/fs.rs:549-583 | so is rename under a name that can be added, with the room it finds after the destination file is gone; it makes something unreachable exactly when it moves a directory into itself |
| `FsEffect.RoomAfterDrop` | kernel/src/fs.rs:549-583 | that room, in terms of the volume before the call: the blocks of the dropped file count as free |
| `FsEffect.RenameBadly` | kernel/src/fs.rs:549-583 | under another name it has no effect if that is cut to the old one, and else breaks the links |
| `FsEffect.LinkableIff` | kernel/src/fs.rs:215-238 | a name that the lookup misses can be added if and only if it does not clash: no NUL before another byte, and not a long name whose first 28 bytes are a name there |
| `FsRun.NoAliasing` | kernel/src/fs.rs:597-619 | changing one inode changes bytes under the path with its number only, and there is at most one |
| `FsRun.ReadNumber` | kernel/src/fs.rs:299-320 | through any inode number: no more bytes than asked for, none past the size, fewer than both allow only in front of a hole; they are those under the path that has the number |
| `FsRun.WriteNumber` | kernel/src/fs.rs:597-619 | through any inode number: bytes and size of that inode, and no other path's bytes; the invariant is kept unless a directory changes; free inodes stay blank if and only if this one is not free or has not changed; bytes stored through a free number are in blocks that its inode holds |
| `FsRun.TruncateNumber` | kernel/src/fs.rs:625-633 | through any inode number: the size becomes 0 and nothing else changes; the invariant is kept unless it is a directory with entries |
| `FsRun.WriteFile` | kernel/src/fs.rs:586-589 | through any inode number: on success the contents are exactly the data; it fails only on a full disk or past the block limit |
| `FsRun.Step` | kernel/src/fs.rs:392-720 | every call with any names and any inode numbers, failing ones included, keeps the volume invariant and acts as stated on the map, on numbers, on free inodes and on lost blocks; otherwise it stored a name that clashes and leaves no consistent links, or it changed a directory through its number |
| `FsTrace.Run` | kernel/src/fs.rs:21-27 | every sequence of calls in which no name clashes and no write or truncation goes by a directory's number keeps the volume invariant (no block shared or taken from the metadata, names unique, every live inode linked once), with each call acting as stated |
| `FsTrace.ReachableIff` | kernel/src/fs.rs:549-583 | over a run every live inode stays reachable if and only if no call moved a directory into itself |
| `FsTrace.ExactIff` | kernel/src/fs.rs:478-487 | over a run no block is lost if and only if no create or mkdir took a number whose free inode held blocks |
| `FsTrace.LostForever` | kernel/src/fs.rs:110-131 | a lost block is never found again |
| `FsTrace.SoundStep` | kernel/src/fs.rs:597-619 | a single call keeps exact ownership and blank free inodes if and only if it is not a write that changes a free inode |
| `FsTrace.SoundIff` | kernel/src/fs.rs:597-619 | exact ownership and blank free inodes hold in every state of a run if and only if they held at the start and no write stored anything through the number of a free inode |
| `FsTrace.LeakNeedsStore` | kernel/src/fs.rs:478-487 | every loss was prepared by such a write |
| `FsTrace.SameNodeOrReused` | kernel/src/vfs.rs:190-222 | a number kept in a descriptor still means the same file, or a call has freed it and a later create or mkdir has taken it |
| `FsTrace.WriteChanges` | kernel/src/vfs.rs:190-222 | a write through a number changes no path but the one that has this number then |
| `FsTrace.GoodNamesClean` | shared/src/fs.rs:200-218 | names of at most 28 bytes with NULs at the end only do not clash |
| `FsTrace.FilesClean` | kernel/src/vfs.rs:145-222 | without mkdir, no write or truncation comes to a directory through a number that was not a directory's at the start |
| `FsTrace.FormattedSound` | xtask/src/main.rs:535-718 | a freshly formatted empty volume satisfies the whole invariant |
| `FsTrace.FormattedTree` | xtask/src/main.rs:535-718 | its map has the root directory only, and every live inode is reachable |
| `FsLimits.LookupFindsStored` | kernel/src/fs.rs:215-238 | a stored name is found again if and only if it has at most 28 bytes |
| `FsLimits.GapAfterTruncate` | kernel/src/fs.rs:625-633 | on volumes: after a truncate and a write further on, a byte of the gap is zero or missing exactly when it was before |
| `FsLimits.TruncateThenWrite` | kernel/src/fs.rs:597-633 | after these two calls, through any number, the gap before the offset reads as zeros if and only if the old contents there did |
| `FsLimits.GapExample` | kernel/src/fs.rs:597-633 | write 7, truncate, write 9 at offset 1: the file reads 7, 9 |
| `FsLimits.RenameLosesFile` | kernel/src/fs.rs:549-583 | a rename over a file fails and loses that file if and only if the destination directory is at 28 blocks, or needs a block while the disk is full and the file has none to give back |
| `FsLimits.RenameLossExample` | kernel/src/fs.rs:549-583 | the call on a 35-block volume: it fails, and the destination file is gone |
| `FsExample.LeakExample` | kernel/src/fs.rs:478-619 | on a formatted volume: create, unlink, write one byte through the old number, create; one block is used and nothing points at it, in every account of the volume |
| `FsExample.ReuseExample` | kernel/src/fs.rs:478-619 | create, unlink, create under another name, write through the old number: the byte is in the new file |
| `FsExample.DirWriteExample` | kernel/src/fs.rs:506-619 | the same with a new directory: two entries of one name, and no consistent links |
| `FsExample.UsedUpExample` | kernel/src/fs.rs:385-409 | a file created and unlinked 448 times: the root directory is empty and refuses the next file |
| `FsExample.DetachExample` | kernel/src/fs.rs:549-583 | mkdir "a" and rename it to "a/b": the call succeeds and no path reaches the directory |
| `FsExample.LongNameExample` | kernel/src/fs.rs:491-501 | 29 letters: both of two creates succeed, with different inodes, and no consistent links are left |
| `Canonical.OutputIsCanonical` | kernel/src/fs.rs:337-378 | the output is absolute and has no empty, "." or ".." component |
| `Canonical.Idempotent` | kernel/src/fs.rs:337-378 | resolving a result again, from any directory, gives it back |
| `Canonical.TwoSteps` | kernel/src/fs.rs:337-378 | resolving in two steps is resolving the joined path, failures included |
| `Canonical.WalkedNames` | kernel/src/fs.rs:337-378 | only proper names get onto the stack, and buffer and depth limits hold throughout |
| `Canonical.Component` | kernel/src/fs.rs:349-372 | one component in the buffer: nothing and "." leave it, ".." cuts it at its last slash and stops at the root, a name is appended behind a slash; refused exactly when a name is the 65th component or does not fit |
| `Canonical.Resolve` | kernel/src/fs.rs:337-378 | the buffer gets exactly the resolved path, for which the rules below hold, or a refusal exactly when there is none |
| `Canonical.RootRule` | kernel/src/fs.rs:337-378 | "/" resolves to "/" |
| `Canonical.StartRules` | kernel/src/fs.rs:343-344 | an absolute path resolves the same from everywhere; a relative one as if the current directory stood before it |
| `Canonical.StayRules` | kernel/src/fs.rs:348-350 | a trailing slash and a trailing "." change nothing, failures included |
| `Canonical.DownRule` | kernel/src/fs.rs:358-367 | a plain name behind a path is appended to what the path resolves to, unless that has 64 components or the result is too long |
| `Canonical.UpRule` | kernel/src/fs.rs:351-357 | ".." behind a path cuts what the path resolves to at its last slash, and leaves the root |
| `Canonical.UndoRule` | kernel/src/fs.rs:351-357 | path/x/.. resolves as path does, for every plain name x that fits |
| `SchedSpec.Find` | kernel/src/sched.rs:415-428 | a slot scan gives the first slot that passes, or the end when none does |
| `SchedSpec.NotReadyIsNegation` | kernel/src/sched.rs:913-982 | a process may sleep in wait exactly when it has a matching child and every such child is running or blocked |
| `SchedSpec.LiveCountUpdate` | kernel/src/sched.rs:1114-1122 | one slot change moves the live count by one at most |
| `SchedProof.TickInv` | kernel/src/sched.rs:247-293 | a timer tick keeps the invariant |
| `SchedProof.WakeInv` | kernel/src/sched.rs:592-603 | so does a wake-up, spurious or not |
| `SchedProof.SignalInv` | kernel/src/sched.rs:698-734 | so does a signal to any pid |
| `SchedProof.StopInv` | kernel/src/usermode.rs:496-512 | so does a stop: the parent is told before the child counts as stopped |
| `SchedProof.ExitInv` | kernel/src/sched.rs:1127-1162 | so does an exit: the sleeping parent is awake before the child counts as dead |
| `SchedProof.SpawnInv` | kernel/src/sched.rs:430-545 | so does every spawn path |
| `SchedProof.ReapInv` | kernel/src/sched.rs:864-909 | so does freeing a dead child's slot |
| `SchedProof.BeginWaitInv` | kernel/src/usermode.rs:1212-1261 | so does wait up to its first sleep, or its return if it need not sleep |
| `SchedProof.CheckWaitInv` | kernel/src/usermode.rs:1212-1261 | so does a later pass of its loop, whether it sleeps again or leaves the loop |
| `SchedProof.WaitReturns` | kernel/src/usermode.rs:1236-1261 | so does the second look, with any steps of others in between |
| `SchedProof.AcquireInv` | kernel/src/sched.rs:200-221 | so does asking for a disk slot |
| `SchedProof.ReleaseInv` | kernel/src/sched.rs:226-236 | so does releasing one: its next owner is awake |
| `SchedProof.StepInv` | kernel/src/sched.rs:12-17 | every step of the protocol keeps the invariant |
| `SchedProof.StartInv` | kernel/src/sched.rs:1099-1110 | the initial state satisfies it |
| `SchedProof.NoLostWakeup` | kernel/src/usermode.rs:1212-1261 | in every state of every run, a process asleep in wait has a matching child, and every matching child is runnable or blocked |
| `SchedProof.DiskSleeper` | kernel/src/sched.rs:200-236 | nobody sleeps for a disk slot while one is free or already granted to it |
| `SchedProof.Quiescence` | kernel/src/sched.rs:1114-1122 | in every state of every run, the Frame Scheduler's count is zero exactly when every worker slot is free or dead |
| `SchedProof.ReapedByParent` | kernel/src/sched.rs:864-909 | whoever reaps a child created it, and it had not been reaped |
| `SchedProof.ReapedExactly` | kernel/src/sched.rs:864-909 | every step adds to the reaped pids the child it reaps, and no other |
| `SchedProof.ReapedOnce` | kernel/src/sched.rs:864-909 | over a whole run no child is reaped twice |
| `SchedProof.BootOnlyWhenIdle` | kernel/src/sched.rs:247-293 | the boot context is chosen exactly when no worker is runnable |
| `SchedProof.TickCloser` | kernel/src/sched.rs:247-293 | a tick chooses a runnable worker or brings the cyclic scan strictly closer to it |
| `SchedProof.StepCloser` | kernel/src/sched.rs:247-293 | no step, not even one that grows the table, moves it further away |
| `SchedProof.BoundedWaiting` | kernel/src/sched.rs:247-293 | a worker that stays runnable is chosen within n-1 ticks while the table has n slots, and within 64 however it grows, whatever the others do |
| `SchedProof.TicksCounted` | kernel/src/sched.rs:247-293 | what is counted is the positions of the run at which there is a tick |
| `SchedLaws.WakeLaw` | kernel/src/sched.rs:592-603 | the first blocked slot of the pid becomes runnable, and nothing else changes |
| `SchedLaws.WakeNobody` | kernel/src/sched.rs:592-603 | without one, nothing changes |
| `SchedLaws.SignalLaw` | kernel/src/sched.rs:703-734 | the pending set gains the signal; the target is runnable afterwards exactly if it was, or was blocked, or was stopped and the signal is 18 or 9; otherwise its state stays; no other slot changes |
| `SchedLaws.SignalNobody` | kernel/src/sched.rs:698-702 | signal 0, a number from 32 up, or an unknown pid changes nothing |
| `SchedLaws.StopLaw` | kernel/src/usermode.rs:496-512 | slot by slot: the process is stopped, its parent has signal 17 pending and is runnable if it was blocked, everyone else is as before |
| `SchedLaws.ExitLaw` | kernel/src/sched.rs:1127-1162 | slot by slot: the process is dead and counted out, its parent is runnable if it was blocked, everyone else is as before |
| `SchedLaws.HasSlotIff` | kernel/src/sched.rs:415-428 | a slot can be had exactly if one of 1 to 6 is free |
| `SchedLaws.SpawnSteps` | kernel/src/sched.rs:415-545 | the lowest free slot gets a runnable process with the next pid, or a thread with pid 0, the forking process as parent, and no pending signal; it is counted, and nothing else changes |
| `SchedLaws.MustWaitIff` | kernel/src/usermode.rs:1219-1232 | wait's predicate is false exactly when there is a matching child and none is dead or stopped |
| `SchedLaws.AnsweredLaw` | kernel/src/usermode.rs:1233-1260 | if wait answers with pid p, the first slot with a dead matching child held p, p was not reaped before, is reaped now, and that slot is blank; "stopped" means none dead and one stopped, "no child" neither; nothing else changes but that the caller is back |
| `SchedLaws.WaitBeginLaw` | kernel/src/usermode.rs:1212-1261 | the first look sleeps if and only if it must, and changes the caller only; otherwise it answers so |
| `SchedLaws.WaitPassLaw` | kernel/src/sched.rs:562-585 | a pass of the sleeping loop sleeps again if and only if it must |
| `SchedLaws.ReapLaw` | kernel/src/sched.rs:864-909 | the slot freed is the first with a dead matching child, and is blank afterwards; nothing else changes |
| `SchedLaws.AcquireLaw` | kernel/src/sched.rs:200-221 | with a slot free, the first is granted and every other owner keeps its own; with none, the requester is last in the queue |
| `SchedLaws.AcquirePassLaw` | kernel/src/sched.rs:562-585 | the sleep ends exactly when the slot is granted |
| `SchedLaws.ReleaseLaw` | kernel/src/sched.rs:226-236 | the very slot goes to the first in the queue, who is awake afterwards, or to the end of the free list; all other owners keep theirs |
| `SchedLaws.PollLaw` | kernel/src/sched.rs:562-585 | any other wait for a condition moves the caller only, and remembers whether it holds a disk slot |
| `SchedLaws.TickLaw` | kernel/src/sched.rs:247-293 | a tick changes the running slot only, apart from a pending stop; it chooses the first runnable worker behind the current one going round, and the boot context if there is none |
| `SchedWait.FirstLookHonest` | kernel/src/usermode.rs:1212-1261 | a wait that need not sleep reports "no child" exactly when there is none |
| `SchedWait.FalseNoChildIff` | kernel/src/usermode.rs:1212-1261 | the look after a sleep reports "no child" while a matching child exists if and only if every matching child is then running or blocked |
| `SchedWait.WindowStep` | kernel/src/interrupts.rs:641-650 | between the two looks no step of anybody takes a child away, adds one or revives a dead one; a stopped one runs again only by SIGCONT or SIGKILL |
| `SchedWait.DeadIsReaped` | kernel/src/usermode.rs:1212-1261 | in every run, if a matching child was dead when the sleep ended, the second look reaps one |
| `SchedWait.NoneStaysNone` | kernel/src/usermode.rs:1212-1261 | in every run "no child" when the sleep ended stays the answer |
| `SchedWait.FalseNoChildCause` | kernel/src/usermode.rs:1212-1261 | in every run the false answer needs a child that was stopped when the sleep ended and was continued in between, and no dead one |
| `SchedWait.FalseNoChildExample` | kernel/src/usermode.rs:1212-1261 | a run from the initial state with the false answer |
| `Sched.Kernel.constructor` | kernel/src/sched.rs:1099-1110 | the initial state is the protocol's |
| `Sched.Kernel.Scan` | kernel/src/sched.rs:626-637 | the loop over slots is the first-match search |
| `Sched.Kernel.WakePid` | kernel/src/sched.rs:592-603 | is the wake-up step, and keeps the invariant |
| `Sched.Kernel.SendSignal` | kernel/src/sched.rs:698-734 | is the signal step; it reports exactly whether the process exists; the pending set gains the signal, the state becomes runnable exactly if it was, or was blocked, or was stopped and the signal is 18 or 9, else it stays, and no other slot changes |
| `Sched.Kernel.StopCurrent` | kernel/src/usermode.rs:496-512 | is the stop step |
| `Sched.Kernel.Schedule` | kernel/src/sched.rs:247-293 | is the timer step, with a pending stop delivered to the preempted process |
| `Sched.Kernel.Spawn` | kernel/src/sched.rs:415-545 | is the spawn step: lowest free slot, else a new one; counted once |
| `Sched.Kernel.ExitCurrent` | kernel/src/sched.rs:1127-1162 | is the exit step |
| `Sched.Kernel.WaitBegin` | kernel/src/usermode.rs:1212-1261 | is the first part of wait: sleeps exactly when a matching child exists and none is dead or stopped; an answer "reaped p" means that the first slot with a dead matching child held p, that the slot is blank now and that the reaped pids have grown by p |
| `Sched.Kernel.WaitPass` | kernel/src/usermode.rs:1212-1261 | is a later pass of the loop; it leaves the loop exactly when the predicate holds, however it was woken |
| `Sched.Kernel.WaitCollect` | kernel/src/usermode.rs:1236-1261 | is the second look, whose answer means the same |
| `Sched.Kernel.AcquireDisk` | kernel/src/sched.rs:200-221 | is the request step |
| `Sched.Kernel.AcquirePass` | kernel/src/sched.rs:200-221 | returns exactly when the slot has been granted |
| `Sched.Kernel.ReleaseDisk` | kernel/src/sched.rs:226-236 | is the release step: first in the queue gets the slot and is woken |
| `Sched.Kernel.ReapDeadChild` | kernel/src/sched.rs:864-881 | is the reap step; the child is dead and the caller's own |
| `Sched.Kernel.ReapNohang` | kernel/src/usermode.rs:1273-1298 | 0 exactly when no matching child is dead, and then nothing changes; else the pid in the first slot with one, and exactly the caller's dead children up to that slot are gone |
| `PcSched.Mailbox.Push` | kernel/src/reactor.rs:44-52 | the ring is a FIFO queue: append, refused exactly when full |
| `PcSched.Mailbox.Pop` | kernel/src/reactor.rs:55-63 | the oldest message, none exactly when empty |
| `PcSched.StepInv` | kernel/src/pcsched.rs:228-363 | count plus queued admits minus queued retires equals the live workers after every step, with ticks between any two |
| `PcSched.LeavesOnlyWhenDead` | kernel/src/pcsched.rs:303-363 | in every run the mailbox never fills up, and the core leaves its loop only with every worker dead and every message handled |
| `Signals.SetupPlace` | kernel/src/usermode.rs:611-623 | the saved frame is 16-aligned and wholly below the 128-byte red zone; the handler starts with rsp 8 modulo 16, the signal in rdi, and every other register as it was |
| `Signals.SetupSaved` | kernel/src/usermode.rs:611-623 | the whole interrupted frame is on the stack, below it the restorer |
| `Signals.SetupOthers` | kernel/src/usermode.rs:611-623 | no other word of user memory changes |
| `Signals.Kept` | kernel/src/usermode.rs:463-489 | well-behaved code, interrupted by signals to any depth, changes nothing at or above its stack top |
| `Signals.Interrupted` | kernel/src/usermode.rs:611-636 | when a handler returns, however many signals interrupted it, the whole trap frame is back, and the red zone and everything above it are untouched |
| `Signals.Thread.SetupSignalFrame` | kernel/src/usermode.rs:611-623 | the in-place code is that delivery |
| `Signals.Thread.SigReturn` | kernel/src/usermode.rs:633-636 | the in-place code loads the whole frame from the stack |
| `Spin.StepInv` | kernel/src/spin.rs:73-144 | every step of every core keeps mutual exclusion, the rank stack, and the interrupt bookkeeping |
| `Spin.StartInv` | kernel/src/spin.rs:53-69 | free locks and idle cores are a start, for any numbers of both |
| `Spin.MutualExclusion` | kernel/src/spin.rs:73-109 | in every run two guards of one lock are the same guard |
| `Spin.TopRankIsMax` | kernel/src/spin.rs:73-109 | HELD_RANK bounds every rank held |
| `Spin.TopRankAttained` | kernel/src/spin.rs:73-109 | and is the rank of a held lock |
| `Spin.PanicsIffOutOfOrder` | kernel/src/spin.rs:73-109 | in every run the lock-order check panics exactly when the core holds a lock of the same or a higher rank |
| `Spin.IrqRestored` | kernel/src/spin.rs:131-145 | in every run the interrupt flag is off while anything is held or awaited, and back to its old value when nothing is |
| `Spin.SomeCoreMoves` | kernel/src/spin.rs:73-109 | no deadlock: whenever a core spins, some core can take its lock or release one |
| `Spin.DropOrderMatters` | kernel/src/spin.rs:131-145 | dropping a ranked guard restores the right HELD_RANK if and only if no newer guard is ranked |
| `Spin.DropIrqMatters` | kernel/src/spin.rs:131-145 | while a guard is left, interrupts stay off if and only if the one dropped is not the oldest or they were off before it |
| `Spin.DropOrderExample` | kernel/src/spin.rs:131-145 | two locks dropped in the order of acquisition: wrong rank, and interrupts on while a lock is held |
| `InetSum.ComputeChecksum` | kernel/src/net.rs:399-413 | the two loops compute the one's-complement sum, without overflow below 65536 bytes |
| `InetSum.FoldMod` | kernel/src/net.rs:399-413 | folding keeps the sum modulo 65535 and non-zero sums non-zero |
| `InetSum.OddLastByte` | kernel/src/net.rs:406-408 | an odd last byte counts as if a zero followed |
| `InetSum.ChecksumExample` | kernel/src/net.rs:399-413 | the checksum of the example in section 3 of RFC 1071 |
| `InetSum.ChecksumVerifies` | kernel/src/net.rs:399-413 | a header that carries its own checksum sums to zero |
| `IpFragment.TxFragmented` | kernel/src/net.rs:234-267 | short frames go out unchanged; long ones as the consecutive fragments of their payload |
| `IpFragment.FragmentsCarryPayload` | kernel/src/net.rs:234-267 | the payloads of the fragments, joined, are the payload: nothing lost, repeated or reordered |
| `IpFragment.FragmentHeader` | kernel/src/net.rs:234-267 | each fragment's header, byte by byte: its own length, its offset in 8-byte units, "more fragments" on all but the last; all other bytes but the checksum are the original's |
| `IpFragment.SentFragment` | kernel/src/net.rs:234-267 | the k-th fragment sent carries the payload from k times the chunk size on, says so in its offset, and says "more fragments" exactly if another follows |
| `IpFragment.FragmentVerifies` | kernel/src/net.rs:234-267 | every fragment's header checksum is accepted by a receiver |
| `IpReasm.CountFull` | kernel/src/ip_reasm.rs:217-222 | when nothing beyond the total was covered, the count reaches it exactly when no byte is missing |
| `IpReasm.Reassembler.Begin` | kernel/src/ip_reasm.rs:151-172 | a new datagram starts with nothing covered |
| `IpReasm.Reassembler.Store` | kernel/src/ip_reasm.rs:183-213 | the bytes are in place and covered, overlaps counted once; the bitmap and the count stay in step |
| `IpReasm.Reassembler.OnFragment` | kernel/src/ip_reasm.rs:117-146 | one arrival: ignored, dropped, stored, or completed, as the abstract reassembler does, of which the next four rows speak |
| `IpReasm.FragmentFields` | kernel/src/ip_reasm.rs:87-109 | which frames are fragments, and what is read from which bytes |
| `IpReasm.DeliverKind` | kernel/src/ip_reasm.rs:117-132 | a frame that is no fragment changes nothing; a fragment reaching past 8192 bytes drops the datagram in progress; any other with data is stored |
| `IpReasm.DeliverStores` | kernel/src/ip_reasm.rs:140-213 | storing puts each byte at its offset and marks it, and leaves the others; a first fragment clears the marks and saves the header, a last one fixes the total; complete exactly when as many bytes are marked as the total says |
| `IpReasm.CompletedFrame` | kernel/src/ip_reasm.rs:228-262 | the frame handed up, byte by byte: the buffered payload behind the saved header with its length set and its fragment and checksum fields cleared |
| `IpReasm.Reassembler.Expire` | kernel/src/ip_reasm.rs:265-277 | the partial datagram is given up |
| `IpRoundTrip.FragmentsArePieces` | kernel/src/net.rs:234-267 | the sender's output is exactly the 1480-byte pieces, in order |
| `IpRoundTrip.PieceParses` | kernel/src/ip_reasm.rs:87-109 | each piece parses back to its offset, length and more-fragments flag |
| `IpRoundTrip.CompleteIffAll` | kernel/src/ip_reasm.rs:217-222 | the completion test holds exactly when every fragment has arrived |
| `IpRoundTrip.RoundTrip` | kernel/src/ip_reasm.rs:117-262 | fragments of a datagram of up to 8192 payload bytes, in any order and with any repeats: the delivery of the last missing one, and none before, completes, and yields a frame of the same length and payload, with the length field set, the fragment and checksum fields zero, and every other header byte as it was |
| `IpLimits.CompleteIffBalanced` | kernel/src/ip_reasm.rs:217-222 | the completion test holds exactly when the total is known and as many bytes were received at or beyond it as are missing below |
| `IpLimits.TestRightIff` | kernel/src/ip_reasm.rs:215-222 | so it agrees with "every byte below the total has arrived" if and only if nothing was received beyond the total, or bytes are missing and their number is not the number received beyond |
| `IpLimits.HoleExample` | kernel/src/ip_reasm.rs:117-222 | two frames on which a datagram with a hole is delivered |
| `IpLimits.RefusedExample` | kernel/src/ip_reasm.rs:117-222 | two frames on which a datagram with every byte is not |
| `IpLimits.MalformedIff` | kernel/src/ip_reasm.rs:87-146 | the arrivals reported as malformed, on which the source panics, are exactly the fragments within the buffer whose total length is below the header length or whose header the frame cuts off |
| `IpLimits.MalformedExample` | kernel/src/ip_reasm.rs:87-146 | a frame whose total length is less than its header |
| `Virtio.WrapKeepsPosition` | kernel/src/virtio_blk.rs:289-365 | a wrapping 16-bit index meets the same ring position as the unbounded count |
| `Virtio.SubmitInv` | kernel/src/virtio_blk.rs:289-327 | a submission overwrites no descriptor or ring entry that is still in use |
| `Virtio.FetchInv` | kernel/src/virtio_blk.rs:289-327 | the device finds the head of the oldest request it has not fetched |
| `Virtio.CompleteLaw` | kernel/src/virtio_blk.rs:289-327 | the chain of a request leads to its own slot's buffers: the device moves exactly the requested sector and touches no other slot |
| `Virtio.DrainInv` | kernel/src/virtio_blk.rs:343-365 | draining one completion gives the flag and that request's status to the slot that submitted it |
| `Virtio.DrainTest` | kernel/src/virtio_blk.rs:343-365 | the index comparison that ends the drain loop is right although both indices wrap |
| `Virtio.Disk.constructor` | kernel/src/virtio_blk.rs:169-251 | a queue of at least 24 entries whose size divides 65536 is a valid start |
| `Virtio.Disk.Submit` | kernel/src/virtio_blk.rs:289-327 | the in-place submission is that step |
| `Virtio.Disk.DrainUsed` | kernel/src/virtio_blk.rs:343-365 | the loop terminates with every completion drained, each exactly once |
| `Virtio.Disk.DrainOne` | kernel/src/virtio_blk.rs:348-362 | one round of the loop is the abstract drain step |
| `Virtio.Disk.TakeStatus` | kernel/src/virtio_blk.rs:379-402 | a waiter returns exactly when its own request is done, with the status the device gave it |
| `VirtioRun.RunInv` | kernel/src/virtio_blk.rs:289-402 | every interleaving of driver and device, with any order of completion, keeps the invariant |
| `VirtioRun.CompletedOnce` | kernel/src/virtio_blk.rs:289-365 | in every run no request is completed twice |
| `VirtioRun.DrainedOnlyOnce` | kernel/src/virtio_blk.rs:343-365 | in every run no request is drained twice |
| `VirtioRun.TakenOnce` | kernel/src/virtio_blk.rs:379-402 | in every run from the empty start, whatever a waiter takes has exactly one earlier completion and then one drain, both of the request its own slot submitted, and the status is the one the device reported there |
| `VirtioRun.ReadArrives` | kernel/src/virtio_blk.rs:289-402 | when a read succeeded, the waiter's buffer still holds the sector as the disk had it at the one completion of its request |
| `VirtioRun.WriteArrives` | kernel/src/virtio_blk.rs:289-365 | when a write succeeds, the disk gets at that sector exactly the bytes handed to its submission |
| `Xhci.TransferRing.constructor` | kernel/src/xhci.rs:456-465 | a zeroed ring whose Link TRB already carries cycle 1 is a valid start |
| `Xhci.TransferRing.Enqueue` | kernel/src/xhci.rs:510-535 | with fewer than 255 outstanding, the TRB is appended to what was sent and none is overwritten, over any number of wraps |
| `Xhci.TransferRing.Stamp` | kernel/src/xhci.rs:827-850 | the slot written is one the controller has finished with |
| `Xhci.TransferRing.WrapProducer` | kernel/src/xhci.rs:1537-1578 | handing over the Link TRB and toggling the cycle keeps the ring consistent |
| `Xhci.TransferRing.Consume` | kernel/src/xhci.rs:456-465 | a controller that follows cycle bits takes exactly the TRBs sent, in order, never a stale one, and stalls only when there is none |
| `Xhci.EventRing.Post` | kernel/src/xhci.rs:550-571 | the controller appends an event without overrunning the driver |
| `Xhci.EventRing.PollEvent` | kernel/src/xhci.rs:550-571 | returns the next event posted exactly when there is one |
| `PipeRing.PipeBuf.Write` | kernel/src/pipe.rs:89-99 | takes as many bytes as fit; accepted bytes are those delivered followed by those queued |
| `PipeRing.PipeBuf.Read` | kernel/src/pipe.rs:76-85 | gives out the oldest bytes, in order |
| `PipeRing.PipeBuf.Reset` | kernel/src/pipe.rs:61-72 | a reused pool slot starts empty |
| `Vfs.Swap` | kernel/src/vfs.rs:319-334 | replacing a descriptor exchanges the reference it brings for the one it drops |
| `Vfs.IncOk` | kernel/src/pipe.rs:107-116 | one more reference, one more to account for |
| `Vfs.DecOk` | kernel/src/pipe.rs:119-145 | a pipe is freed only when no descriptor names it |
| `Vfs.AllocOk` | kernel/src/pipe.rs:61-72 | a new pipe counts one reader and one writer |
| `Vfs.Descriptors.CloneSlot` | kernel/src/vfs.rs:78-114 | a copied pipe end is counted once more |
| `Vfs.Descriptors.Dup` | kernel/src/vfs.rs:261-270 | the lowest closed descriptor becomes a copy; a pipe end in a full table stays counted once too often, and only then |
| `Vfs.Descriptors.Dup2` | kernel/src/vfs.rs:276-288 | the target becomes a copy and counts stay right, also when both name the same pipe or are the same descriptor |
| `Vfs.Descriptors.Close` | kernel/src/vfs.rs:319-334 | exactly that descriptor is closed and its reference dropped |
| `Vfs.Descriptors.OpenFile` | kernel/src/vfs.rs:118-184 | the lowest closed descriptor, refused exactly when none is closed |
| `Vfs.Descriptors.MakePipe` | kernel/src/vfs.rs:344-374 | the two lowest closed descriptors and a free pool slot; refused exactly when there are none, with everything undone |
| `Vfs.Descriptors.ClearTable` | kernel/src/vfs.rs:403-418 | every descriptor of that process is closed, no other touched |
| `Vfs.Descriptors.InitConsole` | kernel/src/vfs.rs:423-429 | the three console descriptors, the rest of the table closed |
| `Vfs.Descriptors.CloneFds` | kernel/src/vfs.rs:433-439 | the child's table is a copy of the parent's, each pipe end counted again, what it held before released |
| `Vfs.Descriptors.Step` | kernel/src/vfs.rs:261-445 | each call changes the tables as it should and keeps counts and descriptors in balance; a reference is left over exactly when a dup of a pipe end meets a full table |
| `Vfs.Descriptors.Run` | kernel/src/vfs.rs:261-445 | over any sequence of calls by any processes, with the tables before each call on record, something is left over if and only if some call was such a dup |
| `Vfs.Descriptors.RunKeepsCounts` | kernel/src/pipe.rs:5-20 | after a run from balanced tables the counts are exact if and only if no call was such a dup |
| `Vfs.ExactIff` | kernel/src/pipe.rs:5-20 | counts are exact if and only if no reference is left over |
| `Vfs.CountsAreDescriptors` | kernel/src/pipe.rs:5-20 | exact counts: each live pipe counts exactly its descriptors over all tables, a pipe without descriptors is free, and no descriptor names a freed or reused pool slot |
| `Vfs.LeakExample` | kernel/src/vfs.rs:261-270 | a run that leaves a reader behind |
| `CivilDate.DateRoundTrip` | libc/src/posix.rs:167-190 | from date to day number and back, on every Gregorian date |
| `CivilDate.DayRoundTrip` | libc/src/posix.rs:167-190 | from day number to date and back, on every integer, and the date is valid |
| `CivilDate.CountsDays` | libc/src/posix.rs:182-190 | day 0 is 1 January 1970 and the calendar's next date has the next number |
| `CivilDate.YearOfEraRight` | libc/src/posix.rs:167-178 | the closed formula for the year holds on every day of every year of an era |
| `CivilDate.MonthRight` | libc/src/posix.rs:167-178 | the closed formula for the month holds on every day of every month |
| `CivilDate.EraIsFloor` | libc/src/posix.rs:167-190 | the adjusted truncating divisions are floors, also for negative years and days |
| `CivilDate.NoOverflow` | libc/src/posix.rs:167-230 | for 64-bit seconds no intermediate value overflows |
| `CivilDate.LocalTimeFields` | libc/src/posix.rs:210-230 | every field but the year is in range and right; the day of the year is 0 to 364, or 365 in leap years |
| `CivilDate.LocalTimeAddsUpIff` | libc/src/posix.rs:210-230 | the fields, with the year cut to 32 bits, add up to the seconds if and only if the year fits |
| `CivilDate.LocalTimeRange` | libc/src/posix.rs:210-230 | that is, exactly for the seconds of two given days and those between |
| `CivilDate.LocalTimeExample` | libc/src/posix.rs:210-230 | 2^62 seconds are outside |
| `PrintParse.FmtUint` | libc/src/printf.rs:396-414 | the digits of the value, most significant first, at the end of the buffer |
| `PrintParse.FmtInt` | libc/src/printf.rs:416-434 | the sign and the digits of the magnitude, also for the smallest value |
| `PrintParse.ApplyIntPrec` | libc/src/printf.rs:462-468 | zeros up to the precision, where bytes already in the vector count |
| `PrintParse.PadAndEmit` | libc/src/printf.rs:438-458 | padding to the width, zeros behind the sign |
| `PrintParse.PaddedLaw` | libc/src/printf.rs:438-458 | at least as long as the width; spaces behind the text with the minus flag and before it without, zeros between sign and digits with the zero flag |
| `PrintParse.RenderSigned` | libc/src/printf.rs:470-514 | %d and %i as sign, zeros, digits and padding |
| `PrintParse.RenderUnsigned` | libc/src/printf.rs:470-514 | %u, %x, %X and %o likewise |
| `PrintParse.ParseUintLoop` | libc/src/cstdlib.rs:31-76 | the scanning loops are the parse function |
| `PrintParse.ParseLaw` | libc/src/cstdlib.rs:31-76 | on white space, sign, prefix, digits and anything behind: the digits' value modulo 2^64, the sign, and the position behind the last digit, for every base given or detected |
| `PrintParse.ReadDigits` | libc/src/cstdlib.rs:31-76 | reading the digits of a 64-bit value accumulates to it without wrapping |
| `PrintParse.IntRoundTrip` | libc/src/cstdlib.rs:97-104 | strtol gives back every 64-bit value printed with %d, for every width, precision and flags, with the end pointer just behind the digits |
| `PrintParse.UintRoundTrip` | libc/src/cstdlib.rs:80-87 | strtoull in the matching base gives back every value printed with %u, %x, %X or %o, with the end pointer just behind the digits |
| `PrintParse.StrtolLaw` | libc/src/cstdlib.rs:80-104 | on such a text strtol and strtoull return the signed number, wrapped to 64 bits |
| `PrintParse.ParseExamples` | libc/src/cstdlib.rs:31-76 | "0x1F", "017" and " +12z" with the base detected |
| `PrintParse.PrintExamples` | libc/src/printf.rs:396-514 | "-00042", "-42   ", "beef" and "BEEF" |
| `PrintParse.PrecisionMet` | libc/src/printf.rs:462-468 | the printed text has as many digits as the precision asks for if and only if the value is not negative or has that many anyway |
| `PrintParse.PrecisionExample` | libc/src/printf.rs:462-514 | %.3d of -5 prints "-05" |
| `Frames.Allocator.InitFromRegions` | kernel/src/frames.rs:84-105 | a frame other than frame 0 is free exactly when its last byte lies in a usable region; if every region starts on a frame boundary, exactly when the whole frame lies in one; the count is the number of clear bits |
| `Frames.WholeFramesIff` | kernel/src/frames.rs:84-105 | a region frees only frames wholly inside it if and only if it starts on a frame boundary or frees none |
| `Frames.UnalignedExample` | kernel/src/frames.rs:84-105 | a region that starts inside a frame and frees it |
| `Frames.Allocator.AllocFrame` | kernel/src/frames.rs:138-147 | the lowest free frame; none exactly when the count is 0 |
| `Frames.Allocator.AllocContiguous` | kernel/src/frames.rs:152-175 | the lowest run of n free frames; none exactly when no such run exists, despite the skip-ahead |
| `Frames.Allocator.FreeFrame` | kernel/src/frames.rs:178-184 | a frame of a live allocation becomes free and is counted; what is left of the allocation stays allocated |
| `Frames.SkipAhead` | kernel/src/frames.rs:152-175 | no run starts between a candidate and the used frame found behind it |
| `Frames.NewAlloc` | kernel/src/frames.rs:138-175 | a new allocation is disjoint from every live one |
| `Frames.FreedAlloc` | kernel/src/frames.rs:178-184 | live allocations stay disjoint when a frame is freed |
| `Frames.SplitCovers` | kernel/src/frames.rs:178-184 | what is left allocated is every frame that was, but the freed one |

## Left out

- FsTrace.Run: sequences with a clashing name, or with a write or truncation through a directory's number that changes it, are outside the contract; `FsRun.Step` states what such a call leaves.
- FsRun.Step: a write or truncation that changes a directory through its number is stated as a change of the directory's bytes, with block ownership kept; which entries the directory then has is left to its bytes.
- FsTrace.FormattedSound: the formatter with files baked into the image is not modelled, only the empty volume.
- FsTrace.FormattedTree: likewise.
- BlockStore.Store.ReadBlock: disk transfers are assumed to succeed, and filesystem calls are assumed not to interleave. The code does not enforce the latter: a process sleeps inside a block write before the cache is updated (kernel/src/virtio_blk.rs:379-402), and another may enter the filesystem meanwhile.
- FileData.WriteAt: offsets are unbounded; the source's 32-bit offset arithmetic is modelled only where the size is stored.
- `fs::delete`, `list_dir`, `fstat` and the mount state machine: `delete` assumes a one-block root directory; the others only read.
- Sched.Kernel.Spawn: a full process table, on which the source panics, is outside the contract, and so is the wrap-around of pids.
- Sched.Kernel.SendSignal: masks, handlers and the order in which pending signals are delivered are not modelled.
- SchedProof.BoundedWaiting: counts ticks; what a worker does between two ticks, FPU and address-space switching, and kernel stacks are not modelled.
- SchedProof.StepInv: a stretch of code with interrupts off is one step; calls of `block_current_until` other than wait and the disk pool appear as a wait for an arbitrary condition.
- PcSched.StepInv: the timer may choose any runnable slot, which covers the round-robin choice of `schedule`.
- Signals.Interrupted: handlers write only below their entry stack pointer and return with it; stack pointers below 304, where the 64-bit subtraction wraps, are outside the contract; which signal is delivered when is not modelled.
- Spin.StepInv: guards are dropped newest first and a holder of a leaf lock acquires nothing; `Spin.DropOrderMatters` and `Spin.DropIrqMatters` state what goes wrong otherwise. Memory ordering of the atomics is not modelled.
- IpFragment.TxFragmented: frames whose header-length field is below 20 bytes, where the fields the code rewrites lie in the payload, and frames of more than 65535 bytes, whose offsets do not fit the fragment field, are outside the contract.
- IpRoundTrip.RoundTrip: headers with options are excluded, because the reassembler keeps 20 header bytes only.
- IpReasm.Reassembler.Expire: the deadline of 100 timer ticks is a step that may happen at any time; the clock is not modelled.
- Virtio.Disk.Submit: submitting and clearing the completion flag is one interrupts-off step, and slots come from the disk pool; queues whose size does not divide 65536, devices that report completions nobody asked for, and the wake-up of the waiting process (a step of the scheduling protocol) are not modelled here.
- Xhci.TransferRing.Enqueue: more than 255 outstanding TRBs are outside the contract; doorbells, event contents and ring memory mapping are not modelled.
- Vfs.Descriptors.OpenFile: the file behind the descriptor and its open-file state machine are not modelled; neither is the blocking loop around pipe reads and writes.
- PrintParse.IntRoundTrip: `%p`, `%c`, `%s`, floating point, and the error reporting of `strtol` are not modelled.
- Frames.Allocator.InitFromRegions: 64-bit overflow of base plus length is not modelled.
- Frames.Allocator.FreeFrame: freeing a frame that is not part of a live allocation is outside the contract; the source cannot tell.
- TCP, UDP, ARP, DHCP, USB enumeration, SCSI, the ELF loader, exec and fork memory, the libc heap, the shell and the user programs.
- The remaining `.frs` machines; the scheduler, slot pool, pipe and reassembly machines are modelled as part of the cores that drive them.
