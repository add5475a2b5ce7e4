# OS/161 in Dafny

A model of the parts of the OS/161 1.11 kernel and C library where the hard invariants are, with proofs that hold for
every input, every run or every interleaving:

- **SFS** (`Words`, `Bitmap`, `Uio`, `SfsState`, `SfsBlocks`, `SfsTransfer`, `SfsVolume`, `SfsTruncate`, `SfsDirent`,
  `SfsDir`, `SfsOps`, `SfsMeta`, `SfsFormat`, `SfsMount`): blocks, inodes, file I/O, truncation, the root directory,
  link counts and references, mksfs, mount, sync and unmount. The invariant of all runs says that each block has one
  owner, the freemap is exact, names are unique and link counts equal the number of entries; what is synced and
  unmounted comes back when it is mounted again.
- **Synchronization** (`Synch`, `CatMouse`, `Semaphore`, `Lhd`): locks, condition variables, semaphores, the cat and
  mouse simulation and the disk driver's handshake as state machines. A step is a section with interrupts off, and
  steps interleave freely.
- **Allocators** (`KheapState`, `KheapSteps`, `KheapPages`, `Kheap`, `Coremap`, `KernelHeap`, `KernelBoot`): the
  sub-page heap with its free lists threaded through memory, the page allocator, and the two together, from boot on.
- **Tables, threads and containers** (`FileTable`, `FileRefs`, `Threads`, `PtrArray`, `Queue`, `LinkedList`).
- **Arithmetic and text** (`Random`, `Pseudorand`, `Printf`, `Atoi`, `ExecArgs`). `Lists` holds what several modules
  share.

`dafny verify dfyconfig.toml` checks everything. Code that changes things step by step is a class or a method with
loops, proved against functions on values; protocols are transition functions with an inductive invariant and a
theorem about runs. Integer widths are written out wherever they matter.

## What the proofs brought out

Where the code and what it documents or intends differ, the model follows the code.

- `sfs_truncate` keeps the indirect file block whose index equals the new block count; its bytes come back when the
  file grows (`SfsTruncate.TruncateTail`, `SfsOps.StaleByte`).
- A write past the end that transfers nothing, or fails at once, still sets the file size to its offset
  (`SfsVolume.Volume.Io`).
- A read whose end is 2^31 or more is not cut at end of file: it returns all the blocks a file can have, and EINVAL
  (`SfsVolume.EndPos`, `SfsOps.ReadPastEnd`). At a negative offset `sfs_io` can fail an assertion or leave its buffer
  (`SfsVolume.Volume.NegativeIo`).
- A file size from 2^31 on is negative to `sfs_io`: reads return nothing, and any write sets the size anew. A negative
  truncation length makes such sizes, and frees all blocks or none (`SfsTruncate.TruncateNegative`).
- The root directory can be hard-linked, and then renaming that link fails an assertion (`SfsOps.RenameRoot`).
- mksfs fails an assertion on volumes of one or two blocks, and on the 4095 largest sizes reports success without
  writing a bitmap, whose size has wrapped to zero (`SfsFormat.Mksfs`).
- A file that is open without a name when the volume is synced is lost to a volume mounted from the disk as it stands
  (`SfsMount.SyncMount`); unmounting refuses while anything is open.
- Freeing the last block of a page stolen before `coremap_bootstrap` runs off the coremap or leaks the page
  (`KernelHeap.Memory.Kfree`).
- The console files are counted for two references that do not exist, so they are never closed
  (`FileRefs.Files.ConsoleOutlives`).
- `mi_switch` relies on preallocated room that it does not always have (`Threads.System.SwitchOut`).
- `sys_execv` allocates room for one pointer and writes argc + 1 (`ExecArgs.ArgvBlock`).
- `kmalloc` of more than 2^32 - 4096 bytes returns the first frame of memory (`KernelHeap.Memory.Kmalloc`).
- `uiomove` with a residue smaller than both the request and the iovec moves too much (`Uio.MoveExact`).
- `kern/include/synch.h` says that condition variable operations are atomic; `cv_wait` gives up the lock before it
  queues, so a signal can be lost in between (`Synch.LostSignal`).
- The range check of `lhd_io` wraps for negative offsets (`Lhd.InRange`).
- `getppages` reads past its array when no run fits and the last frame is free; `ungetppages` runs off it for frame 0.
- Preallocating a queue for n elements leaves room for n - 1 (`Queue.PreallocatedShort`), and emptying a large array
  gives its preallocated room back (`PtrArray.Array.SetSize`), although mi_switch counts on both.
- The comment on `setstate` says that the current array may be passed; it then rewinds the pointers unless the header
  is up to date (`Random.Generator.SameState`).
- `%-0Nd` pads with zeros on the right (`Printf.RoundTrip`).

## Model

| member | source | states |
|---|---|---|
| Bitmap.Bitmap.constructor | kern/lib/bitmap.c:30-64 | all bits clear, and the leftover bits of the last byte in use |
| Bitmap.Bitmap.Alloc | kern/lib/bitmap.c:72-94 | the lowest clear bit is returned and set, no other bit changes; ENOSPC exactly when every bit is set |
| Bitmap.FirstClear | kern/lib/bitmap.c:80-89 | the lowest clear bit of a word that is not all ones, so that neither assertion can fail |
| Bitmap.Bitmap.Mark | kern/lib/bitmap.c:107-118 | sets exactly the bit |
| Bitmap.Bitmap.Unmark | kern/lib/bitmap.c:120-131 | clears exactly the bit |
| Bitmap.BitSet | kern/lib/bitmap.c:96-105 | changing one bit of the byte that bitmap_translate picks changes exactly that bit of the whole map |
| Uio.Uio.Move | kern/userprog/uio.c:11-82 | while a residue is left it moves min(n, iovec length) bytes in the direction of the uio and advances base, length, offset and, in 32 bits, the residue by as much; the size-0 panic fires exactly when n and the residue are not 0, n is more than the iovec holds and the residue is not what it holds |
| Uio.MoveExact | kern/userprog/uio.c:28-38 | a call moves exactly min(n, residue) bytes if and only if the residue is 0, or at least n, or all the iovec holds; otherwise the residue wraps |
| Uio.Uio.MoveWithin | kern/userprog/uio.c:11-82 | the calls SFS makes meet that: min(n, residue) bytes and a uio that stays in order |
| Uio.Uio.MoveZeros | kern/userprog/uio.c:84-108 | stops at the residue exactly when that is at least n, all the iovec holds, or a multiple of 16; otherwise goes on to min(n, iovec length) zeros, leaves a residue that does not fit the iovec, and panics exactly if n is more than it holds |
| Uio.Uio.constructor | kern/userprog/uio.c:110-123 | a uio over a whole kernel buffer |
| Words.WordsRoundTrip | kern/include/kern/sfs.h:45-52 | words written out as big-endian bytes read back as the same words |
| SfsState.NodeRoundTrip | kern/include/kern/sfs.h:45-52 | the on-disk form of an inode, one block, loses nothing |
| SfsDirent.DirentRoundTrip | kern/include/kern/sfs.h:57-60 | the 64-byte form of a directory entry loses nothing for names below 60 bytes |
| SfsVolume.Volume.Balloc | kern/fs/sfs/sfs_vnode.c:53-78 | returns the lowest free block, marked, zeroed and owned by nobody; ENOSPC exactly on a full volume; never block 0 or a reserved block, and its range panic cannot fire |
| SfsVolume.Volume.Bfree | kern/fs/sfs/sfs_vnode.c:80-89 | unmarks the block it is given |
| SfsVolume.Volume.Bmap | kern/fs/sfs/sfs_vnode.c:115-261 | the disk block of a file block; with doalloc it is allocated on demand, directly or through the indirect block; EINVAL exactly past the last block; allocation changes no byte of any file; the "marked free" panics cannot fire |
| SfsVolume.Volume.BmapDirect | kern/fs/sfs/sfs_vnode.c:137-169 | the direct case: mapped blocks are marked, a missing one is added without changing a byte |
| SfsVolume.Volume.AddIndirect | kern/fs/sfs/sfs_vnode.c:203-223 | a missing indirect block is allocated and hung on the inode; no byte of any file changes |
| SfsVolume.Volume.BmapIndexed | kern/fs/sfs/sfs_vnode.c:224-261 | with the indirect block present: its entry, looked up or added; the "marked free" panic cannot fire |
| SfsVolume.Volume.AddIndexed | kern/fs/sfs/sfs_vnode.c:237-251 | a missing entry of the indirect block is allocated and the block written back; no byte of any file changes |
| SfsBlocks.Attach | kern/fs/sfs/sfs_vnode.c:149-251 | hanging a fresh zeroed block on an empty slot keeps single ownership and every byte of every file |
| SfsBlocks.WriteData | kern/fs/sfs/sfs_vnode.c:328-344 | writing the block mapped at (file, index) changes those bytes of that file and no byte of another |
| SfsVolume.Volume.PartialIo | kern/fs/sfs/sfs_vnode.c:277-347 | moves the bytes of part of one block; an unmapped block reads as zeros and is not allocated by reading |
| SfsVolume.Volume.BlockIo | kern/fs/sfs/sfs_vnode.c:352-412 | moves one whole block straight between device and uio; the substituted offset and residue are restored |
| SfsVolume.Volume.Io | kern/fs/sfs/sfs_vnode.c:417-513 | a write changes exactly the bytes transferred; a read succeeds, with exactly min(resid, size - offset) bytes of the file, if and only if it starts past the end, or offset + resid is below 2^31 and those bytes lie in the 143 blocks a file can have; a failing one goes on to block 143 and returns EINVAL; a transfer stopped by ENOSPC or EINVAL has applied exactly the prefix that uio_offset counts; no byte of any other file changes; a write sets the size to where it stopped if that is above the size read as an off_t |
| SfsVolume.EndPos | kern/fs/sfs/sfs_vnode.c:433-441 | the end of a read, cut to an off_t, is above the size if and only if it is so as a number and is below 2^31; otherwise the read is not cut at end of file |
| SfsVolume.Clip | kern/fs/sfs/sfs_vnode.c:426-446 | what is left of the residue, for every offset and residue, and that its assertion holds |
| SfsVolume.Volume.NegativeIo | kern/fs/sfs/sfs_vnode.c:417-513 | at a negative offset nothing is moved: EINVAL, or OK with nothing to do, or a failed assertion exactly if the transfer ends before the next block boundary, except at the last 511 offsets, where sfs_partialio leaves its buffer; a write can still set the size to the negative offset |
| SfsVolume.NegativeBlock | kern/fs/sfs/sfs_vnode.c:451-461 | why: the remainder and the quotient of a negative offset as unsigned numbers |
| SfsTransfer.TransferTrans | kern/fs/sfs/sfs_vnode.c:417-513 | transfers of adjacent stretches compose |
| SfsTruncate.Truncate | kern/fs/sfs/sfs_vnode.c:1063-1157 | for every off_t, exactly the slots past the new end (see TruncateTail and TruncateNegative for what that is in this code) are released, and the indirect block exactly if its entries are looked at and none is left; the others keep block and contents |
| SfsTruncate.BlockLenIs | kern/fs/sfs/sfs_vnode.c:1079-1080 | the block count that signed rounding up leaves in an unsigned word, for every length |
| SfsTruncate.TruncateNegative | kern/fs/sfs/sfs_vnode.c:1063-1157 | a negative length empties the file if it is above -1023 and frees nothing otherwise |
| SfsTruncate.TruncDirect | kern/fs/sfs/sfs_vnode.c:1089-1100 | exactly the direct blocks from the new block count on are released |
| SfsTruncate.TruncIndirect | kern/fs/sfs/sfs_vnode.c:1102-1148 | exactly the indirect entries above the new block count are released; the indirect block goes with them if and only if the block count is below 142 and no entry is left |
| SfsTruncate.TruncateKeeps | kern/fs/sfs/sfs_vnode.c:1063-1157 | every byte below the new length is kept |
| SfsTruncate.TruncateTail | kern/fs/sfs/sfs_vnode.c:1063-1157 | the bytes past the new end read as zero exactly if the residue of the last block, and of one more block when the length ends in the indirect range, was zero before: the loop over the indirect block keeps the block with index blocklen |
| SfsTruncate.ResidueBlocks | kern/fs/sfs/sfs_vnode.c:1093-1133 | which file blocks survive: exactly those that begin below ResidueEnd |
| SfsTruncate.StaleBlock | kern/fs/sfs/sfs_vnode.c:1122-1128 | of any file truncated to 20 blocks, block 20 survives |
| SfsOps.AllGone | kern/fs/sfs/sfs_vnode.c:1063-1157 | truncation to 0 gives up every block, the indirect one included |
| SfsDirent.PutBinds | kern/fs/sfs/sfs_vnode.c:664-703 | a name written into a free slot is bound there and no other binding changes |
| SfsDirent.FreeUnbinds | kern/fs/sfs/sfs_vnode.c:708-720 | freeing a slot unbinds exactly its name |
| SfsDirent.NameMoved | kern/fs/sfs/sfs_vnode.c:1305-1379 | a second name for an inode and the first slot freed moves the name and nothing else |
| SfsDir.ReadDir | kern/fs/sfs/sfs_vnode.c:523-550 | returns the entry of the slot; the short-entry panic cannot fire |
| SfsDir.WriteDir | kern/fs/sfs/sfs_vnode.c:556-584 | rewrites that slot and no other; a failed write changes no entry and means a full volume or a slot past the largest file; the short-write panic cannot fire |
| SfsDir.FindName | kern/fs/sfs/sfs_vnode.c:614-658 | finds the slot of a name if it is bound, and a free slot if there is one; the duplicate-name assertion cannot fail |
| SfsDir.DirLink | kern/fs/sfs/sfs_vnode.c:664-703 | binds the new name; EEXIST exactly for a name that is bound, ENAMETOOLONG exactly for another of 60 bytes or more, ENOSPC only on a full volume, EINVAL only in a full directory of the largest size; all four leave every entry as it was |
| SfsDir.DirUnlink | kern/fs/sfs/sfs_vnode.c:708-720 | frees a slot in use and never fails |
| SfsOps.LoadVnode | kern/fs/sfs/sfs_vnode.c:1545-1651 | gives the inode as it is, cached or read from disk; its three panics cannot fire for an allocated inode: every loaded inode and the one asked for lie in marked blocks of the volume, and its type is file or directory |
| SfsOps.Loadable | kern/fs/sfs/sfs_vnode.c:1562-1626 | the facts behind that, for every consistent volume |
| SfsOps.StaleByte | kern/fs/sfs/sfs_vnode.c:1122-1128 | an input on which truncation loses its meaning: a byte written at 10240, the file cut to 10240 bytes and grown again, and the byte is read back, unless the volume is full |
| SfsOps.RenameRoot | kern/fs/sfs/sfs_vnode.c:1305-1379 | an input on which rename fails its assertion: link the root under a second name, which only a full volume or directory prevents, and rename that |
| SfsOps.SyncInode | kern/fs/sfs/sfs_vnode.c:37-51 | a dirty inode goes to disk and every inode keeps its value |
| SfsOps.Reclaim | kern/fs/sfs/sfs_vnode.c:856-924 | a vnode with links stays allocated and is unloaded; one without links goes with all its blocks |
| SfsOps.Decref | kern/fs/vfs/vnode.c:68-98 | one reference fewer; the last one reclaims |
| SfsOps.MakeObj | kern/fs/sfs/sfs_vnode.c:761-783 | a fresh inode, loaded once, empty and without links, or ENOSPC with nothing changed |
| SfsOps.LookOnce | kern/fs/sfs/sfs_vnode.c:726-752 | the inode a name is bound to, loaded; ENOENT exactly if it is unbound; the zero-link-count panic cannot fire |
| SfsOps.Link | kern/fs/sfs/sfs_vnode.c:1243-1264 | the name is bound to the inode, whose link count goes up by one; a failing call leaves the directory as it was; each error has the cause DirLink states |
| SfsOps.Remove | kern/fs/sfs/sfs_vnode.c:1269-1297 | exactly that name goes, ENOENT exactly if it is unbound; a file goes with it only if it was its last name and nobody holds it; all other files keep their bytes |
| SfsOps.Rename | kern/fs/sfs/sfs_vnode.c:1305-1379 | a successful rename moves exactly one name to the same inode and leaves every other name and all link counts; a failing one leaves the directory; the assertion that the old name is a file fails exactly when that name is a hard link to the root |
| SfsOps.MoveName | kern/fs/sfs/sfs_vnode.c:1335-1377 | link under the new name, then free the old slot; the undo path is never taken |
| SfsOps.Creat | kern/fs/sfs/sfs_vnode.c:1183-1236 | an existing file, loaded, or a new empty one under a new name; EEXIST exactly if excl and bound; a failing call leaves directory, inodes and references as they were |
| SfsOps.FileIo | kern/fs/sfs/sfs_vnode.c:926-948 | sfs_read and sfs_write keep the invariant of all runs, for every residue; other files keep their bytes; when a read succeeds and how much it returns, as for Io |
| SfsOps.NegativeFileIo | kern/fs/sfs/sfs_vnode.c:926-948 | the same at negative offsets, with the outcomes of NegativeIo |
| SfsOps.ReadPastEnd | kern/fs/sfs/sfs_vnode.c:433-441 | an input on which a read does not stop at end of file: 2^31 bytes from a file of one byte return all 143 blocks, and EINVAL |
| SfsOps.FileTruncate | kern/fs/sfs/sfs_vnode.c:1063-1157 | sfs_truncate, for every off_t, keeps the invariant of all runs |
| SfsOps.Sync | kern/fs/sfs/sfs_vnode.c:1041-1047 | sfs_fsync changes no inode's value |
| SfsOps.RootLoad | kern/fs/sfs/sfs_vnode.c:1657-1670 | sfs_getroot gives the root directory, any number of times; its panic cannot fire |
| SfsOps.Incref | kern/fs/sfs/sfs_vnode.c:1388-1408 | a further reference to a vnode that is held, as sfs_lookparent takes |
| SfsOps.Perform | kern/fs/sfs/sfs_vnode.c:761-1408 | any one operation, with any 32-bit offsets and sizes, keeps the invariant: single ownership, exact freemap, unique names, link counts equal to the number of entries; only renaming the root and a transfer at a negative offset can fail an assertion or leave a buffer |
| SfsOps.Run | kern/fs/sfs/sfs_vnode.c:761-1408 | so does every run of operations, up to such a failure |
| SfsOps.FreemapExact | kern/fs/sfs/sfs_vnode.c:60-261 | under that invariant the marked bits are exactly the reserved blocks, the inodes that are named or loaded, and the blocks these map |
| SfsOps.SingleOwner | kern/fs/sfs/sfs_vnode.c:60-261 | and no block has two owners: a mapped pointer is in range, not reserved, not an inode, and equal to no other pointer |
| SfsFormat.MarkInitial | sbin/mksfs/mksfs.c:75-108 | the bits set are exactly superblock, root, map blocks and those past the end; an assertion fails exactly for volumes of one or two blocks; a volume is refused as too large exactly from 131073 to 2^32 - 4096 blocks, as the rounding up of the bitmap size wraps above that |
| SfsFormat.MapSize | kern/include/kern/sfs.h:18-25 | when the 32-bit bitmap size fits the buffer, is too large, or wraps to zero |
| SfsFormat.WriteMap | kern/fs/sfs/sfs_fs.c:53-72 | writing: the bitmap lands in the map blocks, byte for byte, and nowhere else (also sbin/mksfs/mksfs.c, lines 110 to 113) |
| SfsFormat.Mksfs | sbin/mksfs/mksfs.c:39-114 | succeeds exactly for 3 to 131072 blocks, and for more than 2^32 - 4096; the device is formatted, with superblock, empty root directory and initial bitmap, exactly in the first case, and in the second no block of the map is written |
| SfsMount.MapIo | kern/fs/sfs/sfs_fs.c:39-73 | reading: the bitmap in memory equals the one on disk bit for bit, under the numbering of bitmap.c; it stops exactly when a map block lies past the end of the device |
| SfsMount.FreshVolume | kern/fs/sfs/sfs_fs.c:208-311 | a formatted device with its bitmap loaded is consistent and its directory empty |
| SfsMount.FormattedMounts | kern/fs/sfs/sfs_fs.c:208-311 | every device mksfs formats mounts as a sound, empty volume |
| SfsMount.Mount | kern/fs/sfs/sfs_fs.c:208-311 | of any device: EINVAL exactly for a wrong magic number, a panic exactly when a map block lies past the end; otherwise nothing is loaded, the freemap is what the map blocks hold, and the volume satisfies the invariant of every run if and only if the blocks of the device do |
| SfsMeta.MetaKept | kern/fs/sfs/sfs_vnode.c:57-89 | writing a block of a file changes neither the superblock nor, while the freemap is clean, its agreement with the map blocks |
| SfsMount.SyncMap | kern/fs/sfs/sfs_fs.c:126-133 | after it the map blocks hold the freemap and no file has changed |
| SfsMount.SyncFs | kern/fs/sfs/sfs_fs.c:80-145 | afterwards nothing is dirty, and freemap, directory, inodes, bytes and references are as before |
| SfsMount.SyncedDisk | kern/fs/sfs/sfs_fs.c:75-145 | the disk of a synced volume satisfies the invariant on its own if and only if no open file has lost its last name |
| SfsMount.SyncMount | kern/fs/sfs/sfs_fs.c:75-145 | sync, then a mount of the disk as it stands: sound exactly under that condition, and then with the freemap, directory, inodes and bytes that were synced |
| SfsMount.Unmount | kern/fs/sfs/sfs_fs.c:165-192 | after the sync that vfs_unmount does first: EBUSY exactly if a vnode is loaded; otherwise its assertions hold and the disk has everything |
| SfsMount.Remount | kern/fs/vfs/vfslist.c:487-528 | a volume unmounted and mounted again is sound and has the same free blocks, names, inodes and bytes |
| SfsMount.Lifetime | kern/fs/sfs/sfs_fs.c:165-311 | from mksfs on, through any sessions of operations with unmounting and mounting between them, every state satisfies the invariant |
| Synch.StepKeeps | kern/thread/synch.c:149-202 | every interrupts-off section of lock_acquire, lock_release, cv_wait, cv_signal and cv_broadcast, in any interleaving, keeps the lock and queue invariant |
| Synch.Safety | kern/thread/synch.c:149-202 | in every reachable state at most one thread is in a critical section, it passes lock_release's assertion, a woken acquirer already owns the lock, and the lock is not free while threads queue |
| Synch.OneQueue | kern/thread/synch.c:160-165 | a sleeping thread sleeps on its own address and stands in exactly one wait queue, once |
| Synch.WaiterTurn | kern/thread/synch.c:174-202 | a waiter with k ahead of it gets the lock at exactly the (k+1)th release |
| Synch.HolderStays | kern/thread/synch.c:174-202 | the holder stays the holder until a release |
| Synch.BroadcastReaches | kern/thread/synch.c:299-316 | a broadcast wakes exactly the sleepers queued on the variable; everyone who has called cv_wait is reached if and only if nobody is between releasing the lock and queueing |
| Synch.GapReached | kern/thread/synch.c:260-278 | the state between the release and the queueing is reachable |
| Synch.LostSignal | kern/thread/synch.c:260-297 | and a signal sent there is lost |
| CatMouse.NoPanic | kern/asst1/bowls.c:192-249 | under the invariant no assertion or panic of cat_eat, mouse_eat or the simulation can fire |
| CatMouse.StepKeeps | kern/asst1/catmouse.c:149-179 | every step of every cat and mouse keeps the invariant |
| CatMouse.Safety | kern/asst1/catmouse.c:247-277 | for any number of cats, mice, bowls and loops, in every reachable state: cats and mice are never at the bowls together, those there have distinct bowls in 1..NumBowls, counter counts them, and no check can fail at the next step |
| CatMouse.BowlsKeep | kern/asst1/bowls.c:286-342 | bowls[] marks exactly the bowls in use with the species eating there, and the two counters count the eaters |
| Semaphore.Conservation | kern/thread/synch.c:64-97 | over every run the count is the initial one plus the Vs minus the Ps that returned, and a positive count means nobody sleeps on the semaphore |
| Semaphore.NoneOwed | kern/thread/synch.c:64-97 | no P returns ahead of its V, and whoever sleeps has no V left over for it |
| Lhd.StepKeeps | kern/dev/lamebus/lhd.c:167-247 | every step of any number of callers, of the device and of the interrupt handler keeps the handshake invariant |
| Lhd.OneAtATime | kern/dev/lamebus/lhd.c:167-247 | at most one request is outstanding, each completion is of the request before it, and the disk is what the completed requests make of it one after the other |
| Lhd.OwnResult | kern/dev/lamebus/lhd.c:72-104 | the result a caller reads is the completion of its own sector |
| Lhd.Transferred | kern/dev/lamebus/lhd.c:200-244 | a call that returns 0 moved every sector asked for, each by a request of its own made since the call began, with the data of the caller or of the disk at that moment |
| Lhd.TokenKept | kern/dev/lamebus/lhd.c:202-241 | lh_clear is held by exactly the one thread between its P and V, and nobody sleeps on a semaphore that could be taken |
| Lhd.InRange | kern/dev/lamebus/lhd.c:176-192 | the range check keeps the requests of an accepted call on the disk if the offset is not negative; a negative one wraps to a first request at or above sector 2^32 - 2^22, which the device refuses exactly unless it has that many sectors |
| Lhd.NegativeAccepted | kern/dev/lamebus/lhd.c:176-192 | such an offset |
| Kheap.Heap.AllocPageRef | kern/lib/kheap.c:110-134 | the lowest reference not in use, now in use; NULL exactly if all are; the inner assertion cannot fail |
| Kheap.Heap.FreePageRef | kern/lib/kheap.c:136-148 | exactly that reference is no longer in use |
| Kheap.BlockType | kern/lib/kheap.c:332-348 | the smallest block size that holds the request |
| Kheap.Heap.FindFree | kern/lib/kheap.c:372-378 | a page of the size with a free block, NULL exactly if none has one |
| Kheap.Heap.TakeBlock | kern/lib/kheap.c:380-406 | a block that was free is live, the counts and the chain in the page agree, the assertions cannot fail |
| Kheap.Heap.Thread | kern/lib/kheap.c:440-450 | chains all blocks of a fresh page, last block first, and touches no other page |
| Kheap.Heap.MakePage | kern/lib/kheap.c:431-456 | the fresh page is on the all list and on the list of its size, with every block free |
| Kheap.Heap.SubpageKmalloc | kern/lib/kheap.c:350-460 | a live block of its own, of the smallest block size that holds the request, and no other memory touched but a page newly obtained; NULL exactly if no page of the size has a free block and there is no reference or no page; NULL changes nothing |
| Kheap.Heap.SubpageKfree | kern/lib/kheap.c:462-540 | exactly that block is no longer live and only its words change; the page is given back exactly when nothing on it is live any more; a whole-page allocation is recognised; the panic and the assertions cannot fail |
| Kheap.Heap.RemoveSame | kern/lib/kheap.c:307-321 | the page is cut out of the list of its size |
| Kheap.Heap.RemoveAll | kern/lib/kheap.c:323-329 | and out of the list of all pages |
| Kheap.Heap.FillDeadbeef | kern/lib/kheap.c:6-16 | fills the block and nothing else |
| Kheap.Heap.Kmalloc | kern/lib/kheap.c:545-563 | routes by size and keeps the heap valid; requests above 2^32 - 4096 bytes wrap to 0 pages and get an address without memory |
| Kheap.PagesEnough | kern/lib/kheap.c:552-554 | the pages asked for hold the request exactly if the 32-bit sum does not wrap |
| Kheap.Heap.Kfree | kern/lib/kheap.c:565-577 | NULL is ignored; otherwise exactly that allocation goes, and what goes to free_kpages is its page or pages, exactly when nothing else lives there |
| Kheap.Heap.Store | kern/lib/kheap.c:24-42 | writing a word inside a live block disturbs none of the heap's words |
| Kheap.FullIs | kern/lib/kheap.c:525-529 | a page's free count reaches the page's capacity exactly when nothing on it is live |
| KernelHeap.Memory.AllocKpages | kern/vm/vm_tlb.c:167-176 | what the coremap hands out is what the heap relies on: pages, addressed in KSEG0, that no part of the heap owns, stolen before boot or not; 0 exactly if no run of free frames fits |
| KernelHeap.FreshRun | kern/vm/coremap.c:81-124 | frames just taken belong to no page of the heap |
| KernelHeap.LiveBacked | kern/lib/kheap.c:545-577 | every live block lies inside one block of the coremap, or below its first free frame: in memory that nobody else is given |
| KernelHeap.Memory.Kmalloc | kern/lib/kheap.c:545-563 | with its pages from the coremap: NULL, or the read past the end of the map, exactly if a small request finds no free block and no reference or no free frame for a new page, or no run of free frames fits a large one, and then nothing changes; the invariant of both allocators is kept if and only if the request is at most 2^32 - 4096 bytes (or there are no frames at all); a larger one is given the first frame of memory and ruins the map |
| KernelHeap.Memory.Kfree | kern/vm/vm_tlb.c:178-183 | a page goes to free_kpages exactly when nothing on it is live any more; ungetppages then runs off the map exactly for memory below the first frame, for frame 0 and for a fixed frame 1, leaves any other fixed frame as it is, and gives back the frames of a block |
| KernelHeap.Memory.MallocFree | kern/lib/kheap.c:545-577 | a block allocated and freed again leaves the live blocks and the whole coremap as they were; only without a fixed frame can it run off the map |
| KernelHeap.Memory.constructor | kern/vm/coremap.c:50-63 | any valid heap on memory below the free address |
| KernelBoot.Boot.Stealmem | kern/arch/mips/mips/ram.c:64-78 | the next pages, or 0 if they do not fit, in 32 bits: a sum that wraps is granted and takes the first free address back |
| KernelBoot.Boot.BigKmalloc | kern/lib/kheap.c:545-560 | whole pages before the coremap is there, or NULL exactly if they do not fit, in 32 bits; the heap stays in order on stolen memory if the sum does not wrap; if it does, the request is granted and the first free address falls back |
| KernelBoot.Boot.SmallKmalloc | kern/lib/kheap.c:409-460 | a block of its own before the coremap is there, on memory stolen for it if need be; NULL exactly if there is no free block and no reference or no memory for a new page, and then nothing changes |
| KernelBoot.Boot.Kfree | kern/lib/kheap.c:565-577 | before the coremap is there it looks into it exactly when a page becomes empty |
| KernelBoot.Boot.CoremapBootstrap | kern/vm/coremap.c:22-64 | whatever the heap was asked for before, and although the map and its entries are kmalloced, the heap and the coremap then satisfy their common invariant, with exactly those blocks more live and exactly the frames stolen meanwhile fixed; it panics only if memory is used up, and always if the map does not fit |
| KheapState.LiveDisjoint | kern/lib/kheap.c:350-540 | live allocations are disjoint, 16-byte aligned and at least as large as asked |
| KheapSteps.TakeKeeps | kern/lib/kheap.c:380-406 | taking a block keeps every page consistent: nfree is the length of a duplicate-free list, and free and live blocks fill the page |
| KheapSteps.PutKeeps | kern/lib/kheap.c:518-526 | so does giving one back |
| KheapPages.BroughtKeeps | kern/lib/kheap.c:431-456 | a fresh page joins without disturbing the others |
| KheapPages.DroppedKeeps | kern/lib/kheap.c:529-534 | an empty page leaves without disturbing the others |
| Coremap.Coremap.constructor | kern/vm/coremap.c:22-64 | frames below the free address are fixed, the others free |
| Coremap.Coremap.Search | kern/vm/coremap.c:81-108 | the lowest run of free frames that fits; otherwise no run fits, and the loop reads cm[cm_size] exactly if the last frame is free or there is none |
| Coremap.Coremap.Getppages | kern/vm/coremap.c:66-128 | the lowest fitting run becomes a block, filled with zeros, and no other byte changes; 0, or the read past the end, only if no run fits, and then nothing changes; a request for 0 pages corrupts the first entry |
| Coremap.Coremap.Ungetppages | kern/vm/coremap.c:131-147 | frees exactly the block that begins there; it runs off the map exactly for an address outside it, for frame 0 and for a fixed or inner frame 1 |
| Coremap.ClaimKeeps | kern/vm/coremap.c:110-124 | the map stays a fixed prefix, free frames and disjoint blocks headed by their length |
| Coremap.ReleaseKeeps | kern/vm/coremap.c:140-144 | so it does when a block is freed |
| Coremap.Undone | kern/vm/coremap.c:66-147 | freeing what was just allocated gives back the same map |
| FileTable.Table.Add | kern/lib/table.c:73-93 | the oldest hole is filled, or the array grows; the hole list stays exactly the NULL entries without duplicates |
| FileTable.Table.Remove | kern/lib/table.c:98-117 | the entry becomes a hole at the back of the list |
| FileTable.Table.Duplicate | kern/lib/table.c:128-185 | a table with the same contents and hole order that shares nothing with the old one |
| FileTable.GetNum | kern/lib/table.c:192-198 | tab_getnum is the number of entries that are not NULL |
| FileRefs.Files.NewFile | kern/filedes/file.c:6-23 | a file no table holds |
| FileRefs.Files.NewTable | kern/filedes/filetable.c:20-41 | an empty table, apart from all others |
| FileRefs.Files.Storefile | kern/filedes/filetable.c:66-92 | the file goes into that table only and its count is set to one; EMFILE exactly with 50 files open; a failing call changes nothing; all counts stay right if and only if the file had no reference before |
| FileRefs.Files.ConsoleFiles | kern/filedes/filetable.c:218-249 | the three console files in entries 0, 1 and 2 of a new table, each with a count of 3 and so with a surplus of 2; its assertions fail exactly without memory |
| FileRefs.SurplusStays | kern/filedes/filetable.c:240-243 | a file with a surplus is never closed, and its count never falls below it |
| FileRefs.Files.ConsoleOutlives | kern/filedes/filetable.c:240-243 | an input on which a file is held by no table and not closed: the console files of a table that is destroyed |
| FileRefs.Files.Removefile | kern/filedes/filetable.c:94-126 | one reference goes; the file is closed exactly if no table holds it any more and it has no surplus, and then for the first time; a hole is no error |
| FileRefs.Files.Getfile | kern/filedes/filetable.c:128-155 | the file in the entry, which has a positive count, or EBADF |
| FileRefs.Files.Duplicate | kern/filedes/filetable.c:157-192 | the new table holds the same files, each with as many more references, and nothing else changes |
| FileRefs.Files.Destroy | kern/filedes/filetable.c:43-64 | every reference of the table goes, and the table; exactly the files whose count fell to 0 are closed |
| FileRefs.SysDrop | kern/filedes/filetable.c:109-121 | counts stay equal to the number of entries across all tables plus the surplus, nothing is closed twice and nothing closed is still held |
| FileRefs.SysStore | kern/filedes/filetable.c:80-87 | setting the count to 1 is right exactly for a file that has no reference |
| Threads.Conservation | kern/thread/thread.c:396-483 | only fork adds a thread and only zombies go: a switch and a wakeup move threads between the lists |
| Threads.StepKeeps | kern/thread/thread.c:396-483 | every step keeps each thread in exactly one place and numthreads exact |
| Threads.OnePlace | kern/thread/thread.c:331-364 | in every reachable state each thread is current, ready, asleep or a zombie, exactly one of these and once; numthreads counts those that are not zombies |
| Threads.Turn | kern/thread/scheduler.c:87-118 | a ready thread with k ahead of it runs at exactly the (k+1)th switch |
| Threads.MovesUp | kern/thread/scheduler.c:87-118 | until then it moves up by one at each switch |
| Threads.System.Wakeup | kern/thread/thread.c:574-602 | on the real array and queue: despite the removal inside the loop, exactly the sleepers on that address go to the run queue, in their order, and the others stay in theirs; its assertion fails if and only if there is no memory and they do not fit the queue |
| Threads.System.SwitchOut | kern/thread/thread.c:396-450 | the current thread joins the list for its next state; numthreads is positive when a thread exits; the assertion that preallocation is to make safe fails if and only if there is no memory and the run queue is one short with every other thread in it, or a thread sleeps before any was forked, or the zombies fill their array |
| Threads.FirstSleep | kern/thread/thread.c:439-450 | an input on which it fails: the boot thread sleeps before it has forked |
| Threads.System.Resume | kern/thread/thread.c:452-483 | the head of the run queue is current; a resumed thread destroys all zombies |
| Threads.System.Exorcise | kern/thread/thread.c:98-114 | every zombie once; none is the current thread; more than 16 slots of room are given back |
| Threads.System.ThreadFork | kern/thread/thread.c:330-391 | the new thread is ready and counted, or nothing changes; which failing allocation stops it, and that make_runnable needs none |
| Threads.System.Reserve | kern/thread/thread.c:333-350 | the preallocations leave the lists as they are and the room that Room states |
| Threads.System.constructor | kern/thread/thread.c:203-244 | one current thread, counted, and empty lists |
| LinkedList.List.PushFront | kern/lib/linkedlist.c:85-104 | the sequence with the element in front, on one new node; without memory nothing changes |
| LinkedList.List.PushBack | kern/lib/linkedlist.c:107-125 | the sequence with the element behind; head, tail, size and every link stay exact |
| LinkedList.List.PopFront | kern/lib/linkedlist.c:129-148 | the first element, and the sequence without it |
| LinkedList.List.PopBack | kern/lib/linkedlist.c:153-183 | the last element, found from the head on, and the sequence without it |
| LinkedList.List.Copy | kern/lib/linkedlist.c:199-214 | a list that shares no node and holds, in order, the elements whose pushes found memory |
| LinkedList.CopiedAll | kern/lib/linkedlist.c:205-211 | which are all of them if and only if no push failed, since ll_copy does not look |
| LinkedList.List.Destroy | kern/lib/linkedlist.c:58-72 | every node is freed once, none before its link is read |
| LinkedList.List.Front | kern/lib/linkedlist.c:185-190 | the first element, or NULL |
| LinkedList.List.Back | kern/lib/linkedlist.c:192-197 | the last element, or NULL |
| PtrArray.Array.Preallocate | kern/lib/array.c:42-65 | contents kept, room for at least that many |
| PtrArray.Array.SetSize | kern/lib/array.c:67-89 | the first elements kept; shrinking to 0 gives up the memory exactly above 16 slots, so that room preallocated for zombies is lost by exorcise |
| PtrArray.Array.Add | kern/lib/array.c:99-114 | one element more at the end; fails only without room and memory |
| PtrArray.Array.Remove | kern/lib/array.c:116-127 | that element goes and the others keep their order |
| Queue.Queue.constructor | kern/lib/queue.c:53-68 | an empty queue |
| Queue.Queue.Grow | kern/lib/queue.c:17-51 | same contents in the same order, at least twice the room, without growing again; ENOMEM changes nothing |
| Queue.Queue.AddTail | kern/lib/queue.c:90-108 | the element joins at the tail; growth happens exactly when the ring is full; the mutual recursion terminates |
| Queue.Queue.RemHead | kern/lib/queue.c:110-121 | the oldest element leaves |
| Queue.Queue.Preallocate | kern/lib/queue.c:70-81 | contents kept, size at least as asked |
| Queue.RingFull | kern/lib/queue.c:83-98 | empty and full by the pointers are empty and full by the contents |
| Queue.PreallocatedShort | kern/lib/queue.c:70-98 | a queue preallocated to exactly n is full with n - 1 elements, so the n-th addition allocates again |
| Random.Generator.Random | lib/libc/random.c:413-442 | types 1 to 4: the window of the last deg values shifts by y(n) = y(n-deg) + y(n-sep) mod 2^32, and the result is its upper 31 bits; type 0: the linear congruential step; the pointers stay sep apart and never wrap on the same call |
| Random.WindowIsStream | lib/libc/random.c:396-412 | after k calls the window is the k-th stretch of the stream that the recurrence defines |
| Random.RingStep | lib/libc/random.c:427-439 | adding the rear into the front and moving both pointers is one shift of the window |
| Random.Generator.Srandom | lib/libc/random.c:230-247 | the state is the seeded one after 10*deg steps, and the rear pointer is back at index 0 |
| Random.Generator.WarmUp | lib/libc/random.c:242-245 | ten times round |
| Random.Generator.Initstate | lib/libc/random.c:281-332 | the largest type that fits, seeded, with its header; the state left behind keeps its words and an up-to-date header; under 8 bytes only the header is saved |
| Random.Generator.Setstate | lib/libc/random.c:353-394 | type and rear pointer as the new header says; the state left behind keeps its words and gets its header; NULL exactly for a negative type |
| Random.Generator.ThereAndBack | lib/libc/random.c:281-394 | going over to a disjoint array, drawing any number of values there and coming back resumes the same stream |
| Random.Generator.SameState | lib/libc/random.c:353-371 | setstate with the current array goes on where it was exactly if the header was refused, or up to date, or of type 0 like the generator |
| Random.Generator.Rewound | lib/libc/random.c:344-345 | an input on which it does not: one value after initstate the rear pointer is at 1 before the call and at 0 after it |
| Printf.RoundTrip | lib/libc/__printf.c:330-369 | for every 32-bit int, fill, alignment and width, atoi of the field is the number if and only if that is 0 or no zeros were put behind it (sections 7.19.6.1 and 7.20.1.2 of ISO C99) |
| Printf.LeftZero | lib/libc/__printf.c:365-368 | zeros behind the number change its value modulo 2^32 unless it is 0 |
| Printf.PrintAndParse | lib/libc/__printf.c:458-528 | printf of %d with any string of modifiers and then atoi give the number back if and only if it is 0 or the modifiers put no zeros behind it |
| Printf.DigitsDenote | lib/libc/__printf.c:400-424 | the digits denote the number in every base up to 16 |
| Printf.PF.Convert | lib/libc/__printf.c:378-432 | in bases 8, 10 and 16 the digits of every 32-bit value fit the 12-byte buffer, end before its NUL, and are the digits of the number |
| Printf.PF.GetNum | lib/libc/__printf.c:213-276 | the magnitude and sign; the least int reads as 2^31 |
| Printf.PF.PrintStuff | lib/libc/__printf.c:330-369 | the text in its field, blanks before the prefixes and zeros after them |
| Printf.FieldWidth | lib/libc/__printf.c:330-369 | a field is as wide as asked or as its text needs |
| Printf.PF.PrintNum | lib/libc/__printf.c:378-456 | sign, prefix and digits as a field |
| Printf.PF.Send | lib/libc/__printf.c:458-528 | any character: text outside a format goes through; modifiers accumulate; integers, strings, the null string, characters, %% and illegal conversions print in their field and end it |
| Atoi.Parse | lib/libc/atoi.c:20-72 | blanks skipped, sign, and the value of the digit run modulo 2^32 as an int |
| Pseudorand.Softc.Random | kern/dev/generic/pseudorand.c:20-39 | for every seed in 1..2^31-2 no intermediate leaves 32 bits, the new seed is 16807*seed mod 2^31-1 and stays in that range |
| Pseudorand.Bijection | kern/dev/generic/pseudorand.c:15-39 | the step is a bijection on that range, with an explicit inverse |
| ExecArgs.CopyArgs | kern/userprog/sysexecv.c:138-193 | count, pointers and strings occupy exactly the reserved block, 4-aligned; pointer i is where string i is copied; nothing else is written, not even the terminators |
| ExecArgs.ArgvBlock | kern/userprog/sysexecv.c:76-90 | the argc + 1 pointers written to argv stay in the 16-byte block that kmalloc gives for one if and only if argc is at most 3 |
| ExecArgs.Offsets | kern/userprog/runprogram.c:95-111 | offsets and total size |
| ExecArgs.CopyPointers | kern/userprog/runprogram.c:118-127 | the count and the pointers |
| ExecArgs.CopyStrings | kern/userprog/runprogram.c:129-136 | the strings |
| ExecArgs.ReadBack | kern/userprog/sysexecv.c:169-187 | reading argv back gives the original strings and a terminating NULL exactly if the memory under the NULL slot and after each string was zero, as on a new stack |
| ExecArgs.Inside | kern/userprog/sysexecv.c:183-187 | strings lie inside the block, apart from one another, with a byte after each that nothing writes |
| ExecArgs.BeforeGrows | kern/userprog/sysexecv.c:152-157 | the rooms of the strings follow one another without overlap |
| ExecArgs.BeforeAligned | kern/userprog/sysexecv.c:152-157 | every string begins on a word boundary of the block |

## Left out

- Device I/O errors and retries, failures of kmalloc except where a parameter says so, and faults while copying to or
  from user space.
- SFS: the order of the vnode table (a map from inode number here), the superblock's dirty flag, which nothing sets,
  and the volume name. What a transfer does that has left sfs_partialio's buffer is not described; runs end
  there. Volumes of more than 2^22 blocks, whose blocks have no 32-bit offset on the device, do not satisfy the
  invariant. Operations on a volume are taken one at a time: the code has no lock around them, and its buffers are
  static (kern/fs/sfs/sfs_vnode.c lines 127, 289 and 1074).
- Locks: running out of room in a wait queue, and acquiring a lock one already holds. Progress is not claimed for
  condition variables or for the cat and mouse simulation, whose waiting threads can miss a wakeup.
- Semaphore.Conservation: the count does not overflow, because it is unbounded here.
- Lhd.Transferred: a caller's memory after a fault in the middle of a sector is not described.
- Kheap.Heap.Kfree: says nothing of addresses that are not live, which the code does not detect in general.
- FileRefs: that each call is one step is an assumption. A table's lock does not make it so: tables share the counts,
  and ft_destroy takes no lock.
- KernelHeap: the contents of the frames under the heap's words.
- FileTable: the hole list is a sequence of cells, as the contents of a `LinkedList.List` are; its nodes are not under
  the table.
- Threads: stack checks, address spaces and working directories of threads, thread_killall and shutdown.
- Queue.Queue.Grow: sizes beyond 2^30, where doubling would overflow and the code panics; likewise PtrArray beyond 2^29.
- Printf: field widths beyond 31 bits, and arguments of another type than the conversion takes.
- ExecArgs: the copies of program name and arguments into the kernel, and loading the program.
- Virtual memory beyond the coremap, processes and system calls, emufs, the other drivers, user programs and the rest
  of the C library: they would add easier members or have no clean invariant.
