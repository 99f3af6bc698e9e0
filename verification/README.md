# RedPandaOS in Dafny

A model of the stateful parts of the RedPandaOS kernel, and proofs of what they
promise. `dafny verify dfyconfig.toml` checks all of it.

| part of the kernel | files |
|---|---|
| RPFS, the filesystem (`kernel/fs.c`) | `Drive`, `RpfsLayout`, `RpfsFat`, `RpfsVolume`, `RpfsOps`, `RpfsReadable`, `RpfsFiles`, `RpfsSpace`, `RpfsPlatter`, `RpfsCrash`, `RpfsOverwrite`, `RpfsHalves`, `RpfsRecover`, `RpfsDangling`, `RpfsEndings`, `Rpfs`, `RpfsReboot` |
| kernel heap (`kernel/heap.c`) | `HeapList`, `HeapLaws`, `KernelHeap`, `HeapMemory` |
| frames and paging (`kernel/pmm.c`, `kernel/paging.c`) | `Pmm`, `Paging`, `HeapPages` |
| text editor (`kernel/gui.c`) | `TextGeometry`, `EditorModel`, `EditorLaws`, `EditorMemory`, `TextEditor`, `SaveEnding`, `EditorFiles` |
| window manager (`kernel/gui.c`) | `WindowOrder`, `WindowLaws`, `WindowManager` |
| framebuffer and lines (`kernel/fb.c`) | `Pixels`, `Lines`, `Framebuffer` |

Each part has the same shape. The state the kernel updates in place is a class
whose methods keep the branches and loops of the C functions: the FAT and
directory caches in front of a sector drive, an array of 32-bit words with block
headers inside it, a bitmap of words, page tables in physical memory that are
written through the translation they define, the editor record with its snapshot
arrays, the z-order array, the framebuffer bytes. Every such method is proved
against a function on values, and the properties are lemmas about those
functions, mostly over all inputs, all runs, or all reachable states. `RpfsPlatter`
and the `Laws` modules say in bytes, addresses, coordinates and keys what those
functions compute, without naming their parts.

How the environment enters:

- The drive is an array of 512-byte sectors with a log of the writes that reached
  it. A `reliable` drive never fails; any other drive may fail any command, and a
  failed write may or may not have reached the platter. A crash is any prefix,
  or any selection, of an operation's writes.
- Timer readings and whether the caches or the backbuffer find memory are
  parameters. The editor's runs take the way each save ends as an input;
  `EditorFiles` obtains it from the filesystem. For the editor the kernel heap is
  the map of its live allocations, and `kmalloc` may fail at any call;
  `HeapMemory` proves that the heap behaves as that map.
- 32-bit wrap-around is modelled where the code meets it: `ALIGN8`, the page
  count of `expand`, the region bounds of `pmm_init`, tick differences.

Where a promise is false of the code, the exact condition is proved instead:

- `HeapList.PayloadSufficesIff`: ALIGN8 wraps, and a huge request gets a payload
  of next to nothing.
- `HeapList.MallocSucceedsIff`: frames for the pages alone do not suffice, for a
  page table takes one as well (`TableTakesFrame`).
- `HeapList.WindowIff` and `StaysInWindowIff`: `expand` does not check for the end
  of the address space; a growth past it is mapped from address 0 on
  (`WrappingRequest`, `HeapPages.WrappedPageMoves`).
- `Pmm.OpensExactlyIff`: a region above the cap opens memory it does not contain.
- `Paging.Mapper.Init`: the kernel does not check for exhausted frames and puts
  page tables at address 0; the mapping is right if and only if it does so at
  most once.
- `Rpfs.ErrorLeavesShortChain`: a drive error leaves a file shorter than its size.
- `RpfsOverwrite.OldContentsSurviveIff` and `OverwriteSafeIff`: replacing a file is
  not atomic.
- `RpfsRecover.DeleteStopIff` and `WriteStopIff`: an interrupted operation can
  leave a volume that is safe to read but not consistent, and going on with it
  can free the blocks of another file (`StoppedDeleteFreesOther`).
  `CreateStopIff`: an interrupted creation only loses blocks.
- `RpfsSpace.RunsAgreeIff`: a consistent volume need not act as a bounded map: an
  interrupted replacement can leave a file more blocks than its size needs.
- `EditorModel.UnmodifiedIsSavedIff`: text that is not marked as modified need not
  be what the file holds.

The comment at `kernel/gui.c:836-840` calls only consecutive edits a burst; the
code also lets cursor keys and clicks stand between the edits of one, and
`EditorModel.UndoTakesBackBurst` follows the code.

## Model

| member | source | states |
|---|---|---|
| Drives.ReplayTwoRegions | kernel/fs.c:43-59 | writing two disjoint runs of sectors leaves each run's data in place and every other sector untouched, the fact behind "FAT, then directory" |
| Drives.Drive.Read | kernel/fs.c:193-194 | a read either fails or returns the sector's contents; a reliable drive never fails |
| Drives.Drive.Write | kernel/fs.c:48-49 | an acknowledged write is logged once; a failed one reached the platter once or not at all; the platter is always the initial image with the log applied |
| RpfsLayout.GeometryWellPlaced | kernel/fs.c:63-80 | for every drive size fs_mount accepts (28-bit sector numbers), the superblock, FAT, directory and data regions follow one another without overlap and end within the drive, every data block has a FAT entry, and no sector behind them is left out unless there are 65534 blocks already |
| RpfsLayout.FormatDivides | kernel/fs.c:63-80 | in numbers: superblock at sector 193, FAT from 194 with 16 bits for every sector from 193 on, four directory sectors, then min(rest, 65534) data blocks |
| RpfsLayout.SuperblockRoundTrip | kernel/fs.c:90-104 | the superblock read back from its sector is the one written |
| RpfsLayout.FatEntryRoundTrip | kernel/fs.c:43-51 | a FAT entry read back from its sector is the one flushed |
| RpfsLayout.EntryRoundTrip | kernel/fs.c:53-59 | a 32-byte directory entry survives its byte image |
| RpfsLayout.DirEntryRoundTrip | kernel/fs.c:53-59 | each directory entry lies in exactly one sector and is read back from it as flushed |
| RpfsPlatter.SuperblockBytes | kernel/fs.c:90-92 | the superblock sector begins with the letters RPFS; its nine numbers follow one another in the order of the struct, lowest byte first, and the rest is zero |
| RpfsPlatter.FatBytes | kernel/fs.c:43-51 | sector s of the FAT holds entries 256 s to 256 s + 255, two bytes each, lowest first |
| RpfsPlatter.BlocksInOrder | kernel/fs.c:137-140 | block 1 is the first sector of the data region, and each further block the next one |
| RpfsPlatter.DirBytes | kernel/fs.c:24-31 | entry i lies at byte 32 (i mod 16) of directory sector i / 16: 22 bytes of name, used, flags, size, first block, padding |
| RpfsFat.ChainUnique | kernel/fs.c:150-158 | a well-formed (ascending, in range, end-marked) chain behind an entry is the only one, and following links upward finds it |
| RpfsFat.FreeChain | kernel/fs.c:150-158 | on any in-range FAT, cyclic or cross-linked, the loop ends and frees exactly the blocks reachable from its start |
| RpfsFat.ReachableChain | kernel/fs.c:150-158 | under the chain invariant the reachable blocks are exactly the blocks of that file's chain |
| RpfsFat.AllocBlock | kernel/fs.c:160-166 | the answer is the lowest free block, or 0 when none is free |
| RpfsFat.LinkedShape | kernel/fs.c:234-258 | linking ascending free blocks one by one makes a complete chain and changes no other entry |
| RpfsFat.FreeCountChange | kernel/fs.c:294-303 | freeing or taking a set of blocks changes the free count by exactly its size |
| RpfsFat.LowestFreeShape | kernel/fs.c:160-166 | the blocks a write collects are free, ascending, and as many as asked for or all there are |
| RpfsFat.NextLowest | kernel/fs.c:234-243 | with the first k blocks linked, the next answer of alloc_block is block k of the lowest free ones, and 0 exactly when they run out |
| RpfsVolume.ReplaceKeepsInv | kernel/fs.c:204-292 | replacing one slot and its chain keeps the whole-FAT invariant (complete ascending chains, disjoint, every link in range, names unique; blocks may be lost), gives the slot its new chain and leaves every other chain alone |
| RpfsVolume.WalkIsGather | kernel/fs.c:188-200 | following links as fs_read does collects the blocks of the file's chain in order |
| RpfsVolume.GatherFrame | kernel/fs.c:180-202 | a file's bytes depend on the sectors of its own chain only |
| RpfsVolume.InvIsReadable | kernel/fs.c:180-202 | the invariant implies what fs_read needs of a volume: links and first blocks in range, names that end inside their field |
| RpfsVolume.ReadDeliversContent | kernel/fs.c:180-202 | fs_read returns the recorded size and the prefix of the contents that the buffer holds, the contents being min(size, 512 * chain length) long |
| RpfsOps.WriteKeepsInv | kernel/fs.c:204-263 | fs_write keeps the invariant whether it succeeds or the disk fills, and keeps every file complete (chain length = ceil(size / 512)) |
| RpfsOps.DeleteKeepsInv | kernel/fs.c:265-279 | fs_delete keeps the invariant and completeness |
| RpfsOps.RenameKeepsInv | kernel/fs.c:281-292 | fs_rename keeps the invariant and completeness |
| RpfsOps.RemountIdentity | kernel/fs.c:95-133 | mounting a platter that holds the cached superblock, FAT and directory rebuilds the very same volume |
| RpfsOps.FlushSyncs | kernel/fs.c:260-262 | after both flushes the platter holds the new FAT and directory and nothing else has changed |
| RpfsReadable.ConsistentApart | kernel/fs.c:142-202 | on a consistent volume all other files are like that |
| RpfsReadable.DropKeepsRead | kernel/fs.c:265-279 | the same for fs_delete, for files that share no reachable block with the deleted one |
| RpfsReadable.WriteKeepsRead | kernel/fs.c:204-263 | on any readable volume, whatever part of its new chain fs_write has linked and written: a file that shares no reachable block with the replaced one and reaches no free block reads as before |
| RpfsFiles.WriteKeepsSynced | kernel/fs.c:204-263 | after fs_write caches and platter agree again |
| RpfsFiles.DeleteKeepsSynced | kernel/fs.c:265-279 | after fs_delete caches and platter agree again |
| RpfsFiles.RenameKeepsSynced | kernel/fs.c:281-292 | after fs_rename caches and platter agree again |
| RpfsFiles.NamesAreFound | kernel/fs.c:142-148 | a name is in the map of files exactly when lookup finds it, bound to that slot's contents |
| RpfsFiles.WriteRefines | kernel/fs.c:204-263 | on the map from names to bytes: success binds the name to the data, disk-full leaves exactly that name empty, a bad name or full directory changes nothing |
| RpfsFiles.DeleteRefines | kernel/fs.c:265-279 | fs_delete removes exactly that name; a missing name changes nothing |
| RpfsFiles.RenameRefines | kernel/fs.c:281-292 | fs_rename moves the bytes to the new name, and is refused when the old is missing or the new exists or is invalid |
| RpfsFiles.WriteThenRead | kernel/fs.c:180-263 | after a successful fs_write, fs_read with any maxlen returns len and the first min(maxlen, len) bytes of the data |
| RpfsSpace.CapacityFullIff | kernel/fs.c:294-308 | free blocks and blocks on chains make up the whole data region if and only if no block is lost |
| RpfsSpace.WriteKeepsCapacity | kernel/fs.c:204-263 | fs_write, successful or not, changes nothing about the number of blocks that are free or on chains |
| RpfsSpace.DeleteKeepsCapacity | kernel/fs.c:265-279 | nor does fs_delete |
| RpfsSpace.RenameKeepsCapacity | kernel/fs.c:281-292 | and neither does fs_rename |
| RpfsSpace.WriteSucceedsIff | kernel/fs.c:204-243 | fs_write succeeds if and only if the name is valid, a slot exists, and ceil(len / 512) fits in the free blocks plus those of the replaced file |
| RpfsSpace.WriteTakesLowest | kernel/fs.c:160-166 | the new chain is exactly the smallest blocks free once the old chain is dropped |
| RpfsPlatter.SectorsWritten | kernel/fs.c:225-256 | the k-th block of the new chain holds bytes 512 k to 512 k + 511 of the data, zeros after their end |
| RpfsPlatter.EntryWritten | kernel/fs.c:204-263 | the entry of a written file: its own, or the lowest unused one made new (name padded with zeros, used 1, flags 0); size the length or 0 when the disk is full, first block 0 when the size is; no other entry changes |
| RpfsPlatter.EntryDeleted | kernel/fs.c:265-279 | fs_delete zeroes all 32 bytes of the entry and leaves the others |
| RpfsPlatter.EntryRenamed | kernel/fs.c:281-292 | fs_rename replaces the name field, padded with zeros, and nothing else |
| RpfsPlatter.NamesOfLength | kernel/fs.c:206-207 | an empty name or one of more than 21 bytes is refused without a write |
| RpfsPlatter.NamesAccepted | kernel/fs.c:204-263 | and any other is accepted when an entry and the blocks are there |
| RpfsSpace.MapMeasuresVolume | kernel/fs.c:294-319 | what the files of the map need, what their chains have beyond that, and the free blocks always make up the blocks files can use; the directory is full exactly when the map has 64 names |
| RpfsSpace.WriteMatchesMap | kernel/fs.c:204-263 | on every consistent volume, files cut short by a drive error or a stopped replacement included, fs_write behaves, failures included, as a write to a map bounded in names and in the blocks files can use, if and only if the data is not squeezed out by blocks that other chains have too many |
| RpfsSpace.SurplusDisagrees | kernel/fs.c:204-243 | a chain that is too long makes fs_write refuse under another name what the map grants |
| RpfsSpace.RunsAgreeIff | kernel/fs.c:95-292 | on a consistent volume every run of writes, deletions, renames and remounts acts on the map of files as the bounded map does if and only if no chain is longer than its size needs; shorter ones do no harm |
| RpfsSpace.StepRefines | kernel/fs.c:95-292 | without such chains every write, delete, rename or remount acts on the map of files as the bounded map does, also on a volume that has lost blocks or has files cut short |
| RpfsSpace.RunRefines | kernel/fs.c:95-292 | and so does every run; no run loses a block or finds one, or makes a chain too long |
| RpfsSpace.FormatIsEmpty | kernel/fs.c:63-93 | a formatted volume satisfies the invariant, agrees with its platter, holds no file, and has every sector behind the metadata as a free block, at most 65534; 32442 blocks on the 16 MB image |
| RpfsCrash.RemountMixes | kernel/fs.c:43-59 | after any selection of an operation's sector writes a remount finds, entry by entry, old or new metadata |
| RpfsCrash.MixedIsReadable | kernel/fs.c:180-202 | and such a mixture can be mounted and read: every link and first block in it is in range, though the invariant may be broken |
| RpfsCrash.Isolation | kernel/fs.c:204-292 | whatever such mixture is found, files of other names read back as before |
| RpfsCrash.WriteCrashIsolation | kernel/fs.c:204-263 | stop fs_write after any of its sector writes (or let any subset reach the platter): the volume fs_mount loads is readable, and every other file reads back exactly its old bytes |
| RpfsCrash.DeleteCrashIsolation | kernel/fs.c:265-279 | the same for fs_delete |
| RpfsCrash.DeleteCrashPrefix | kernel/fs.c:265-279 | after an interrupted fs_delete the file itself is gone, or listed with its size and readable as a prefix of its old bytes |
| RpfsCrash.DataPhaseCrash | kernel/fs.c:250-260 | interrupted before its first FAT sector, fs_write leaves the old metadata and the whole invariant on the platter |
| RpfsCrash.RenameAtomic | kernel/fs.c:281-292 | an interrupted fs_rename leaves a consistent volume with all files under the old names or under the new ones |
| RpfsCrash.CreateAtomic | kernel/fs.c:204-263 | stop a successful fs_write of a new name anywhere and remount: the name is absent or reads back exactly as after the complete call |
| RpfsReboot.Reboot | kernel/fs.c:95-133 | a new driver mounts whatever volume with its regions in place the drive holds; everything may be called if the volume is readable, and has its stronger guarantees if it is consistent |
| RpfsReboot.ReadAfterReboot | kernel/fs.c:95-202 | fs_mount, then fs_read: what comes back is what the specification reads from the volume on the platter, -1 for a missing name |
| RpfsReboot.AfterCrashedWrite | kernel/fs.c:95-263 | power lost in fs_write after any selection of its sector writes: fs_mount and fs_read of any other name return what they would have returned before the write |
| RpfsReboot.AfterCrashedDelete | kernel/fs.c:95-279 | the same for power lost in fs_delete |
| RpfsReboot.AfterCrashedDeleteOf | kernel/fs.c:95-279 | and for the name being deleted they return -1, or its old size with a prefix of its old bytes |
| RpfsReboot.AfterCrashedCreate | kernel/fs.c:95-263 | power lost in the fs_write of a new file: they return -1, or exactly what they return after the complete write |
| RpfsHalves.HalfFlushedIff | kernel/fs.c:43-51 | a platter with the new FAT below some entry, the old one above it and the old directory satisfies the invariant if and only if the old entry still leads to a complete chain: it has none, its first block lies above the boundary, or that block is in the new chain too, which ends below the boundary or crosses it into the old one; that is then the chain of the slot, and every other chain is as before |
| RpfsHalves.HalfCapacity | kernel/fs.c:43-51 | and it has lost exactly the blocks of the two half chains that the old entry does not lead to |
| RpfsRecover.FlushedIsSynced | kernel/fs.c:43-59 | wherever the metadata flush stops, what fs_mount loads agrees with the platter |
| RpfsRecover.FlushStopIff | kernel/fs.c:43-59 | the flush of one slot's change stopped after q sectors: the remounted volume is consistent if and only if the slot's directory sector was written or the old entry still leads to a complete chain, and the blocks then lost are counted exactly |
| RpfsRecover.DeleteStopIff | kernel/fs.c:265-279 | fs_delete stopped after k sector writes leaves a consistent volume if and only if the file had no block, its first block's FAT sector was not yet written, or its directory sector was; no block is lost then |
| RpfsRecover.DeleteRecovers | kernel/fs.c:95-292 | after fs_delete is stopped, every later run of writes, deletions, renames and remounts agrees with the bounded map if and only if it was stopped at one of those points; its bound is then unchanged |
| RpfsRecover.WriteStopIff | kernel/fs.c:204-263 | fs_write stopped anywhere leaves a consistent volume if and only if the slot's directory sector was written or the old entry still leads to a complete chain; the blocks lost are counted exactly |
| RpfsRecover.WriteRecovers | kernel/fs.c:95-292 | every later run agrees with the bounded map, less the blocks that were lost, if and only if the directory sector was written or the old entry leads to a complete chain that is no longer than the old size needs; a shorter one, which cuts the old file short, does no harm |
| RpfsRecover.FlushStopRecovers | kernel/fs.c:43-59 | the fact behind both: for any replacement of a slot, the stops of its flush after which every run agrees with the map, in both directions |
| RpfsRecover.HalfDangles | kernel/fs.c:43-59 | after any stop that leaves the volume inconsistent, the old entry leads to a block that is free, and nothing else is wrong |
| RpfsRecover.CreateStopIff | kernel/fs.c:204-263 | creating a file, stopped anywhere, leaves a consistent volume; until the directory sector is written exactly the new blocks whose FAT sectors were written are lost, so that none is if and only if there is no such block |
| RpfsRecover.CreateRecovers | kernel/fs.c:95-292 | so after every stop of a creation later runs agree with the bounded map |
| RpfsDangling.DanglingShared | kernel/fs.c:160-263 | on such a volume any other file written that is long enough to reach the free block shares its blocks from there on with the first |
| RpfsDangling.DanglingRun | kernel/fs.c:204-279 | writing such a file and then deleting the first frees blocks of the second |
| RpfsDangling.DanglingDisagrees | kernel/fs.c:160-263 | so on every such volume some run does not act as the bounded map does: a write to one file changes the bytes of another, or is refused where the map grants it |
| RpfsRecover.StoppedDeleteFreesOther | kernel/fs.c:204-279 | after every stop of fs_delete that leaves the volume inconsistent, a file written then that reaches the old file's first block loses that block and the rest when the deletion is repeated, being still listed; and there always is such a file |
| RpfsOverwrite.StoppedIsRemounted | kernel/fs.c:250-260 | replacing a file, stopped during its data sectors: a remount finds the old metadata over a changed platter |
| RpfsOverwrite.OldContentsSurviveIff | kernel/fs.c:226-258 | then the old contents read back, with any buffer, if and only if every block of the old file written so far was given the bytes it already had, as far as the size reaches |
| RpfsOverwrite.OverwriteSafeIff | kernel/fs.c:226-258 | seen before the call: every interruption of every replacement by len bytes, during its data sectors, keeps the old contents if and only if the lowest free blocks it will take are none of the blocks that hold the old file's bytes |
| RpfsOverwrite.ReadsOwnBlocks | kernel/fs.c:204-263 | fs_write cut short anywhere, metadata sectors included: what is read under its name has the old or the new size and consists of blocks of the old and the new chain only |
| RpfsOverwrite.BlockOldOrNew | kernel/fs.c:250-254 | and each of those blocks holds its old bytes or one block of the new data |
| Rpfs.LinkingKeepsInv | kernel/fs.c:234-258 | the caches satisfy the whole invariant after every turn of the block loop of fs_write |
| Rpfs.ErrorLeavesShortChain | kernel/fs.c:253-254 | a drive error in the block loop leaves size = len over a shorter chain; every file is still complete if and only if the failing write was that of the last block, and no chain is too long |
| Rpfs.StoppedByError | kernel/fs.c:253-254 | after such an error the invariant holds and every other file keeps its bytes |
| SaveEnding.KeepsIff | kernel/fs.c:204-263 | of the endings of fs_write that are no refusal, exactly success, a failed flush and a failing last block that holds its bytes leave the data in the file |
| Rpfs.CutFile | kernel/fs.c:253-254 | after an error at a data block the file reads as the data before that block followed by what the block holds |
| Rpfs.FinishedFile | kernel/fs.c:234-263 | with the block loop over, the file reads as the data, or as empty after a roll-back, whether or not the flush succeeds |
| Rpfs.FileSystem.FindSlot | kernel/fs.c:142-148 | the loop returns the first used slot with that name, or none |
| Rpfs.FileSystem.DropChain | kernel/fs.c:150-158 | what can be reached from the first block becomes free, on any table with links in range |
| Rpfs.FileSystem.FlushFat | kernel/fs.c:43-51 | the FAT sectors are written in order up to the one of the last entry, stopping at the first error |
| Rpfs.FileSystem.FlushDir | kernel/fs.c:53-59 | the four directory sectors are written in order, stopping at the first error |
| Rpfs.FileSystem.LinkBlocks | kernel/fs.c:234-258 | the block loop links and writes the lowest free blocks in order, and its three endings (complete, disk full, drive error) are told apart exactly |
| Rpfs.FileSystem.WriteFile | kernel/fs.c:204-263 | fs_write on the caches and a drive that may fail, on any volume that can be read, consistent or not: on success or a reliable drive the outcome, metadata, platter and sequence of sector writes are the specified ones; always the volume can still be read, only planned sectors are written, files whose blocks are neither dropped nor free read as before, and what the file itself reads as is stated for each of the five ways the call can end; on a consistent volume the invariant stays and all other files keep their bytes |
| Rpfs.FileSystem.ReadChain | kernel/fs.c:188-200 | the copying loop delivers the bytes along the links, never more than asked for, also on caches an interrupted operation left; an error leaves a first part of them |
| Rpfs.FileSystem.ReadFile | kernel/fs.c:180-202 | fs_read on any caches with links in range, consistent or not: it returns what the specification reads, -1 for a missing file or an unmounted volume, and fails otherwise only on an unreliable drive; what a failing call has copied is a prefix |
| Rpfs.FileSystem.FreeBytes | kernel/fs.c:294-308 | free bytes are 512 times the free blocks; on a consistent volume they account, with the blocks on chains, for the data region if and only if no block is lost |
| Rpfs.FileSystem.RollBack | kernel/fs.c:236-242 | a full disk frees the partial chain and leaves an empty file |
| Rpfs.FileSystem.DeleteFile | kernel/fs.c:265-279 | fs_delete on any volume that can be read: exactly the blocks reachable from the entry become free, files that reach none of them read as before, and on a consistent volume the invariant stays and all other files keep their bytes |
| Rpfs.FileSystem.RenameFile | kernel/fs.c:281-292 | fs_rename on any volume that can be read: all other names read as before; on a consistent one the invariant stays |
| Rpfs.FileSystem.Format | kernel/fs.c:63-93 | fs_format turns any drive into the formatted volume with its metadata on the platter; the data blocks end with the drive or number 65534 |
| Rpfs.FormattedIff | kernel/fs.c:95-106 | fs_mount takes a drive as formatted exactly when it has more than 209 sectors and sector 193 begins with RPFS and version 1 |
| Rpfs.FileSystem.Mount | kernel/fs.c:95-133 | fs_mount loads the volume the platter holds, consistent or not, changing nothing on it, or formats an unformatted one; on a reliable, large enough drive with memory for the caches it succeeds |
| HeapList.CoalescedShape | kernel/heap.c:26-36 | merging keeps the tiling and the blocks in use and leaves no two adjacent free blocks |
| HeapList.TakenLive | kernel/heap.c:90-100 | giving out a block adds exactly it to the blocks in use |
| HeapList.ReleasedShape | kernel/heap.c:108-115 | releasing a block keeps the invariant and removes exactly that block from those in use |
| HeapList.ReleaseUndoesTake | kernel/heap.c:79-115 | freeing a block just given out restores the previous block list exactly |
| HeapList.WordsConserved | kernel/heap.c:117-129 | headers, free payloads and payloads in use add up to everything mapped |
| HeapList.MallocOk | kernel/heap.c:79-106 | kmalloc keeps the invariant, however many frames the machine has, unless this request grows the heap past the end of the address space; success adds one fitting block to those in use, failure adds none and can only have grown free space |
| HeapLaws.RequestRounded | kernel/heap.c:6-6 | requests are rounded up to the next multiple of 8 |
| HeapLaws.ServedFromLowest | kernel/heap.c:83-101 | a request rounded to 8 gets the lowest free block that is large enough; 20 bytes or more left over become a free block behind a header of 12, otherwise the whole block is given |
| HeapLaws.RefusedTakesAll | kernel/heap.c:38-106 | kmalloc refuses a request only after the last frame has gone into the heap, as long as its page count does not wrap |
| HeapLaws.WrappedRefusal | kernel/heap.c:41-43 | one whose page count wraps is refused with frames left, the heap grown twice by four pages |
| HeapLaws.PagesNeeded | kernel/heap.c:41-43 | the pages asked for are the fewest with room for request and header, at least four, but four when the sum wraps |
| HeapLaws.FirstExpansion | kernel/heap.c:74-77 | heap_init leaves one free block in 16 KB and has taken five frames |
| HeapList.StaysInWindowIff | kernel/heap.c:79-106 | the growth a request can cause, known before the call from the frames and tables, stays inside the address space if and only if what it leaves mapped does |
| HeapLaws.StaysInAddresses | kernel/heap.c:38-72 | in addresses: what is mapped from 0xD0000000 on then ends at or before 2^32 |
| HeapList.WindowIff | kernel/heap.c:50-50 | every page of a growth is mapped at or above the start of the heap if and only if the bytes mapped before, with 4096 for each page, are at most 2^32 - 0xD0000000; otherwise one of them is mapped at address 0 |
| HeapList.WrappingRequest | kernel/heap.c:45-72 | the request that does: 768 MB from a 16 KB heap with 1 GB of frames maps its page 196604 at address 0 and is granted a block that ends past 2^32 |
| HeapList.PayloadSufficesIff | kernel/heap.c:6-6 | the payload is as large as requested if and only if the size is at most 2^32 - 8, where ALIGN8 does not wrap (again unless the growth passes the end of the address space) |
| HeapList.WrappedRequest | kernel/heap.c:83-87 | a request of 2^32 - 7 bytes is granted with next to nothing behind it |
| HeapList.PayloadAlignment | kernel/heap.c:9-15 | payloads are 4-byte aligned; the very first one is not 8-byte aligned |
| HeapList.GrownAccounts | kernel/heap.c:45-52 | every frame that leaves the allocator is behind a new page or is a new page table; only the last table of all can have done without one |
| HeapList.GrownIff | kernel/heap.c:45-52 | expand maps all its pages if and only if there is a frame for each and for every missing page table but one that only the last page needs |
| HeapList.MallocSucceedsIff | kernel/heap.c:79-106 | kmalloc succeeds if and only if some free block is large enough, or the pages the frames suffice for, with free space at the end of the heap, are |
| HeapList.MallocSucceeds | kernel/heap.c:39-106 | with a frame for each of its pages and for the page tables they need (but one that only the last page needs) a request succeeds, unless the page count wraps |
| HeapList.TableTakesFrame | kernel/paging.c:24-30 | frames for the pages alone do not suffice: an empty heap with four frames left refuses 16000 bytes |
| HeapList.FreeUndoesMalloc | kernel/heap.c:79-115 | kfree(kmalloc(n)) served without expansion restores the heap exactly |
| HeapList.FreeAllLeavesOne | kernel/heap.c:108-115 | freeing all blocks in use, in any order, leaves one free block of mapped - 12 bytes |
| KernelHeap.PayloadsDisjoint | kernel/heap.c:20-23 | payloads in use never overlap |
| KernelHeap.NotInPayload | kernel/heap.c:26-72 | headers and the inside of free blocks lie outside every payload in use |
| KernelHeap.SplitStored | kernel/heap.c:90-98 | the six header words a split stores make memory represent the split list |
| KernelHeap.AbsorbStored | kernel/heap.c:29-31 | the two words a merge stores make memory represent the merged list |
| KernelHeap.AppendStored | kernel/heap.c:56-69 | the words expand stores make memory represent the longer list |
| KernelHeap.KernelHeap.Coalesce | kernel/heap.c:26-36 | on the words of memory: the list becomes the coalesced one and no word of a payload in use changes |
| KernelHeap.KernelHeap.GiveOut | kernel/heap.c:90-100 | splitting or giving out whole, no word of a payload in use changes |
| KernelHeap.KernelHeap.Scan | kernel/heap.c:86-88 | the scan over the links finds the first free block that fits, or none |
| KernelHeap.KernelHeap.Kfree | kernel/heap.c:108-115 | kfree releases and merges without touching a payload still in use; kfree(0) does nothing |
| KernelHeap.KernelHeap.MapPages | kernel/heap.c:45-52 | the loop maps the specified number of pages and takes the specified frames and tables |
| KernelHeap.KernelHeap.Expand | kernel/heap.c:39-72 | the heap grows by the pages the frames allow, page tables included, as one free block merged with a free tail; fails exactly when no frame is left |
| KernelHeap.KernelHeap.Kmalloc | kernel/heap.c:79-106 | the heap afterwards and the pointer are those of the list specification, and every payload in use keeps its words, for every request whose growth stays inside the address space |
| KernelHeap.KernelHeap.UsedBytes | kernel/heap.c:122-129 | used bytes, free payloads and 12 bytes a block add up to everything mapped |
| HeapMemory.BytesApart | kernel/heap.c:20-23 | no two allocations share an address |
| HeapMemory.Allocate | kernel/heap.c:79-106 | seen as the map from pointers to bytes that the editor works with, kmalloc adds one entry under a new pointer, of the size asked for, or changes nothing; it changes no byte of the others |
| HeapMemory.Put | kernel/gui.c:1000-1000 | a byte stored inside an allocation changes no other byte of any allocation and leaves the block list in order |
| HeapMemory.Release | kernel/heap.c:108-115 | kfree takes that allocation away and leaves the bytes of every other as they were |
| Pmm.LowestClear | kernel/pmm.c:80-88 | the bit loop finds the lowest clear bit of a word, or none |
| Pmm.StoredBit | kernel/pmm.c:16-24 | storing a word that differs in one bit changes the state of one frame only |
| Pmm.LowestInWord | kernel/pmm.c:77-88 | the lowest clear bit of the first word that is not full is the lowest free frame |
| Pmm.OpensExactlyIff | kernel/pmm.c:40-55 | a considered region opens exactly the frames wholly inside it below the cap if and only if: its base is at most 0xFFFFF000 and its end does not wrap on 64 bits, or its base is above 0xFFFFE000 and at most 0xFFFFF000, where no whole frame is at stake, or its base is higher still but its end wraps to below 4096, so that nothing is opened |
| Pmm.OpensIff | kernel/pmm.c:39-53 | in addresses, where nothing wraps: frame f is opened exactly if the region is of type 1, 4096 f to 4096 f + 4095 lie inside it, and f is not the last frame of the address space |
| Pmm.DisturbedRegion | kernel/pmm.c:45-51 | a region based above 0xFFFFF000 rounds up past 2^32: it contains no frame and opens every frame below the cap |
| Pmm.OpenedIsContained | kernel/pmm.c:36-60 | on a map none of whose considered regions is so disturbed, a frame is opened if and only if it lies wholly inside some usable region |
| Pmm.FrameAllocator.constructor | kernel/pmm.c:33-34 | everything starts reserved |
| Pmm.FrameAllocator.Alloc | kernel/pmm.c:72-97 | the lowest free frame whenever there is one, 0 otherwise; only that frame changes, and the rescan branch is unreachable |
| Pmm.FrameAllocator.Free | kernel/pmm.c:99-108 | the frame becomes free, no other changes, a double free changes nothing, and the hint stays below every free frame |
| Pmm.FrameAllocator.Init | kernel/pmm.c:31-70 | a frame is free if and only if it is above the first megabyte and some region opens it, however regions overlap, which without wrap-around means lies wholly inside one; the free count is exact and usable_frames has counted every opened frame once |
| Paging.StoreElsewhere | kernel/paging.c:27-33 | a store outside the page tables leaves every translation alone |
| Paging.StoreEntry | kernel/paging.c:32-32 | a store into a page table changes exactly the page it governs, in every directory slot that uses the table |
| Paging.EnterTable | kernel/paging.c:27-29 | entering a cleared table leaves every translation alone and keeps tables in distinct frames |
| Paging.BorrowTable | kernel/paging.c:27-29 | with no frame left the table goes to address 0: its slot is entered empty, and every slot that had been given address 0 before loses its pages |
| Paging.SharedTable | kernel/paging.c:27-32 | two slots with their tables at address 0 translate alike, so that a page mapped in one spoils an identity mapping of both |
| Paging.WantedSlotsAre | kernel/paging.c:42-64 | the directory slots counted for paging_init are exactly those of the pages it is to map |
| Paging.OpenedIsTouched | kernel/paging.c:47-57 | every frame pmm_init opens is a page paging_init maps |
| Paging.FreeIsWanted | kernel/paging.c:47-57 | so what pmm_init frees is reachable, on a map whose usable regions start below the cap |
| Paging.WantedIff | kernel/paging.c:42-64 | in addresses: the pages paging_init maps are the first 256, those that usable regions starting below 2^32 reach (the last page of the address space never), and those of the framebuffer |
| Paging.Mapper.Store | kernel/paging.c:24-32 | with paging on, a store lands on the frame its page translates to |
| Paging.Mapper.ClearFrame | kernel/paging.c:28-28 | clearing a frame zeroes exactly its words, through the mapping once paging is on |
| Paging.Mapper.NewTable | kernel/paging.c:24-29 | a new table takes the lowest free frame, is cleared, and moves no page; with no frame left it is put at address 0, and the slots already using that lose their pages |
| Paging.Mapper.Map | kernel/paging.c:16-34 | page v goes to frame p in every slot using the same table, and with no more than one table at address 0 no other page moves; only page tables are written; the exact outcome is stated also for exhausted frames, where the code goes on |
| Paging.Mapper.IdentityRange | kernel/paging.c:36-40 | maps to themselves exactly the pages with a byte from the rounded start to the end, as long as no second table went to address 0, and enters exactly their directory slots |
| Paging.Mapper.Init | kernel/paging.c:42-73 | for every memory map with 64-bit regions: the first megabyte, the pages of usable regions and the framebuffer are identity-mapped and nothing else is mapped if and only if the directory slots of those pages are no more than the free frames plus one; then every table, and every free frame that is one of those pages, is reachable at its own address |
| Paging.Mapper.MapHeapPage | kernel/heap.c:46-52 | growing the heap by a page changes that page only and keeps every free frame and table reachable, takes one frame or, for a missing table, two, and works down to the last frame |
| HeapPages.GrowWindow | kernel/heap.c:45-52 | expand's loop through the page tables: it maps as many pages, and takes as many frames and the very page tables, as the heap's own account says; each new page lies behind a free frame of its own, and every other page of the address space, the heap's earlier ones included, stays where it was |
| HeapPages.WrappedPageMoves | kernel/heap.c:50-50 | a growth past the end of the address space moves page 0 off frame 0 |
| TextGeometry.OffsetToPlace | kernel/gui.c:865-897 | every offset has a valid (line, column) and ed_line_start + column leads back to it |
| TextGeometry.PlaceToOffset | kernel/gui.c:865-897 | every valid (line, column) has an offset 0..len whose line and column they are: with the previous row, a bijection |
| TextGeometry.WalkEnds | kernel/gui.c:1017-1027 | after any sequence of up and down keys the cursor is the place nearest the preferred column on the line reached, steps past an edge being ignored |
| TextGeometry.WalkReturns | kernel/gui.c:1017-1027 | as many steps up as down, none refused at an edge, return the cursor exactly |
| TextGeometry.LineCol | kernel/gui.c:865-878 | the loop computes the newlines before the position and the distance past the last one |
| TextGeometry.FindLineStart | kernel/gui.c:880-889 | the loop finds the start of the line, or the end of the text |
| TextGeometry.FindLineLen | kernel/gui.c:891-897 | the loop measures up to the next newline or the end |
| TextGeometry.CountLines | kernel/gui.c:899-906 | one more than the newlines |
| EditorLaws.LineIsCount | kernel/gui.c:865-878 | the line of a position is the number of bytes 10 before it |
| EditorLaws.ColIsDistance | kernel/gui.c:865-878 | its column the distance to the last of them, or to the start |
| EditorLaws.WidthIsDistance | kernel/gui.c:880-897 | a line ends at the next byte 10, or at the end |
| EditorModel.StepKeepsInv | kernel/gui.c:916-1199 | every key, click, edit, undo, redo and save keeps cursor <= len <= cap, column = min(prefcol, line length), at most 24 snapshots in all, and sound snapshots |
| EditorModel.UndoMovesBack | kernel/gui.c:965-971 | ed_undo moves one place back along an unchanged timeline; the redo stack never evicts |
| EditorModel.RedoMovesForward | kernel/gui.c:973-979 | ed_redo moves one place forward along the same timeline |
| EditorModel.KeysWalkTimeline | kernel/gui.c:965-979 | after any sequence of undo and redo keys the editor shows the snapshot at the place the keys walked to |
| EditorModel.KeysReturn | kernel/gui.c:965-979 | keys of zero net displacement that never find a stack empty restore text, cursor and both stacks |
| EditorModel.UndosThenRedosReturn | kernel/gui.c:965-979 | k undos then k redos restore text, cursor and both stacks |
| EditorModel.UndoTakesBackBurst | kernel/gui.c:952-971 | one undo after a coalesced burst restores text and cursor from before its first edit, and leaves only the burst to redo |
| EditorModel.LostSnapshot | kernel/gui.c:925-927 | when the snapshot finds no memory, undo skips to the state before an older edit |
| EditorModel.TypingInserts | kernel/gui.c:983-1004 | typing a string inserts it whole at the cursor, whatever became of the snapshots and however often the buffer grew |
| EditorModel.ClickLands | kernel/gui.c:1182-1198 | a click puts the caret on the clicked line and column, or on the nearest the text has |
| EditorModel.HomeAndEndLand | kernel/gui.c:1128-1145 | Home and End stay on the line and go to its first and last column |
| EditorModel.BackspaceUndoesTyping | kernel/gui.c:983-1015 | deleting before the cursor takes back a typed byte |
| EditorLaws.InsertionShows | kernel/gui.c:983-1004 | an insertion puts the byte at the cursor, moves everything behind it one on, sets mark and column and clears the redo stack; a text of 32768 bytes stays, and without memory for a larger buffer only text and cursor do |
| EditorLaws.DeletionShows | kernel/gui.c:1006-1015 | a deletion at any position of the text: one byte shorter, byte k the old byte k before it and the old byte k + 1 from it on, the cursor there; any other position changes nothing |
| EditorLaws.DeletionUndone | kernel/gui.c:952-971 | undo gives text and cursor back when the deletion joined no other |
| EditorLaws.DeletionAfterInsertion | kernel/gui.c:952-971 | a deletion right after an insertion is undone alone, however soon it comes |
| EditorLaws.InsertionAfterDeletion | kernel/gui.c:952-971 | and so is an insertion right after a deletion |
| EditorLaws.InsertionsTogetherIff | kernel/gui.c:952-971 | two insertions, the first of which opened a step, are undone together if and only if less than 150 ticks lie between them, modulo 2^32 |
| EditorLaws.DeletionsTogetherIff | kernel/gui.c:952-971 | and so are two deletions |
| EditorLaws.EditAfterUndo | kernel/gui.c:939-971 | the first edit after an undo or redo that did something is undone alone |
| EditorLaws.StepBackLeaves | kernel/gui.c:939-979 | undo and redo take the top snapshot of one stack, put the state left on the other, set the mark, and leave no burst open |
| EditorLaws.OldestForgotten | kernel/gui.c:922-937 | a stack keeps the newest 24 snapshots in order; a failed allocation changes nothing |
| EditorLaws.ArrowsLeftRight | kernel/gui.c:1112-1121 | the arrow keys move the cursor one place, not past the ends, and nothing else but the column |
| EditorLaws.ArrowUp | kernel/gui.c:1017-1027 | Up goes to the line above, as near to the preferred column as it allows; on the first line it does nothing |
| EditorLaws.ArrowDown | kernel/gui.c:1017-1027 | Down likewise to the line below |
| EditorLaws.HomeAndEnd | kernel/gui.c:1128-1143 | the Home and End keys go to the first and last column of the line |
| EditorLaws.DeleteKey | kernel/gui.c:1144-1146 | Delete removes the byte under the cursor |
| EditorLaws.BackspaceKey | kernel/gui.c:1147-1150 | Backspace the one before it |
| EditorLaws.TypingKeys | kernel/gui.c:1151-1170 | printable keys and Return insert themselves, Tab four spaces |
| EditorLaws.ControlKeys | kernel/gui.c:1158-1170 | Ctrl+S saves, Ctrl+Z undoes, Ctrl+Y redoes, and any other key does nothing |
| EditorModel.UnmodifiedIsSavedIff | kernel/gui.c:1096-1103 | over every run, text not marked as modified is what the running driver reads from the file if and only if the last save that was not refused kept it: a failed save does not set the mark, although it may have emptied or cut the file |
| EditorModel.NoFailedSave | kernel/gui.c:1096-1103 | so with no failed save the mark never lies |
| EditorModel.FailedSaveLies | kernel/gui.c:1096-1103 | and it lies after the drive fails at the first block of an unmodified text of more than 512 bytes |
| EditorMemory.OwnedCount | kernel/gui.c:916-938 | the editor's live buffer, record and snapshots are 2 + undo_n + redo_n distinct live allocations |
| EditorMemory.HeldRestore | kernel/gui.c:940-945 | swapping a snapshot in for the live buffer keeps ownership exact and frees one block |
| EditorMemory.HeldDrop | kernel/gui.c:929-933 | forgetting the oldest snapshot frees exactly its block |
| EditorMemory.HeldWrite | kernel/gui.c:998-1011 | writing the live buffer changes no snapshot |
| TextEditor.EditorWindow.ClearStack | kernel/gui.c:916-921 | every snapshot of the stack is freed once, nothing else changes |
| TextEditor.EditorWindow.PushState | kernel/gui.c:923-938 | the stack becomes the specified one for either outcome of kmalloc, the other stack and all other memory unchanged |
| TextEditor.EditorWindow.Restore | kernel/gui.c:940-950 | the snapshot's text, length, cursor and column become the live ones |
| TextEditor.EditorWindow.BeforeEdit | kernel/gui.c:952-963 | a snapshot unless the edit coalesces (same kind, within 150 ticks modulo 2^32, undo stack not empty); redo is emptied |
| TextEditor.EditorWindow.Undo | kernel/gui.c:965-971 | the specified undo for either outcome of kmalloc; no allocation leaks or is freed twice |
| TextEditor.EditorWindow.Redo | kernel/gui.c:973-979 | the specified redo, with the same ownership guarantee |
| TextEditor.EditorWindow.Insert | kernel/gui.c:983-1004 | the byte is inserted at the cursor, the buffer growing when full; a refused or failed insertion leaves text and cursor alone |
| TextEditor.EditorWindow.DeleteAt | kernel/gui.c:1006-1015 | exactly that byte goes and the cursor stands in its place; positions outside the text change nothing |
| TextEditor.EditorWindow.UpDown | kernel/gui.c:1017-1027 | the loops compute the specified vertical move and keep the preferred column |
| TextEditor.EditorWindow.Click | kernel/gui.c:1182-1198 | the caret goes to the clicked line and column, both clipped to the text |
| TextEditor.EditorWindow.Save | kernel/gui.c:1096-1103 | the mark is cleared exactly when the write returned 0, whatever became of the file |
| TextEditor.EditorWindow.Key | kernel/gui.c:1105-1173 | a key runs the actions it stands for (four insertions for a tab), and all memory that is not the editor's stays as it was |
| TextEditor.EditorWindow.Open | kernel/gui.c:1224-1268 | a fresh editor, its text of the size it was told and beginning with the bytes that were copied, all that is certain since the second fs_read's result is ignored; or, when memory or a window is missing, no editor and no memory lost |
| TextEditor.EditorWindow.Close | kernel/gui.c:1201-1211 | every allocation of the editor is freed exactly once and nothing else is |
| EditorFiles.SaveToDisk | kernel/gui.c:1096-1103 | saving through fs_write, to any volume that can be read: however it ends, file and mark change as the model of runs says, and the file then holds the text exactly if the ending keeps it |
| EditorFiles.OpenFromDisk | kernel/gui.c:1224-1268 | opening through fs_read: the text has the size fs_read told, as a signed number, and begins with the bytes read; on a reliable drive it is the file if and only if the file's blocks hold as many bytes as its size |
| WindowOrder.StepKeepsInv | kernel/gui.c:422-514 | every open, restore and press keeps the order a duplicate-free listing of exactly the used windows and the focus on the topmost visible one |
| WindowOrder.FocusMeaning | kernel/gui.c:435-444 | no window has the focus exactly when none is visible; otherwise its owner is visible with nothing visible above it |
| WindowLaws.PressCloses | kernel/gui.c:1743-1757 | a press within 7 pixels of (x + 20, y + 15) of the topmost window under it leaves that window unused and out of the order, the others as they were |
| WindowLaws.PressHides | kernel/gui.c:1758-1763 | one within 7 pixels of (x + 40, y + 15) leaves it used, in its place in the order, and not visible |
| WindowLaws.PressRaises | kernel/gui.c:1743-1776 | any other press inside it leaves it visible, last in the order and focused |
| WindowLaws.PressMisses | kernel/gui.c:1743-1750 | a press that hits no window changes nothing |
| WindowLaws.ButtonShows | kernel/gui.c:1731-1735 | the taskbar button leaves its window visible, last in the order and focused |
| WindowLaws.NewWindowShows | kernel/gui.c:463-489 | a new window takes the lowest unused slot, is visible, last in the order and focused; with eight in use nothing changes |
| WindowOrder.RelativeOrderKept | kernel/gui.c:422-461 | windows a step neither touches nor closes keep their relative order |
| WindowOrder.OrderIsRecency | kernel/gui.c:422-489 | after any run from an empty desk the z-order is the order in which the windows last came to the top |
| WindowOrder.CloseUndoesOpen | kernel/gui.c:446-489 | closing the window just opened restores order, flags and focus |
| WindowOrder.OrderHasRoom | kernel/gui.c:484-484 | the order never overflows its eight entries |
| WindowManager.WindowTable.Raise | kernel/gui.c:422-433 | the shifting loop moves the window to the top and keeps the others in order |
| WindowManager.WindowTable.FocusTopmost | kernel/gui.c:435-444 | the loop finds the topmost visible window, or none |
| WindowManager.WindowTable.Close | kernel/gui.c:446-461 | the window leaves the order and the focus moves only if it had it |
| WindowManager.WindowTable.Add | kernel/gui.c:463-489 | the lowest unused slot is opened on top; with all eight in use nothing changes |
| WindowManager.WindowTable.Show | kernel/gui.c:499-503 | the window becomes visible, topmost and focused |
| WindowManager.WindowTable.Minimise | kernel/gui.c:1759-1763 | the window disappears and the focus falls to the topmost remaining one |
| WindowManager.WindowTable.Press | kernel/gui.c:1741-1776 | the topmost visible window under the pointer is closed, minimised or raised, by the part of it that was hit |
| Pixels.OffApart | kernel/fb.c:93-93 | different pixels share no byte of the framebuffer |
| Pixels.Mix | kernel/fb.c:55-57 | a blended channel c is the weighted mean rounded down, 255 c <= s a + bg (255 - a) < 255 c + 255 at every alpha, and lies between sprite and background |
| Pixels.StorePixel | kernel/fb.c:89-99 | one pixel takes the colour and no other pixel changes |
| Pixels.CopyRow | kernel/fb.c:276-279 | exactly the pixels of the stretch are copied |
| Lines.LineEnds | kernel/fb.c:136-153 | the first and last point are the endpoints |
| Lines.LineError | kernel/fb.c:139-152 | after i steps in x and j in y, abs(j dx - i dy) <= max(dx, dy) / 2 |
| Lines.LineConnected | kernel/fb.c:145-152 | consecutive points are neighbours |
| Lines.LineNeverRepeats | kernel/fb.c:145-152 | no point is drawn twice |
| Lines.RoundIs | kernel/fb.c:149-151 | the error bound singles out one integer, so each point is the nearest to the ideal line, ties rounded back |
| Lines.TracksNext | kernel/fb.c:149-151 | one round of the loop, in every octant, keeps the running error within its half-open bound |
| Framebuffer.BlendEnds | kernel/fb.c:44-58 | the code's transparent and opaque shortcuts are what blending gives |
| Framebuffer.BytesMake | kernel/fb.c:41-47 | the four bytes taken from a sprite value make it up |
| Framebuffer.BlendIs | kernel/fb.c:41-59 | and each channel of a sprite value over a background is that mean, weighted by the top byte |
| Framebuffer.Screen.CleanBytes | kernel/fb.c:24-64 | on a screen with nothing dirty, as Flip leaves it, each byte of a pixel under the sprite is the mean of the sprite's and the backbuffer's byte, and every other the backbuffer's |
| Framebuffer.Screen.DrawnBytes | kernel/fb.c:89-99 | a pixel drawn in a colour has its low byte first: blue, green, red |
| Framebuffer.Screen.constructor | kernel/fb.c:66-75 | the screen starts with nothing to repaint |
| Framebuffer.Screen.EnableBackbuffer | kernel/fb.c:77-84 | switching to a backbuffer, or failing to, leaves nothing to repaint |
| Framebuffer.Screen.PutPixel | kernel/fb.c:89-99 | clipped drawing changes that position of the picture only, and only it can become dirty |
| Framebuffer.Screen.FillRect | kernel/fb.c:101-126 | the clipped rectangle takes the colour, nothing else changes, and only it can become dirty |
| Framebuffer.Screen.Line | kernel/fb.c:136-153 | the loop plots exactly the max(dx, dy) + 1 points of the line, in order, and the doubled error term fits an int, for every line of at most 2^31 / 3 points |
| Framebuffer.Screen.CompositeCursor | kernel/fb.c:24-64 | inside the freshly copied rectangle the screen becomes the full recomposite, for every cursor position, clipping and alpha; outside nothing changes |
| Framebuffer.Screen.Flip | kernel/fb.c:257-263 | afterwards no pixel differs from a full recomposite |
| Framebuffer.Screen.FlipRect | kernel/fb.c:265-281 | the set of wrong pixels becomes itself less the rectangle, and pixels outside it keep their value |
| Framebuffer.Screen.CursorShow | kernel/fb.c:293-297 | showing or hiding the cursor makes no pixel wrong and cleans the sprite's place |
| Framebuffer.Screen.CursorMove | kernel/fb.c:299-308 | moving the cursor anywhere, off-screen included, makes no pixel wrong and cleans the old and the new place |

## Left out

- The ATA driver, port I/O, interrupts, and torn sectors: a sector write is atomic, and every mention of a drive is the abstract one.
- Rpfs.FileSystem.Mount: trusts a superblock that carries the magic, as the code does; the regions it names are assumed to be in place. The table it loads is not assumed consistent.
- Rpfs.FileSystem.WriteFile: its isolation of other files on an inconsistent volume is stated for files that reach no free block; those that do share it with whoever takes it (`RpfsDangling.DanglingShared`).
- RpfsRecover.WriteStopIff: is about prefixes of the sector writes, in the order the code issues them; the isolation results are about any selection of them. In the map of files a file cut short stands with the bytes that can be read; the size fs_read reports is still the recorded one (`RpfsVolume.ReadDeliversContent`).
- fs_dir_get and fs_file_count: they only copy fields of the directory.
- HeapList.MallocOk and PayloadSufficesIff: are stated for requests whose growth stays in the address space, which `StaysInWindowIff` decides before the call.
- KernelHeap.KernelHeap.Expand and Kmalloc: are stated for growth that does not pass the end of the address space (`InWindow`, `StaysInWindow`), on a machine of any size; for growth that does, `WindowIff`, `WrappingRequest` and `WrappedPageMoves` show what happens, and the memory it overwrites is not modelled.
- KernelHeap.KernelHeap.MapPages: frames are a counter and page tables the set of 4 MB slots that have one; `HeapPages.GrowWindow` proves that the page tables give and take the same. The window itself is plain memory in `KernelHeap`.
- HeapMemory.Allocate: for sizes up to 2^32 - 8, above which `HeapList.PayloadSufficesIff` says that the payload is too small, and for growth that stays in the address space.
- KernelHeap.KernelHeap.Kfree: is stated for a payload in use or 0; the code does not check other pointers.
- Paging.Mapper.Map: once paging is on, is stated as long as no page table is at address 0; the kernel maps nothing afterwards, because the frames are then used up and `pmm_free_frame` is never called.
- Paging.Mapper.Init: asks for a framebuffer that ends below the cap of 0xFFFFF000; CR3, CR0 and the TLB are not modelled, only the tables and the walk.
- Paging.Mapper.MapHeapPage and HeapPages.GrowWindow: ask for no free frame or page table inside the heap window, where the identity mapping would be lost.
- TextEditor.EditorWindow.Click: takes the line and column under the pointer; the division of pixel coordinates by the font size, scrolling and drawing are presentation.
- TextEditor.EditorWindow.Open: finding an editor already open on the file is left out, and a buffer size that overflows an int.
- EditorFiles.SaveToDisk: the file is what the running driver reads back; what a remount finds after a failed flush is `RpfsCrash` and `RpfsOverwrite`. Refreshing the desktop icons is left out.
- WindowManager.WindowTable.Close: the window's own close callback is `TextEditor.EditorWindow.Close`; titles, dragging, the start menu, the trash, icons and the taskbar's geometry are left out.
- Framebuffer.Screen.SetCursorSprite: is stated for a hidden cursor, the one situation in which the kernel calls it.
- Framebuffer.Screen.Line: lines of more than 2^31 / 3 points, whose error term can overflow an int, are excluded.
- Framebuffer.Screen.FillRect, FlipRect, CursorMove and CursorShow: rectangles are over unbounded integers; the overflow of x + w in an int is not modelled.
- The mouse interrupt that can call `fb_cursor_move` inside a flip: calls are taken one after another.
- Text, circles, rounded and blended rectangles, scrolling, wallpaper and the other drawing of `kernel/fb.c` and `kernel/gui.c`, the shell, console, input decoders and hardware setup: they hold no state with a deep contract.
