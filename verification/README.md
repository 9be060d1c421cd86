# Kernel storage and memory: a verified model

A Dafny model of three parts of the kernel, with proofs of what they keep in every reachable state:

* the FAT32 layer of `os/fatfs/ff.c`: the write-back sector window, the table of cluster links, the cluster allocator, open
  files with their private sector buffer, fast seek, long and short names, and directories;
* kernel memory: the page allocator (`page.c`), the circular free list (`slob.c`), `kmalloc`/`kfree`, the Sv39 page table and
  the VMA list (`vmm.c`, `procsyscall.c`), and demand loading of programs;
* the pipe over semaphores over sleep and wakeup (`pipe.c`, `sem.c`, `sched.c`).

Code that changes state in place is a class whose methods follow the C code branch by branch; each method is proved against a
function or relation over values, and the properties are lemmas about those. Each layer refines something simpler: the window
with the device is one logical disk, the FAT is a table of numbers, a chain is a sequence of clusters, an open file is a byte
sequence with a cursor, the free list is a cyclic sequence over a tiling of memory, the page table is a flat map.

Files, from the bottom up:

* `Division`, `Bytes`: arithmetic with a divisor that is not a literal, and little-endian words in buffers.
* `DiskLayout`, `FatMeaning`, `SlotBytes`, `NameMeaning`, `DirSearch`, `Sv39`: formats and results in numbers and bytes, without
  the functions that the code is specified by: where a byte of a file lies, what an entry of the FAT, a slot or a short name
  is, which entry a search finds, and how the processor translates an address.
* `Volume`, `SmallFats`: the window and the entries of the FAT. `FatChains`, `ClusterAlloc`, `FatOwnership`: chains, their
  allocation, and who owns them over whole runs.
* `FileLayout`, `FileBytes`, `LinkTable`, `OpenFile`, `LinkMap`: open files. `FileRuns`, `FileIsolation`, `VolumeRuns`:
  runs of calls on one file and on many. `StaleBuffers`, `StaleMaps`: what a truncation can leave behind.
* `LongNames`, `ShortNames`, `Directory`: names, and directories as tables of entries. `DirTable`, `DirWindow`: the same on
  the volume, through the window. `DirFiles`: a directory beside open files.
* `PagePool`, `FreeRing`, `Tiles`, `Slob`, `Kmalloc`: allocators. `PageAddress`, `PageTable`, `VmaList`, `DemandPages`,
  `PageFaults`: address spaces.
* `Pipes`: the state machine of processes on one pipe, and the kernel code that performs its steps.

Disk commands may fail: a volume is marked `reliable` or not, and results for both are stated. Sizes are those of the
configuration headers: 512-byte sectors, `FF_MAX_LFN` 255, pages of 4096 bytes, allocation units of 16 bytes, pipe buffers of
1024 bytes. Cluster size and the number of FATs are parameters.

Where the code and its own comments or intent differ, the model follows the code:

* `f_truncate` can leave the buffer holding a sector of a freed cluster, and a byte then reads differently twice in a row
  (`Rereads`).
* `CREATE_LINKMAP` fails for a chain whose end mark equals the number after its last cluster (`CreateLinkMap`). A link map
  made for an empty file stops it at one cluster (`EmptyMapped`), and one that is older than a truncation names free clusters
  (`TruncatedMap`), and writing through it overwrites what another file stored there (`Overwrites`).
* `put_fat` in its 12-bit form can leave half an entry behind when the device fails (`PutFat12`).
* A name of 255 units whose short name is lossy can be registered and is then not found (`LongestName`); `pick_lfn`
  refuses names of 254 and 255 units (`PickBack`).
* `free_pages` over pages of which a later one is not in use loses those before it (`FreePages`, `LostPage`).
* A pipe never blocks a writer: byte 1025 overwrites the first (`Overrun`), and a reader takes a full buffer without writers
  for the end (`EndOfPipe`).
* `sys_brk` cuts a page count to 32 bits, so a growth by a multiple of 2^32 pages maps nothing; shrinking follows a null
  pointer where a heap page has no area of its own (`SysBrk`, `HoleCrashes`).
* `mmap` with a length that reaches past 2^64 can give an address in use (`UsedAgain`).
* `kmalloc(0)` can hand out the sentinel of the free list, twice even (`OneUnitTwice`).
* The scan of `f_getfree` stores the count so far also when the device fails (`ScanFree`).
* `find_volume` forces FAT32 at os/fatfs/ff.c:3253, so the 12- and 16-bit branches are dormant; they are modelled as functions
  of their own, with the number of entries as a parameter.

## Model

| member | source | states |
|---|---|---|
| Volumes.Volume.SyncWindow | os/fatfs/ff.c:995-1013 | Writing the window back, to both FATs for a FAT sector, leaves the logical disk (device with the window laid over it) and the FAT table unchanged; on a device that may fail only the second FAT may lag behind, because its write is not checked. |
| Volumes.Volume.MoveWindow | os/fatfs/ff.c:1017-1038 | The window moves to the sector asked for, or becomes invalid or stays on an error; the logical disk and the table are unchanged in every case. |
| Volumes.Volume.GetFat | os/fatfs/ff.c:1099-1165 | The 28-bit entry of the logical table, 1 exactly outside `[2, n_fatent)`, the error mark only on a failing device; nothing changes. |
| Volumes.Volume.PutFat | os/fatfs/ff.c:1179-1228 | Exactly one entry of the table takes the low 28 bits; reserved nibbles, all other entries and every sector outside the FATs stay; equal FAT copies stay equal. |
| Volumes.SectorPut | os/fatfs/ff.c:1217-1223 | Reading after writing at the level of bytes: one entry of a FAT sector changes, all 128 reserved nibbles survive. |
| FatMeaning.FatBytes | os/fatfs/ff.c:1133-1136 | Entry `c` of the table is the dword at byte `4 * c` from the start of the first FAT, low byte first, without its four high bits. |
| FatMeaning.LowFirst | os/fatfs/ff.c:533-551 | Words and dwords are read with the low byte first. |
| FileIsolation.MirrorOnDisk | os/fatfs/ff.c:995-1013 | If the FAT copies agree on the logical disk, they agree on the device sector by sector, except for a sector that is dirty in the window. |
| SmallFats.Codec12 | os/fatfs/ff.c:1118-1135 | For every pair of clusters: after writing entry `c`, entry `c` reads the low 12 bits and every other entry what it did, shared byte included. |
| SmallFats.GetFat12 | os/fatfs/ff.c:1119-1126 | Read of a 12-bit entry whose two bytes may lie in two sectors, with the window moved in between. |
| SmallFats.PutFat12 | os/fatfs/ff.c:1193-1204 | The two bytes of the entry change and nothing else of the FAT; a device failure between them leaves the first byte written and the second not. |
| SmallFats.Codec16 | os/fatfs/ff.c:1128-1131 | The same for 16-bit entries. |
| SmallFats.GetFat16 | os/fatfs/ff.c:1128-1131 | Read of a 16-bit entry through the window. |
| SmallFats.PutFat16 | os/fatfs/ff.c:1206-1211 | One 16-bit entry changes, or none on an error. |
| FatMeaning.Entry12Is | os/fatfs/ff.c:1118-1126 | A 12-bit entry is half bytes `3 * c` to `3 * c + 2` of the FAT, the lowest first. |
| FatMeaning.Entry16Is | os/fatfs/ff.c:1128-1131 | A 16-bit entry is bytes `2 * c` and `2 * c + 1`, the low one first. |
| FatChains.ChainDistinct | os/fatfs/ff.c:1394-1426 | A chain that reaches an end mark never repeats a cluster. |
| FatChains.ChainsMeet | os/fatfs/ff.c:1394-1426 | Two chains that share a cluster are the same from there on. |
| FatChains.FreeFromChain | os/fatfs/ff.c:1394-1426 | On a chain the freeing loop zeroes exactly the clusters of the chain and reports success. |
| FatMeaning.FreeFromPath | os/fatfs/ff.c:1394-1426 | In any table, along the clusters that links lead through (`PathFrom`: there always is such a path), freeing zeroes just these and fails if and only if the path ends at the value 1; cycles and links to free clusters end it. |
| FatChains.CutLeavesChain | os/fatfs/ff.c:1387-1426 | Cutting behind cluster `k - 1` leaves the first `k` clusters as a chain that ends in an end mark. |
| FatMeaning.CutEntries | os/fatfs/ff.c:1387-1426 | After a cut every entry in numbers: 0 behind it, 0x0FFFFFFF in front of it, else what it was. |
| ClusterAlloc.FreeLinks | os/fatfs/ff.c:1394-1426 | The loop ends on every table, cyclic and cross-linked ones included (the number of free entries grows each round), and computes the reference function `FreeFrom`; a device error leaves a state from which the rest of the freeing would give the same table. |
| ClusterAlloc.RemoveChain | os/fatfs/ff.c:1369-1455 | The table after freeing, marking `pclst` first, by every kind of result; `free_clst`, when in range, stays the number of free entries; nothing outside the FATs changes. |
| ClusterAlloc.PartlyFreedKeepsOthers | os/fatfs/ff.c:1394-1426 | Freeing that a device error breaks off still leaves every used entry outside the chain alone. |
| ClusterAlloc.FindFree | os/fatfs/ff.c:1526-1539 | The wrapping search answers 0 only when no entry of `[2, n_fatent)` is free, and else the first free one in cyclic order. |
| ClusterAlloc.PickFree | os/fatfs/ff.c:1513-1539 | The neighbour of the tail if it is free, else the search from the remembered cluster. |
| ClusterAlloc.CreateChain | os/fatfs/ff.c:1464-1555 | For every result (next cluster, new cluster, full, damaged, device error) the exact new table, `free_clst` and `last_clst`; the count stays right. |
| FatMeaning.CreatedEntries | os/fatfs/ff.c:1540-1544 | After a cluster was linked in every entry in numbers: 0x0FFFFFFF for the new one, its number for the last of the chain, else what it was. |
| ClusterAlloc.FullMeansFull | os/fatfs/ff.c:1485-1539 | With a right count, `create_chain` reports a full disk if and only if no cluster is free. |
| ClusterAlloc.ScanFree | os/fatfs/ff.c:4484-4504 | The windowed scan counts the free entries of the table when entries 0 and 1 are non-zero. |
| FatChains.ZerosAreFree | os/fatfs/ff.c:4484-4504 | What a scan that includes the two reserved entries counts, against the number of free clusters. |
| FatMeaning.FreeCountIs | os/fatfs/ff.c:4484-4504 | The count of free clusters is the size of the set of clusters, from 2 on, whose entry is 0. |
| FatOwnership.RemoveIsCut | os/fatfs/ff.c:1369-1455 | The loop that follows links in the table does what the cut of a cluster sequence says. |
| FatOwnership.StepKeepsPartition | os/fatfs/ff.c:1369-1555 | Create, stretch and cut keep the split of the used entries among the owners' chains, and no other owner's chain changes. |
| FatOwnership.RunKeepsPartition | os/fatfs/ff.c:1369-1555 | The same over every run of allowed operations, and an owner whom no operation names still has the chain it had. |
| FatOwnership.ClustersConserved | os/fatfs/ff.c:1369-1555 | In every state with that split, free clusters plus the lengths of all chains are the number of clusters. |
| FileLayout.LbaInjective | os/fatfs/ff.c:1085-1092 | Different sectors of a file lie in different places of the device. |
| DiskLayout.ClusterPlaces | os/fatfs/ff.c:1085-1092 | Cluster 2 begins at the first sector of the data area, and each cluster where the one before it ends. |
| OpenFile.File.Read | os/fatfs/ff.c:3585-3675 | With or without a link map exactly `content[fptr .. fptr + min(btr, size - fptr)]` is delivered, the pointer moves past it, the file, its buffer invariant and every sector outside the file are kept. The bytes are those of the device at `database + csize * (cluster - 2) + sector % csize` before the call, or of a dirty buffer for its sector; for clusters in a row from `c` on those of a row of sectors. |
| OpenFile.File.Write | os/fatfs/ff.c:3685-3796 | Exactly the next `*bw` bytes are replaced, and then lie on the device in these places, or in the dirty buffer; a short write ends at 4 GiB - 1 or at the end of a chain that no free cluster can stretch, or that has a link map, which is never stretched; other chains and sectors are untouched. |
| OpenFile.File.Lseek | os/fatfs/ff.c:4130-4205 | The pointer reaches the target, clipped to the size without write access and to the end of the chain actually allocated on a full disk; the cluster of the cursor is the chain element of the byte before the pointer, and inside a sector the buffer has the device sector of that number; old bytes are kept. |
| OpenFile.File.SeekWalk | os/fatfs/ff.c:4160-4180 | The cluster-following loop from any start cluster reaches the chain element of the target, or the end of the chain when the disk is full. |
| OpenFile.SeekForward | os/fatfs/ff.c:4142-4158 | A walk that starts at the current cluster, when it lies before the target's, is as good as one from the head. |
| OpenFile.File.Truncate | os/fatfs/ff.c:4519-4558 | The content becomes its prefix up to the pointer, the chain exactly `ceil(fptr / bcs)` clusters, the rest free. A link map still fits the file if and only if nothing is cut off (the pointer is at or behind the size, or in the last cluster) or the map was made before the file had a cluster. |
| OpenFile.KeptIs | os/fatfs/ff.c:4530-4541 | The number of clusters that stay: as many as hold the bytes up to the pointer, and no more. |
| FileRuns.Call | os/fatfs/ff.c:3585-4558 | Each of the four calls, with or without a link map, is one step of a byte sequence with a cursor, access rights, a size limit and the number of free clusters: a write stops short only at 4 GiB - 1 or when the file gets no further cluster, a seek reaches its target unless that is so, a call without the access right changes nothing, and free clusters plus those of the file stay the same in sum. Without device errors and table damage a call fails if and only if it is a seek in a file that has bytes but whose link map is of no cluster; after a truncation the file can be used on if and only if its link map still fits. Nothing else on the volume is touched. |
| FileRuns.Run | os/fatfs/ff.c:3585-4558 | Every run of calls on one open file, read-only or not, with a link map or not, is a run of that byte sequence, with the same answers, up to a truncation that leaves the link map behind. |
| FileRuns.ReadsBack | os/fatfs/ff.c:3585-4205 | What the first call of a run wrote, a last read at the same place gives back, whatever calls came between, unless they wrote over it or cut it off. |
| VolumeRuns.CallOn | os/fatfs/ff.c:3585-4558 | A call on one of any number of open files of a volume is a step of its byte sequence, and all the caller of another file sees is the number of free clusters; the used clusters stay split among the files and everybody else. After a truncation that is so if and only if the link map still fits, and the buffer is still one of the file's own if and only if it is empty or not in a part that is cut off. |
| VolumeRuns.CallMore | os/fatfs/ff.c:3585-4558 | Any run of calls on the files goes on by one call under the exact conditions of `CallOn`: the other files have buffers of their own, and a truncation leaves its link map right. |
| VolumeRuns.RunAll | os/fatfs/ff.c:3585-4558 | Such a run made by one loop: all calls are done, or one fails for the reason named, or the run stops before a truncation that could leave a buffer or a link map behind. |
| VolumeRuns.SystemReadsBack | os/fatfs/ff.c:3585-4205 | What a call wrote to one file a later read of the same place gives back, whatever is done to the other files in between. |
| VolumeRuns.SystemConserves | os/fatfs/ff.c:1369-1555 | Over such a run the free clusters of the volume and those of all open files stay the same in sum. |
| FileIsolation.GrownKeepsPartition | os/fatfs/ff.c:3685-3796 | Writing and seeking, which grow a chain, keep the split of the used clusters. |
| FileIsolation.CutKeepsPartition | os/fatfs/ff.c:4519-4558 | Truncating keeps it too. |
| FileIsolation.OtherFileKept | os/fatfs/ff.c:3685-3796 | Another open file keeps its bytes, cursor and invariant while this one is written, cut or moved, if its buffer holds one of its own sectors or none. |
| FileIsolation.BufferExact | os/fatfs/ff.c:3685-3796 | When that holds, exactly: an open file stays sound under every write to other files if and only if its buffer is dirty, empty, a sector of its own, or one of no cluster. |
| StaleBuffers.Rereads | os/fatfs/ff.c:4519-4558 | The failing case: a file is read and truncated, another file gets its cluster, writes and is deleted, the first file gets the cluster back and reads a byte twice; the first time it is the old byte, the second time that of the other file. |
| LinkMap.CreateLinkMap | os/fatfs/ff.c:4080-4104 | The table of fragments is built exactly, its size is reported even if it does not fit, and the call fails if and only if the chain's end mark looks like the next cluster. |
| LinkTable.FragmentsExpand | os/fatfs/ff.c:4084-4100 | The pairs of length and first cluster in the table expand to the chain, none is empty, and none goes on where the one before it ends. |
| LinkMap.NextMark | os/fatfs/ff.c:4080-4104 | When an end mark looks like the next cluster: the chain ends in the last cluster of the volume and its mark is the number of entries; never for a mark from 0x0FFFFFF8 on. |
| LinkMap.NextMarkExists | os/fatfs/ff.c:4080-4104 | A chain for which the call fails. |
| LinkTable.ClmtClust | os/fatfs/ff.c:1567-1585 | Over such a table the result is chain element `ofs / bcs`, and 0 beyond the end. |
| LinkMap.FastSeek | os/fatfs/ff.c:4105-4126 | A seek by table reaches the same pointer, cluster and sector as the walk along the FAT; it fails if and only if the file was empty when its table was made and is not now. |
| LinkMap.EmptyMapped | os/fatfs/ff.c:3715-3735 | Such a file: a write into an empty file with a table stores one cluster and stops, whatever is free, and a seek in it then fails. |
| StaleMaps.TruncatedMap | os/fatfs/ff.c:1567-1585 | What `clmt_clust` gives over the table of a file that was cut since: a cluster of the file exactly for an offset in the clusters that stay, a free cluster exactly for one in those that were cut off, 0 exactly beyond. |
| StaleMaps.Overwrites | os/fatfs/ff.c:3685-3796 | The failing case: a file of two clusters with a link map is truncated to one, another file gets the free cluster and stores its bytes, and a write through the old map changes them: the first byte of the other file, read before and after, differs. |
| LongNames.PutLfn | os/fatfs/ff.c:1898-1923 | A slot holds its 13 units, then one terminator, then fillers, and the order byte marks the last slot; in numbers, the units lie low byte first at bytes 1, 3, 5, 7, 9, 14, 16, 18, 20, 22, 24, 28 and 30, 0x0F, 0, the checksum and 0 at 11, 12, 13, 26 and 27. |
| LongNames.PickLfn | os/fatfs/ff.c:1860-1891 | A slot is taken if and only if its bytes are a text of some units, a terminator and fillers that fits in front of place 255, with cluster field 0; its units then lie from place `13 * (number - 1)` on, the terminator of a last part behind them. |
| LongNames.CmpLfn | os/fatfs/ff.c:1824-1852 | A slot is accepted if and only if its cluster field is 0 and the units at the same byte places equal those of the buffer under `ff_wtoupper`, with nothing but fillers behind a terminator, and the name ends with a full last part. |
| LongNames.PickBack | os/fatfs/ff.c:1860-1923 | Reading back all slots of a name succeeds if and only if it has at most `FF_MAX_LFN - 2` units, and then gives the name. |
| LongNames.MatchAll | os/fatfs/ff.c:1824-1923 | `cmp_lfn` accepts every slot of a name of at most `FF_MAX_LFN - 1` units if and only if the query equals it under `ff_wtoupper`; with `FF_MAX_LFN` units it never accepts the last part. |
| ShortNames.SumSfn | os/fatfs/ff.c:1993-2005 | The loop computes the checksum function. |
| ShortNames.Rotated | os/fatfs/ff.c:2001 | A round of the sum rotates the byte right, the low bit to the top, and adds. |
| ShortNames.SumDetects | os/fatfs/ff.c:1993-2005 | Two short names that differ in exactly one byte have different checksums. |
| ShortNames.GenNumname | os/fatfs/ff.c:1935-1979 | The numbered name, with the hash for numbers above 5, body cut at a character boundary. |
| NameMeaning.NumberedIs | os/fatfs/ff.c:1961-1978 | The numbered name: as many whole characters of the body as there are and fit, `~`, hexadecimal digits whose value is the number, spaces, and the extension as it was. |
| NameMeaning.HashIsRemainder | os/fatfs/ff.c:1947-1957 | From the sixth on the number is a remainder: that of the start value and the bits of all units, as a polynomial over two elements, by x^16 + x^12 + x^5 + 1. |
| ShortNames.NumberedApart | os/fatfs/ff.c:1935-1979 | Different small numbers give different names. |
| DirWindow.DirAlloc | os/fatfs/ff.c:1745-1776 | Through the window, over the entries that the clusters of the directory hold: the object comes to the first run of `n` free entries, with cleared clusters added where there is none; refused only if there is neither, nor a free cluster or room for more entries. No sector and no FAT entry of anything else on the volume changes, also when it is refused. |
| DirWindow.DirFind | os/fatfs/ff.c:2365-2436 | The loop through the window finds, in any table, the first entry in front of an end mark that is neither deleted nor a label nor a slot and that has the short name, or in front of which the slots of the long name lie, numbered down to 1 with its checksum; it finds nothing if and only if there is none. `blk` is where the slots in front of it begin. Table, FAT and every sector outside the FATs stay. |
| DirSearch.FindExact | os/fatfs/ff.c:2395-2431 | Why: what the scan function of the search gives for every table and name. |
| DirSearch.FirstAlone | os/fatfs/ff.c:2395-2431 | Finding an entry and finding none exclude each other, and the entry and `blk` are the only ones that fit. |
| DirWindow.DirRegister | os/fatfs/ff.c:2446-2541 | On success the slots and the short entry lie in a row where entries were free, and nothing else of the table changed; a lossy name gets a number whose name no entry has; each refusal only for its reason. Outside the directory no sector and no FAT entry changes but free clusters it takes. |
| Directories.ShortBytes | os/fatfs/ff.c:2528-2535 | The new short entry byte by byte: name, attribute 0, the byte for case, zeros. |
| Directories.Registered | os/fatfs/ff.c:2365-2541 | A search that fails, then a registration: the directory stays well formed (no entry behind the end mark, no short name twice), and a fresh search comes to the new entry, from its first slot on, if and only if the name has less than `FF_MAX_LFN` units or its short name is not lossy; else it finds nothing. |
| DirWindow.CreateThenFind | os/fatfs/ff.c:2365-2541 | The same of the code: `dir_find`, `dir_register` and `dir_find` in a row through the window, the rest of the volume kept. |
| Directories.LongestLost | os/fatfs/ff.c:2365-2541 | The failing family: every lossy name of `FF_MAX_LFN` units is not found once it is registered. |
| DirWindow.LongestName | os/fatfs/ff.c:2365-2541 | One such name with the short name that belongs to it, registered in a blank directory and then not found. |
| DirWindow.DirRemove | os/fatfs/ff.c:2552-2590 | The entry and its slots are marked deleted through the window, nothing else of the table and of the volume changes. |
| DirFiles.Register | os/fatfs/ff.c:2446-2541 | Registering a name beside any number of open files, with the outcome of `DirRegister`: every file keeps bytes, cursor and access, its caller sees another number of free clusters at most, and the used clusters stay split among files, directory and everybody else. |
| DirFiles.Remove | os/fatfs/ff.c:2552-2590 | Removing a name beside open files: the entries are marked deleted, and the callers of the files see no change at all. |
| Directories.DeletedWellFormed | os/fatfs/ff.c:2552-2590 | Deleting keeps the directory well formed and the short name is gone. |
| DirTable.DirClear | os/fatfs/ff.c:1597-1626 | Every sector of the new cluster is zero, no other sector of the logical disk differs. |
| DirTable.Dir.DirSdi | os/fatfs/ff.c:1636-1676 | The entry at `ofs` is reached if and only if it is aligned, below the limit and inside the chain. |
| DirTable.Dir.DirNext | os/fatfs/ff.c:1684-1737 | The next entry, in the same sector, the next sector, the next cluster or a new cleared cluster; each failure only for its reason. |
| DirTable.TableStretched | os/fatfs/ff.c:1597-1737 | A directory that `dir_next` stretched has the entries it had, followed by zero entries: what the end-mark argument rests on. |
| DirTable.EntryByte | os/fatfs/ff.c:1636-1676 | Byte `b` of entry `k` is byte `32 * k + b` of the clusters of the directory, at the sector of that byte. |
| PagePool.Pool.constructor | os/kernel/page.c:17-60 | `page_init` leaves one free block of all pages that are not reserved. |
| PagePool.Pool.AllocPages | os/kernel/page.c:66-107 | First fit; null if and only if no listed block is large enough; flags, list and count keep the partition of the pages. |
| PagePool.Pool.FreePages | os/kernel/page.c:109-175 | The pages become free and listed, merged with list neighbours; on a range with a page not in use, exactly the pages of the range before that page become free without being listed, so the pool stays valid if and only if there are none. |
| PagePool.LostPage | os/kernel/page.c:109-175 | The failing input: a page in use released together with the free one behind it is free and on no list. |
| FreeRing.AbsorbedRing | os/kernel/slob.c:75-109 | Joining two neighbours leaves one cycle through the same other blocks. |
| Slob.Slob.constructor | os/kernel/slob.c:10-17 | `slob_init`: the list is the sentinel alone. |
| Slob.Slob.SmallFree | os/kernel/slob.c:75-109 | The block leaves the live blocks, the list stays one address-ordered cycle with no two neighbours that touch, and the words of all live blocks are kept. |
| Slob.Slob.Scan | os/kernel/slob.c:38-58 | The search goes once round the cycle and ends with the first block that fits, or with none if none fits. |
| Slob.Slob.SmallAlloc | os/kernel/slob.c:31-73 | A new live block apart from all others, cut from the first one after the head that fits, where the next search starts; null if and only if nothing fits and no page is left; a page is fetched at most once and only if nothing fits. The sentinel of the list is handed out if and only if one unit is asked for and the sentinel comes after the head. |
| Slob.OneUnitTwice | os/kernel/slob.c:31-73 | The failing input: two requests of one unit on a fresh list both give the sentinel. |
| Slob.NeverStops | os/kernel/slob.c:75-92 | `small_free` of a block that is on the list, as the sentinel then is, walks round the list for ever. |
| Slob.UnitsConserved | os/kernel/slob.c:10-109 | In every reachable state free units plus units handed out are one plus those of all pages obtained. |
| Slob.Slob.LiveApart | os/kernel/slob.c:31-109 | Live blocks are disjoint and lie in the allocator's pages. |
| Kmalloc.Heap.Kmalloc | os/kernel/kmalloc.c:23-59 | Zeroed memory of its own, at least `size` bytes, as a small block or as whole pages, by size; null if and only if neither units nor pages are to be had, for whole pages from the pool that is left when the record has its units; all that others hold keeps its bytes. For size 0 the sentinel's address if and only if the sentinel comes after the head. |
| Kmalloc.Heap.Kfree | os/kernel/kmalloc.c:61-89 | The big-block path is taken if and only if the address is that of a big block; exactly that block and its record go, its pages are zero when they go back, all that others hold keeps its bytes. |
| Kmalloc.SmallIsNotBig | os/kernel/kmalloc.c:69-83 | A small block's address, page aligned or not, is no big block's. |
| Kmalloc.Heap.NoOverlap | os/kernel/kmalloc.c:23-89 | Small blocks with headers, big blocks, records and free blocks never overlap in any reachable state, pair by pair. |
| PageTable.AddressSpace.Mappages | os/kernel/vmm.c:155-190 | For every address, what the three-level walk of the processor (`Sv39`, in numbers) finds: in the pages mapped an entry whose low ten bits are the flags with the valid bit and whose page number is that of the physical address, elsewhere what it found before. Table pages come from the pool and stay a tree; failure only for bad arguments or an empty pool. |
| PageTable.MappedTranslates | os/kernel/vmm.c:155-190 | After `mappages`, `va2pa` gives `pa + offset` for every address of the range and elsewhere what it gave before. |
| PageTable.AddressSpace.Unmappages | os/kernel/vmm.c:193-220 | The walk of the processor finds nothing in the range and elsewhere what it found; the tables stay. |
| PageTable.UnmappedTranslates | os/kernel/vmm.c:193-220 | After `unmappages`, `va2pa` gives 0 in the range and elsewhere what it gave before. |
| PageTable.AddressSpace.Va2pa | os/kernel/vmm.c:307-327 | The page and offset that the walk of the processor leads to, 0 where it finds no valid entry. |
| PageTable.LookupIsWalk | os/kernel/vmm.c:307-327 | The flat map that the other properties speak of is what the processor sees. |
| PageTable.NoSharing | os/kernel/vmm.c:155-190 | Each table page has one place in the tree. |
| PageTable.LeafAddress | os/kernel/vmm.c:171-187 | A stored entry is valid and gives back the physical address. |
| PageTable.AddressSpace.FreePagetable | os/kernel/vmm.c:223-250 | Every table page of the user half and the root become free, each released once, and no other page of the pool changes. |
| DemandPages.FaultIn | os/kernel/vmm.c:463-483 | The page a fault fills is the page of the eager image, in the first-page, middle and tail cases, short files included. |
| DemandPages.AreaIs | os/kernel/process.c:697-726 | The area of a segment is the whole pages that its `memsz` bytes take. |
| DemandPages.ByteIsLoaded | os/kernel/process.c:691-742 | The byte of the program loaded at once: the file's in the file part of a segment, as far as the file goes, zero elsewhere. |
| DemandPages.PageOfProgram | os/kernel/process.c:691-742 | For page-disjoint segments the page of the program is that of the one segment found, and zero where no area is. |
| DemandPages.PageFault | os/kernel/vmm.c:438-528 | A fault maps the page of the program loaded at once. |
| PageFaults.DoFault | os/kernel/vmm.c:438-528 | The fault on page table, pool, list of areas and memory. It keeps that every mapped page of the user half leads to a frame in use, of its own, that is no table and holds the page of the program loaded at once; it maps the page at fault with the bits asked for, whether or not it was mapped before, and no other; it fails only when the pool is empty; a page without area gets one; frames in use by others keep their bytes. |
| PageFaults.AllFaults | os/kernel/vmm.c:438-528 | Over any sequence of faults exactly the pages touched are mapped besides those that were, up to the first that finds the pool empty. |
| PageFaults.SeesProgram | os/kernel/vmm.c:307-327 | In every such state `va2pa` of a mapped user address leads to the byte of the program loaded at once. |
| DemandPages.AnyOrder | os/kernel/vmm.c:438-528 | Over any sequence of faults exactly the pages touched are mapped, each equal to the page of the program loaded at once. |
| VmaList.Process.FindVma | os/kernel/vmm.c:72-90 | The area that has the address, or none if none has it. |
| VmaList.Process.AddVma | os/kernel/vmm.c:92-117 | Inserted in order of address, unless one begins there. |
| VmaList.Process.AutoFind | os/kernel/vmm.c:549-586 | The skipping search finds the lowest start in the map region, over all addresses, whose bytes no area touches, or that there is none; of a start from which the bytes would reach past 2^64 only the first page is looked at. |
| VmaList.SkipHit | os/kernel/vmm.c:555-584 | Why skipping is safe: no start before the end of an area that was hit can serve. |
| VmaList.Process.FindMapArea | os/kernel/vmm.c:588-620 | The hint's page if it is in the region and its bytes are free or reach past 2^64, else the answer of the search. |
| VmaList.Process.Mmap | os/kernel/procsyscall.c:573-603 | All `len` bytes from the address on are covered, by an area for a mapping that begins there and ends in the page of the last one; -1 means that no start in the region 0x2000000000 to 0x3000000000 has `len` free bytes, or a length above 2^64 - 4096. The new area lies where nothing was, and the list stays sorted and disjoint, if and only if the bytes at the address handed out were free; a hint that is taken gives its own page, so there the caller can tell before the call. Where an area begins at that address nothing is entered. |
| VmaList.UsedAgain | os/kernel/procsyscall.c:573-603 | The failing input: such a length with a hint inside an area gives an address in use, and a list with two areas that overlap. |
| VmaList.Process.Munmap | os/kernel/procsyscall.c:605-615 | The whole area that has the address goes; the heap stays whole if and only if it was not one of its pages. |
| VmaList.MmapMunmap | os/kernel/procsyscall.c:573-615 | `munmap` of what `mmap` gave restores the list. |
| VmaList.Process.Fault | os/kernel/vmm.c:511-526 | A fault that no area covers adds one page and keeps the invariants. |
| VmaList.Process.SysBrk | os/kernel/procsyscall.c:514-571 | Growing covers every page up to the new break, shrinking removes the whole area of each page above it, and a null pointer is followed if and only if the heap shrinks over a page that has no area or shares one with another such page. |
| VmaList.Process.Shrink | os/kernel/procsyscall.c:554-568 | The shrinking loop, with the page at which it meets the null pointer. |
| VmaList.HoleCrashes | os/kernel/procsyscall.c:514-615 | The failing input: the heap grows by a page, `munmap` removes it, and shrinking follows the null pointer. |
| VmaList.HeapExact | os/kernel/procsyscall.c:514-571 | After growing, every heap page has its own area if and only if that was so before and the break grew into no larger area. |
| VmaList.GrowShrink | os/kernel/procsyscall.c:514-571 | Two calls of `sys_brk`, up over free pages and back, restore list and break, or crash if and only if the growth is a positive multiple of 2^32 pages. |
| Pipes.RunCounts | os/kernel/pipe.c:15-62 | After every run, writes minus reads are the semaphore's value plus sleeping readers plus readers past `P`, and no reader sleeps while a byte is spoken for by nobody. |
| Pipes.StepKeeps | os/kernel/sem.c:11-32 | Each step of any interleaving keeps the counting and buffer invariant. |
| Pipes.ReadsPrefix | os/kernel/pipe.c:15-62 | In every interleaving with at most 1024 unread bytes the bytes read are a prefix of those written. |
| Pipes.TakenByte | os/kernel/pipe.c:31-34 | Which byte a read takes even after an overrun, and that order is kept if and only if it equals the one due. |
| Pipes.OnlyReader | os/kernel/pipe.c:15-40 | A sole reader gets exactly the bytes read, in order. |
| Pipes.EndOfPipe | os/kernel/pipe.c:22-26 | A reader stops if and only if no writer is left and the unread bytes are a multiple of 1024, which a full buffer also is. |
| Pipes.Overrun | os/kernel/pipe.c:42-62 | The failing input: 1025 bytes written before the first read give the last byte for the first. |
| Pipes.Kernel.Test | os/kernel/pipe.c:22-30 | Is the step in which a reader tests for the end of the pipe. |
| Pipes.Kernel.Wakeup | os/kernel/sched.c:108-133 | The loop over the sleep list wakes the first process that waits for this semaphore and no other. |
| Pipes.Kernel.P | os/kernel/sem.c:11-20 | Is the step of the state machine, with `sleep` when the value was not positive. |
| Pipes.Kernel.V | os/kernel/sem.c:22-32 | Raises the value, and wakes a sleeper exactly if one is due. |
| Pipes.Kernel.TakeByte | os/kernel/pipe.c:31-34 | Is the step that takes the next byte in order unless the buffer was overrun. |
| Pipes.Kernel.PipeWrite | os/kernel/pipe.c:42-62 | Appends its bytes to what was written, all of them, or one if no reader is left. |

## Left out

- PagePool.Pool.FreePages: a release of no page is excluded; the code would put its first page on the free list whether or not it is listed already. Address order of the list and full merging are not claimed, because the rest of a split block goes to the front of the list.
- Slob.Slob.SmallAlloc: requests of 1 to 256 units, those its callers make; one larger than a page would fetch pages until enough of them touch.
- Slob.Slob.constructor: the sentinel is assumed to lie before the pages of the pool and not to touch the first of them (`sentinel + 1 < 256 * first`), as a variable of the kernel image does. The pages are those of the pool.
- Kmalloc.Heap.Kmalloc: for size 0 only the list of small blocks is characterised: the block is a header alone and its address is that of the unit after it, which can be the first of a big block.
- DirTable.DirClear: says nothing about the volume after a device failure, because the window then claims a sector that it does not hold.
- DirTable.Dir.DirNext: nothing is promised after a device failure, for the same reason.
- PageTable.AddressSpace.Mappages: addresses of the user half only, and flags below 1024. The kernel half, which is shared and never freed, is not part of the tree. When memory runs out the pages mapped so far stay mapped, as in the code.
- PageTable.AddressSpace.FreePagetable: the contents of the pages given back are not stated.
- VmaList.Process.Munmap: the release of the mapped pages (`free_vma_mem`) and the length argument, which the code ignores, are not part of the list.
- VmaList.Process.SysBrk: breaks within a page of 2^64 are excluded. Allocation of a VMA record never fails, as the code does not check it.
- DemandPages.FaultIn: the file is read in full lengths up to its end; a read that fails in the middle is not modelled. Faults on mapped pages, on pages of fork copies and of mapped files are not modelled.
- DemandPages.PageFault: mapped pages are a map from page addresses to contents, and the page was not mapped; `DoFault` has the page table, the list of areas and mapped pages.
- PageFaults.DoFault: mapped files, fork copies and signals are not modelled; the protection bits are a parameter. The bytes of pages are a map of their own, beside the entries of the table pages, and the program does not write to its pages between faults. Where the pool is empty the kernel goes on with a null pointer, which is not followed here.
- DirWindow.DirRegister: the directory has at most 65536 entries, the limit of `dir_next`, and nothing is promised after a device failure. The up-case function is a parameter, and the short name is the output of `create_name`, which is not part of this model: its first byte is neither 0 nor 0xE5.
- DirWindow.DirRemove: nothing is promised after a device failure.
- ShortNames.GenNumname: lead bytes of double-byte characters are those of code page 936, the configured one.
- VolumeRuns.RunAll: the loop looks at the buffer only in the last cluster that stays, and at the size of the file; the exact conditions for the next call are those of `CallMore`.
- FileRuns.Call: a file with a link map gets no request for a new map (`CREATE_LINKMAP`) inside a run.
- StaleBuffers.Rereads: the calls after the truncation are forms of `f_lseek` and `f_read` for one cluster (`Rewind`, `ReadFirst`), because `Lseek` and `Read` are for files whose clean buffer agrees with the device.
- StaleMaps.Overwrites: the write is one round of the loop of `f_write` for whole sectors on a cluster boundary (`WriteRound`), because `Write` is for files whose link map fits.
- OpenFile.File.constructor: the end of `f_open` for an existing file without the append flag; path lookup and the creation of files are not modelled.
- SmallFats.GetFat12: the volume keeps room for its FAT32 bound besides the 12-bit entries, which come with their own count.
- Pipes.Kernel.PipeWrite: stated for a write that no other process interrupts; interleavings are runs of the state machine.
- Pipes.Kernel.constructor: the allocation of the pipe never fails. Closing a pipe is only the change of a reference count, without the final `kfree`, and no process is killed.
- Several harts at once: `P` unlocks before `sleep`, and `small_alloc` reads the list head before it locks. The other harts are not started.
- `sync_fs`, the FSInfo sector, mounting, `f_mkfs`, `f_expand`, exFAT, file locks, `f_printf` and friends.
- `copy2user`, fork copies, signals, exit and wait, the VFS, devices, the console.
- `f_getfree` outside its scan: the volume it is to use is never set.
